/** Log rotation of zlog over an abstract file system: archive index to log content. */
module ZlogRotater {
  import opened Options
  import L = ZlogArrayList

  type Archives<T> = map<nat, T>

  // ---------------------------------------------------------------- the file list

  predicate Increasing(f: seq<nat>) {
    forall i, j | 0 <= i < j < |f| :: f[i] < f[j]
  }

  /** `f` lists the archive indices in increasing order. */
  ghost predicate Lists<T>(f: seq<nat>, fs: Archives<T>) {
    Increasing(f) && (forall k | k in fs :: k in f) && (forall i | 0 <= i < |f| :: f[i] in fs)
  }

  /** `listing` is what glob may return: each archive once, in any order. */
  ghost predicate Globbed<T>(listing: seq<nat>, fs: Archives<T>) {
    multiset(listing) == multiset(fs.Keys)
  }

  lemma TwiceInSequence(s: seq<nat>, i: nat, j: nat)
    requires i < j < |s| && s[i] == s[j]
    ensures multiset(s)[s[i]] >= 2
  {
    assert s == s[..j] + s[j..];
    assert s[i] in s[..j] && s[j] in s[j..];
  }

  lemma OnceInSet(keys: set<nat>, x: nat)
    ensures multiset(keys)[x] == if x in keys then 1 else 0
  {}

  lemma SortedIsIncreasing<T>(s: seq<nat>, fs: Archives<T>)
    requires L.Sorted(s) && multiset(s) == multiset(fs.Keys)
    ensures Lists(s, fs)
  {
    forall i, j | 0 <= i < j < |s| ensures s[i] < s[j] {
      OnceInSet(fs.Keys, s[i]);
      if s[i] == s[j] { TwiceInSequence(s, i, j); }
    }
    forall k | k in fs ensures k in s { OnceInSet(fs.Keys, k); }
    forall i | 0 <= i < |s| ensures s[i] in fs { OnceInSet(fs.Keys, s[i]); }
  }

  lemma {:induction false} IndexAtLeast(f: seq<nat>, i: nat)
    requires Increasing(f) && i < |f|
    ensures f[i] >= i
  {
    if i > 0 { IndexAtLeast(f, i - 1); }
  }

  // ---------------------------------------------------------------- rolling, as a specification

  /** rename(2): what was at `to` is gone. */
  function Rename<T>(fs: Archives<T>, from: nat, to: nat): Archives<T>
    requires from in fs
  {
    (fs - {from})[to := fs[from]]
  }

  /** Positions i - 1 down to 0 of the list move to the index after their position. */
  function Shift<T>(fs: Archives<T>, f: seq<nat>, i: nat): Archives<T>
    requires i <= |f| && Increasing(f) && forall k | 0 <= k < i :: f[k] in fs
    decreases i
  {
    if i == 0 then fs else Shift(Rename(fs, f[i - 1], i), f, i - 1)
  }

  /** How many positions are renamed; the later ones are unlinked. */
  function Kept(n: nat, maxCount: int): nat {
    if maxCount > 0 && n >= maxCount - 1 then maxCount - 1 else n
  }

  /** What rolling is meant to leave: each kept archive one place further, in order. */
  function Ideal<T>(fs: Archives<T>, f: seq<nat>, m: nat): Archives<T>
    requires m <= |f| && forall k | 0 <= k < m :: f[k] in fs
  {
    map j: nat | 1 <= j <= m :: MovedTo(fs, f, j)
  }

  /** What comes to lie at index j: the archive at position j - 1 of the list. */
  function MovedTo<T>(fs: Archives<T>, f: seq<nat>, j: nat): T
    requires 1 <= j <= |f| && f[j - 1] in fs
  {
    fs[f[j - 1]]
  }

  /** Only the first m files of the list. */
  function Trimmed<T>(fs: Archives<T>, f: seq<nat>, m: nat): Archives<T>
    requires m <= |f|
  {
    fs - (set i | m <= i < |f| :: f[i])
  }

  /** No archive index lies two or more beyond its position and still among the new indices. */
  predicate NoGapHit(f: seq<nat>, m: nat)
    requires m <= |f|
  {
    forall k | 0 <= k < m :: !(k + 2 <= f[k] <= m)
  }

  /** Positions below i are where they were. */
  ghost predicate Waiting<T>(cur: Archives<T>, fs: Archives<T>, f: seq<nat>, i: nat) {
    i <= |f| && forall k | 0 <= k < i :: f[k] in fs && f[k] in cur && cur[f[k]] == fs[f[k]]
  }

  /** Positions from i up to m have moved. */
  ghost predicate Moved<T>(cur: Archives<T>, fs: Archives<T>, f: seq<nat>, i: nat, m: nat)
    requires m <= |f| && forall k | 0 <= k < m :: f[k] in fs
  {
    forall j | i < j <= m :: j in cur && cur[j] == MovedTo(fs, f, j)
  }

  /** Nothing else is there. */
  ghost predicate NoOther<T>(cur: Archives<T>, f: seq<nat>, i: nat, m: nat) {
    i <= |f| && forall x | x in cur :: i < x <= m || x in f[..i]
  }

  /** Part way through the renames. */
  ghost predicate Midway<T>(cur: Archives<T>, fs: Archives<T>, f: seq<nat>, i: nat, m: nat)
    requires m <= |f| && forall k | 0 <= k < m :: f[k] in fs
  {
    i <= m && Waiting(cur, fs, f, i) && Moved(cur, fs, f, i, m) && NoOther(cur, f, i, m)
  }

  lemma MidwayStep<T>(cur: Archives<T>, fs: Archives<T>, f: seq<nat>, i: nat, m: nat)
    requires 0 < i <= m <= |f| && Increasing(f) && (forall k | 0 <= k < m :: f[k] in fs)
    requires Midway(cur, fs, f, i, m) && NoGapHit(f, m)
    ensures f[i - 1] in cur && Midway(Rename(cur, f[i - 1], i), fs, f, i - 1, m)
  {
    hide Increasing, NoGapHit, Moved, NoOther;
    assert f[i - 1] in cur;
    WaitingStep(cur, fs, f, i, m);
    MovedStep(cur, fs, f, i, m);
    NoOtherStep(cur, f, i, m);
  }

  lemma WaitingStep<T>(cur: Archives<T>, fs: Archives<T>, f: seq<nat>, i: nat, m: nat)
    requires 0 < i <= m <= |f| && Increasing(f) && NoGapHit(f, m) && Waiting(cur, fs, f, i)
    ensures Waiting(Rename(cur, f[i - 1], i), fs, f, i - 1)
  {
    forall k | 0 <= k < i - 1 ensures f[k] != f[i - 1] && f[k] != i {}
  }

  lemma MovedStep<T>(cur: Archives<T>, fs: Archives<T>, f: seq<nat>, i: nat, m: nat)
    requires 0 < i <= m <= |f| && (forall k | 0 <= k < m :: f[k] in fs) && NoGapHit(f, m)
    requires f[i - 1] in cur && cur[f[i - 1]] == fs[f[i - 1]] && Moved(cur, fs, f, i, m)
    ensures Moved(Rename(cur, f[i - 1], i), fs, f, i - 1, m)
  {
    var next := Rename(cur, f[i - 1], i);
    forall j | i - 1 < j <= m ensures j in next && next[j] == MovedTo(fs, f, j) {
      if j > i { assert j in cur && j != f[i - 1]; }
    }
  }

  lemma NoOtherStep<T>(cur: Archives<T>, f: seq<nat>, i: nat, m: nat)
    requires 0 < i <= m <= |f| && f[i - 1] in cur && NoOther(cur, f, i, m)
    ensures NoOther(Rename(cur, f[i - 1], i), f, i - 1, m)
  {
    assert f[..i] == f[..i - 1] + [f[i - 1]];
  }

  lemma {:induction false} ShiftKeepsAll<T>(cur: Archives<T>, fs: Archives<T>, f: seq<nat>, i: nat, m: nat)
    requires i <= m <= |f| && Increasing(f) && (forall k | 0 <= k < m :: f[k] in fs)
    requires Midway(cur, fs, f, i, m) && NoGapHit(f, m)
    ensures Shift(cur, f, i) == Ideal(fs, f, m)
    decreases i
  {
    hide Increasing, NoGapHit;
    if i == 0 {
      assert Shift(cur, f, 0) == cur;
    } else {
      MidwayStep(cur, fs, f, i, m);
      ShiftKeepsAll(Rename(cur, f[i - 1], i), fs, f, i - 1, m);
    }
  }

  /** An index that is neither a target still to come nor present stays absent. */
  lemma {:induction false} ShiftLeavesAbsent<T>(cur: Archives<T>, f: seq<nat>, i: nat, x: nat)
    requires i <= |f| && Increasing(f) && (forall k | 0 <= k < i :: f[k] in cur)
    requires x > i && x !in cur
    ensures x !in Shift(cur, f, i)
    decreases i
  {
    if i > 0 { ShiftLeavesAbsent(Rename(cur, f[i - 1], i), f, i - 1, x); }
  }

  /** Moving position k away from an index beyond k + 1 empties that index for good. */
  lemma {:induction false} ShiftEmpties<T>(cur: Archives<T>, f: seq<nat>, i: nat, k: nat)
    requires k < i <= |f| && Increasing(f) && (forall j | 0 <= j < i :: f[j] in cur)
    requires f[k] >= k + 2
    ensures f[k] !in Shift(cur, f, i)
    decreases i
  {
    var next := Rename(cur, f[i - 1], i);
    if k == i - 1 {
      ShiftLeavesAbsent(next, f, k, f[k]);
    } else {
      ShiftEmpties(next, f, i - 1, k);
    }
  }

  lemma TrimmedMidway<T>(fs: Archives<T>, f: seq<nat>, m: nat)
    requires Lists(f, fs) && m <= |f|
    ensures forall k | 0 <= k < m :: f[k] in Trimmed(fs, f, m)
    ensures Midway(Trimmed(fs, f, m), fs, f, m, m)
  {
    forall x | x in Trimmed(fs, f, m) ensures x in f[..m] {
      var i :| 0 <= i < |f| && f[i] == x;
      assert i < m;
      assert f[..m][i] == x;
    }
  }

  /** Rolling keeps every archive it does not unlink, in order, exactly when no index lies in a
      gap that a rename falls into. */
  lemma RollKeepsAllIffNoGapHit<T>(fs: Archives<T>, f: seq<nat>, m: nat)
    requires Lists(f, fs) && m <= |f|
    ensures forall k | 0 <= k < m :: f[k] in Trimmed(fs, f, m)
    ensures Shift(Trimmed(fs, f, m), f, m) == Ideal(fs, f, m) <==> NoGapHit(f, m)
  {
    TrimmedMidway(fs, f, m);
    if NoGapHit(f, m) {
      ShiftKeepsAll(Trimmed(fs, f, m), fs, f, m, m);
    } else {
      var k :| 0 <= k < m && k + 2 <= f[k] <= m;
      ShiftEmpties(Trimmed(fs, f, m), f, m, k);
      assert f[k] in Ideal(fs, f, m);
    }
  }

  /** The whole of a rolling rotation. */
  function Rolled<T>(fs: Archives<T>, f: seq<nat>, maxCount: int, log: T): Archives<T>
    requires Lists(f, fs)
  {
    var m := Kept(|f|, maxCount);
    TrimmedMidway(fs, f, m);
    Shift(Trimmed(fs, f, m), f, m)[0 := log]
  }

  /** Archives 2 and 3 without 0 and 1: the rename 3 -> 2 destroys archive 2. */
  lemma RollingLosesInAGap<T>(a: T, b: T, log: T)
    ensures Lists([2, 3], map[2 := a, 3 := b])
    ensures Rolled(map[2 := a, 3 := b], [2, 3], 0, log) == map[0 := log, 1 := b]
  {
    var fs: Archives<T>, f := map[2 := a, 3 := b], [2, 3];
    assert Lists(f, fs);
    assert Trimmed(fs, f, 2) == fs;
    assert Rename(fs, 3, 2) == map[2 := b];
    assert Rename(map[2 := b], 2, 1) == map[1 := b];
    assert Shift(fs, f, 2) == Shift(map[2 := b], f, 1) == Shift(map[1 := b], f, 0);
  }

  // ---------------------------------------------------------------- rolling, over runs

  /** Archive k holds the k-th most recent log. */
  ghost predicate Contiguous<T>(fs: Archives<T>, h: seq<T>) {
    (forall k | k in fs :: k < |h| && fs[k] == h[k]) && (forall k | 0 <= k < |h| :: k in fs)
  }

  lemma {:induction false} ContiguousListPrefix<T>(fs: Archives<T>, h: seq<T>, f: seq<nat>, i: nat)
    requires Contiguous(fs, h) && Lists(f, fs) && i < |f| && i < |h|
    ensures forall k | 0 <= k <= i :: f[k] == k
  {
    if i > 0 { ContiguousListPrefix(fs, h, f, i - 1); }
    assert i in fs;
    var p :| 0 <= p < |f| && f[p] == i;
    IndexAtLeast(f, p);
  }

  /** The list of contiguous archives is 0, 1, 2, ... */
  lemma ContiguousList<T>(fs: Archives<T>, h: seq<T>, f: seq<nat>)
    requires Contiguous(fs, h) && Lists(f, fs)
    ensures |f| == |h| && forall k | 0 <= k < |f| :: f[k] == k
  {
    assert |f| < |h| ==> |f| in fs;
    if |f| > |h| { IndexAtLeast(f, |h|); }
    if 0 < |f| <= |h| { ContiguousListPrefix(fs, h, f, |f| - 1); }
  }

  lemma IdealContiguous<T>(fs: Archives<T>, h: seq<T>, f: seq<nat>, m: nat, log: T)
    requires Contiguous(fs, h) && m <= |f| == |h| && forall k | 0 <= k < |f| :: f[k] == k
    ensures Contiguous(Ideal(fs, f, m)[0 := log], [log] + h[..m])
  {
    var ideal := Ideal(fs, f, m);
    var h2 := [log] + h[..m];
    forall j | 1 <= j <= m ensures ideal[j] == h2[j] {
      assert ideal[j] == MovedTo(fs, f, j);
    }
  }

  /** One rolling rotation of contiguous archives. */
  lemma RolledContiguous<T>(fs: Archives<T>, h: seq<T>, f: seq<nat>, maxCount: int, log: T)
    requires Contiguous(fs, h) && Lists(f, fs)
    ensures var kept := if maxCount > 0 && |h| >= maxCount then maxCount - 1 else |h|;
            Contiguous(Rolled(fs, f, maxCount, log), [log] + h[..kept])
  {
    ContiguousList(fs, h, f);
    var m := Kept(|f|, maxCount);
    RollKeepsAllIffNoGapHit(fs, f, m);
    hide Trimmed, Shift, Lists, Kept, Midway, Waiting, NoOther, Moved, Ideal;
    IdealContiguous(fs, h, f, m, log);
  }

  /** A rolling rotation of `log`, whatever order the listing had. */
  ghost predicate Rolls<T>(before: Archives<T>, after: Archives<T>, maxCount: int, log: T) {
    exists f | Lists(f, before) :: after == Rolled(before, f, maxCount, log)
  }

  /** The logs newest first, after `logs` were rotated one after the other. */
  function History<T>(h: seq<T>, logs: seq<T>): seq<T> {
    if logs == [] then h else [logs[|logs| - 1]] + History(h, logs[..|logs| - 1])
  }

  lemma HistoryLength<T>(h: seq<T>, logs: seq<T>)
    ensures |History(h, logs)| == |h| + |logs|
  {}

  /** How many archives there are after t rolling rotations. */
  function RollCount(n: nat, maxCount: int, t: nat): nat {
    if t == 0 then n else Kept(RollCount(n, maxCount, t - 1), maxCount) + 1
  }

  lemma {:induction false} RollCountIs(n: nat, maxCount: int, t: nat)
    ensures t > 0 ==> RollCount(n, maxCount, t) == if maxCount > 0 && n + t > maxCount then maxCount else n + t
  {
    if t > 0 { RollCountIs(n, maxCount, t - 1); }
  }

  lemma RollStep<T>(before: Archives<T>, after: Archives<T>, maxCount: int, log: T, h: seq<T>)
    requires Contiguous(before, h) && Rolls(before, after, maxCount, log)
    ensures Contiguous(after, [log] + h[..Kept(|h|, maxCount)])
  {
    hide Contiguous, Rolled;
    var f :| Lists(f, before) && after == Rolled(before, f, maxCount, log);
    RolledContiguous(before, h, f, maxCount, log);
  }

  lemma Recent<T>(x: T, s: seq<T>, n: nat, m: nat)
    requires m <= n <= |s|
    ensures [x] + s[..n][..m] == ([x] + s)[..m + 1]
  {}

  /** Over any run of rolling rotations from contiguous archives, archive k is the k-th most
      recent log, and there are as many as there were logs, up to maxCount. */
  lemma {:induction false} RollingRun<T>(states: seq<Archives<T>>, logs: seq<T>, maxCount: int, h: seq<T>)
    requires |states| == |logs| + 1 && Contiguous(states[0], h)
    requires forall i | 0 <= i < |logs| :: Rolls(states[i], states[i + 1], maxCount, logs[i])
    ensures var all := |h| + |logs|;
            var n := if maxCount > 0 && logs != [] && all > maxCount then maxCount else all;
            n <= |History(h, logs)| && Contiguous(states[|logs|], History(h, logs)[..n])
  {
    hide Contiguous, Rolls;
    var t := |logs|;
    RollCountIs(|h|, maxCount, t);
    HistoryLength(h, logs);
    if t == 0 {
      assert h[..|h|] == h;
    } else {
      var before, log := logs[..t - 1], logs[t - 1];
      RollingRun(states[..t], before, maxCount, h);
      RollCountIs(|h|, maxCount, t - 1);
      HistoryLength(h, before);
      var n, past := RollCount(|h|, maxCount, t - 1), History(h, before);
      RollStep(states[t - 1], states[t], maxCount, log, past[..n]);
      Recent(log, past, n, Kept(n, maxCount));
    }
  }

  // ---------------------------------------------------------------- sequence mode

  /** How many files at the front of the list are unlinked. */
  function Surplus(n: nat, maxCount: int): nat {
    if maxCount > 0 && n > maxCount then n - maxCount else 0
  }

  /** The index the current log gets. */
  function NextIndex(f: seq<nat>): nat {
    if f == [] then 0
    else (if |f| - 1 > f[|f| - 1] then |f| - 1 else f[|f| - 1]) + 1
  }

  function Unlinked<T>(fs: Archives<T>, f: seq<nat>, d: nat): Archives<T>
    requires d <= |f|
  {
    fs - (set i | 0 <= i < d :: f[i])
  }

  function Sequenced<T>(fs: Archives<T>, f: seq<nat>, maxCount: int, log: T): Archives<T> {
    Unlinked(fs, f, Surplus(|f|, maxCount))[NextIndex(f) := log]
  }

  /** `f` lists the archives and `h` their logs, oldest first. */
  ghost predicate Chronicle<T>(fs: Archives<T>, f: seq<nat>, h: seq<T>) {
    Lists(f, fs) && |h| == |f| && forall i | 0 <= i < |f| :: fs[f[i]] == h[i]
  }

  /** The new index is the one behind the largest in use. */
  lemma NextIndexIsNew<T>(fs: Archives<T>, f: seq<nat>)
    requires Lists(f, fs)
    ensures NextIndex(f) !in fs && (forall k | k in fs :: k < NextIndex(f))
    ensures NextIndex(f) == 0 || NextIndex(f) - 1 in fs
  {
    if f != [] { IndexAtLeast(f, |f| - 1); }
  }

  lemma UnlinkedLists<T>(fs: Archives<T>, f: seq<nat>, d: nat)
    requires Lists(f, fs) && d <= |f|
    ensures var u := Unlinked(fs, f, d);
            Lists(f[d..], u) && forall k | k in u :: k in fs && u[k] == fs[k]
  {
    var u, g := Unlinked(fs, f, d), f[d..];
    forall i | 0 <= i < |g| ensures g[i] in u { assert g[i] == f[i + d]; }
    forall k | k in u ensures k in g {
      var i :| 0 <= i < |f| && f[i] == k;
      assert g[i - d] == k;
    }
  }

  lemma AddedLists<T>(fs: Archives<T>, f: seq<nat>, j: nat, log: T)
    requires Lists(f, fs) && forall k | k in fs :: k < j
    ensures Lists(f + [j], fs[j := log])
  {
    var g := f + [j];
    forall i | 0 <= i < |f| ensures g[i] in fs { assert g[i] == f[i]; }
    forall k | k in fs[j := log] ensures k in g { assert k == j || k in f; }
  }

  /** One rotation drops the oldest surplus and adds the log at the end; no other file changes. */
  lemma SequencedChronicle<T>(fs: Archives<T>, f: seq<nat>, h: seq<T>, maxCount: int, log: T)
    requires Chronicle(fs, f, h)
    ensures var d := if maxCount > 0 && |f| > maxCount then |f| - maxCount else 0;
            Chronicle(Sequenced(fs, f, maxCount, log), f[d..] + [NextIndex(f)], h[d..] + [log])
  {
    hide Chronicle, Unlinked, NextIndex, Lists;
    var d, j := Surplus(|f|, maxCount), NextIndex(f);
    ChronicleParts(fs, f, h);
    NextIndexIsNew(fs, f);
    UnlinkedLists(fs, f, d);
    UnlinkedChronicle(fs, f, h, d);
    AddedChronicle(Unlinked(fs, f, d), f[d..], h[d..], j, log);
  }

  lemma ChronicleParts<T>(fs: Archives<T>, f: seq<nat>, h: seq<T>)
    requires Chronicle(fs, f, h)
    ensures Lists(f, fs) && |f| == |h|
  {}

  lemma UnlinkedChronicle<T>(fs: Archives<T>, f: seq<nat>, h: seq<T>, d: nat)
    requires Chronicle(fs, f, h) && d <= |f|
    ensures Chronicle(Unlinked(fs, f, d), f[d..], h[d..])
  {
    UnlinkedLists(fs, f, d);
    hide Unlinked, Increasing;
    var u, g := Unlinked(fs, f, d), f[d..];
    forall i | 0 <= i < |g| ensures u[g[i]] == h[d..][i] { assert g[i] == f[i + d]; }
  }

  lemma AddedChronicle<T>(fs: Archives<T>, f: seq<nat>, h: seq<T>, j: nat, log: T)
    requires Chronicle(fs, f, h) && forall k | k in fs :: k < j
    ensures Chronicle(fs[j := log], f + [j], h + [log])
  {
    AddedLists(fs, f, j, log);
    hide Increasing;
    var g := f + [j];
    forall i | 0 <= i < |g| ensures fs[j := log][g[i]] == (h + [log])[i] {
      if i < |f| { assert g[i] == f[i] && f[i] in fs; }
    }
  }

  /** How many archives there are after t rotations in sequence mode. */
  function SeqCount(n: nat, maxCount: int, t: nat): (c: nat)
    ensures t > 0 ==> c == if maxCount > 0 && n + t > maxCount + 1 then maxCount + 1 else n + t
  {
    if t == 0 then n else var c := SeqCount(n, maxCount, t - 1); c - Surplus(c, maxCount) + 1
  }

  ghost predicate Sequences<T>(before: Archives<T>, after: Archives<T>, maxCount: int, log: T) {
    exists f | Lists(f, before) :: after == Sequenced(before, f, maxCount, log)
  }

  lemma {:induction false} ListsUnique<T>(f: seq<nat>, g: seq<nat>, fs: Archives<T>)
    requires Lists(f, fs) && Lists(g, fs)
    ensures f == g
  {
    ListsPrefix(f, g, fs, |f|);
    ListsPrefix(g, f, fs, |g|);
  }

  lemma {:induction false} ListsPrefix<T>(f: seq<nat>, g: seq<nat>, fs: Archives<T>, i: nat)
    requires Lists(f, fs) && Lists(g, fs) && i <= |f|
    ensures i <= |g| && forall p | 0 <= p < i :: f[p] == g[p]
  {
    if i > 0 {
      ListsPrefix(f, g, fs, i - 1);
      ListsAfter(f, g, fs, i - 1);
      ListsAfter(g, f, fs, i - 1);
    }
  }

  /** The next element of f comes no earlier in g. */
  lemma ListsAfter<T>(f: seq<nat>, g: seq<nat>, fs: Archives<T>, i: nat)
    requires Lists(f, fs) && Lists(g, fs) && i < |f| && i <= |g| && forall p | 0 <= p < i :: f[p] == g[p]
    ensures i < |g| && g[i] <= f[i]
  {
    assert f[i] in fs && f[i] in g;
    var p :| 0 <= p < |g| && g[p] == f[i];
    assert p >= i;
  }

  lemma SequenceStep<T>(before: Archives<T>, after: Archives<T>, maxCount: int, log: T, f: seq<nat>, h: seq<T>)
    requires Chronicle(before, f, h) && Sequences(before, after, maxCount, log)
    ensures var d := Surplus(|f|, maxCount); Chronicle(after, f[d..] + [NextIndex(f)], h[d..] + [log])
  {
    hide Sequenced, NextIndex;
    var g :| Lists(g, before) && after == Sequenced(before, g, maxCount, log);
    ListsUnique(f, g, before);
    SequencedChronicle(before, f, h, maxCount, log);
  }

  lemma Newest<T>(s: seq<T>, x: T, n: nat, d: nat)
    requires d <= n <= |s|
    ensures s[|s| - n..][d..] + [x] == (s + [x])[|s| + 1 - (n - d + 1)..]
  {}

  /** Over any run in sequence mode the archives hold the newest logs in order, as many as there
      were, up to maxCount + 1. */
  lemma {:induction false} SequenceRun<T>(states: seq<Archives<T>>, logs: seq<T>, maxCount: int, f: seq<nat>, h: seq<T>)
    returns (g: seq<nat>)
    requires |states| == |logs| + 1 && Chronicle(states[0], f, h)
    requires forall i | 0 <= i < |logs| :: Sequences(states[i], states[i + 1], maxCount, logs[i])
    ensures var all := |h| + |logs|;
            && |g| == (if maxCount > 0 && logs != [] && all > maxCount + 1 then maxCount + 1 else all)
            && Chronicle(states[|logs|], g, (h + logs)[all - |g|..])
  {
    hide Chronicle, Sequences;
    ChronicleParts(states[0], f, h);
    var t := |logs|;
    if t == 0 {
      g := f;
      assert h + logs == h == (h + logs)[0..];
    } else {
      var before, log := logs[..t - 1], logs[t - 1];
      var g0 := SequenceRun(states[..t], before, maxCount, f, h);
      var n := SeqCount(|h|, maxCount, t - 1);
      var past := h + before;
      SequenceStep(states[t - 1], states[t], maxCount, log, g0, past[|past| - n..]);
      var d := Surplus(n, maxCount);
      g := g0[d..] + [NextIndex(g0)];
      Newest(past, log, n, d);
      assert h + logs == past + [log];
    }
  }

  /** The archives behind one. */
  ghost function Later<T>(fs: Archives<T>, k: nat): set<nat> {
    set j | j in fs && j > k
  }

  lemma LaterCount<T>(fs: Archives<T>, f: seq<nat>, p: nat)
    requires Lists(f, fs) && p < |f|
    ensures |Later(fs, f[p])| == |f| - 1 - p
  {
    assert Later(fs, f[p]) == Behind(f, p + 1);
    BehindCount(f, p + 1);
  }

  ghost function Behind(f: seq<nat>, p: nat): set<nat> {
    set i | p <= i < |f| :: f[i]
  }

  lemma {:induction false} BehindCount(f: seq<nat>, p: nat)
    requires Increasing(f) && p <= |f|
    ensures |Behind(f, p)| == |f| - p
    decreases |f| - p
  {
    if p < |f| {
      BehindCount(f, p + 1);
      assert Behind(f, p) == Behind(f, p + 1) + {f[p]};
      assert f[p] !in Behind(f, p + 1);
    }
  }

  /** One rotation, archive by archive: an old one goes if and only if there is a limit and at least
      so many are newer; the others keep their index and their log; the current log becomes the
      archive behind the newest. */
  lemma SequenceSurvivors<T>(before: Archives<T>, after: Archives<T>, maxCount: int, log: T)
    requires Sequences(before, after, maxCount, log)
    ensures forall k | k in before :: k !in after <==> maxCount > 0 && |Later(before, k)| >= maxCount
    ensures forall k | k in before && k in after :: after[k] == before[k]
    ensures exists j: nat :: && after.Keys - before.Keys == {j} && after[j] == log
                             && (forall k | k in before :: k < j) && (j == 0 || j - 1 in before)
  {
    hide Lists, Later, NextIndex, Unlinked;
    var f :| Lists(f, before) && after == Sequenced(before, f, maxCount, log);
    NextIndexIsNew(before, f);
    var d, j := Surplus(|f|, maxCount), NextIndex(f);
    forall k | k in before
      ensures k !in after <==> maxCount > 0 && |Later(before, k)| >= maxCount
      ensures k in after ==> after[k] == before[k]
    {
      Survivor(before, f, d, k);
    }
    UnlinkedSubset(before, f, d);
    assert after.Keys - before.Keys == {j};
  }

  lemma Survivor<T>(fs: Archives<T>, f: seq<nat>, d: nat, k: nat)
    requires Lists(f, fs) && d <= |f| && k in fs
    ensures |Later(fs, k)| < |f| && (k !in Unlinked(fs, f, d) <==> |Later(fs, k)| >= |f| - d)
    ensures k in Unlinked(fs, f, d) ==> Unlinked(fs, f, d)[k] == fs[k]
  {
    hide Later;
    var p :| 0 <= p < |f| && f[p] == k;
    LaterCount(fs, f, p);
  }

  lemma UnlinkedSubset<T>(fs: Archives<T>, f: seq<nat>, d: nat)
    requires d <= |f|
    ensures Unlinked(fs, f, d).Keys <= fs.Keys
  {}

  // ---------------------------------------------------------------- the rotater

  /** roll_files from position i - 1 down, unlinks and renames alike. */
  function Sweep<T>(fs: Archives<T>, f: seq<nat>, i: nat, maxCount: int): Archives<T>
    requires i <= |f| && Increasing(f) && forall k | 0 <= k < i :: f[k] in fs
    decreases i
  {
    if i == 0 then fs
    else if maxCount > 0 && i - 1 >= maxCount - 1 then Sweep(fs - {f[i - 1]}, f, i - 1, maxCount)
    else Sweep(Rename(fs, f[i - 1], i), f, i - 1, maxCount)
  }

  lemma {:induction false} SweepShifts<T>(fs: Archives<T>, f: seq<nat>, i: nat, maxCount: int)
    requires i <= |f| && Increasing(f) && (forall k | 0 <= k < i :: f[k] in fs)
    requires maxCount > 0 ==> i <= maxCount - 1
    ensures Sweep(fs, f, i, maxCount) == Shift(fs, f, i)
    decreases i
  {
    if i > 0 { SweepShifts(Rename(fs, f[i - 1], i), f, i - 1, maxCount); }
  }

  /** The sweep unlinks the end of the list and shifts the rest. */
  lemma {:induction false} SweepTrims<T>(fs: Archives<T>, f: seq<nat>, i: nat, maxCount: int)
    requires Lists(f, fs) && Kept(|f|, maxCount) <= i <= |f|
    requires forall k | 0 <= k < i :: f[k] in Trimmed(fs, f, i)
    ensures var m := Kept(|f|, maxCount);
            && (forall k | 0 <= k < m :: f[k] in Trimmed(fs, f, m))
            && Sweep(Trimmed(fs, f, i), f, i, maxCount) == Shift(Trimmed(fs, f, m), f, m)
    decreases i
  {
    hide Trimmed, Shift, Midway, Increasing;
    var m := Kept(|f|, maxCount);
    if i == m {
      SweepShifts(Trimmed(fs, f, i), f, i, maxCount);
    } else {
      TrimmedOne(fs, f, i);
      TrimmedMidway(fs, f, i - 1);
      SweepTrims(fs, f, i - 1, maxCount);
    }
  }

  lemma TrimmedOne<T>(fs: Archives<T>, f: seq<nat>, i: nat)
    requires 0 < i <= |f|
    ensures Trimmed(fs, f, i) - {f[i - 1]} == Trimmed(fs, f, i - 1)
  {
    var a, b := set k | i <= k < |f| :: f[k], set k | i - 1 <= k < |f| :: f[k];
    assert b == a + {f[i - 1]};
  }

  lemma RolledIsSweep<T>(fs: Archives<T>, f: seq<nat>, maxCount: int, log: T)
    requires Lists(f, fs)
    ensures Sweep(fs, f, |f|, maxCount)[0 := log] == Rolled(fs, f, maxCount, log)
  {
    hide Sweep, Shift, Midway, Increasing;
    TrimmedMidway(fs, f, |f|);
    assert Trimmed(fs, f, |f|) == fs;
    SweepTrims(fs, f, |f|, maxCount);
  }

  lemma UnlinkedNone<T>(fs: Archives<T>, f: seq<nat>)
    ensures Unlinked(fs, f, 0) == fs
  {}

  lemma UnlinkedOne<T>(fs: Archives<T>, f: seq<nat>, i: nat)
    requires i < |f|
    ensures Unlinked(fs, f, i) - {f[i]} == Unlinked(fs, f, i + 1)
  {
    var a, b := set k | 0 <= k < i :: f[k], set k | 0 <= k < i + 1 :: f[k];
    assert b == a + {f[i]};
  }

  datatype MoveType = Rolling | Sequence

  class Rotater<T> {
    var archives: Archives<T>
    var base: Option<T>
    var maxCount: int

    constructor (archives: Archives<T>, base: Option<T>, maxCount: int)
      ensures this.archives == archives && this.base == base && this.maxCount == maxCount
    {
      this.archives, this.base, this.maxCount := archives, base, maxCount;
    }

    /** zlog_rotater_add_archive_files: the directory's archives, sorted. */
    method AddArchiveFiles(listing: seq<nat>) returns (files: L.ArrayList, ghost f: seq<nat>)
      requires Globbed(listing, archives)
      ensures fresh(files) && files.Valid() && files.Elements() == L.Files(f) && Lists(f, archives)
    {
      hide L.Files, L.Inserted, L.Nulls;
      files := new L.ArrayList();
      f := [];
      assert L.Files([]) == [];
      for i := 0 to |listing|
        invariant fresh(files) && fresh(files.slots) && files.Valid() && files.Elements() == L.Files(f)
        invariant L.Sorted(f) && multiset(f) == multiset(listing[..i])
      {
        assert listing[..i + 1] == listing[..i] + [listing[i]];
        L.InsertedAdds(f, listing[i]);
        L.InsertedSorts(f, listing[i]);
        files.SortAdd(listing[i], f);
        f := L.Inserted(f, listing[i]);
      }
      assert listing[..|listing|] == listing;
      SortedIsIncreasing(f, archives);
    }

    lemma FilesOf(files: L.ArrayList, f: seq<nat>)
      requires files.Valid() && files.Elements() == L.Files(f)
      ensures |f| == files.len && forall k | 0 <= k < |f| :: files.slots[k] == L.File(f[k])
    {
      assert forall k | 0 <= k < |f| :: files.slots[k] == L.Files(f)[k];
    }

    /** rename(base_path, new_path) fails when there is no current log. */
    method RenameBase(to: nat) returns (ok: bool)
      modifies this
      ensures ok == old(base).Some? && base == None && maxCount == old(maxCount)
      ensures archives == if old(base).Some? then old(archives)[to := old(base).value] else old(archives)
    {
      ok := base.Some?;
      if ok { archives := archives[to := base.value]; }
      base := None;
    }

    /** zlog_rotater_roll_files */
    method RollFiles(files: L.ArrayList, ghost f: seq<nat>) returns (ok: bool)
      requires files.Valid() && files.Elements() == L.Files(f) && Lists(f, archives)
      modifies this
      ensures ok == old(base).Some? && base == None && maxCount == old(maxCount)
      ensures archives == if ok then Rolled(old(archives), f, maxCount, old(base).value)
                          else Sweep(old(archives), f, |f|, maxCount)
    {
      hide L.Files, L.Nulls, Rolled;
      ghost var fs := archives;
      FilesOf(files, f);
      var i := files.len;
      while i > 0
        invariant 0 <= i <= files.len && maxCount == old(maxCount) && base == old(base)
        invariant forall k | 0 <= k < i :: f[k] in archives
        invariant Sweep(archives, f, i, maxCount) == Sweep(fs, f, |f|, maxCount)
      {
        i := i - 1;
        var a := files.slots[i];
        if maxCount > 0 && i >= maxCount - 1 {
          archives := archives - {a.index};
        } else {
          archives := Rename(archives, a.index, i + 1);
        }
      }
      ok := RenameBase(0);
      if ok { RolledIsSweep(fs, f, maxCount, old(base).value); }
    }

    /** zlog_rotater_seq_files */
    method SeqFiles(files: L.ArrayList, ghost f: seq<nat>) returns (ok: bool)
      requires files.Valid() && files.Elements() == L.Files(f) && Lists(f, archives)
      modifies this
      ensures ok == old(base).Some? && base == None && maxCount == old(maxCount)
      ensures archives == if ok then Sequenced(old(archives), f, maxCount, old(base).value)
                          else Unlinked(old(archives), f, if 0 < maxCount < |f| then |f| - maxCount else 0)
    {
      ghost var fs := archives;
      ghost var d := Surplus(|f|, maxCount);
      FilesOf(files, f);
      hide Unlinked, Increasing, L.Files, L.Nulls;
      assert Unlinked(fs, f, 0) == fs by { UnlinkedNone(fs, f); }
      for i := 0 to files.len
        invariant maxCount == old(maxCount) && base == old(base)
        invariant archives == Unlinked(fs, f, if i < d then i else d)
      {
        UnlinkedOne(fs, f, i);
        if maxCount > 0 && i < files.len - maxCount {
          archives := archives - {files.slots[i].index};
        }
      }
      var j := 0;
      if files.len > 0 {
        var last := files.slots[files.len - 1].index;
        j := (if files.len - 1 > last then files.len - 1 else last) + 1;
      }
      ok := RenameBase(j);
    }

    /** zlog_rotater_lsmv: list the archives, then move the files. */
    method Lsmv(mode: MoveType, listing: seq<nat>) returns (ok: bool)
      requires Globbed(listing, archives)
      modifies this
      ensures ok == old(base).Some? && base == None
      ensures ok && mode == Rolling ==> Rolls(old(archives), archives, maxCount, old(base).value)
      ensures ok && mode == Sequence ==> Sequences(old(archives), archives, maxCount, old(base).value)
    {
      var files;
      ghost var f;
      files, f := AddArchiveFiles(listing);
      match mode
      case Rolling => ok := RollFiles(files, f);
      case Sequence => ok := SeqFiles(files, f);
    }
  }
}

/** Categories of zlog: the rules that fit, the fast bitmap test, and the transaction that
    replaces the rules of a whole table. */
module ZlogCategory {
  import opened Options
  import opened ZlogRule

  // ---------------------------------------------------------------- what a category should hold

  /** zlog_rule_new refuses a rule without a category. */
  predicate Named(rules: seq<Rule>) {
    forall i | 0 <= i < |rules| :: rules[i].category != []
  }

  /** The rules that match, in order. */
  function Matching(rules: seq<Rule>, name: string): (fit: seq<Rule>)
    requires Named(rules)
    ensures forall r | r in fit :: r in rules && r.category != [] && MatchCategory(r, name)
  {
    if rules == [] then []
    else
      var last := rules[|rules| - 1];
      Matching(rules[..|rules| - 1], name) + (if MatchCategory(last, name) then [last] else [])
  }

  /** The last wastebin rule. */
  function Wastebin(rules: seq<Rule>): (w: Option<Rule>)
    ensures w.Some? ==> w.value in rules && IsWastebin(w.value)
    ensures w.None? ==> forall r | r in rules :: !IsWastebin(r)
  {
    if rules == [] then None
    else if IsWastebin(rules[|rules| - 1]) then Some(rules[|rules| - 1])
    else Wastebin(rules[..|rules| - 1])
  }

  /** The matching rules or, when there are none, the wastebin rule. */
  function Fitted(rules: seq<Rule>, name: string): (fit: seq<Rule>)
    requires Named(rules)
    ensures forall r | r in fit :: r in rules
  {
    var fit := Matching(rules, name);
    if fit == [] && Wastebin(rules).Some? then [Wastebin(rules).value] else fit
  }

  function Overlap(a: Bitmap, b: Bitmap): Bitmap {
    seq(32, i requires 0 <= i < 32 => Or(a[i], b[i]))
  }

  function OverlapAll(fit: seq<Rule>): Bitmap {
    if fit == [] then Zeros() else Overlap(OverlapAll(fit[..|fit| - 1]), fit[|fit| - 1].bitmap)
  }

  /** The overlapped bitmap opens a level exactly when one of the rules outputs there. */
  lemma {:induction false} OverlapOpens(fit: seq<Rule>, level: nat)
    requires level < 256 && forall i | 0 <= i < |fit| :: Sound(fit[i])
    ensures Opens(OverlapAll(fit), level) <==>
            exists i | 0 <= i < |fit| :: Outputs(fit[i].compare, fit[i].level, level)
  {
    hide Bit, Or, Outputs;
    if fit == [] {
      BitOfConstants(level % 8);
    } else {
      var front, last := fit[..|fit| - 1], fit[|fit| - 1];
      OverlapOpens(front, level);
      BitOfOr(OverlapAll(front)[level / 8], last.bitmap[level / 8], level % 8);
      assert Opens(last.bitmap, level) <==> Outputs(last.compare, last.level, level);
      if i :| 0 <= i < |front| && Outputs(front[i].compare, front[i].level, level) { assert fit[i] == front[i]; }
      if i :| 0 <= i < |fit| && Outputs(fit[i].compare, fit[i].level, level) {
        assert i == |front| || fit[i] == front[i];
      }
    }
  }

  // ---------------------------------------------------------------- one category

  /** The mutable state of a category. */
  datatype State = State(fit: Option<seq<Rule>>, backup: Option<seq<Rule>>, bitmap: Bitmap, bitmapBackup: Bitmap)

  /** Between transactions. */
  predicate Settled(s: State) {
    s.fit.Some? && s.backup.None? && s.bitmapBackup == Zeros()
  }

  /** What zlog_category_new makes. */
  function Created(rules: seq<Rule>, name: string): State
    requires Named(rules)
  {
    State(Some(Fitted(rules, name)), None, OverlapAll(Fitted(rules, name)), Zeros())
  }

  /** After an update that succeeded. */
  function Updated(s: State, rules: seq<Rule>, name: string): State
    requires Named(rules)
  {
    State(Some(Fitted(rules, name)), s.fit, OverlapAll(Fitted(rules, name)), s.bitmap)
  }

  /** After an update that ran out of memory: the bitmap may be anything. */
  predicate Failed(before: State, after: State) {
    after.fit == None && after.backup == before.fit && after.bitmapBackup == before.bitmap
  }

  function Committed(s: State): State {
    if s.backup == None then s else s.(backup := None, bitmapBackup := Zeros())
  }

  function RolledBack(s: State): State {
    if s.backup == None then s else State(s.backup, None, s.bitmapBackup, Zeros())
  }

  /** Rollback undoes an update, whether that succeeded, failed or never reached the category. */
  lemma RollbackRestores(before: State, after: State, rules: seq<Rule>, name: string)
    requires Settled(before) && Named(rules)
    requires after == before || after == Updated(before, rules, name) || Failed(before, after)
    ensures RolledBack(after) == before
  {}

  /** Update and commit leave what a new category would have. */
  lemma CommitIsFresh(before: State, rules: seq<Rule>, name: string)
    requires Settled(before) && Named(rules)
    ensures Committed(Updated(before, rules, name)) == Created(rules, name)
    ensures Settled(Created(rules, name))
  {}

  class Category {
    const name: string
    const levelBitmap: array<bv8>
    const levelBitmapBackup: array<bv8>
    var fitRules: Option<seq<Rule>>
    var fitRulesBackup: Option<seq<Rule>>

    ghost predicate Shaped() {
      levelBitmap.Length == 32 && levelBitmapBackup.Length == 32 && levelBitmap != levelBitmapBackup
    }

    ghost function View(): State
      requires Shaped()
      reads this, levelBitmap, levelBitmapBackup
    {
      State(fitRules, fitRulesBackup, levelBitmap[..], levelBitmapBackup[..])
    }

    constructor Blank(name: string)
      ensures this.name == name && Shaped() && fresh(levelBitmap) && fresh(levelBitmapBackup)
      ensures View() == State(None, None, Zeros(), Zeros())
    {
      this.name := name;
      levelBitmap := new bv8[32](_ => 0);
      levelBitmapBackup := new bv8[32](_ => 0);
      fitRules, fitRulesBackup := None, None;
    }

    /** zlog_cateogry_overlap_bitmap */
    method OverlapBitmap(r: Rule)
      requires Shaped()
      modifies levelBitmap
      ensures levelBitmap[..] == Overlap(old(levelBitmap[..]), r.bitmap)
    {
      hide Or;
      for i := 0 to 32
        invariant forall j | 0 <= j < i :: levelBitmap[j] == Or(old(levelBitmap[j]), r.bitmap[j])
        invariant forall j | i <= j < 32 :: levelBitmap[j] == old(levelBitmap[j])
      {
        levelBitmap[i] := Or(levelBitmap[i], r.bitmap[i]);
      }
    }

    /** zlog_category_obtain_rules. Memory runs out at the step `failAt`, if that is reached. */
    method ObtainRules(rules: seq<Rule>, failAt: Option<nat>) returns (ok: bool)
      requires Shaped() && Named(rules)
      modifies this, levelBitmap
      ensures fitRulesBackup == old(fitRulesBackup)
      ensures failAt == None ==> ok
      ensures ok ==> fitRules == Some(Fitted(rules, name)) && levelBitmap[..] == OverlapAll(Fitted(rules, name))
      ensures !ok ==> fitRules == None
    {
      hide Overlap, MatchCategory, Matching, Wastebin, OverlapAll, IsWastebin;
      NothingYet(rules, name);
      forall i | 0 <= i < 32 { levelBitmap[i] := 0; }
      assert levelBitmap[..] == Zeros();
      if failAt == Some(0) {
        fitRules := None;
        return false;
      }
      fitRules := Some([]);
      var count := 0;
      var wastebin: Option<Rule> := None;
      for i := 0 to |rules|
        invariant fitRulesBackup == old(fitRulesBackup)
        invariant fitRules == Some(Matching(rules[..i], name)) && count == |fitRules.value|
        invariant levelBitmap[..] == OverlapAll(fitRules.value)
        invariant wastebin == Wastebin(rules[..i])
      {
        OneMore(rules, name, i);
        var r := rules[i];
        if MatchCategory(r, name) {
          if failAt == Some(count + 1) {
            fitRules := None;
            return false;
          }
          Add(r);
          count := count + 1;
        }
        if IsWastebin(r) { wastebin := Some(r); }
      }
      assert rules[..|rules|] == rules;
      if count == 0 && wastebin.Some? {
        if failAt == Some(count + 1) {
          fitRules := None;
          return false;
        }
        Add(wastebin.value);
        assert fitRules.value == [wastebin.value];
      }
      ok := true;
    }

    lemma OneMore(rules: seq<Rule>, name: string, i: nat)
      requires Named(rules) && i < |rules|
      ensures Matching(rules[..i + 1], name) ==
              if MatchCategory(rules[i], name) then Matching(rules[..i], name) + [rules[i]]
              else Matching(rules[..i], name)
      ensures Wastebin(rules[..i + 1]) == if IsWastebin(rules[i]) then Some(rules[i]) else Wastebin(rules[..i])
    {
      hide MatchCategory;
      assert rules[..i + 1][..i] == rules[..i];
    }

    lemma NothingYet(rules: seq<Rule>, name: string)
      ensures Matching(rules[..0], name) == [] && Wastebin(rules[..0]) == None
      ensures OverlapAll([]) == Zeros()
    {}

    method Add(r: Rule)
      requires Shaped() && fitRules.Some? && levelBitmap[..] == OverlapAll(fitRules.value)
      modifies this`fitRules, levelBitmap
      ensures fitRules == Some(old(fitRules.value) + [r]) && levelBitmap[..] == OverlapAll(fitRules.value)
    {
      hide Overlap;
      OverlapBitmap(r);
      ghost var fit := fitRules.value;
      assert (fit + [r])[..|fit|] == fit;
      fitRules := Some(fitRules.value + [r]);
    }

    /** zlog_category_new */
    constructor (name: string, rules: seq<Rule>)
      requires Named(rules)
      ensures this.name == name && Shaped() && fresh(levelBitmap) && fresh(levelBitmapBackup)
      ensures View() == Created(rules, name)
    {
      this.name := name;
      levelBitmap := new bv8[32](_ => 0);
      levelBitmapBackup := new bv8[32](_ => 0);
      fitRules, fitRulesBackup := None, None;
      new;
      assert levelBitmapBackup[..] == Zeros();
      var ok := ObtainRules(rules, None);
    }

    /** zlog_category_update_rules */
    method UpdateRules(rules: seq<Rule>, failAt: Option<nat>) returns (ok: bool)
      requires Shaped() && Named(rules)
      modifies this, levelBitmap, levelBitmapBackup
      ensures failAt == None ==> ok
      ensures ok ==> View() == Updated(old(View()), rules, name)
      ensures !ok ==> Failed(old(View()), View())
    {
      hide Fitted, OverlapAll;
      fitRulesBackup := fitRules;
      fitRules := None;
      CopyBytes(levelBitmapBackup, levelBitmap);
      ok := ObtainRules(rules, failAt);
      if !ok { fitRules := None; }
    }

    /** zlog_category_commit_rules */
    method CommitRules()
      requires Shaped()
      modifies this, levelBitmapBackup
      ensures View() == Committed(old(View()))
    {
      if fitRulesBackup == None { return; }
      fitRulesBackup := None;
      forall i | 0 <= i < 32 { levelBitmapBackup[i] := 0; }
      assert levelBitmapBackup[..] == Zeros();
    }

    /** zlog_category_rollback_rules */
    method RollbackRules()
      requires Shaped()
      modifies this, levelBitmap, levelBitmapBackup
      ensures View() == RolledBack(old(View()))
    {
      if fitRulesBackup == None { return; }
      fitRules, fitRulesBackup := fitRulesBackup, None;
      CopyBytes(levelBitmap, levelBitmapBackup);
      forall i | 0 <= i < 32 { levelBitmapBackup[i] := 0; }
      assert levelBitmapBackup[..] == Zeros();
    }

    /** !zlog_category_needless_level: for a category that follows `rules`, whether any of the
        fitted rules would output at this level. */
    method NeedsLevel(level: nat, ghost rules: seq<Rule>) returns (needed: bool)
      requires Shaped() && level < 256 && Named(rules) && forall i | 0 <= i < |rules| :: Sound(rules[i])
      requires View().bitmap == Created(rules, name).bitmap
      ensures needed <==>
        exists i | 0 <= i < |Fitted(rules, name)| ::
          Outputs(Fitted(rules, name)[i].compare, Fitted(rules, name)[i].level, level)
    {
      needed := Bit(levelBitmap[level / 8], level % 8);
      FastTestIsExact(rules, name, level);
      assert Opens(View().bitmap, level) == needed;
    }
  }

  method CopyBytes(dest: array<bv8>, src: array<bv8>)
    requires dest != src && dest.Length == src.Length == 32
    modifies dest
    ensures dest[..] == src[..]
  {
    forall i | 0 <= i < 32 { dest[i] := src[i]; }
  }

  /** For a category that follows its rules the fast test lets a level pass exactly when one of
      the fitted rules would output it. */
  lemma FastTestIsExact(rules: seq<Rule>, name: string, level: nat)
    requires level < 256 && Named(rules) && forall i | 0 <= i < |rules| :: Sound(rules[i])
    ensures var fit := Fitted(rules, name);
            Opens(Created(rules, name).bitmap, level) <==>
            exists i | 0 <= i < |fit| :: Outputs(fit[i].compare, fit[i].level, level)
  {
    var fit := Fitted(rules, name);
    forall i | 0 <= i < |fit| ensures Sound(fit[i]) { assert fit[i] in rules; }
    OverlapOpens(fit, level);
  }

  /** `at` are the positions of the matching rules, in order. */
  predicate Selects(at: seq<nat>, rules: seq<Rule>, name: string)
    requires Named(rules)
  {
    && (forall k | 0 <= k < |at| :: at[k] < |rules|)
    && (forall j, k | 0 <= j < k < |at| :: at[j] < at[k])
    && (forall i | 0 <= i < |rules| :: i in at <==> MatchCategory(rules[i], name))
  }

  function Pick(rules: seq<Rule>, at: seq<nat>): (picked: seq<Rule>)
    requires forall k | 0 <= k < |at| :: at[k] < |rules|
    ensures |picked| == |at|
  {
    seq(|at|, k requires 0 <= k < |at| => rules[at[k]])
  }

  lemma SelectsOneMore(at: seq<nat>, rules: seq<Rule>, name: string)
    requires Named(rules) && rules != [] && Selects(at, rules[..|rules| - 1], name)
    ensures var n := |rules| - 1;
            Selects(if MatchCategory(rules[n], name) then at + [n] else at, rules, name)
  {
    hide MatchCategory;
    var n := |rules| - 1;
    var front, all := rules[..n], if MatchCategory(rules[n], name) then at + [n] else at;
    forall i | 0 <= i < |rules| ensures i in all <==> MatchCategory(rules[i], name) {
      if i < n { assert front[i] == rules[i]; } else { assert i !in at; }
    }
  }

  /** The matching rules are those at the matching positions, each once and in their order. */
  lemma {:induction false} MatchingPositions(rules: seq<Rule>, name: string) returns (at: seq<nat>)
    requires Named(rules)
    ensures Selects(at, rules, name) && Matching(rules, name) == Pick(rules, at)
  {
    hide MatchCategory, Pick;
    if rules == [] {
      assert Pick([], []) == [];
      return [];
    }
    var n := |rules| - 1;
    at := MatchingPositions(rules[..n], name);
    SelectsOneMore(at, rules, name);
    PickOneMore(rules, at);
    if MatchCategory(rules[n], name) { at := at + [n]; }
  }

  lemma PickOneMore(rules: seq<Rule>, at: seq<nat>)
    requires rules != [] && forall k | 0 <= k < |at| :: at[k] < |rules| - 1
    ensures Pick(rules[..|rules| - 1], at) == Pick(rules, at)
    ensures Pick(rules, at + [|rules| - 1]) == Pick(rules, at) + [rules[|rules| - 1]]
  {}

  /** The fitted rules are the matching ones when there are any, and else the last wastebin rule
      or nothing. */
  lemma FittedIs(rules: seq<Rule>, name: string)
    requires Named(rules)
    ensures if exists i | 0 <= i < |rules| :: MatchCategory(rules[i], name)
            then Fitted(rules, name) == Matching(rules, name) != []
            else forall k | LastWastebin(rules, k) :: Fitted(rules, name) == [rules[k]]
    ensures (forall i | 0 <= i < |rules| :: !MatchCategory(rules[i], name) && rules[i].category != "!") ==>
              Fitted(rules, name) == []
  {
    hide MatchCategory, Matching, Wastebin;
    WastebinIs(rules);
    var at := MatchingPositions(rules, name);
    if i :| 0 <= i < |rules| && MatchCategory(rules[i], name) { assert i in at; }
    if at != [] { assert at[0] in at; }
  }

  predicate LastWastebin(rules: seq<Rule>, k: int) {
    && 0 <= k < |rules| && rules[k].category == "!"
    && forall j | k < j < |rules| :: rules[j].category != "!"
  }

  lemma {:induction false} WastebinIs(rules: seq<Rule>)
    ensures forall k | LastWastebin(rules, k) :: Wastebin(rules) == Some(rules[k])
    ensures (forall i | 0 <= i < |rules| :: rules[i].category != "!") ==> Wastebin(rules) == None
  {
    if rules != [] {
      var n, front := |rules| - 1, rules[..|rules| - 1];
      WastebinIs(front);
      forall k | LastWastebin(rules, k) ensures Wastebin(rules) == Some(rules[k]) {
        if k < n {
          assert forall j | k < j < n :: front[j] == rules[j];
          assert LastWastebin(front, k);
        }
      }
    }
  }

  /** The fast test from the rules themselves: a matching rule outputs at the level, or none matches and
      the last wastebin rule does. */
  lemma FastTestOnRules(rules: seq<Rule>, name: string, level: nat)
    requires level < 256 && Named(rules) && forall i | 0 <= i < |rules| :: Sound(rules[i])
    ensures Opens(Created(rules, name).bitmap, level) <==>
            || (exists i | 0 <= i < |rules| ::
                  MatchCategory(rules[i], name) && Outputs(rules[i].compare, rules[i].level, level))
            || ((forall i | 0 <= i < |rules| :: !MatchCategory(rules[i], name))
                && exists k | LastWastebin(rules, k) :: Outputs(rules[k].compare, rules[k].level, level))
  {
    hide MatchCategory, Matching, Wastebin, Fitted, Outputs, Created, Opens, Sound;
    FastTestIsExact(rules, name, level);
    FittedIs(rules, name);
    var fit := Fitted(rules, name);
    if exists i | 0 <= i < |rules| :: MatchCategory(rules[i], name) {
      var at := MatchingPositions(rules, name);
      if i :| 0 <= i < |rules| && MatchCategory(rules[i], name) && Outputs(rules[i].compare, rules[i].level, level) {
        var p :| 0 <= p < |at| && at[p] == i;
        assert fit[p] == rules[i];
      }
      if p :| 0 <= p < |fit| && Outputs(fit[p].compare, fit[p].level, level) { assert fit[p] == rules[at[p]]; }
    } else if k :| LastWastebin(rules, k) {
      assert fit == [rules[k]];
      assert fit[0] == rules[k];
      OneLast(rules);
    } else {
      NoLast(rules, |rules|);
    }
  }

  lemma OneLast(rules: seq<Rule>)
    ensures forall j, k | LastWastebin(rules, j) && LastWastebin(rules, k) :: j == k
  {}

  lemma {:induction false} NoLast(rules: seq<Rule>, n: nat)
    requires n <= |rules| && (forall k :: !LastWastebin(rules, k))
    requires forall i | n <= i < |rules| :: rules[i].category != "!"
    ensures forall i | 0 <= i < |rules| :: rules[i].category != "!"
    decreases n
  {
    if n > 0 {
      assert !LastWastebin(rules, n - 1);
      NoLast(rules, n - 1);
    }
  }

  // ---------------------------------------------------------------- the table

  /** The categories of a table, in the order of its iteration, share no storage. */
  ghost predicate Apart(table: seq<Category>) {
    && (forall i | 0 <= i < |table| :: table[i].Shaped())
    && (forall i, j | 0 <= i < |table| && 0 <= j < |table| ::
          table[i].levelBitmap != table[j].levelBitmapBackup)
    && (forall i, j | 0 <= i < j < |table| ::
          && table[i] != table[j]
          && table[i].levelBitmap != table[j].levelBitmap
          && table[i].levelBitmapBackup != table[j].levelBitmapBackup)
  }

  ghost function Arrays(table: seq<Category>): set<array<bv8>> {
    (set i | 0 <= i < |table| :: table[i].levelBitmap) + (set i | 0 <= i < |table| :: table[i].levelBitmapBackup)
  }

  ghost function Views(table: seq<Category>): (vs: seq<State>)
    requires Apart(table)
    reads table, Arrays(table)
    ensures |vs| == |table| && forall i | 0 <= i < |table| :: vs[i] == table[i].View()
  {
    seq(|table|, i requires 0 <= i < |table| reads table, Arrays(table) => table[i].View())
  }

  /** zlog_category_table_update_rules: stops at the first category that fails. */
  method UpdateTable(table: seq<Category>, rules: seq<Rule>, failAt: seq<Option<nat>>) returns (ok: bool)
    requires Apart(table) && Named(rules) && |failAt| == |table|
    modifies table, Arrays(table)
    ensures (forall i | 0 <= i < |table| :: failAt[i] == None) ==> ok
    ensures ok ==> forall i | 0 <= i < |table| :: Views(table)[i] == Updated(old(Views(table))[i], rules, table[i].name)
    ensures forall i | 0 <= i < |table| ::
      || Views(table)[i] == old(Views(table))[i]
      || Views(table)[i] == Updated(old(Views(table))[i], rules, table[i].name)
      || Failed(old(Views(table))[i], Views(table)[i])
  {
    hide Fitted, OverlapAll;
    for i := 0 to |table|
      invariant forall j | 0 <= j < i :: table[j].View() == Updated(old(table[j].View()), rules, table[j].name)
      invariant forall j | i <= j < |table| :: table[j].View() == old(table[j].View())
    {
      var updated := table[i].UpdateRules(rules, failAt[i]);
      if !updated { return false; }
    }
    ok := true;
  }

  /** zlog_category_table_commit_rules */
  method CommitTable(table: seq<Category>)
    requires Apart(table)
    modifies table, Arrays(table)
    ensures forall i | 0 <= i < |table| :: Views(table)[i] == Committed(old(Views(table))[i])
  {
    for i := 0 to |table|
      invariant forall j | 0 <= j < i :: table[j].View() == Committed(old(table[j].View()))
      invariant forall j | i <= j < |table| :: table[j].View() == old(table[j].View())
    {
      table[i].CommitRules();
    }
  }

  /** zlog_category_table_rollback_rules */
  method RollbackTable(table: seq<Category>)
    requires Apart(table)
    modifies table, Arrays(table)
    ensures forall i | 0 <= i < |table| :: Views(table)[i] == RolledBack(old(Views(table))[i])
  {
    for i := 0 to |table|
      invariant forall j | 0 <= j < i :: table[j].View() == RolledBack(old(table[j].View()))
      invariant forall j | i <= j < |table| :: table[j].View() == old(table[j].View())
    {
      table[i].RollbackRules();
    }
  }

  /** The transaction over a table: an update that fails part way and is rolled back leaves every
      category as it was, one that succeeds and is committed leaves each as if newly created. */
  method ReplaceRules(table: seq<Category>, rules: seq<Rule>, failAt: seq<Option<nat>>, keep: bool) returns (kept: bool)
    requires Apart(table) && Named(rules) && |failAt| == |table|
    requires forall i | 0 <= i < |table| :: Settled(Views(table)[i])
    modifies table, Arrays(table)
    ensures kept ==> keep && forall i | 0 <= i < |table| :: Views(table)[i] == Created(rules, table[i].name)
    ensures !kept ==> Views(table) == old(Views(table))
    ensures forall i | 0 <= i < |table| :: Settled(Views(table)[i])
    ensures keep && (forall i | 0 <= i < |table| :: failAt[i] == None) ==> kept
  {
    hide Fitted, OverlapAll, Updated, Failed, Committed, RolledBack, Settled, Created, Apart, Views;
    ghost var before := Views(table);
    var ok := UpdateTable(table, rules, failAt);
    ghost var middle := Views(table);
    kept := ok && keep;
    if kept {
      CommitTable(table);
      CommittedTable(before, middle, Views(table), rules, seq(|table|, i requires 0 <= i < |table| => table[i].name));
    } else {
      RollbackTable(table);
      RolledBackTable(before, middle, Views(table), rules, seq(|table|, i requires 0 <= i < |table| => table[i].name));
    }
  }

  lemma CommittedTable(before: seq<State>, middle: seq<State>, after: seq<State>, rules: seq<Rule>, names: seq<string>)
    requires |before| == |middle| == |after| == |names| && Named(rules)
    requires forall i | 0 <= i < |before| :: Settled(before[i])
    requires forall i | 0 <= i < |before| :: middle[i] == Updated(before[i], rules, names[i])
    requires forall i | 0 <= i < |before| :: after[i] == Committed(middle[i])
    ensures forall i | 0 <= i < |before| :: after[i] == Created(rules, names[i]) && Settled(after[i])
  {
    hide Fitted, OverlapAll;
    forall i | 0 <= i < |before| ensures after[i] == Created(rules, names[i]) && Settled(after[i]) {
      CommitIsFresh(before[i], rules, names[i]);
    }
  }

  lemma RolledBackTable(before: seq<State>, middle: seq<State>, after: seq<State>, rules: seq<Rule>, names: seq<string>)
    requires |before| == |middle| == |after| == |names| && Named(rules)
    requires forall i | 0 <= i < |before| :: Settled(before[i])
    requires forall i | 0 <= i < |before| ::
      middle[i] == before[i] || middle[i] == Updated(before[i], rules, names[i]) || Failed(before[i], middle[i])
    requires forall i | 0 <= i < |before| :: after[i] == RolledBack(middle[i])
    ensures after == before
  {
    hide Fitted, OverlapAll, Updated, Failed, RolledBack, Settled;
    forall i | 0 <= i < |before| ensures after[i] == before[i] {
      RollbackRestores(before[i], middle[i], rules, names[i]);
    }
  }
}

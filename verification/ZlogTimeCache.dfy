/** The time strings of zlog: each time spec owns a cache slot in the event, filled once a second. */
module ZlogTimeCache {

  /** A spec %d(fmt) or %D with its cache slot. */
  datatype TimeSpec = TimeSpec(format: string, index: nat)

  datatype Cache = Cache(text: string, sec: int)

  /** The C library: broken-down local time and its formatting. */
  datatype Clockwork<!Tm> = Clockwork(localtime: int -> Tm, strftime: (string, Tm) -> string)

  /** Formatting a timestamp afresh. */
  function Formatted<Tm>(lib: Clockwork<Tm>, format: string, sec: int): string {
    lib.strftime(format, lib.localtime(sec))
  }

  /** What a time spec writes; `warm` when it has written at a second other than 0 before. */
  function Written<Tm>(lib: Clockwork<Tm>, format: string, stamp: int, warm: bool): string {
    if stamp != 0 || warm then Formatted(lib, format, stamp) else ""
  }

  /** No two specs share a slot, and every slot exists. */
  predicate Allocated(specs: seq<TimeSpec>, count: nat) {
    && (forall i | 0 <= i < |specs| :: specs[i].index < count)
    && (forall i, j | 0 <= i < j < |specs| :: specs[i].index != specs[j].index)
  }

  /** The time branch of zlog_spec_new, for the time specs of a configuration in their order. */
  method NewSpecs(formats: seq<string>) returns (specs: seq<TimeSpec>, count: nat)
    ensures |specs| == |formats| == count && Allocated(specs, count)
    ensures forall i | 0 <= i < |specs| :: specs[i].format == formats[i]
  {
    specs, count := [], 0;
    while count < |formats|
      invariant count == |specs| <= |formats|
      invariant forall i | 0 <= i < count :: specs[i] == TimeSpec(formats[i], i)
    {
      specs := specs + [TimeSpec(formats[count], count)];
      count := count + 1;
    }
  }

  class Event<Tm> {
    const lib: Clockwork<Tm>
    var timeStamp: int     // time_stamp.tv_sec; 0 when the event has not asked yet
    var timeLocal: Tm
    var timeLocalSec: int
    const caches: array<Cache>
    ghost var warm: set<int> // the specs that have written at a second other than 0

    /** Broken-down time belongs to the second it is marked with, and so does the slot of every
        warm spec; the slot of any other spec is as it was made. */
    ghost predicate Valid(specs: seq<TimeSpec>)
      reads this, caches
    {
      && Allocated(specs, caches.Length)
      && (timeLocalSec != 0 || warm != {} ==> timeLocal == lib.localtime(timeLocalSec))
      && (forall i | 0 <= i < |specs| ::
            var c := caches[specs[i].index];
            if i in warm then c.text == Formatted(lib, specs[i].format, c.sec) else c == Cache("", 0))
    }

    /** zlog_event_new: zeroed memory. */
    constructor (lib: Clockwork<Tm>, blank: Tm, count: nat, ghost specs: seq<TimeSpec>)
      requires Allocated(specs, count)
      ensures Valid(specs) && timeStamp == 0 && warm == {} && fresh(caches) && this.lib == lib
    {
      this.lib := lib;
      timeStamp, timeLocalSec, timeLocal := 0, 0, blank;
      caches := new Cache[count](_ => Cache("", 0));
      warm := {};
    }

    /** zlog_event_set_fmt and zlog_event_set_hex: a new event has no time yet. */
    method Begin(ghost specs: seq<TimeSpec>)
      requires Valid(specs)
      modifies this`timeStamp
      ensures Valid(specs) && timeStamp == 0
    {
      timeStamp := 0;
    }

    /** zlog_spec_write_time. `clock` is what gettimeofday would say now. The second 0 also marks
        a slot that was never filled: then the text is empty. */
    method WriteTime(ghost specs: seq<TimeSpec>, ghost k: nat, spec: TimeSpec, clock: int) returns (text: string)
      requires Valid(specs) && k < |specs| && specs[k] == spec
      modifies this, caches
      ensures Valid(specs)
      ensures timeStamp == if old(timeStamp) != 0 then old(timeStamp) else clock
      ensures text == Written(lib, spec.format, timeStamp, k in old(warm))
      ensures warm == if timeStamp != 0 then old(warm) + {k} else old(warm)
    {
      var nowSec := timeStamp;
      if nowSec == 0 {
        timeStamp := clock;
        nowSec := timeStamp;
      }
      if timeLocalSec != nowSec {
        timeLocal := lib.localtime(nowSec);
        timeLocalSec := nowSec;
      }
      if caches[spec.index].sec != nowSec {
        caches[spec.index] := Cache(lib.strftime(spec.format, timeLocal), nowSec);
      }
      if nowSec != 0 { warm := warm + {k}; }
      text := caches[spec.index].text;
    }

    /** zlog_spec_write_ms and zlog_spec_write_us: they only see to the timestamp. */
    method Touch(ghost specs: seq<TimeSpec>, clock: int)
      requires Valid(specs)
      modifies this`timeStamp
      ensures Valid(specs)
      ensures timeStamp == if old(timeStamp) != 0 then old(timeStamp) else clock
    {
      if timeStamp == 0 { timeStamp := clock; }
    }
  }

  // ---------------------------------------------------------------- runs

  /** One use of the time while an event is written: by time spec k, or by %ms and %us. */
  datatype Use = Use(k: int, clock: int)

  /** The uses during one event. */
  type Log = seq<Use>

  predicate Fits(log: Log, n: nat) {
    forall i | 0 <= i < |log| :: log[i].k < n
  }

  /** The timestamp at use i of an event: the first reading that is not 0, once there is one. */
  function Stamp(log: Log, i: nat): int
    requires i < |log|
  {
    if i > 0 && Stamp(log, i - 1) != 0 then Stamp(log, i - 1) else log[i].clock
  }

  /** So the first nonzero reading is the event's timestamp from then on, and before it that is 0. */
  lemma {:induction false} StampIsFirst(log: Log, i: nat, k: nat)
    requires i < |log| && k <= |log| && (forall j | 0 <= j < k :: log[j].clock == 0)
    requires k < |log| ==> log[k].clock != 0
    ensures Stamp(log, i) == if i < k then 0 else log[k].clock
  {
    if i > 0 { StampIsFirst(log, i - 1, k); }
  }

  /** The specs that write at a second other than 0 within the first n uses. */
  ghost function WarmIn(log: Log, n: nat): set<int>
    requires n <= |log|
  {
    set j | 0 <= j < n && log[j].k >= 0 && Stamp(log, j) != 0 :: log[j].k
  }

  /** The same over whole events. */
  ghost function WarmAfter(logs: seq<Log>): set<int> {
    if logs == [] then {}
    else WarmAfter(logs[..|logs| - 1]) + WarmIn(logs[|logs| - 1], |logs[|logs| - 1]|)
  }

  /** The texts of an event, when the specs in `warm` were warm at its start. */
  ghost function Expected<Tm>(lib: Clockwork<Tm>, specs: seq<TimeSpec>, warm: set<int>, log: Log): (texts: seq<string>)
    requires Fits(log, |specs|)
    ensures |texts| == |log|
  {
    seq(|log|, i requires 0 <= i < |log| =>
      if log[i].k < 0 then ""
      else Written(lib, specs[log[i].k].format, Stamp(log, i), log[i].k in warm + WarmIn(log, i)))
  }

  method WriteLog<Tm>(event: Event<Tm>, specs: seq<TimeSpec>, log: Log) returns (texts: seq<string>)
    requires event.Valid(specs) && Fits(log, |specs|)
    modifies event, event.caches
    ensures event.Valid(specs) && texts == Expected(event.lib, specs, old(event.warm), log)
    ensures event.warm == old(event.warm) + WarmIn(log, |log|)
  {
    hide Formatted, Written;
    ghost var expected := Expected(event.lib, specs, event.warm, log);
    event.Begin(specs);
    texts := [];
    for i := 0 to |log|
      invariant event.Valid(specs) && texts == expected[..i]
      invariant event.timeStamp == if i == 0 then 0 else Stamp(log, i - 1)
      invariant event.warm == old(event.warm) + WarmIn(log, i)
    {
      WarmStep(log, i);
      var text := WriteUse(event, specs, log[i]);
      texts := texts + [text];
    }
  }

  method WriteUse<Tm>(event: Event<Tm>, specs: seq<TimeSpec>, use: Use) returns (text: string)
    requires event.Valid(specs) && use.k < |specs|
    modifies event, event.caches
    ensures event.Valid(specs)
    ensures event.timeStamp == if old(event.timeStamp) != 0 then old(event.timeStamp) else use.clock
    ensures text == if use.k < 0 then ""
                    else Written(event.lib, specs[use.k].format, event.timeStamp, use.k in old(event.warm))
    ensures event.warm == old(event.warm) + if use.k >= 0 && event.timeStamp != 0 then {use.k} else {}
  {
    hide Formatted, Written;
    text := "";
    if use.k < 0 {
      event.Touch(specs, use.clock);
    } else {
      text := event.WriteTime(specs, use.k, specs[use.k], use.clock);
    }
  }

  lemma WarmStep(log: Log, i: nat)
    requires i < |log|
    ensures WarmIn(log, i + 1) == WarmIn(log, i) + if log[i].k >= 0 && Stamp(log, i) != 0 then {log[i].k} else {}
  {}

  /** Over any run of events, whatever the clock says and however it moves: each text as the
      timestamp of its event and the past of its spec call for. */
  method Run<Tm>(lib: Clockwork<Tm>, blank: Tm, formats: seq<string>, logs: seq<Log>)
    returns (specs: seq<TimeSpec>, texts: seq<seq<string>>)
    requires forall i | 0 <= i < |logs| :: Fits(logs[i], |formats|)
    ensures |specs| == |formats| && forall i | 0 <= i < |specs| :: specs[i].format == formats[i]
    ensures |texts| == |logs|
    ensures forall i | 0 <= i < |logs| :: texts[i] == Expected(lib, specs, WarmAfter(logs[..i]), logs[i])
  {
    hide Formatted, Fits, Expected, WarmIn;
    var count;
    specs, count := NewSpecs(formats);
    var event := new Event(lib, blank, count, specs);
    texts := [];
    for i := 0 to |logs|
      invariant event.Valid(specs) && fresh(event) && fresh(event.caches) && event.lib == lib
      invariant event.warm == WarmAfter(logs[..i])
      invariant |texts| == i
      invariant forall j | 0 <= j < i :: texts[j] == Expected(lib, specs, WarmAfter(logs[..j]), logs[j])
    {
      assert logs[..i + 1][..i] == logs[..i];
      var t := WriteLog(event, specs, logs[i]);
      texts := texts + [t];
    }
  }

  lemma {:induction false} WarmAfterIs(logs: seq<Log>, k: int)
    ensures k in WarmAfter(logs) <==>
            exists m, j | 0 <= m < |logs| && 0 <= j < |logs[m]| :: k >= 0 && logs[m][j].k == k && Stamp(logs[m], j) != 0
  {
    if logs != [] {
      var front, n := logs[..|logs| - 1], |logs| - 1;
      WarmAfterIs(front, k);
      if m, j :| 0 <= m < |logs| && 0 <= j < |logs[m]| && k >= 0 && logs[m][j].k == k && Stamp(logs[m], j) != 0 {
        if m < n { assert front[m] == logs[m]; } else { assert k in WarmIn(logs[n], |logs[n]|); }
      }
      if m, j :| 0 <= m < |front| && 0 <= j < |front[m]| && k >= 0 && front[m][j].k == k && Stamp(front[m], j) != 0 {
        assert logs[m][j].k == k;
      }
    }
  }

  /** A spec has written at a second other than 0 before use i of event m. */
  ghost predicate WroteBefore(logs: seq<Log>, m: nat, i: nat)
    requires m < |logs| && i < |logs[m]|
  {
    || (exists n, j | 0 <= n < m && 0 <= j < |logs[n]| :: logs[n][j].k == logs[m][i].k && Stamp(logs[n], j) != 0)
    || (exists j | 0 <= j < i :: logs[m][j].k == logs[m][i].k && Stamp(logs[m], j) != 0)
  }

  /** The text of a use is its timestamp formatted afresh exactly when the timestamp is not 0, the
      spec has written at another second before, or the format gives the empty text at 0. */
  lemma TextIsFreshIff<Tm>(lib: Clockwork<Tm>, specs: seq<TimeSpec>, logs: seq<Log>, m: nat, i: nat)
    requires m < |logs| && i < |logs[m]| && logs[m][i].k >= 0 && Fits(logs[m], |specs|)
    ensures var text := Expected(lib, specs, WarmAfter(logs[..m]), logs[m])[i];
            var spec := specs[logs[m][i].k];
            text == lib.strftime(spec.format, lib.localtime(Stamp(logs[m], i))) <==>
            Stamp(logs[m], i) != 0 || WroteBefore(logs, m, i) || lib.strftime(spec.format, lib.localtime(0)) == ""
  {
    var k, front := logs[m][i].k, logs[..m];
    WarmAfterIs(front, k);
    if n, j :| 0 <= n < m && 0 <= j < |logs[n]| && logs[n][j].k == k && Stamp(logs[n], j) != 0 {
      assert front[n][j].k == k && Stamp(front[n], j) != 0;
    }
    if n, j :| 0 <= n < |front| && 0 <= j < |front[n]| && front[n][j].k == k && Stamp(front[n], j) != 0 {
      assert logs[n][j].k == k && Stamp(logs[n], j) != 0;
    }
  }

  /** A new event whose clock says 0 writes nothing, whatever the format. */
  method ZeroIsTakenForUnused<Tm>(lib: Clockwork<Tm>, blank: Tm, format: string) returns (text: string)
    ensures text == ""
  {
    var specs, count := NewSpecs([format]);
    var event := new Event(lib, blank, count, specs);
    text := event.WriteTime(specs, 0, specs[0], 0);
  }
}

/** A WebSocket JSON session, whose interface set and filter list sit behind separate locks. */
module WsJsonl {
  import opened Bytes
  import opened Results
  import opened Protocol
  import opened Dispatch
  import opened FrameFilters

  // ---------------------------------------------------------------- the shared subscription state

  /** A subscribe or unsubscribe request. */
  datatype Control = Sub(ifaces: seq<Str>, filters: seq<FrameFilter>) | Unsub

  function SetOf(c: Control): set<Str> { if c.Sub? then AsSet(c.ifaces) else {} }
  function FiltersOf(c: Control): seq<FrameFilter> { if c.Sub? then c.filters else [] }

  /** The interface set and the filters after the first `v` control requests. */
  function SetAt(cs: seq<Control>, v: nat): set<Str>
    requires v <= |cs|
  {
    if v == 0 then {} else SetOf(cs[v - 1])
  }

  function FiltersAt(cs: seq<Control>, v: nat): seq<FrameFilter>
    requires v <= |cs|
  {
    if v == 0 then [] else FiltersOf(cs[v - 1])
  }

  /** The two guarded values, with the lock sections of the source as methods. */
  class Subscriptions {
    var ifaces: set<Str>
    var filters: seq<FrameFilter>

    constructor ()
      ensures ifaces == {} && filters == []
    {
      ifaces, filters := {}, [];
    }

    method InstallIfaces(c: Control)
      modifies this`ifaces
      ensures ifaces == SetOf(c)
      ensures forall name :: name in ifaces <==> c.Sub? && name in c.ifaces
    {
      ifaces := {};
      if c.Sub? {
        for i := 0 to |c.ifaces|
          invariant ifaces == AsSet(c.ifaces[..i])
        {
          ifaces := ifaces + {c.ifaces[i]};
        }
        assert c.ifaces[..|c.ifaces|] == c.ifaces;
      }
    }

    method InstallFilters(c: Control)
      modifies this`filters
      ensures filters == FiltersOf(c) && filters == if c.Sub? then c.filters else []
    {
      filters := if c.Sub? then c.filters else [];
    }

    /** `should_send_frame` when nothing happens between its two lock sections. */
    method ShouldSendFrame(ev: BusFrame) returns (send: bool)
      ensures send <==> ev.iface in ifaces && Passes(filters, ev)
    {
      hide Matches;
      if ev.iface !in ifaces { return false; }
      if filters == [] { return true; }
      for i := 0 to |filters|
        invariant forall j :: 0 <= j < i ==> !Matches(ev, filters[j])
      {
        if Matches(ev, filters[i]) { return true; }
      }
      return false;
    }
  }

  // ---------------------------------------------------------------- the two tasks

  /** An acknowledgement, any other reply, or a frame. */
  datatype Item = Ack | OtherReply | FrameItem(ev: BusFrame)

  datatype ReaderPc =
    | Idle
    | SetInstalled(c: Control)   // the set is replaced, the filters not yet
    | Acking                     // both are replaced, the acknowledgement is not yet queued

  datatype WriterPc =
    | Selecting
    | TestingSet(ev: BusFrame)
    | TestingFilters(ev: BusFrame)  // the set let it through and its lock is released
    | Writing(item: Item)
    | Exited

  datatype State = State(
    reader: ReaderPc, ifaces: set<Str>, filters: seq<FrameFilter>, queue: seq<Item>, writer: WriterPc,
    // history
    controls: seq<Control>, log: seq<Item>)

  const START := State(Idle, {}, [], [], Selecting, [], [])

  datatype Label =
    | Begin(c: Control) | Finish | QueueAck | QueueOther
    | Take | Receive(frame: BusFrame) | TestSet | TestFilters | Write | Quit

  predicate Enabled(s: State, l: Label) {
    match l
    case Begin(_) => s.reader.Idle?
    case Finish => s.reader.SetInstalled?
    case QueueAck => s.reader.Acking?
    case QueueOther => s.reader.Idle?
    case Take => s.writer.Selecting? && s.queue != []
    case Receive(_) => s.writer.Selecting?
    case TestSet => s.writer.TestingSet?
    case TestFilters => s.writer.TestingFilters?
    case Write => s.writer.Writing?
    case Quit => s.writer.Selecting? || s.writer.Writing?
  }

  function Next(s: State, l: Label): State
    requires Enabled(s, l)
  {
    hide Passes, SetOf;
    match l
    case Begin(c) => s.(reader := SetInstalled(c), ifaces := SetOf(c), controls := s.controls + [c])
    case Finish => s.(reader := Acking, filters := FiltersOf(s.reader.c))
    case QueueAck => s.(reader := Idle, queue := s.queue + [Ack])
    case QueueOther => s.(queue := s.queue + [OtherReply])
    case Take => s.(queue := s.queue[1..], writer := Writing(s.queue[0]))
    case Receive(frame) => s.(writer := TestingSet(frame))
    case TestSet => s.(writer := if s.writer.ev.iface in s.ifaces then TestingFilters(s.writer.ev) else Selecting)
    case TestFilters =>
      s.(writer := if Passes(s.filters, s.writer.ev) then Writing(FrameItem(s.writer.ev)) else Selecting)
    case Write => s.(log := s.log + [s.writer.item], writer := Selecting)
    case Quit => s.(writer := Exited)
  }

  predicate Legal(ls: seq<Label>)
    decreases |ls|, 0
  {
    hide Next;
    ls == [] || (Legal(ls[..|ls| - 1]) && Enabled(After(ls[..|ls| - 1]), ls[|ls| - 1]))
  }

  function After(ls: seq<Label>): State
    requires Legal(ls)
    decreases |ls|, 1
  {
    hide Next;
    if ls == [] then START else Next(After(ls[..|ls| - 1]), ls[|ls| - 1])
  }

  // ---------------------------------------------------------------- soundness of the skew bound

  function Acks(items: seq<Item>): nat {
    if items == [] then 0 else Acks(items[..|items| - 1]) + if items[|items| - 1].Ack? then 1 else 0
  }

  lemma AcksAppend(items: seq<Item>, x: Item)
    ensures Acks(items + [x]) == Acks(items) + if x.Ack? then 1 else 0
  {
    assert (items + [x])[..|items|] == items;
  }

  lemma {:induction false} AcksTake(items: seq<Item>)
    requires items != []
    ensures Acks(items) == Acks(items[1..]) + if items[0].Ack? then 1 else 0
    decreases |items|
  {
    if |items| == 1 {
      assert items == [] + [items[0]] && items[..0] == [];
    } else {
      var front := items[..|items| - 1];
      AcksTake(front);
      assert items[1..][..|items| - 2] == front[1..];
    }
  }

  /** Number of filter installations done. */
  function FilterVersion(s: State): int { if s.reader.SetInstalled? then |s.controls| - 1 else |s.controls| }

  /** `ev` passed version `a` of the set and version `b` of the filters, both at least `k`, `b` at least `a - 1`. */
  predicate PassedAt(cs: seq<Control>, ev: BusFrame, k: nat, a: nat, b: nat) {
    && k <= a <= |cs| && k <= b <= |cs| && a <= b + 1
    && ev.iface in SetAt(cs, a) && Passes(FiltersAt(cs, b), ev)
  }

  ghost predicate Skewed(cs: seq<Control>, ev: BusFrame, k: nat) {
    hide PassedAt;
    exists a, b :: PassedAt(cs, ev, k, a, b)
  }

  ghost predicate HalfPassed(s: State, ev: BusFrame) {
    exists a: nat :: Acks(s.log) <= a <= |s.controls| && a <= FilterVersion(s) + 1 && ev.iface in SetAt(s.controls, a)
  }

  ghost predicate Inv(s: State) {
    && (s.reader.SetInstalled? ==> |s.controls| > 0 && s.controls[|s.controls| - 1] == s.reader.c)
    && s.ifaces == SetAt(s.controls, |s.controls|)
    && (s.reader.Acking? ==> |s.controls| > 0)
    && (forall i :: 0 <= i < |s.queue| ==> !s.queue[i].FrameItem?)
    && 0 <= FilterVersion(s) && s.filters == FiltersAt(s.controls, FilterVersion(s))
    && Acks(s.log) + (if s.writer == Writing(Ack) then 1 else 0) + Acks(s.queue) + (if s.reader.Acking? then 1 else 0)
       <= FilterVersion(s)
    && (s.writer.TestingFilters? ==> HalfPassed(s, s.writer.ev))
    && (s.writer.Writing? && s.writer.item.FrameItem? ==> Skewed(s.controls, s.writer.item.ev, Acks(s.log)))
    && (forall j :: 0 <= j < |s.log| && s.log[j].FrameItem? ==> Skewed(s.controls, s.log[j].ev, Acks(s.log[..j])))
  }

  lemma SkewedStays(cs: seq<Control>, c: Control, ev: BusFrame, k: nat)
    requires Skewed(cs, ev, k)
    ensures Skewed(cs + [c], ev, k)
  {
    hide Passes, SetOf, FiltersOf;
    var a, b :| PassedAt(cs, ev, k, a, b);
    assert PassedAt(cs + [c], ev, k, a, b);
  }

  lemma BeginKeeps(s: State, c: Control)
    requires Inv(s) && s.reader.Idle?
    ensures Inv(Next(s, Begin(c)))
  {
    hide Passes, SetOf, FiltersOf, Acks, Skewed;
    var t := Next(s, Begin(c));
    forall j | 0 <= j < |s.log| && s.log[j].FrameItem? ensures Skewed(t.controls, s.log[j].ev, Acks(s.log[..j])) {
      SkewedStays(s.controls, c, s.log[j].ev, Acks(s.log[..j]));
    }
    if s.writer.Writing? && s.writer.item.FrameItem? {
      SkewedStays(s.controls, c, s.writer.item.ev, Acks(s.log));
    }
    if s.writer.TestingFilters? {
      var a: nat :| Acks(s.log) <= a <= |s.controls| && a <= FilterVersion(s) + 1
                    && s.writer.ev.iface in SetAt(s.controls, a);
      assert s.writer.ev.iface in SetAt(t.controls, a);
    }
  }

  lemma TestFiltersKeeps(s: State)
    requires Inv(s) && s.writer.TestingFilters?
    ensures Inv(Next(s, TestFilters))
  {
    hide Passes, SetOf, FiltersOf, Acks;
    if Passes(s.filters, s.writer.ev) {
      var a: nat :| Acks(s.log) <= a <= |s.controls| && a <= FilterVersion(s) + 1
                    && s.writer.ev.iface in SetAt(s.controls, a);
      assert PassedAt(s.controls, s.writer.ev, Acks(s.log), a, FilterVersion(s));
    }
  }

  lemma WriteKeeps(s: State)
    requires Inv(s) && s.writer.Writing?
    ensures Inv(Next(s, Write))
  {
    hide Passes, SetOf, FiltersOf, Acks, Skewed;
    var t := Next(s, Write);
    AcksAppend(s.log, s.writer.item);
    forall j | 0 <= j < |t.log| && t.log[j].FrameItem? ensures Skewed(t.controls, t.log[j].ev, Acks(t.log[..j])) {
      assert t.log[..j] == s.log[..j];
      assert s.log[..|s.log|] == s.log;
    }
  }

  lemma StepKeeps(s: State, l: Label)
    requires Inv(s) && Enabled(s, l)
    ensures Inv(Next(s, l))
  {
    hide Passes, SetOf, FiltersOf, Acks, Skewed;
    match l
    case Begin(c) => BeginKeeps(s, c);
    case TestFilters => TestFiltersKeeps(s);
    case Write => WriteKeeps(s);
    case QueueAck => AcksAppend(s.queue, Ack);
    case QueueOther => AcksAppend(s.queue, OtherReply);
    case Take => AcksTake(s.queue);
    case TestSet => assert s.writer.ev.iface in s.ifaces ==> s.writer.ev.iface in SetAt(s.controls, |s.controls|);
    case _ =>
  }

  lemma {:induction false} RunKeeps(ls: seq<Label>)
    requires Legal(ls)
    ensures Inv(After(ls))
  {
    hide Inv, Next, Enabled;
    if ls == [] {
      StartKeeps();
    } else {
      RunKeeps(ls[..|ls| - 1]);
      StepKeeps(After(ls[..|ls| - 1]), ls[|ls| - 1]);
    }
  }

  lemma StartKeeps()
    ensures Inv(START)
  {
    assert Acks([]) == 0;
  }

  /** Bounded skew: a frame on the wire passed version `a` of the set and `b` of the filters, both no older than the
      last control request acknowledged before it, and the filters at most one control request behind the set. */
  lemma BoundedSkew(ls: seq<Label>, j: nat)
    requires Legal(ls) && j < |After(ls).log| && After(ls).log[j].FrameItem?
    ensures var s := After(ls); var k := Acks(s.log[..j]);
            exists a: nat, b: nat :: PassedAt(s.controls, s.log[j].ev, k, a, b)
  {
    hide Legal, After, PassedAt, Acks;
    RunKeeps(ls);
    var s := After(ls);
    assert Skewed(s.controls, s.log[j].ev, Acks(s.log[..j]));
  }

  /** A client with no control request outstanding sees only frames that match the pair it last installed. */
  lemma SettledFramesMatch(ls: seq<Label>, j: nat)
    requires Legal(ls) && j < |After(ls).log| && After(ls).log[j].FrameItem?
    requires Acks(After(ls).log[..j]) == |After(ls).controls|
    ensures var s := After(ls); var n := |s.controls|;
            s.log[j].ev.iface in SetAt(s.controls, n) && Passes(FiltersAt(s.controls, n), s.log[j].ev)
  {
    hide Legal, After, Passes, SetAt, FiltersAt, Acks;
    BoundedSkew(ls, j);
  }

  // ---------------------------------------------------------------- the bound is exact

  ghost predicate Reachable(s: State) {
    exists ls :: Legal(ls) && After(ls) == s
  }

  lemma ReachStep(s: State, l: Label)
    requires Reachable(s) && Enabled(s, l)
    ensures Reachable(Next(s, l))
  {
    hide Next, Enabled;
    var ls :| Legal(ls) && After(ls) == s;
    assert (ls + [l])[..|ls|] == ls;
    assert After(ls + [l]) == Next(s, l);
  }

  function Times(n: nat): seq<Item> { if n == 0 then [] else Times(n - 1) + [Ack] }

  lemma {:induction false} TimesLaws(n: nat)
    ensures |Times(n)| == n && Acks(Times(n)) == n && forall i :: 0 <= i < n ==> Times(n)[i] == Ack
  {
    if n > 0 {
      TimesLaws(n - 1);
      AcksAppend(Times(n - 1), Ack);
    }
  }

  lemma OneAck()
    ensures Times(0) == [] && Times(1) == [Ack]
  {
    assert Times(1) == Times(0) + [Ack];
  }

  /** `m` control requests handled, `k` of them acknowledged on the wire, the rest of the acknowledgements queued. */
  function Handled(cs: seq<Control>, m: nat, k: nat, w: WriterPc): State
    requires k <= m <= |cs|
  {
    State(Idle, SetAt(cs, m), FiltersAt(cs, m), Times(m - k), w, cs[..m], Times(k))
  }

  /** The reader can handle one more control request whatever the writer is doing. */
  lemma HandleOne(cs: seq<Control>, m: nat, k: nat, w: WriterPc)
    requires k <= m < |cs| && Reachable(Handled(cs, m, k, w))
    ensures Reachable(Handled(cs, m + 1, k, w))
  {
    hide Reachable, SetOf, FiltersOf;
    var s := Handled(cs, m, k, w);
    ReachStep(s, Begin(cs[m]));
    var s1 := Next(s, Begin(cs[m]));
    ReachStep(s1, Finish);
    var s2 := Next(s1, Finish);
    ReachStep(s2, QueueAck);
    assert cs[..m + 1] == cs[..m] + [cs[m]];
    assert Next(s2, QueueAck) == Handled(cs, m + 1, k, w);
  }

  lemma {:induction false} HandleMany(cs: seq<Control>, m: nat, n: nat, k: nat, w: WriterPc)
    requires k <= m <= n <= |cs| && Reachable(Handled(cs, m, k, w))
    ensures Reachable(Handled(cs, n, k, w))
    decreases n - m
  {
    hide Reachable, Handled;
    if m < n {
      HandleOne(cs, m, k, w);
      HandleMany(cs, m + 1, n, k, w);
    }
  }

  lemma {:induction false} AcknowledgeAll(cs: seq<Control>, k: nat)
    requires k <= |cs|
    ensures Reachable(Handled(cs, k, k, Selecting))
    decreases k
  {
    hide Reachable, SetOf, FiltersOf;
    if k == 0 {
      StartReachable();
      assert cs[..0] == [];
    } else {
      AcknowledgeAll(cs, k - 1);
      HandleOne(cs, k - 1, k - 1, Selecting);
      var s := Handled(cs, k, k - 1, Selecting);
      OneAck();
      ReachStep(s, Take);
      ReachStep(Next(s, Take), Write);
      assert s.queue == [Ack] && s.queue[1..] == [] && k - k == 0;
      assert Next(Next(s, Take), Write) == Handled(cs, k, k, Selecting);
    }
  }

  lemma StartReachable()
    ensures Reachable(START)
  {
    assert Legal([]) && After([]) == START;
  }

  /** The frame is received and let through by version `a` of the set. */
  lemma SetLetsThrough(cs: seq<Control>, a: nat, k: nat, ev: BusFrame)
    requires k <= a <= |cs| && ev.iface in SetAt(cs, a)
    ensures Reachable(Handled(cs, a, k, TestingFilters(ev)))
  {
    hide Reachable, SetOf, FiltersOf;
    AcknowledgeAll(cs, k);
    HandleMany(cs, k, a, k, Selecting);
    var s := Handled(cs, a, k, Selecting);
    ReachStep(s, Receive(ev));
    ReachStep(Next(s, Receive(ev)), TestSet);
  }

  /** Filters at least as new as the set: the writer waits between its two locks while the reader goes on. */
  lemma FiltersNewer(cs: seq<Control>, a: nat, b: nat, k: nat, ev: BusFrame)
    requires PassedAt(cs, ev, k, a, b) && a <= b
    ensures Reachable(Handled(cs, |cs|, k, Writing(FrameItem(ev))))
  {
    hide Reachable, SetOf, FiltersOf, Passes;
    SetLetsThrough(cs, a, k, ev);
    HandleMany(cs, a, b, k, TestingFilters(ev));
    ReachStep(Handled(cs, b, k, TestingFilters(ev)), TestFilters);
    HandleMany(cs, b, |cs|, k, Writing(FrameItem(ev)));
  }

  /** Filters one behind the set: the writer tests both while the reader is between its two locks. */
  lemma FiltersOlder(cs: seq<Control>, a: nat, b: nat, k: nat, ev: BusFrame)
    requires PassedAt(cs, ev, k, a, b) && a == b + 1
    ensures Reachable(Handled(cs, |cs|, k, Writing(FrameItem(ev))))
  {
    hide Reachable, SetOf, FiltersOf, Passes;
    AcknowledgeAll(cs, k);
    HandleMany(cs, k, b, k, Selecting);
    var s0 := Handled(cs, b, k, Selecting);
    ReachStep(s0, Begin(cs[b]));
    var s1 := Next(s0, Begin(cs[b]));
    ReachStep(s1, Receive(ev));
    var s2 := Next(s1, Receive(ev));
    ReachStep(s2, TestSet);
    var s3 := Next(s2, TestSet);
    ReachStep(s3, TestFilters);
    var s4 := Next(s3, TestFilters);
    ReachStep(s4, Finish);
    ReachStep(Next(s4, Finish), QueueAck);
    assert cs[..a] == cs[..b] + [cs[b]];
    assert Next(Next(s4, Finish), QueueAck) == Handled(cs, a, k, Writing(FrameItem(ev)));
    HandleMany(cs, a, |cs|, k, Writing(FrameItem(ev)));
  }

  /** Some run handles the control requests `cs` and writes `ev` as the last thing, after `k` acknowledgements. */
  ghost predicate CanWrite(cs: seq<Control>, k: nat, ev: BusFrame) {
    exists s :: Reachable(s) && s.controls == cs && |s.log| > 0 && s.log[|s.log| - 1] == FrameItem(ev)
                && Acks(s.log[..|s.log| - 1]) == k
  }

  /** The skew bound is exact: a frame can be written after `k` acknowledgements if and only if it passes some version
      of the set and some version of the filters within the bound. */
  lemma SkewBoundIsExact(cs: seq<Control>, k: nat, ev: BusFrame)
    ensures CanWrite(cs, k, ev) <==> exists a: nat, b: nat :: PassedAt(cs, ev, k, a, b)
  {
    hide Reachable, PassedAt, Handled, Acks, Next;
    if exists a: nat, b: nat :: PassedAt(cs, ev, k, a, b) {
      var a: nat, b: nat :| PassedAt(cs, ev, k, a, b);
      FrameGoesOut(cs, a, b, k, ev);
    }
    if CanWrite(cs, k, ev) {
      var s :| Reachable(s) && s.controls == cs && |s.log| > 0 && s.log[|s.log| - 1] == FrameItem(ev)
               && Acks(s.log[..|s.log| - 1]) == k;
      FrameWasLetThrough(s);
    }
  }

  lemma FrameWasLetThrough(s: State)
    requires Reachable(s) && |s.log| > 0 && s.log[|s.log| - 1].FrameItem?
    ensures var j := |s.log| - 1;
            exists a: nat, b: nat :: PassedAt(s.controls, s.log[j].ev, Acks(s.log[..j]), a, b)
  {
    hide Legal, After, PassedAt, Acks;
    var ls :| Legal(ls) && After(ls) == s;
    BoundedSkew(ls, |s.log| - 1);
  }

  lemma FrameGoesOut(cs: seq<Control>, a: nat, b: nat, k: nat, ev: BusFrame)
    requires PassedAt(cs, ev, k, a, b)
    ensures CanWrite(cs, k, ev)
  {
    hide Reachable, Passes, SetOf, FiltersOf, Acks;
    if a <= b { FiltersNewer(cs, a, b, k, ev); } else { FiltersOlder(cs, a, b, k, ev); }
    var s := Handled(cs, |cs|, k, Writing(FrameItem(ev)));
    ReachStep(s, Write);
    var t := Next(s, Write);
    TimesLaws(k);
    assert t.log[..|t.log| - 1] == Times(k) && cs[..|cs|] == cs;
  }

  /** `ev` matches the set and the filters of one and the same control request, not older than number `k`. */
  ghost predicate MatchesOnePair(cs: seq<Control>, k: nat, ev: BusFrame) {
    exists v: nat :: PassedAt(cs, ev, k, v, v)
  }

  /** `n` control requests: the first `k` ask for interface `first` with a filter that lets everything through, the
      others for `second` with a filter that only lets `first` through. */
  function Mixing(n: nat, k: nat, first: Str, second: Str): (cs: seq<Control>)
    ensures |cs| == n
    ensures forall i :: 0 <= i < n ==>
              cs[i] == if i < k then Sub([first], [FrameFilter(None, None, None, None, None, None)])
                       else Sub([second], [FrameFilter(Some(first), None, None, None, None, None)])
    decreases n
  {
    if n == 0 then []
    else Mixing(n - 1, k, first, second) +
         [if n - 1 < k then Sub([first], [FrameFilter(None, None, None, None, None, None)])
          else Sub([second], [FrameFilter(Some(first), None, None, None, None, None)])]
  }

  /** The stronger reading, that every frame matches one subscription's set and filters, fails as soon as a control
      request is unacknowledged: a frame matching only the new set and only the old filters goes out. */
  lemma OnePairFails(n: nat, k: nat, first: Str, second: Str, ev: BusFrame)
    requires k < n && first != second && ev.iface == second
    ensures CanWrite(Mixing(n, k, first, second), k, ev) && !MatchesOnePair(Mixing(n, k, first, second), k, ev)
  {
    hide CanWrite, Mixing;
    var cs := Mixing(n, k, first, second);
    var anything := FrameFilter(None, None, None, None, None, None);
    assert second in AsSet([second]) && second !in AsSet([first]);
    assert Matches(ev, anything) && [anything][0] == anything;
    assert cs[k] == Sub([second], [FrameFilter(Some(first), None, None, None, None, None)]);
    assert k > 0 ==> cs[k - 1] == Sub([first], [anything]);
    assert PassedAt(cs, ev, k, k + 1, k);
    FrameGoesOut(cs, k + 1, k, k, ev);
    forall v: nat | k <= v <= n ensures !PassedAt(cs, ev, k, v, v) {
      if v > 0 { assert cs[v - 1].Sub?; }
    }
  }

  /** It holds for every choice of `n` control requests exactly when none is unacknowledged. */
  lemma OnePairIffNothingPending(n: nat, k: nat)
    requires k <= n
    ensures (forall cs, ev :: |cs| == n && CanWrite(cs, k, ev) ==> MatchesOnePair(cs, k, ev)) <==> k == n
  {
    hide CanWrite, MatchesOnePair, PassedAt;
    if k < n {
      var ev := BusFrame(0, [1], Rx, 0, false, []);
      OnePairFails(n, k, [0], [1], ev);
    } else {
      forall cs, ev | |cs| == n && CanWrite(cs, k, ev) ensures MatchesOnePair(cs, k, ev) {
        SkewBoundIsExact(cs, k, ev);
        var a: nat, b: nat :| PassedAt(cs, ev, k, a, b);
        OnePairOf(cs, ev, k, a, b);
      }
    }
  }

  lemma OnePairOf(cs: seq<Control>, ev: BusFrame, k: nat, a: nat, b: nat)
    requires k == |cs| && PassedAt(cs, ev, k, a, b)
    ensures MatchesOnePair(cs, k, ev)
  {
  }
}

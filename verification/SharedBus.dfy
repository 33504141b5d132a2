/** Any number of TCP binary sessions over one service, sharing only the frame bus. */
module SharedBus {
  import opened Bytes
  import opened BinaryMessage
  import opened SessionProtocol
  import opened SessionInvariants
  import opened SessionTheorems

  /** All sessions, the bus, and the bus position at which each session subscribed. */
  datatype Daemon = Daemon(bus: seq<BusFrame>, starts: seq<nat>, sessions: seq<Session>)

  datatype Event =
    | Join                            // a client connects and subscribes to the bus
    | Act(who: nat, step: Label)      // a session makes a step
    | Publish(frame: BusFrame)        // a receiver or generator publishes a frame

  ghost predicate Sound(d: Daemon) {
    |d.starts| == |d.sessions| && forall i :: 0 <= i < |d.starts| ==> d.starts[i] <= |d.bus|
  }

  /** What one session can see: itself, and the frames published since it joined. */
  function ViewOf(d: Daemon, i: nat): System
    requires |d.starts| == |d.sessions| && i < |d.sessions| && d.starts[i] <= |d.bus|
  {
    System(d.sessions[i], d.bus[d.starts[i]..])
  }

  predicate CanHappen(d: Daemon, e: Event) {
    e.Act? ==>
      && |d.starts| == |d.sessions| && e.who < |d.sessions| && d.starts[e.who] <= |d.bus|
      && Enabled(d.sessions[e.who], d.bus[d.starts[e.who]..], e.step)
  }

  function Happened(d: Daemon, e: Event): Daemon
    requires CanHappen(d, e)
  {
    hide Next, Emits, Enabled;
    match e
    case Join => d.(starts := d.starts + [|d.bus|], sessions := d.sessions + [START])
    case Publish(frame) => d.(bus := d.bus + [frame])
    case Act(who, step) =>
      var s := d.sessions[who];
      d.(sessions := d.sessions[who := Next(s, d.bus[d.starts[who]..], step)], bus := d.bus + Emits(s, step))
  }

  predicate Possible(es: seq<Event>)
    decreases |es|, 0
  {
    hide CanHappen, Happened;
    es == [] || (Possible(es[..|es| - 1]) && CanHappen(Result(es[..|es| - 1]), es[|es| - 1]))
  }

  function Result(es: seq<Event>): Daemon
    requires Possible(es)
    decreases |es|, 1
  {
    hide CanHappen, Happened;
    if es == [] then Daemon([], [], []) else Happened(Result(es[..|es| - 1]), es[|es| - 1])
  }

  /** Frames published by somebody else. */
  function Others(frames: seq<BusFrame>): seq<Move> {
    if frames == [] then [] else Others(frames[..|frames| - 1]) + [Other(frames[|frames| - 1])]
  }

  /** The run of session `i` alone: its own steps, and everybody else's only as frames appearing on the bus. */
  function Projected(es: seq<Event>, i: nat): seq<Move>
    requires Possible(es)
    decreases |es|
  {
    hide Happened, Emits;
    if es == [] || i >= |Result(es[..|es| - 1]).sessions| then []
    else
      var before := Result(es[..|es| - 1]);
      var moves := Projected(es[..|es| - 1], i);
      match es[|es| - 1]
      case Join => moves
      case Publish(frame) => moves + Others([frame])
      case Act(who, step) =>
        if who == i then moves + [Own(step)]
        else if who < |before.sessions| then moves + Others(Emits(before.sessions[who], step))
        else moves
  }

  lemma {:induction false} ResultSound(es: seq<Event>)
    requires Possible(es)
    ensures Sound(Result(es))
    decreases |es|
  {
    hide Next, Emits, Enabled;
    if es != [] { ResultSound(es[..|es| - 1]); }
  }

  lemma {:induction false} OneMoreMove(moves: seq<Move>, m: Move)
    requires Legal(moves) && CanMove(After(moves), m)
    ensures Legal(moves + [m]) && After(moves + [m]) == Moved(After(moves), m)
  {
    hide CanMove, Moved;
    assert (moves + [m])[..|moves|] == moves;
  }

  lemma {:induction false} OthersPublish(moves: seq<Move>, frames: seq<BusFrame>)
    requires Legal(moves)
    ensures Legal(moves + Others(frames))
    ensures After(moves + Others(frames)) == System(After(moves).session, After(moves).bus + frames)
    decreases |frames|
  {
    hide Legal, After;
    if frames == [] {
      assert moves + [] == moves && After(moves).bus + [] == After(moves).bus;
    } else {
      var front, last := frames[..|frames| - 1], frames[|frames| - 1];
      OthersPublish(moves, front);
      OneMoreMove(moves + Others(front), Other(last));
      assert moves + Others(frames) == (moves + Others(front)) + [Other(last)];
      assert (After(moves).bus + front) + [last] == After(moves).bus + frames;
    }
  }

  /** Isolation: every interleaving of any number of sessions looks, to each session, like a legal run of that session
      alone, in which the others appear only through the frames they publish. */
  lemma {:induction false} SessionsAreIsolated(es: seq<Event>, i: nat)
    requires Possible(es) && i < |Result(es).sessions|
    ensures Sound(Result(es)) && Legal(Projected(es, i)) && After(Projected(es, i)) == ViewOf(Result(es), i)
    decreases |es|
  {
    hide Enabled, Next, Emits, Legal, After;
    ResultSound(es);
    var front, e := es[..|es| - 1], es[|es| - 1];
    var before := Result(front);
    ResultSound(front);
    if i >= |before.sessions| {
      NothingYet();
      assert before.bus[|before.bus|..] == [];
    } else {
      SessionsAreIsolated(front, i);
      var moves, bus, at := Projected(front, i), before.bus, before.starts[i];
      match e
      case Join =>
      case Publish(frame) =>
        OthersPublish(moves, [frame]);
        assert (bus + [frame])[at..] == bus[at..] + [frame];
      case Act(who, step) =>
        var frames := Emits(before.sessions[who], step);
        assert (bus + frames)[at..] == bus[at..] + frames;
        if who == i { OneMoreMove(moves, Own(step)); } else { OthersPublish(moves, frames); }
    }
  }

  lemma NothingYet()
    ensures Legal([]) && After([]) == System(START, [])
  {
  }

  /** Every session of every daemon run keeps all the session invariants. */
  lemma EverySessionIsSafe(es: seq<Event>, i: nat)
    requires Possible(es) && i < |Result(es).sessions|
    ensures Sound(Result(es)) && Inv(ViewOf(Result(es), i))
  {
    hide Inv, Possible, Result, Legal, After;
    SessionsAreIsolated(es, i);
    RunInv(Projected(es, i));
  }
}

/** What becomes of the frames a session takes from the bus, as positions in it. */
module BusAccount {
  import opened SessionProtocol

  predicate Increasing(ps: seq<nat>) { forall i, j :: 0 <= i < j < |ps| ==> ps[i] < ps[j] }

  predicate Below(ps: seq<nat>, bound: nat) { forall i :: 0 <= i < |ps| ==> ps[i] < bound }

  predicate DropsBelow(ds: seq<Drop>, bound: nat) { forall i :: 0 <= i < |ds| ==> ds[i].pos < bound }

  predicate DropsIncreasing(ds: seq<Drop>) { forall i, j :: 0 <= i < j < |ds| ==> ds[i].pos < ds[j].pos }

  predicate Apart(ps: seq<nat>, ds: seq<Drop>) { forall i, j :: 0 <= i < |ps| && 0 <= j < |ds| ==> ps[i] != ds[j].pos }

  /** Frames left the bus in order, none of them twice, and all `cursor` of them are accounted for. */
  predicate Accounted(written: seq<nat>, held: seq<nat>, dropped: seq<Drop>, lagged: nat, cursor: nat) {
    && Increasing(written + held) && Below(written + held, cursor)
    && DropsIncreasing(dropped) && DropsBelow(dropped, cursor) && Apart(written + held, dropped)
    && |written| + |held| + |dropped| + lagged == cursor
  }

  lemma AccountReceive(written: seq<nat>, dropped: seq<Drop>, lagged: nat, cursor: nat)
    requires Accounted(written, [], dropped, lagged, cursor)
    ensures Accounted(written, [cursor], dropped, lagged, cursor + 1) && DropsBelow(dropped, cursor)
  {
    assert written + [] == written;
  }

  lemma AccountDrop(written: seq<nat>, dropped: seq<Drop>, lagged: nat, cursor: nat, d: Drop)
    requires Accounted(written, [d.pos], dropped, lagged, cursor) && DropsBelow(dropped, d.pos)
    ensures Accounted(written, [], dropped + [d], lagged, cursor)
  {
    assert written + [] == written && (written + [d.pos])[|written|] == d.pos;
    forall i | 0 <= i < |written| ensures written[i] == (written + [d.pos])[i] {}
  }

  lemma AccountWrite(written: seq<nat>, held: seq<nat>, dropped: seq<Drop>, lagged: nat, cursor: nat)
    requires Accounted(written, held, dropped, lagged, cursor)
    ensures Accounted(written + held, [], dropped, lagged, cursor)
  {
    assert (written + held) + [] == written + held;
  }

  lemma AccountLag(written: seq<nat>, dropped: seq<Drop>, lagged: nat, cursor: nat, n: nat)
    requires Accounted(written, [], dropped, lagged, cursor)
    ensures Accounted(written, [], dropped, lagged + n, cursor + n)
  {
  }

  function DropPositions(ds: seq<Drop>): (ps: seq<nat>)
    ensures |ps| == |ds| && forall i :: 0 <= i < |ds| ==> ps[i] == ds[i].pos
  {
    if ds == [] then [] else DropPositions(ds[..|ds| - 1]) + [ds[|ds| - 1].pos]
  }

  /** The positions below `cursor` that are in neither list. */
  function Unlisted(a: seq<nat>, b: seq<nat>, cursor: nat): set<nat> {
    set p: nat | p < cursor && p !in a && p !in b
  }

  /** An increasing list without `bound`, if that is its last element. */
  function Lowered(ps: seq<nat>, bound: nat): seq<nat> {
    if ps != [] && ps[|ps| - 1] == bound then ps[..|ps| - 1] else ps
  }

  lemma LoweredIs(ps: seq<nat>, bound: nat)
    requires Increasing(ps) && Below(ps, bound + 1)
    ensures var f := Lowered(ps, bound);
            && Increasing(f) && Below(f, bound) && (forall p :: p in f <==> p in ps && p != bound)
            && |f| == |ps| - if bound in ps then 1 else 0
  {
    if ps != [] {
      var f, last := ps[..|ps| - 1], ps[|ps| - 1];
      assert ps == f + [last];
      forall i | 0 <= i < |f| ensures f[i] < last { assert ps[i] < ps[|ps| - 1]; }
    }
  }

  /** Two increasing lists without a common element leave the rest of the positions. */
  lemma {:induction false} CountUnlisted(a: seq<nat>, b: seq<nat>, cursor: nat)
    requires Increasing(a) && Below(a, cursor) && Increasing(b) && Below(b, cursor)
    requires forall p :: p in a ==> p !in b
    ensures |Unlisted(a, b, cursor)| + |a| + |b| == cursor
    decreases cursor
  {
    hide Increasing, Below, Lowered, Unlisted;
    if cursor == 0 {
      AtMost(a, 0);
      AtMost(b, 0);
      NoneBelowZero(a, b);
    } else {
      var top := cursor - 1;
      LoweredIs(a, top);
      LoweredIs(b, top);
      var fa, fb := Lowered(a, top), Lowered(b, top);
      CountUnlisted(fa, fb, top);
      UnlistedBelow(a, b, fa, fb, top);
    }
  }

  lemma NoneBelowZero(a: seq<nat>, b: seq<nat>)
    ensures Unlisted(a, b, 0) == {}
  {
  }

  lemma UnlistedBelow(a: seq<nat>, b: seq<nat>, fa: seq<nat>, fb: seq<nat>, top: nat)
    requires forall p :: p in fa <==> p in a && p != top
    requires forall p :: p in fb <==> p in b && p != top
    ensures |Unlisted(a, b, top + 1)| == |Unlisted(fa, fb, top)| + if top in a || top in b then 0 else 1
  {
    var all, low := Unlisted(a, b, top + 1), Unlisted(fa, fb, top);
    assert top !in low;
    if top in a || top in b {
      assert all == low;
    } else {
      assert all == low + {top};
    }
  }

  lemma {:induction false} AtMost(ps: seq<nat>, bound: nat)
    requires Increasing(ps) && Below(ps, bound)
    ensures |ps| <= bound
    decreases |ps|
  {
    if ps != [] { AtMost(ps[..|ps| - 1], ps[|ps| - 1]); }
  }

  /** The positions passed without a frame being written, held or filtered out are as many as were reported lost. */
  lemma LostAreLagged(written: seq<nat>, held: seq<nat>, dropped: seq<Drop>, lagged: nat, cursor: nat)
    requires Accounted(written, held, dropped, lagged, cursor)
    ensures |Unlisted(written + held, DropPositions(dropped), cursor)| == lagged
  {
    CountUnlisted(written + held, DropPositions(dropped), cursor);
  }

  // ---------------------------------------------------------------- only old frames are lost

  /** Every position lost so far is that of a frame with at least `CAPACITY` newer ones among `n`. */
  predicate LostAreOld(written: seq<nat>, held: seq<nat>, dropped: seq<Drop>, cursor: nat, n: nat) {
    forall p :: p in Unlisted(written + held, DropPositions(dropped), cursor) ==> p + CAPACITY < n
  }

  lemma OldReceive(written: seq<nat>, dropped: seq<Drop>, cursor: nat, n: nat)
    requires LostAreOld(written, [], dropped, cursor, n)
    ensures LostAreOld(written, [cursor], dropped, cursor + 1, n)
  {
    hide DropPositions;
    var lost := Unlisted(written + [cursor], DropPositions(dropped), cursor + 1);
    forall p | p in lost ensures p + CAPACITY < n {
      assert cursor == (written + [cursor])[|written|];
      assert forall q :: q in written ==> q in written + [cursor];
      assert p in Unlisted(written + [], DropPositions(dropped), cursor);
    }
  }

  lemma OldDrop(written: seq<nat>, dropped: seq<Drop>, cursor: nat, d: Drop, n: nat)
    requires LostAreOld(written, [d.pos], dropped, cursor, n)
    ensures LostAreOld(written, [], dropped + [d], cursor, n)
  {
    var ps, more := DropPositions(dropped), DropPositions(dropped + [d]);
    assert more == ps + [d.pos];
    forall p | p in Unlisted(written + [], more, cursor) ensures p + CAPACITY < n {
      assert more[|ps|] == d.pos;
      assert forall q :: q in ps ==> q in more;
      assert p in Unlisted(written + [d.pos], ps, cursor);
    }
  }

  lemma OldWrite(written: seq<nat>, held: seq<nat>, dropped: seq<Drop>, cursor: nat, n: nat)
    requires LostAreOld(written, held, dropped, cursor, n)
    ensures LostAreOld(written + held, [], dropped, cursor, n)
  {
    hide DropPositions, Unlisted;
    assert (written + held) + [] == written + held;
  }

  lemma OldLag(written: seq<nat>, dropped: seq<Drop>, cursor: nat, n: nat)
    requires LostAreOld(written, [], dropped, cursor, n) && cursor + CAPACITY < n
    ensures LostAreOld(written, [], dropped, n - CAPACITY, n)
  {
    hide DropPositions;
    var lost := Unlisted(written + [], DropPositions(dropped), n - CAPACITY);
    forall p | p in lost ensures p + CAPACITY < n {
      if p < cursor { assert p in Unlisted(written + [], DropPositions(dropped), cursor); }
    }
  }

  lemma OldGrows(written: seq<nat>, held: seq<nat>, dropped: seq<Drop>, cursor: nat, n: nat, more: nat)
    requires LostAreOld(written, held, dropped, cursor, n) && n <= more
    ensures LostAreOld(written, held, dropped, cursor, more)
  {
    hide DropPositions, Unlisted;
  }
}

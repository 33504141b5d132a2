/** Which frames a list of filters lets through. */
module FrameFilters {
  import opened Bytes
  import opened Results
  import opened Protocol

  /** Bitwise and, on the binary digits. */
  function BitAnd(x: nat, y: nat): (r: nat)
    decreases x
  {
    if x == 0 then 0 else 2 * BitAnd(x / 2, y / 2) + (x % 2) * (y % 2)
  }

  function Ones(n: nat): nat { if n == 0 then 0 else 2 * Ones(n - 1) + 1 }

  lemma {:induction false} BitAndOnes(x: nat, n: nat)
    requires x <= Ones(n)
    ensures BitAnd(x, Ones(n)) == x
    decreases n
  {
    if x > 0 {
      assert Ones(n) / 2 == Ones(n - 1) && Ones(n) % 2 == 1;
      BitAndOnes(x / 2, n - 1);
    }
  }

  predicate Matches(ev: BusFrame, f: FrameFilter) {
    && (f.iface.Some? ==> ev.iface == f.iface.value)
    && (f.isFd.Some? ==> ev.isFd == f.isFd.value)
    && (f.minLen.Some? ==> |ev.data| >= f.minLen.value)
    && (f.maxLen.Some? ==> |ev.data| <= f.maxLen.value)
    && (f.id.Some? ==>
          var mask := if f.idMask.Some? then f.idMask.value else 0xFFFF_FFFF;
          BitAnd(ev.id, mask) == BitAnd(f.id.value, mask))
  }

  predicate Passes(filters: seq<FrameFilter>, ev: BusFrame) {
    hide Matches;
    filters == [] || exists i :: 0 <= i < |filters| && Matches(ev, filters[i])
  }

  lemma Ones32()
    ensures Ones(32) == 0xFFFF_FFFF
  {
    assert Ones(4) == 0xF;
    assert Ones(8) == 0xFF;
    assert Ones(12) == 0xFFF;
    assert Ones(16) == 0xFFFF;
    assert Ones(20) == 0xF_FFFF;
    assert Ones(24) == 0xFF_FFFF;
    assert Ones(28) == 0xFFF_FFFF;
  }

  /** Without a mask, an id filter means that very id. */
  lemma UnmaskedIdIsExact(ev: BusFrame, f: FrameFilter)
    requires f.id.Some? && f.idMask.None?
    ensures Matches(ev, f) <==> Matches(ev, f.(id := None)) && ev.id == f.id.value
  {
    hide BitAnd, Ones;
    Ones32();
    BitAndOnes(ev.id, 32);
    BitAndOnes(f.id.value, 32);
  }

  // ---------------------------------------------------------------- what each field asks for

  const ANY := FrameFilter(None, None, None, None, None, None)

  /** A filter asks for nothing but what its fields ask for, each by itself. */
  lemma FieldsAreIndependent(ev: BusFrame, f: FrameFilter)
    ensures Matches(ev, f) <==>
              && Matches(ev, ANY.(iface := f.iface)) && Matches(ev, ANY.(isFd := f.isFd))
              && Matches(ev, ANY.(minLen := f.minLen)) && Matches(ev, ANY.(maxLen := f.maxLen))
              && Matches(ev, ANY.(id := f.id, idMask := f.idMask))
    ensures Matches(ev, ANY)
  {
    hide BitAnd;
  }

  /** A list with one filter for an interface, or for a kind of frame, lets through exactly those frames. */
  lemma FilterByKind(ev: BusFrame, iface: Str, isFd: bool)
    ensures Passes([ANY.(iface := Some(iface))], ev) <==> ev.iface == iface
    ensures Passes([ANY.(isFd := Some(isFd))], ev) <==> ev.isFd == isFd
  {
    hide BitAnd, Matches;
    OneFilter(ANY.(iface := Some(iface)), ev);
    OneFilter(ANY.(isFd := Some(isFd)), ev);
    KindMatches(ev, iface, isFd);
  }

  lemma KindMatches(ev: BusFrame, iface: Str, isFd: bool)
    ensures Matches(ev, ANY.(iface := Some(iface))) <==> ev.iface == iface
    ensures Matches(ev, ANY.(isFd := Some(isFd))) <==> ev.isFd == isFd
  {
    hide BitAnd;
  }

  lemma OneFilter(f: FrameFilter, ev: BusFrame)
    ensures Passes([f], ev) <==> Matches(ev, f)
  {
    hide Matches;
    assert [f][0] == f;
  }

  /** Length bounds are inclusive: exactly the frames with `lo <= length <= hi` pass, and a missing bound is none. */
  lemma FilterByLength(ev: BusFrame, lo: nat, hi: nat)
    ensures Passes([ANY.(minLen := Some(lo), maxLen := Some(hi))], ev) <==> lo <= |ev.data| <= hi
    ensures Passes([ANY.(minLen := Some(lo))], ev) <==> lo <= |ev.data|
    ensures Passes([ANY.(maxLen := Some(hi))], ev) <==> |ev.data| <= hi
  {
    hide Matches;
    OneFilter(ANY.(minLen := Some(lo), maxLen := Some(hi)), ev);
    OneFilter(ANY.(minLen := Some(lo)), ev);
    OneFilter(ANY.(maxLen := Some(hi)), ev);
    LengthMatches(ev, lo, hi);
  }

  lemma LengthMatches(ev: BusFrame, lo: nat, hi: nat)
    ensures Matches(ev, ANY.(minLen := Some(lo), maxLen := Some(hi))) <==> lo <= |ev.data| <= hi
    ensures Matches(ev, ANY.(minLen := Some(lo))) <==> lo <= |ev.data|
    ensures Matches(ev, ANY.(maxLen := Some(hi))) <==> |ev.data| <= hi
  {
    hide BitAnd;
  }

  // ---------------------------------------------------------------- masked ids

  function Pow2(k: nat): (p: nat)
    ensures p > 0
  {
    if k == 0 then 1 else 2 * Pow2(k - 1)
  }

  /** Binary digit `k`. */
  function Bit(x: nat, k: nat): nat { if k == 0 then x % 2 else Bit(x / 2, k - 1) }

  lemma {:induction false} BitIsDigit(x: nat, k: nat)
    ensures Bit(x, k) == x / Pow2(k) % 2
    decreases k
  {
    if k > 0 {
      BitIsDigit(x / 2, k - 1);
      HalfThenDivide(x, Pow2(k - 1));
    }
  }

  lemma HalfThenDivide(x: nat, d: nat)
    requires d > 0
    ensures x / (2 * d) == x / 2 / d
  {
    var s := x / 2 / d;
    assert d * s <= x / 2 < d * s + d;
    assert (2 * d) * s == 2 * (d * s);
    DivIs(x, 2 * d, s);
  }

  lemma {:induction false} BitOfAnd(x: nat, y: nat, k: nat)
    ensures Bit(BitAnd(x, y), k) == Bit(x, k) * Bit(y, k)
    decreases k
  {
    if x == 0 {
      NoBits(k);
    } else {
      var r := BitAnd(x, y);
      assert (x % 2) * (y % 2) <= 1;
      assert r / 2 == BitAnd(x / 2, y / 2) && r % 2 == (x % 2) * (y % 2);
      if k > 0 { BitOfAnd(x / 2, y / 2, k - 1); }
    }
  }

  lemma {:induction false} NoBits(k: nat)
    ensures Bit(0, k) == 0
  {
    if k > 0 { NoBits(k - 1); }
  }

  lemma {:induction false} SameBits(x: nat, y: nat, n: nat)
    requires x < Pow2(n) && y < Pow2(n) && forall k :: 0 <= k < n ==> Bit(x, k) == Bit(y, k)
    ensures x == y
    decreases n
  {
    if n > 0 {
      assert Bit(x, 0) == Bit(y, 0);
      forall k | 0 <= k < n - 1 ensures Bit(x / 2, k) == Bit(y / 2, k) { assert Bit(x, k + 1) == Bit(y, k + 1); }
      SameBits(x / 2, y / 2, n - 1);
    }
  }

  lemma {:induction false} AndIsSmaller(x: nat, y: nat)
    ensures BitAnd(x, y) <= x
    decreases x
  {
    if x > 0 {
      AndIsSmaller(x / 2, y / 2);
      assert (x % 2) * (y % 2) <= x % 2;
    }
  }

  /** `x` and `y` agree on the binary digits below `n` that `mask` has set. */
  predicate AgreeOn(x: nat, y: nat, mask: nat, n: nat) {
    forall k :: 0 <= k < n && Bit(mask, k) == 1 ==> Bit(x, k) == Bit(y, k)
  }

  /** Two numbers agree under a mask exactly if they agree on every binary digit the mask has set. */
  lemma AgreeUnderMask(x: nat, y: nat, mask: nat, n: nat)
    requires x < Pow2(n) && y < Pow2(n)
    ensures BitAnd(x, mask) == BitAnd(y, mask) <==> AgreeOn(x, y, mask, n)
  {
    hide BitAnd, Bit, Pow2;
    var a, b := BitAnd(x, mask), BitAnd(y, mask);
    AndIsSmaller(x, mask);
    AndIsSmaller(y, mask);
    forall k ensures Bit(a, k) == Bit(x, k) * Bit(mask, k) && Bit(b, k) == Bit(y, k) * Bit(mask, k) {
      BitOfAnd(x, mask, k);
      BitOfAnd(y, mask, k);
    }
    forall k ensures 0 <= Bit(mask, k) <= 1 { BitIsBinary(mask, k); }
    if AgreeOn(x, y, mask, n) {
      forall k | 0 <= k < n ensures Bit(a, k) == Bit(b, k) {
        if Bit(mask, k) == 0 { assert Bit(a, k) == 0; }
      }
      SameBits(a, b, n);
    }
    if a == b {
      forall k | 0 <= k < n && Bit(mask, k) == 1 ensures Bit(x, k) == Bit(y, k) { assert Bit(a, k) == Bit(b, k); }
    }
  }

  lemma BitIsBinary(x: nat, k: nat)
    ensures 0 <= Bit(x, k) <= 1
  {
    hide Bit;
    BitIsDigit(x, k);
  }

  lemma IdsAreShort(id: u32)
    ensures id < Pow2(32)
  {
    assert Pow2(8) == 0x100;
    assert Pow2(16) == 0x1_0000;
    assert Pow2(24) == 0x100_0000;
    assert Pow2(32) == 0x1_0000_0000;
  }

  /** An id filter lets through exactly the ids that agree with it on every bit of the mask. */
  lemma FilterById(ev: BusFrame, id: u32, mask: u32)
    ensures Passes([ANY.(id := Some(id), idMask := Some(mask))], ev) <==> AgreeOn(ev.id, id, mask, 32)
    ensures Passes([ANY.(id := Some(id))], ev) <==> ev.id == id
    ensures Passes([ANY.(idMask := Some(mask))], ev)
  {
    hide Matches, BitAnd, Bit, Pow2;
    OneFilter(ANY.(id := Some(id), idMask := Some(mask)), ev);
    OneFilter(ANY.(id := Some(id)), ev);
    OneFilter(ANY.(idMask := Some(mask)), ev);
    IdsAreShort(ev.id);
    IdsAreShort(id);
    AgreeUnderMask(ev.id, id, mask, 32);
    IdMatches(ev, id, mask);
    UnmaskedIdIsExact(ev, ANY.(id := Some(id)));
    FieldsAreIndependent(ev, ANY);
  }

  lemma IdMatches(ev: BusFrame, id: u32, mask: u32)
    ensures Matches(ev, ANY.(id := Some(id), idMask := Some(mask))) <==> BitAnd(ev.id, mask) == BitAnd(id, mask)
    ensures Matches(ev, ANY.(idMask := Some(mask)))
  {
    hide BitAnd;
  }

  // ---------------------------------------------------------------- narrower filters, longer lists

  /** `f` asks for all that `g` asks for. */
  predicate Narrower(f: FrameFilter, g: FrameFilter) {
    && (g.iface.Some? ==> f.iface == g.iface) && (g.isFd.Some? ==> f.isFd == g.isFd)
    && (g.id.Some? ==> f.id == g.id && f.idMask == g.idMask)
    && (g.minLen.Some? ==> f.minLen.Some? && f.minLen.value >= g.minLen.value)
    && (g.maxLen.Some? ==> f.maxLen.Some? && f.maxLen.value <= g.maxLen.value)
  }

  /** Raising the lower bound, lowering the upper one or setting a field that was not set lets no more frames through. */
  lemma NarrowerPassesLess(f: FrameFilter, g: FrameFilter, ev: BusFrame)
    requires Narrower(f, g) && Matches(ev, f)
    ensures Matches(ev, g)
  {
    hide BitAnd;
  }

  /** One more filter in a non-empty list blocks nothing, and lets through just what it matches itself; the order of the
      filters does not matter. */
  lemma OneMoreFilter(fs: seq<FrameFilter>, f: FrameFilter, ev: BusFrame)
    requires fs != []
    ensures Passes(fs + [f], ev) <==> Passes(fs, ev) || Passes([f], ev)
    ensures Passes([f] + fs, ev) <==> Passes(fs + [f], ev)
  {
    hide Matches;
    OneFilter(f, ev);
    var a, b := fs + [f], [f] + fs;
    assert a[|fs|] == f && b[0] == f;
    forall i | 0 <= i < |fs| ensures a[i] == fs[i] && b[i + 1] == fs[i] {}
    if Passes(fs, ev) {
      var i :| 0 <= i < |fs| && Matches(ev, fs[i]);
      assert Matches(ev, a[i]) && Matches(ev, b[i + 1]);
    }
    if Matches(ev, f) { assert Matches(ev, a[|fs|]) && Matches(ev, b[0]); }
  }
}

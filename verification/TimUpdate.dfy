/** Refreshing the traffic indication map of the beacon (update_BCNTIM in core/rtw_ap.c). */
module TimUpdate {
  import opened Bytes
  import opened Tlv
  import opened IeBuffer
  import opened BeaconIe

  const RATES: u8 := 1
  const DS: u8 := 3
  const TIM: u8 := 5

  // ---------------------------------------------------------------- the element and its decoder

  /** What the driver writes for tim_bitmap == hi * 256 + lo. */
  function TimData(hi: u8, lo: u8): seq<u8> {
    [0, 1, if Bit(lo, 0) then 1 else 0]
    + (if hi != 0 && lo / 2 != 0 then [lo, hi] else if hi != 0 then [hi] else [lo])
  }

  /** Is traffic buffered for this association id, by section 8.4.2.7 of IEEE Std 802.11-2012: bit 0 of the
      bitmap control is id 0, its bits 1-7 are half the number N1 of the first octet of the partial bitmap,
      and octets not sent are zero. */
  predicate Buffered(data: seq<u8>, aid: nat)
    requires |data| >= 3
  {
    var n1 := data[2] / 2 * 2;
    if aid == 0 then Bit(data[2], 0)
    else n1 <= aid / 8 < n1 + |data| - 3 && Bit(data[3 + aid / 8 - n1], aid % 8)
  }

  lemma {:induction false} BitLow(x: nat, y: nat, i: nat, n: nat, w: nat)
    requires i < n && x < w && w == Pow2(n)
    ensures Bit(y * w + x, i) == Bit(x, i)
  {
    var v := w / 2;
    assert w == 2 * v && (y * w + x) / 2 == y * v + x / 2 && (y * w + x) % 2 == x % 2 by {
      HalfOf(x, y, v);
    }
    if i > 0 {
      BitLow(x / 2, y, i - 1, n - 1, v);
    }
  }

  lemma HalfOf(x: nat, y: nat, v: nat)
    ensures (y * (2 * v) + x) / 2 == y * v + x / 2 && (y * (2 * v) + x) % 2 == x % 2
  {
    assert y * (2 * v) == 2 * (y * v);
  }

  lemma {:induction false} BitHigh(x: nat, y: nat, i: nat, n: nat, w: nat)
    requires n <= i && x < w && w == Pow2(n)
    ensures Bit(y * w + x, i) == Bit(y, i - n)
  {
    if n > 0 {
      var v := w / 2;
      HalfOf(x, y, v);
      BitHigh(x / 2, y, i - 1, n - 1, v);
    }
  }

  lemma {:induction false} SomeBit(x: nat, n: nat) returns (i: nat)
    requires 0 < x < Pow2(n)
    ensures i < n && Bit(x, i)
  {
    if x % 2 == 1 {
      return 0;
    }
    i := SomeBit(x / 2, n - 1);
    i := i + 1;
  }

  lemma {:induction false} ZeroBits(i: nat)
    ensures !Bit(0, i)
  {
    if i > 0 {
      ZeroBits(i - 1);
    }
  }

  lemma WordBits(hi: u8, lo: u8, aid: nat)
    requires aid < 16
    ensures Bit(hi * 256 + lo, aid) == if aid < 8 then Bit(lo, aid) else Bit(hi, aid - 8)
  {
    assert Pow2(8) == 256;
    if aid < 8 {
      BitLow(lo, hi, aid, 8, 256);
    } else {
      BitHigh(lo, hi, aid, 8, 256);
    }
  }

  /** A station reads back the bitmap exactly when its high byte is zero or one of its bits 1 to 7 is set. */
  lemma DecoderReadsBitmapIff(hi: u8, lo: u8)
    ensures (forall aid :: 0 <= aid < 16 ==> Buffered(TimData(hi, lo), aid) == Bit(hi * 256 + lo, aid))
            <==> (hi == 0 || lo / 2 != 0)
    ensures TimData(hi, lo)[0] == 0 < TimData(hi, lo)[1]   // every beacon announces itself as a DTIM
  {
    if hi == 0 || lo / 2 != 0 {
      forall aid | 0 <= aid < 16 ensures Buffered(TimData(hi, lo), aid) == Bit(hi * 256 + lo, aid) {
        Readable(hi, lo, aid);
      }
    } else {
      assert Pow2(8) == 256;
      var i := SomeBit(hi, 8);
      WordBits(hi, lo, i + 8);
      assert !Buffered(TimData(hi, lo), i + 8);
    }
  }

  lemma Readable(hi: u8, lo: u8, aid: nat)
    requires (hi == 0 || lo / 2 != 0) && aid < 16
    ensures Buffered(TimData(hi, lo), aid) == Bit(hi * 256 + lo, aid)
  {
    WordBits(hi, lo, aid);
    var d := TimData(hi, lo);
    assert d[2] / 2 == 0;
    if aid >= 8 && hi == 0 {
      ZeroBits(aid - 8);
    }
  }

  // ---------------------------------------------------------------- on the element list

  predicate HasTim(es: seq<Rec>) {
    var n := First(es, TIM, []);
    n < |es| && es[n].data != []
  }

  /** Where the element goes when there is none with data: behind the SSID and the rates, wherever
      those are, and the three bytes of a DS parameter set, whether or not there is one. */
  function TimOffset(es: seq<Rec>): nat {
    var s, r := First(es, SSID, []), First(es, RATES, []);
    FIXED + (if s < |es| then |es[s].data| + 2 else 0) + (if r < |es| then |es[r].data| + 2 else 0) + 3
  }

  /** k is where the update takes place: on the old element, or on the boundary in front of element k. */
  predicate TimAt(es: seq<Rec>, k: nat)
    requires AllOk(Element, es)
  {
    k <= |es| && if HasTim(es) then k == First(es, TIM, []) else ElemPos(FIXED, es, k) == TimOffset(es)
  }

  function WithTim(es: seq<Rec>, k: nat, hi: u8, lo: u8): seq<Rec>
    requires k <= |es|
  {
    es[..k] + [Rec(TIM, TimData(hi, lo))] + (if HasTim(es) && k < |es| then es[k + 1..] else es[k..])
  }

  /** All other elements keep their bytes and order.  Exactly one map remains if there was one with data, or none. */
  lemma TimKeepsOthers(es: seq<Rec>, k: nat, hi: u8, lo: u8)
    requires AllOk(Element, es) && TimAt(es, k)
    ensures var new' := WithTim(es, k, hi, lo);
            && Without(new', TIM, []) == Without(es, TIM, [])
            && Count(new', TIM) == Count(es, TIM) + (if HasTim(es) then 0 else 1)
            && (Count(new', TIM) == 1 <==> (HasTim(es) && Count(es, TIM) == 1) || Count(es, TIM) == 0)
            && new'[k] == Rec(TIM, TimData(hi, lo))
  {
    OneExchanged(es, k, if HasTim(es) then k + 1 else k, Rec(TIM, TimData(hi, lo)));
    if HasTim(es) {
      CountSome(es, TIM, k);
    }
  }

  /** A second update replaces what the first one wrote; with the same bitmap it changes nothing. */
  lemma TimTwice(es: seq<Rec>, k: nat, hi: u8, lo: u8, hi': u8, lo': u8)
    requires AllOk(Element, es) && TimAt(es, k) && (HasTim(es) || k <= First(es, TIM, []))
    ensures var once := WithTim(es, k, hi, lo);
            AllOk(Element, once) && TimAt(once, k) && WithTim(once, k, hi', lo') == WithTim(es, k, hi', lo')
  {
    var once := WithTim(es, k, hi, lo);
    FirstIs(once, TIM, [], k);
    assert once[..k] == es[..k];
    assert once[k + 1..] == if HasTim(es) then es[k + 1..] else es[k..];
  }

  /** Where an inserted element leaves the first one of another id, or of its own in front. */
  lemma FirstInserted(es: seq<Rec>, k: nat, r: Rec, id: nat)
    requires k <= |es| && (r.id != id || First(es, id, []) < k)
    ensures var n, new' := First(es, id, []), es[..k] + [r] + es[k..];
            First(new', id, []) == if n < k then n else n + 1
  {
    var n, new' := First(es, id, []), es[..k] + [r] + es[k..];
    FirstIs(new', id, [], if n < k then n else n + 1);
  }

  /** An update is repeated without effect exactly if there was a map with data, or no empty one in front of the place. */
  lemma TimTwiceIff(es: seq<Rec>, k: nat, hi: u8, lo: u8)
    requires AllOk(Element, es) && TimAt(es, k)
    ensures var once := WithTim(es, k, hi, lo);
            && AllOk(Element, once) && TimAt(once, k)
            && (WithTim(once, k, hi, lo) == once <==> HasTim(es) || k <= First(es, TIM, []))
  {
    if HasTim(es) || k <= First(es, TIM, []) {
      TimTwice(es, k, hi, lo, hi, lo);
      hide TimAt, WithTim;
    } else {
      InsertedAgain(es, k, hi, lo);
      hide TimAt, WithTim;
    }
  }

  lemma InsertedAgain(es: seq<Rec>, k: nat, hi: u8, lo: u8)
    requires AllOk(Element, es) && TimAt(es, k) && !HasTim(es) && First(es, TIM, []) < k
    ensures var once := WithTim(es, k, hi, lo);
            AllOk(Element, once) && TimAt(once, k) && |WithTim(once, k, hi, lo)| == |once| + 1
  {
    var r := Rec(TIM, TimData(hi, lo));
    var once := WithTim(es, k, hi, lo);
    OffsetKept(es, k, r);
    FirstInserted(es, k, r, TIM);
    SamePrefixOf(es, k, r);
    PosBefore(es, k, r);
    hide First, Ser, TimData, TimOffset, AllOk, Pos;
  }

  lemma PosBefore(es: seq<Rec>, k: nat, r: Rec)
    requires AllOk(Element, es) && k <= |es| && RecOk(Element, r.id, |r.data|)
    ensures var once := es[..k] + [r] + es[k..];
            AllOk(Element, once) && ElemPos(FIXED, once, k) == ElemPos(FIXED, es, k)
  {
    SamePrefixOf(es, k, r);
    hide Ser;
  }

  lemma SamePrefixOf(es: seq<Rec>, k: nat, r: Rec)
    requires k <= |es|
    ensures var once := es[..k] + [r] + es[k..];
            once[..k] == es[..k] && forall i :: 0 <= i < k ==> once[i] == es[i]
  {
  }

  /** The guess looks at other elements only. */
  lemma OffsetKept(es: seq<Rec>, k: nat, r: Rec)
    requires k <= |es| && r.id == TIM
    ensures TimOffset(es[..k] + [r] + es[k..]) == TimOffset(es)
  {
    FirstInserted(es, k, r, SSID);
    FirstInserted(es, k, r, RATES);
    hide First;
  }

  /** The layout the driver itself builds for 2.4 GHz: the element goes behind the DS parameter set. */
  lemma UsualLayout(es: seq<Rec>)
    requires AllOk(Element, es) && |es| >= 3 && !HasTim(es)
    requires es[0].id == SSID && es[1].id == RATES && es[2].id == DS && |es[2].data| == 1
    ensures TimAt(es, 3)
  {
    FirstIs(es, SSID, [], 0);
    FirstIs(es, RATES, [], 1);
    hide Ser;
    PosStart(Element, es);
    PosNext(Element, es, 0);
    PosNext(Element, es, 1);
    PosNext(Element, es, 2);
  }

  /** A one-letter SSID, one rate, and a country element where a DS parameter set is expected. */
  function NoDs(): seq<Rec> {
    [Rec(SSID, [65]), Rec(RATES, [2]), Rec(7, [85, 83, 32, 1, 11, 20])]
  }

  lemma NoDsBytes()
    ensures AllOk(Element, NoDs()) && Ser(Element, NoDs()) == [0, 1, 65, 1, 1, 2, 7, 6, 85, 83, 32, 1, 11, 20]
  {
    var a, b, c := NoDs()[0], NoDs()[1], NoDs()[2];
    SerSingle(Element, a);
    SerSingle(Element, b);
    SerSingle(Element, c);
    hide Ser;
    SerAppend(Element, [a], [b]);
    SerAppend(Element, [a] + [b], [c]);
    assert [a] + [b] + [c] == NoDs();
  }

  /** Without a DS parameter set the guess can fall inside the next element and the beacon falls apart. */
  lemma NoDsBreaksBeacon()
    ensures AllOk(Element, NoDs()) && TimOffset(NoDs()) - FIXED == 9 < Size(NoDs())
    ensures var b := Ser(Element, NoDs());
            !Tiles(Element, b[..9] + [TIM, 4] + TimData(0, 0) + b[9..])
  {
    FirstIs(NoDs(), SSID, [], 0);
    FirstIs(NoDs(), RATES, [], 1);
    NoDsBytes();
    assert TimData(0, 0) == [0, 1, 0, 0];
    hide Ser, TimData, Tiles;
    var b := Ser(Element, NoDs());
    var c := b[..9] + [TIM, 4] + TimData(0, 0) + b[9..];
    assert c == [0, 1, 65, 1, 1, 2, 7, 6, 85, 5, 4, 0, 1, 0, 0, 83, 32, 1, 11, 20];
    BrokenTail(c);
  }

  lemma BrokenTail(c: seq<u8>)
    requires c == [0, 1, 65, 1, 1, 2, 7, 6, 85, 5, 4, 0, 1, 0, 0, 83, 32, 1, 11, 20]
    ensures !Tiles(Element, c)
  {
    NextTile(c, 3, 1);
    NextTile(c[3..], 3, 1);
    NextTile(c[3..][3..], 8, 6);
    NextTile(c[3..][3..][8..], 85, 83);
  }

  lemma NextTile(b: seq<u8>, n: nat, len: u8)
    requires |b| >= 2 && b[1] == len && n == 2 + len
    ensures Tiles(Element, b) <==> n <= |b| && Tiles(Element, b[n..])
  {}

  // ---------------------------------------------------------------- on the bytes

  /** The old element with data, as a range of positions; empty at the guessed place if there is none. */
  function TimFrom(es: seq<Rec>): nat
    requires AllOk(Element, es)
  {
    if HasTim(es) then ElemPos(FIXED, es, First(es, TIM, [])) else TimOffset(es)
  }

  function TimTo(es: seq<Rec>): nat
    requires AllOk(Element, es)
  {
    TimFrom(es) + if HasTim(es) then 2 + |es[First(es, TIM, [])].data| else 0
  }

  function Tim(hi: u8, lo: u8): (w: seq<u8>)
    ensures 6 <= |w| <= 7
  {
    SerOne(Element, Rec(TIM, TimData(hi, lo)))
  }

  /** The buffer of a BSS entry, with room for one more map. */
  predicate Roomy(f: seq<u8>, es: seq<Rec>)
    requires AllOk(Element, es)
  {
    FIXED + Size(es) + 7 <= |f| && MAX_IE_SZ <= |f|
  }

  lemma TimFits(es: seq<Rec>)
    requires AllOk(Element, es)
    ensures TimOffset(es) + 7 <= MAX_IE_SZ && FIXED <= TimFrom(es)
    ensures HasTim(es) ==> TimTo(es) <= FIXED + Size(es)
  {
    if HasTim(es) {
      var n := First(es, TIM, []);
      PosNext(Element, es, n);
      PosEnd(Element, es, n + 1);
    }
  }

  /** The buffer after the update.  If the guess lies behind the end, the 32-bit length of the remainder wraps, the
      allocation of that many bytes fails, and nothing is copied behind the element. */
  function Updated(f: seq<u8>, es: seq<Rec>, hi: u8, lo: u8): (g: seq<u8>)
    requires AllOk(Element, es) && Roomy(f, es)
    ensures |g| == |f|
  {
    TimFits(es);
    var end, q := FIXED + Size(es), TimTo(es);
    Written(f, TimFrom(es), Tim(hi, lo) + if q <= end then f[q..end] else [])
  }

  function UpdatedLength(es: seq<Rec>, hi: u8, lo: u8): int
    requires AllOk(Element, es)
  {
    FIXED + Size(es) + |Tim(hi, lo)| - (TimTo(es) - TimFrom(es))
  }

  /** On an element boundary the bytes become the list with the map replaced or inserted. */
  lemma UpdatedAtBoundary(f: seq<u8>, es: seq<Rec>, k: nat, hi: u8, lo: u8)
    requires Has(f, FIXED, es) && Roomy(f, es) && TimAt(es, k)
    ensures var g, now := Updated(f, es, hi, lo), WithTim(es, k, hi, lo);
            Has(g, FIXED, now) && UpdatedLength(es, hi, lo) == FIXED + Size(now) && g[..FIXED] == f[..FIXED]
  {
    var r, m := Rec(TIM, TimData(hi, lo)), if HasTim(es) then k + 1 else k;
    TimPlace(es, k, m);
    SerSingle(Element, r);
    assert WithTim(es, k, hi, lo) == es[..k] + [r] + es[m..] && Tim(hi, lo) == Ser(Element, [r]);
    hide Ser, TimData, TimOffset, First, Has, HasTim, WithTim, TimFrom, TimTo, Pos;
    ReplacedTim(f, es, k, m, r, TimFrom(es), TimTo(es), FIXED + Size(es));
  }

  lemma TimPlace(es: seq<Rec>, k: nat, m: nat)
    requires AllOk(Element, es) && TimAt(es, k) && m == if HasTim(es) then k + 1 else k
    ensures m <= |es| && TimFrom(es) == ElemPos(FIXED, es, k) && TimTo(es) == ElemPos(FIXED, es, m)
  {
    hide Ser, TimOffset;
    if HasTim(es) {
      PosNext(Element, es, k);
    }
  }

  lemma ReplacedTim(f: seq<u8>, es: seq<Rec>, k: nat, m: nat, r: Rec, p: nat, q: nat, end: nat)
    requires Has(f, FIXED, es) && k <= m <= |es| && AllOk(Element, [r]) && Size([r]) <= 7 && end + 7 <= |f|
    requires p == ElemPos(FIXED, es, k) && q == ElemPos(FIXED, es, m) && end == FIXED + Size(es)
    ensures p <= q <= end && AllOk(Element, es[..k] + [r] + es[m..])
    ensures var now, g := es[..k] + [r] + es[m..], Written(f, p, Ser(Element, [r]) + f[q..end]);
            Has(g, FIXED, now) && FIXED + Size(now) == end + Size([r]) - (q - p) && g[..FIXED] == f[..FIXED]
  {
    hide Ser, Has;
    HasBytes(f, FIXED, es);
    Splice(Element, es, k, m, [r]);
    Replaced(f, es, k, m, [r], p, q, end);
  }

  /** A guess behind the end: the beacon grows by the size of the element, but over the stale bytes behind it;
      the element itself begins later and is not contained in the beacon. */
  lemma GuessBehindEnd(f: seq<u8>, es: seq<Rec>, hi: u8, lo: u8)
    requires AllOk(Element, es) && Roomy(f, es) && !HasTim(es) && FIXED + Size(es) < TimOffset(es)
    ensures var g, len, at, n := Updated(f, es, hi, lo), UpdatedLength(es, hi, lo), TimOffset(es), |Tim(hi, lo)|;
            && len == FIXED + Size(es) + n < at + n <= |f|
            && g[at..at + n] == Tim(hi, lo) && g[..at] == f[..at]
  {
    TimFits(es);
    hide Tim, TimOffset, Ser;
    assert Tim(hi, lo) + [] == Tim(hi, lo);
  }

  // ---------------------------------------------------------------- the same, written out

  /** The bytes of the element: length 5 and both bitmap bytes if the high one is not zero and a bit of the low one
      above bit 0 is set; otherwise length 4 and the high byte, or the low one if the high one is zero. */
  lemma TimBytes(hi: u8, lo: u8)
    ensures hi != 0 && lo >= 2 ==> Tim(hi, lo) == [5, 5, 0, 1, lo % 2, lo, hi]
    ensures hi != 0 && lo < 2 ==> Tim(hi, lo) == [5, 4, 0, 1, lo % 2, hi]
    ensures hi == 0 ==> Tim(hi, lo) == [5, 4, 0, 1, lo % 2, lo]
  {}

  /** The range replaced is the first map if that has data ... */
  lemma MapIsReplaced(es: seq<Rec>, n: nat)
    requires AllOk(Element, es) && n < |es| && es[n].id == 5 && es[n].data != [] && forall i :: 0 <= i < n ==> es[i].id != 5
    ensures TimFrom(es) == 12 + Pos(Element, es, n) && TimTo(es) == TimFrom(es) + 2 + |es[n].data|
  {
    FirstIs(es, 5, [], n);
    hide First, Ser, Pos;
  }

  /** ... and else empty, behind the fixed part, the sizes of the first SSID and the first rates as far as they exist,
      and three bytes. */
  lemma PlaceIsGuessed(es: seq<Rec>, ssid: nat, rates: nat)
    requires AllOk(Element, es) && ssid <= |es| && rates <= |es|
    requires (ssid < |es| ==> es[ssid].id == 0) && forall i :: 0 <= i < ssid ==> es[i].id != 0
    requires (rates < |es| ==> es[rates].id == 1) && forall i :: 0 <= i < rates ==> es[i].id != 1
    requires forall n :: 0 <= n < |es| && es[n].id == 5 && (forall i :: 0 <= i < n ==> es[i].id != 5) ==> es[n].data == []
    ensures TimFrom(es) == TimTo(es)
            == 12 + (if ssid < |es| then |es[ssid].data| + 2 else 0) + (if rates < |es| then |es[rates].data| + 2 else 0) + 3
  {
    FirstIs(es, 0, [], ssid);
    FirstIs(es, 1, [], rates);
    NoMap(es);
    hide First, Ser, Pos, HasTim;
  }

  lemma NoMap(es: seq<Rec>)
    requires forall n :: 0 <= n < |es| && es[n].id == 5 && (forall i :: 0 <= i < n ==> es[i].id != 5) ==> es[n].data == []
    ensures !HasTim(es)
  {
    FirstById(es, 5);
    var n := First(es, 5, []);
    if n < |es| {
      assert es[n].id == 5;
      assert forall i :: 0 <= i < n ==> es[i].id != 5 by {
        assert forall i :: 0 <= i < n ==> !Matches(es[i], 5, []);
      }
    }
    hide First;
  }

  /** What the buffer holds afterwards if the range lies inside the elements: the element in its place, and what was
      behind the range behind it. */
  lemma UpdatedBytes(f: seq<u8>, es: seq<Rec>, hi: u8, lo: u8)
    requires AllOk(Element, es) && Roomy(f, es) && TimTo(es) <= FIXED + Size(es)
    ensures var g, w, p, q, end := Updated(f, es, hi, lo), Tim(hi, lo), TimFrom(es), TimTo(es), 12 + |Ser(Element, es)|;
            && |g| == |f| && p <= q <= end && p + |w| + (end - q) <= |f|
            && g[..p] == f[..p] && g[p..p + |w|] == w && g[p + |w|..p + |w| + (end - q)] == f[q..end]
            && UpdatedLength(es, hi, lo) == p + |w| + (end - q)
  {
    TimFits(es);
    var w, p, q, end := Tim(hi, lo), TimFrom(es), TimTo(es), FIXED + Size(es);
    var g := Updated(f, es, hi, lo);
    hide Ser, Tim, TimOffset, HasTim, TimFrom, TimTo;
    WrittenParts(f, p, w, f[q..end]);
  }

  lemma WrittenParts(f: seq<u8>, p: nat, w: seq<u8>, x: seq<u8>)
    requires p + |w| + |x| <= |f|
    ensures var g := Written(f, p, w + x); g[..p] == f[..p] && g[p..p + |w|] == w && g[p + |w|..p + |w| + |x|] == x
  {}

  // ---------------------------------------------------------------- when the guess works

  /** After the update the beacon is the old one with the map inserted in front of element k. */
  ghost predicate Becomes(f: seq<u8>, es: seq<Rec>, k: nat, hi: u8, lo: u8)
    requires AllOk(Element, es) && Roomy(f, es)
  {
    && k <= |es|
    && var now := es[..k] + [Rec(TIM, TimData(hi, lo))] + es[k..];
       Has(Updated(f, es, hi, lo), FIXED, now) && UpdatedLength(es, hi, lo) == FIXED + Size(now)
  }

  ghost predicate Inserts(f: seq<u8>, es: seq<Rec>, hi: u8, lo: u8)
    requires AllOk(Element, es) && Roomy(f, es)
  {
    exists k: nat :: Becomes(f, es, k, hi, lo)
  }

  /** The bytes of the element for a small even bitmap. */
  lemma SmallTim(lo: u8)
    requires lo == 2 || lo == 6
    ensures Tim(0, lo) == [5, 4, 0, 1, 0, lo]
  {
    assert !Bit(lo, 0);
  }

  lemma SmallTimEnds(lo: u8)
    requires lo == 2 || lo == 6
    ensures |Tim(0, lo)| == 6 && Tim(0, lo)[0] == TIM && Tim(0, lo)[5] == lo && lo !in Tim(0, lo)[..5]
  {
    SmallTim(lo);
  }

  lemma InsertedBytes(ser: seq<u8>, w: seq<u8>, o: nat)
    requires o <= |ser|
    ensures var x := ser[..o] + w + ser[o..];
            && |x| == |ser| + |w|
            && (forall i :: 0 <= i < o ==> x[i] == ser[i])
            && (forall i :: o <= i < o + |w| ==> x[i] == w[i - o])
  {}

  /** Bytes with an element written at o that read as the same element inserted at p. */
  lemma WrittenElsewhere(ser: seq<u8>, w: seq<u8>, o: nat, p: nat)
    requires |w| == 6 && o <= |ser| && p <= |ser| && o != p
    requires ser[..o] + w + ser[o..] == ser[..p] + w + ser[p..]
    requires p < |ser| ==> ser[p] != w[0]
    requires w[5] !in w[..5]
    ensures o + 5 < |ser| && ser[o + 5] == w[5]
  {
    InsertedBytes(ser, w, o);
    InsertedBytes(ser, w, p);
    var x := ser[..o] + w + ser[o..];
    assert x[p] == w[0] && x[o + 5] == w[5];
  }

  /** The same for an element written behind the end. */
  lemma CutOff(f: seq<u8>, g: seq<u8>, ser: seq<u8>, w: seq<u8>, o: nat, p: nat)
    requires |w| == 6 && FIXED + |ser| < o && o + 6 <= |f| && f[FIXED..FIXED + |ser|] == ser && p <= |ser|
    requires g == Written(f, o, w) && g[FIXED..FIXED + |ser| + 6] == ser[..p] + w + ser[p..]
    requires p < |ser| ==> ser[p] != w[0]
    requires w[5] !in w[..5]
    ensures f[FIXED + |ser| + 5] == w[5]
  {
    var end := FIXED + |ser|;
    InsertedBytes(ser, w, p);
    var r := g[FIXED..end + 6];
    assert r[p] == w[0] && r[p + 5] == w[5];
    StaleBytes(f, g, ser, w, o);
  }

  lemma StaleBytes(f: seq<u8>, g: seq<u8>, ser: seq<u8>, w: seq<u8>, o: nat)
    requires |w| == 6 && FIXED + |ser| < o && o + 6 <= |f| && f[FIXED..FIXED + |ser|] == ser && g == Written(f, o, w)
    ensures var end := FIXED + |ser|;
            && (forall i :: 0 <= i < |ser| ==> g[FIXED..end + 6][i] == ser[i])
            && g[FIXED..end + 6][|ser| + 5] == if end + 5 < o then f[end + 5] else w[end + 5 - o]
  {
    assert forall i {:trigger ser[i]} :: 0 <= i < |ser| ==> ser[i] == f[FIXED + i];
  }

  lemma ChanceBytes(f: seq<u8>, g: seq<u8>, ser: seq<u8>, w: seq<u8>, o: nat, p: nat)
    requires |w| == 6 && FIXED + |ser| + 7 <= |f| && FIXED <= o && o + 6 <= |f| && f[FIXED..FIXED + |ser|] == ser
    requires p <= |ser| && FIXED + p != o
    requires g == Written(f, o, w + if o <= FIXED + |ser| then f[o..FIXED + |ser|] else [])
    requires g[FIXED..FIXED + |ser| + 6] == ser[..p] + w + ser[p..]
    requires p < |ser| ==> ser[p] != w[0]
    requires w[5] !in w[..5]
    ensures f[(if o <= FIXED + |ser| then o else FIXED + |ser|) + 5] == w[5]
  {
    var end := FIXED + |ser|;
    if o <= end {
      SplicedBytes(f, ser, w, o, o, end);
      WrittenElsewhere(ser, w, o - FIXED, p);
      assert f[FIXED..end][o - FIXED + 5] == f[o + 5];
    } else {
      assert w + [] == w;
      CutOff(f, g, ser, w, o, p);
    }
  }

  /** Where the buffer must hold the bitmap already for the bytes to be a list by chance. */
  function ChanceAt(es: seq<Rec>): (x: nat)
    requires AllOk(Element, es)
    ensures x <= FIXED + Size(es) + 5
  {
    (if TimOffset(es) <= FIXED + Size(es) then TimOffset(es) else FIXED + Size(es)) + 5
  }

  /** A list with the element inserted, as bytes; no other element begins with its id. */
  lemma InsertedList(g: seq<u8>, es: seq<Rec>, k: nat, lo: u8)
    requires AllOk(Element, es) && (lo == 2 || lo == 6) && First(es, TIM, []) == |es| && k <= |es|
    requires Has(g, FIXED, es[..k] + [Rec(TIM, TimData(0, lo))] + es[k..])
    ensures var ser, w, p := Ser(Element, es), Tim(0, lo), Pos(Element, es, k);
            && p <= |ser| && FIXED + |ser| + 6 <= |g|
            && g[FIXED..FIXED + |ser| + 6] == ser[..p] + w + ser[p..]
            && (p < |ser| ==> ser[p] != TIM)
  {
    var ser, r := Ser(Element, es), Rec(TIM, TimData(0, lo));
    SmallTimEnds(lo);
    SerSingle(Element, r);
    hide Ser, TimData, Bit;
    Splice(Element, es, k, k, [r]);
    PosEnd(Element, es, k);
    if k < |es| {
      AtRecordIn(Element, ser, 0, es, k);
    }
  }

  /** Off the boundaries it takes a matching byte in the old buffer. */
  lemma ChanceNeeded(f: seq<u8>, es: seq<Rec>, k: nat, lo: u8)
    requires Has(f, FIXED, es) && Roomy(f, es) && First(es, TIM, []) == |es|
    requires (lo == 2 || lo == 6) && Becomes(f, es, k, 0, lo) && !TimAt(es, k)
    ensures f[ChanceAt(es)] == lo
  {
    hide *;
    HasBytes(f, FIXED, es);
    Unpacked(f, es, k, lo);
    NotAt(es, k);
    var end := FIXED + |Ser(Element, es)|;
    ChanceBytesOf(f, es, k, lo, TimOffset(es), end);
    ChanceAtIs(es, TimOffset(es), end);
  }

  lemma ChanceBytesOf(f: seq<u8>, es: seq<Rec>, k: nat, lo: u8, o: nat, end: nat)
    requires AllOk(Element, es) && Roomy(f, es) && First(es, TIM, []) == |es| && k <= |es| && (lo == 2 || lo == 6)
    requires Has(Updated(f, es, 0, lo), FIXED, es[..k] + [Rec(TIM, TimData(0, lo))] + es[k..])
    requires o == TimOffset(es) != FIXED + Pos(Element, es, k)
    requires end == FIXED + |Ser(Element, es)| <= |f| && f[FIXED..end] == Ser(Element, es)
    ensures FIXED <= o <= |f| && end + 7 <= |f| && f[(if o <= end then o else end) + 5] == lo
  {
    hide *;
    InsertedList(Updated(f, es, 0, lo), es, k, lo);
    SmallTimEnds(lo);
    WithoutTim(f, es, lo);
    ChanceBytes(f, Updated(f, es, 0, lo), Ser(Element, es), Tim(0, lo), o, Pos(Element, es, k));
  }

  lemma Unpacked(f: seq<u8>, es: seq<Rec>, k: nat, lo: u8)
    requires AllOk(Element, es) && Roomy(f, es) && Becomes(f, es, k, 0, lo)
    ensures k <= |es| && Has(Updated(f, es, 0, lo), FIXED, es[..k] + [Rec(TIM, TimData(0, lo))] + es[k..])
  {}

  lemma NotAt(es: seq<Rec>, k: nat)
    requires AllOk(Element, es) && First(es, TIM, []) == |es| && k <= |es| && !TimAt(es, k)
    ensures FIXED + Pos(Element, es, k) != TimOffset(es)
  {
    hide Ser, First, TimOffset, Pos;
  }

  lemma WithoutTim(f: seq<u8>, es: seq<Rec>, lo: u8)
    requires AllOk(Element, es) && Roomy(f, es) && First(es, TIM, []) == |es|
    ensures var o, end := TimOffset(es), FIXED + |Ser(Element, es)|;
            && end + 7 <= |f| && FIXED <= o && o + 7 <= |f|
            && Updated(f, es, 0, lo) == Written(f, o, Tim(0, lo) + if o <= end then f[o..end] else [])
  {
    TimFits(es);
    hide Ser, First, Tim, TimOffset, Pos;
  }

  lemma ChanceAtIs(es: seq<Rec>, o: nat, end: nat)
    requires AllOk(Element, es) && o == TimOffset(es) && end == FIXED + |Ser(Element, es)|
    ensures ChanceAt(es) == (if o <= end then o else end) + 5
  {
    hide Ser, TimOffset;
  }

  lemma OneBitmapFails(f: seq<u8>, es: seq<Rec>)
    requires Has(f, FIXED, es) && Roomy(f, es) && First(es, TIM, []) == |es|
    requires forall k: nat :: !TimAt(es, k)
    ensures exists hi: u8, lo: u8 :: !Inserts(f, es, hi, lo)
  {
    var lo: u8 := if f[ChanceAt(es)] == 2 then 6 else 2;
    assert AllOk(Element, es);
    hide AllOk, Has, Roomy, ChanceAt, Becomes, TimAt, First;
    if Inserts(f, es, 0, lo) {
      var k: nat :| Becomes(f, es, k, 0, lo);
      ChanceNeeded(f, es, k, lo);
    }
  }

  lemma BoundaryWorks(f: seq<u8>, es: seq<Rec>, k: nat, hi: u8, lo: u8)
    requires Has(f, FIXED, es) && Roomy(f, es) && First(es, TIM, []) == |es| && TimAt(es, k)
    ensures Becomes(f, es, k, hi, lo)
  {
    UpdatedAtBoundary(f, es, k, hi, lo);
    hide Updated, UpdatedLength, Ser, TimData, TimOffset, First;
  }

  /** For a beacon without a map: every bitmap is inserted as an element exactly if the guess falls on an element
      boundary.  (For a single bitmap off a boundary the bytes can match by chance.) */
  lemma GuessWorksIff(f: seq<u8>, es: seq<Rec>)
    requires Has(f, FIXED, es) && Roomy(f, es) && First(es, TIM, []) == |es|
    ensures (forall hi: u8, lo: u8 :: Inserts(f, es, hi, lo))
            <==> exists k: nat :: TimAt(es, k)
  {
    assert AllOk(Element, es);
    hide AllOk, Has, Roomy, Becomes, TimAt, First;
    if k: nat :| TimAt(es, k) {
      forall hi: u8, lo: u8 ensures Inserts(f, es, hi, lo) {
        BoundaryWorks(f, es, k, hi, lo);
      }
    } else {
      OneBitmapFails(f, es);
    }
  }

  // ---------------------------------------------------------------- on the buffer

  method BuildTim(hi: u8, lo: u8) returns (w: seq<u8>)
    ensures w == Tim(hi, lo)
  {
    var timIelen := if hi != 0 && lo / 2 != 0 then 5 else 4;
    w := [TIM, timIelen, 0, 1, if lo % 2 == 1 then 1 else 0];
    if timIelen == 4 {
      w := w + if hi != 0 then [hi] else [lo];
    } else {
      w := w + [lo, hi];
    }
  }

  /** The else branch: guess the place from the lengths of the SSID and the rates. */
  method GuessOffset(a: array<u8>, ieLength: nat, ghost es: seq<Rec>) returns (offset: nat)
    requires Has(a[..], FIXED, es) && ieLength == FIXED + Size(es)
    ensures offset == TimOffset(es)
  {
    hide Ser;
    offset := FIXED;
    var p, len := GetIe(a, FIXED, SSID, ieLength - FIXED, es);
    if p.Some? {
      offset := offset + len + 2;
    }
    p, len := GetIe(a, FIXED, RATES, ieLength - FIXED, es);
    if p.Some? {
      offset := offset + len + 2;
    }
    offset := offset + 3;
  }

  /** update_BCNTIM, for any list of elements. */
  method UpdateTim(a: array<u8>, ieLength: nat, hi: u8, lo: u8, ghost es: seq<Rec>) returns (newLength: nat)
    requires Has(a[..], FIXED, es) && ieLength == FIXED + Size(es) && Roomy(a[..], es)
    modifies a
    ensures a[..] == Updated(old(a[..]), es, hi, lo) && newLength == UpdatedLength(es, hi, lo)
  {
    TimFits(es);
    var dst, remainder := FindTim(a, ieLength, es);
    var w := BuildTim(hi, lo);
    hide Ser, Has, TimFrom, TimTo, TimOffset, HasTim, Tim;
    if remainder <= ieLength {
      newLength := ReplaceRange(a, dst, w, remainder, ieLength);
    } else {
      Overwrite(a, dst, w);
      assert w + [] == w;
      newLength := (dst + |w| + (ieLength - remainder) % 0x1_0000_0000) % 0x1_0000_0000;
      WrappedSum(dst + |w|, ieLength - remainder);
    }
  }

  /** Where to write, and what follows. */
  method FindTim(a: array<u8>, ieLength: nat, ghost es: seq<Rec>) returns (dst: nat, remainder: nat)
    requires Has(a[..], FIXED, es) && ieLength == FIXED + Size(es)
    ensures dst == TimFrom(es) && remainder == TimTo(es)
    ensures remainder > ieLength ==> dst == remainder
  {
    TimFits(es);
    hide Ser, Has, First, TimOffset;
    var p, timIelen := GetIe(a, FIXED, TIM, ieLength - FIXED, es);
    if p.Some? && timIelen > 0 {
      dst, remainder := p.value, p.value + timIelen + 2;
    } else {
      dst := GuessOffset(a, ieLength, es);
      remainder := dst;
    }
  }

  /** The wrapped remainder and the wrapped sum cancel. */
  lemma WrappedSum(x: nat, d: int)
    requires -0x1_0000_0000 < d < 0 && 0 <= x + d && x < 0x1_0000_0000
    ensures (x + d % 0x1_0000_0000) % 0x1_0000_0000 == x + d
  {}
}

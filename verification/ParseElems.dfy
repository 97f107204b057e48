/** The checked parser of management frame bodies (core/rtw_ieee80211.c) and its agreement with the
    unchecked search. */
module ParseElems {
  import opened Bytes
  import opened Tlv
  import opened IeBuffer
  import opened BeaconIe

  const VENDOR_SPECIFIC: nat := 221

  datatype ParseRes = ParseOK | ParseUnknown | ParseFailed

  /** The pointer fields of struct rtw_ieee802_11_elems. */
  datatype Field = ById(id: nat) | Wpa | Wme | WmeTspec | Wps | VendorHtCap

  /** A field that is set: where the element's data starts, and its length. */
  datatype Span = Span(pos: nat, len: nat)

  predicate Known(id: nat) {
    id in {0, 1, 2, 3, 4, 5, 6, 16, 33, 36, 42, 45, 48, 50, 54, 55, 56, 61, 191, 192, 199}
  }

  function VendorField(d: seq<u8>): Option<Field> {
    if |d| < 4 then None
    else if d[..3] == [0x00, 0x50, 0xF2] then
      match d[3]
      case 1 => Some(Wpa)
      case 2 => if |d| < 5 then None else if d[4] == 0 || d[4] == 1 then Some(Wme) else if d[4] == 2 then Some(WmeTspec) else None
      case 4 => Some(Wps)
      case _ => None
    else if d[..3] == [0x00, 0x90, 0x4C] && d[3] == 0x33 then Some(VendorHtCap)
    else None
  }

  /** Which field an element sets; none if the parser counts it as unknown. */
  function FieldOf(r: Rec): Option<Field> {
    if r.id == VENDOR_SPECIFIC then VendorField(r.data) else if Known(r.id) then Some(ById(r.id)) else None
  }

  /** Which elements set which field. */
  lemma FieldTable(r: Rec)
    ensures var d := r.data;
            var microsoft := r.id == 221 && |d| >= 4 && d[0] == 0x00 && d[1] == 0x50 && d[2] == 0xF2;
            && (FieldOf(r) == Some(Wpa) <==> microsoft && d[3] == 1)
            && (FieldOf(r) == Some(Wps) <==> microsoft && d[3] == 4)
            && (FieldOf(r) == Some(Wme) <==> microsoft && d[3] == 2 && |d| >= 5 && (d[4] == 0 || d[4] == 1))
            && (FieldOf(r) == Some(WmeTspec) <==> microsoft && d[3] == 2 && |d| >= 5 && d[4] == 2)
            && (FieldOf(r) == Some(VendorHtCap) <==>
                  r.id == 221 && |d| >= 4 && d[0] == 0x00 && d[1] == 0x90 && d[2] == 0x4C && d[3] == 0x33)
    ensures forall id :: FieldOf(r) == Some(ById(id)) <==>
              r.id == id && id in {0, 1, 2, 3, 4, 5, 6, 16, 33, 36, 42, 45, 48, 50, 54, 55, 56, 61, 191, 192, 199}
  {
    if |r.data| >= 4 {
      assert r.data[..3] == [r.data[0], r.data[1], r.data[2]];
    }
  }

  /** The elements at the front of any buffer, up to the first one that does not fit. */
  function Front(b: seq<u8>): (es: seq<Rec>)
    ensures AllOk(Element, es)
    decreases |b|
  {
    if |b| < 2 || 2 + LenAt(Element, b, 0) > |b| then []
    else
      var n := 2 + LenAt(Element, b, 0);
      [Rec(b[0], b[2..n])] + Front(b[n..])
  }

  /** The fields after these elements have been seen in order. */
  function Recorded(es: seq<Rec>): map<Field, Span>
    requires AllOk(Element, es)
  {
    if es == [] then map[]
    else
      var n := |es| - 1;
      match FieldOf(es[n])
      case None => Recorded(es[..n])
      case Some(f) => Recorded(es[..n])[f := Span(Pos(Element, es, n) + 2, |es[n].data|)]
  }

  function Unknowns(es: seq<Rec>): nat {
    if es == [] then 0 else (if FieldOf(es[|es| - 1]) == None then 1 else 0) + Unknowns(es[..|es| - 1])
  }

  /** Element n is the last one that sets field f. */
  predicate LastFor(es: seq<Rec>, f: Field, n: nat) {
    && n < |es| && FieldOf(es[n]) == Some(f)
    && forall j :: n < j < |es| ==> FieldOf(es[j]) != Some(f)
  }

  /** A field is set iff some element sets it, and then it points at the last such element. */
  lemma RecordedIsLast(es: seq<Rec>, f: Field)
    requires AllOk(Element, es)
    ensures f in Recorded(es) <==> exists n: nat :: LastFor(es, f, n)
    ensures forall n: nat :: LastFor(es, f, n) ==>
              f in Recorded(es) && Recorded(es)[f] == Span(Pos(Element, es, n) + 2, |es[n].data|)
  {
    hide Recorded, Pos, Ser, FieldOf;
    forall n: nat | LastFor(es, f, n)
      ensures f in Recorded(es) && Recorded(es)[f] == Span(Pos(Element, es, n) + 2, |es[n].data|)
    {
      LastIsSet(es, f, n);
    }
    if f in Recorded(es) {
      var n := SetByLast(es, f);
    }
  }

  lemma {:induction false} LastIsSet(es: seq<Rec>, f: Field, n: nat)
    requires AllOk(Element, es) && LastFor(es, f, n)
    ensures f in Recorded(es) && Recorded(es)[f] == Span(Pos(Element, es, n) + 2, |es[n].data|)
  {
    hide Recorded, Pos, Ser, FieldOf;
    var k, front := |es| - 1, es[..|es| - 1];
    RecordStep(es, k);
    assert es[..k + 1] == es;
    if n < k {
      PosPrefix(es, k, n);
      LastIsSet(front, f, n);
    }
  }

  lemma {:induction false} SetByLast(es: seq<Rec>, f: Field) returns (n: nat)
    requires AllOk(Element, es) && f in Recorded(es)
    ensures LastFor(es, f, n)
  {
    assert es != [];
    hide Recorded, Pos, Ser, FieldOf;
    var k, front := |es| - 1, es[..|es| - 1];
    RecordStep(es, k);
    assert es[..k + 1] == es;
    if FieldOf(es[k]) == Some(f) {
      return k;
    }
    hide LastFor;
    n := SetByLast(front, f);
    LastForLonger(es, f, n);
  }

  lemma LastForLonger(es: seq<Rec>, f: Field, n: nat)
    requires es != [] && FieldOf(es[|es| - 1]) != Some(f) && LastFor(es[..|es| - 1], f, n)
    ensures LastFor(es, f, n)
  {}

  lemma PosPrefix(es: seq<Rec>, n: nat, m: nat)
    requires AllOk(Element, es) && m <= n <= |es|
    ensures Pos(Element, es[..n], m) == Pos(Element, es, m)
  {
    assert es[..n][..m] == es[..m];
  }

  /** One more element. */
  lemma RecordStep(es: seq<Rec>, n: nat)
    requires AllOk(Element, es) && n < |es|
    ensures Recorded(es[..n + 1]) == match FieldOf(es[n])
                                     case None => Recorded(es[..n])
                                     case Some(f) => Recorded(es[..n])[f := Span(Pos(Element, es, n) + 2, |es[n].data|)]
    ensures Unknowns(es[..n + 1]) == Unknowns(es[..n]) + if FieldOf(es[n]) == None then 1 else 0
  {
    var some := es[..n + 1];
    assert some[..n] == es[..n] && some[n] == es[n];
    PosPrefix(es, n + 1, n);
    hide Pos;
  }

  lemma NoUnknowns(es: seq<Rec>)
    ensures Unknowns(es) == 0 <==> forall r :: r in es ==> FieldOf(r).Some?
  {
    if es != [] {
      NoUnknowns(es[..|es| - 1]);
      assert es == es[..|es| - 1] + [es[|es| - 1]];
    }
  }

  /** A buffer that begins with an element. */
  predicate Fits(b: seq<u8>, n: nat, r: Rec) {
    |b| >= 2 && n == 2 + LenAt(Element, b, 0) <= |b| && r == Rec(b[0], b[2..n])
  }

  lemma FrontFits(b: seq<u8>, n: nat, r: Rec)
    requires Fits(b, n, r)
    ensures Front(b) == [r] + Front(b[n..])
  {}

  lemma TilesFits(b: seq<u8>, n: nat, r: Rec)
    requires Fits(b, n, r)
    ensures Tiles(Element, b) <==> Tiles(Element, b[n..])
    ensures Tiles(Element, b) ==> Parse(Element, b) == [r] + Parse(Element, b[n..])
  {}

  lemma SerFits(b: seq<u8>, n: nat, r: Rec)
    requires Fits(b, n, r)
    ensures RecOk(Element, r.id, |r.data|) && AllOk(Element, [r]) && Ser(Element, [r]) == b[..n]
  {
    SerSingle(Element, r);
    hide Ser;
    assert b[..n] == [b[0], b[1]] + b[2..n];
  }

  /** The front is the whole buffer exactly if the buffer is a list of elements. */
  lemma {:induction false} FrontTiles(b: seq<u8>)
    ensures |Ser(Element, Front(b))| <= |b| && Ser(Element, Front(b)) == b[..|Ser(Element, Front(b))|]
    ensures Tiles(Element, b) <==> |Ser(Element, Front(b))| == |b|
    ensures Tiles(Element, b) ==> Parse(Element, b) == Front(b)
    decreases |b|
  {
    if |b| >= 2 && 2 + b[1] as int <= |b| {
      var n := 2 + b[1] as int;
      var r, rest := Rec(b[0], b[2..n]), Front(b[n..]);
      FrontFits(b, n, r);
      TilesFits(b, n, r);
      SerFits(b, n, r);
      hide *;
      FrontTiles(b[n..]);
      SerAppend(Element, [r], rest);
      JoinedFront(b, n, Ser(Element, rest));
    }
  }

  lemma JoinedFront(b: seq<u8>, n: nat, ser: seq<u8>)
    requires n <= |b| && |ser| <= |b| - n && ser == b[n..][..|ser|]
    ensures b[..n] + ser == b[..n + |ser|]
  {}

  /** A buffer the parser accepts is one the unchecked search stays inside. */
  lemma AcceptedIsList(b: seq<u8>)
    requires Tiles(Element, b)
    ensures Has(b, 0, Parse(Element, b)) && Size(Parse(Element, b)) == |b|
  {
    SerParse(Element, b);
  }

  /** The parser records the last element of an id, the search returns the first: they agree iff there is one. */
  lemma ParserAgreesIff(es: seq<Rec>, id: nat)
    requires AllOk(Element, es) && Known(id) && Count(es, id) > 0
    ensures var n := First(es, id, []);
            && n < |es| && ById(id) in Recorded(es)
            && (Recorded(es)[ById(id)] == Span(Pos(Element, es, n) + 2, |es[n].data|) <==> Count(es, id) == 1)
  {
    var n := First(es, id, []);
    if n == |es| {
      CountNone(es, id);
    }
    var last := LastOf(es, id, n);
    LastIsRecorded(es, id, last);
    hide *;
    CountBetween(es, id, n, last);
    PosGrows(es, n, last);
  }

  lemma LastIsRecorded(es: seq<Rec>, id: nat, last: nat)
    requires AllOk(Element, es) && Known(id) && last < |es| && es[last].id == id
    requires forall j :: last < j < |es| ==> es[j].id != id
    ensures ById(id) in Recorded(es) && Recorded(es)[ById(id)] == Span(Pos(Element, es, last) + 2, |es[last].data|)
  {
    hide Recorded, Pos, Ser;
    assert LastFor(es, ById(id), last);
    RecordedIsLast(es, ById(id));
  }

  lemma LastOf(es: seq<Rec>, id: nat, n: nat) returns (last: nat)
    requires n < |es| && es[n].id == id
    ensures n <= last < |es| && es[last].id == id && forall j :: last < j < |es| ==> es[j].id != id
  {
    last := |es| - 1;
    while es[last].id != id
      invariant n <= last < |es| && forall j :: last < j < |es| ==> es[j].id != id
      decreases last
    {
      last := last - 1;
    }
  }

  lemma CountBetween(es: seq<Rec>, id: nat, n: nat, last: nat)
    requires n <= last < |es| && es[n].id == id && es[last].id == id
    requires forall j :: 0 <= j < n ==> es[j].id != id
    requires forall j :: last < j < |es| ==> es[j].id != id
    ensures Count(es, id) == 1 <==> n == last
  {
    assert es == es[..n] + ([es[n]] + es[n + 1..]);
    CountAppend(es[..n], [es[n]] + es[n + 1..], id);
    CountAppend([es[n]], es[n + 1..], id);
    CountNone(es[..n], id);
    if n == last {
      CountNone(es[n + 1..], id);
    } else {
      CountSome(es[n + 1..], id, last - n - 1);
    }
  }

  lemma PosGrows(es: seq<Rec>, n: nat, m: nat)
    requires AllOk(Element, es) && n <= m < |es|
    ensures n < m ==> Pos(Element, es, n) < Pos(Element, es, m)
  {
    if n < m {
      PosGrows(es, n, m - 1);
      PosNext(Element, es, m - 1);
    }
  }

  // ---------------------------------------------------------------- the parser

  /** What the element at p contributes. */
  lemma FrontMore(b: seq<u8>, es: seq<Rec>, n: nat, p: nat, q: nat)
    requires AllOk(Element, es) && n <= |es| && p == Pos(Element, es, n)
    requires p + 2 <= q <= |b| && q == p + 2 + b[p + 1] && Front(b[p..]) == es[n..]
    ensures n < |es| && es[n] == Rec(b[p], b[p + 2..q])
    ensures Pos(Element, es, n + 1) == q && Front(b[q..]) == es[n + 1..]
  {
    hide Ser, Pos, Front;
    var c := b[p..];
    var r := Rec(c[0], b[p + 2..q]);
    assert c[2..q - p] == b[p + 2..q] && c[q - p..] == b[q..];
    FrontFits(c, q - p, r);
    assert es[n..][0] == es[n] && es[n..][1..] == es[n + 1..];
    PosNext(Element, es, n);
  }

  /** No further element fits: the buffer is a list exactly if nothing is left. */
  lemma FrontEnd(b: seq<u8>, es: seq<Rec>, n: nat, p: nat)
    requires es == Front(b) && n <= |es| && p == Pos(Element, es, n) <= |b| && Front(b[p..]) == es[n..]
    requires |b| - p < 2 || p + 2 + b[p + 1] as int > |b|
    ensures n == |es| && es[..n] == es && (Tiles(Element, b) <==> p == |b|)
  {
    hide Ser, Pos, Tiles;
    assert Front(b[p..]) == [];
    FrontTiles(b);
    PosEnd(Element, es, n);
  }

  /** The state of the parser's loop: n elements seen, the next one would start at p. */
  ghost predicate Seen(b: seq<u8>, n: nat, p: nat, elems: map<Field, Span>, unknown: nat) {
    var es := Front(b);
    && n <= |es| && p == Pos(Element, es, n) <= |b| && Front(b[p..]) == es[n..]
    && elems == Recorded(es[..n]) && unknown == Unknowns(es[..n])
  }

  lemma SeenNothing(b: seq<u8>)
    ensures Seen(b, 0, 0, map[], 0)
  {
    PosStart(Element, Front(b));
    assert b[0..] == b && Front(b)[0..] == Front(b) && Front(b)[..0] == [];
  }

  lemma SeenMore(b: seq<u8>, n: nat, p: nat, elems: map<Field, Span>, unknown: nat, q: nat)
    requires Seen(b, n, p, elems, unknown) && p + 2 <= q <= |b| && q == p + 2 + b[p + 1]
    ensures match FieldOf(Rec(b[p], b[p + 2..q]))
            case None => Seen(b, n + 1, q, elems, unknown + 1)
            case Some(f) => Seen(b, n + 1, q, elems[f := Span(p + 2, q - p - 2)], unknown)
  {
    var es := Front(b);
    hide Front, FieldOf, Recorded, Unknowns, Pos, Ser;
    FrontMore(b, es, n, p, q);
    RecordStep(es, n);
  }

  lemma SeenAll(b: seq<u8>, n: nat, p: nat, elems: map<Field, Span>, unknown: nat)
    requires Seen(b, n, p, elems, unknown) && (|b| - p < 2 || p + 2 + b[p + 1] as int > |b|)
    ensures elems == Recorded(Front(b)) && (Tiles(Element, b) <==> p == |b|)
    ensures p == |b| ==> (unknown == 0 <==> forall r :: r in Parse(Element, b) ==> FieldOf(r).Some?)
  {
    FrontEnd(b, Front(b), n, p);
    FrontTiles(b);
    NoUnknowns(Front(b));
  }

  /** rtw_ieee802_11_parse_elems: every read is inside the buffer, whatever the bytes are. */
  method Parse80211Elems(a: array<u8>) returns (res: ParseRes, elems: map<Field, Span>)
    ensures elems == Recorded(Front(a[..]))
    ensures res == ParseFailed <==> !Tiles(Element, a[..])
    ensures res == ParseOK <==> Tiles(Element, a[..]) && forall r :: r in Parse(Element, a[..]) ==> FieldOf(r).Some?
  {
    hide *;
    var pos, left, unknown: nat := 0, a.Length, 0;
    elems := map[];
    ghost var b, n: nat := a[..], 0;
    SeenNothing(b);
    while left >= 2
      invariant 0 <= pos <= pos + left == a.Length
      invariant Seen(b, n, pos, elems, unknown)
      decreases left
    {
      var id, elen: int := a[pos], a[pos + 1];
      pos, left := pos + 2, left - 2;
      if elen > left {
        SeenAll(b, n, pos - 2, elems, unknown);
        return ParseFailed, elems;
      }
      SeenMore(b, n, pos - 2, elems, unknown, pos + elen);
      var field := Classify(a, id, pos, elen);
      if field.Some? {
        elems := elems[field.value := Span(pos, elen)];
      } else {
        unknown := unknown + 1;
      }
      left, pos, n := left - elen, pos + elen, n + 1;
    }
    SeenAll(b, n, pos, elems, unknown);
    if left != 0 {
      return ParseFailed, elems;
    }
    res := if unknown > 0 then ParseUnknown else ParseOK;
  }

  /** The switch of the parser, with rtw_ieee802_11_parse_vendor_specific. */
  method Classify(a: array<u8>, id: u8, pos: nat, elen: nat) returns (f: Option<Field>)
    requires pos + elen <= a.Length
    ensures f == FieldOf(Rec(id, a[pos..pos + elen]))
  {
    f := None;
    if id == VENDOR_SPECIFIC {
      if elen < 4 {
        return;
      }
      ghost var d := a[pos..pos + elen];
      assert d[..3] == [a[pos], a[pos + 1], a[pos + 2]];
      var oui := (a[pos], a[pos + 1], a[pos + 2]);
      if oui == (0x00, 0x50, 0xF2) {
        if a[pos + 3] == 1 {
          f := Some(Wpa);
        } else if a[pos + 3] == 2 {
          if elen < 5 {
            return;
          }
          if a[pos + 4] == 0 || a[pos + 4] == 1 {
            f := Some(Wme);
          } else if a[pos + 4] == 2 {
            f := Some(WmeTspec);
          }
        } else if a[pos + 3] == 4 {
          f := Some(Wps);
        }
      } else if oui == (0x00, 0x90, 0x4C) && a[pos + 3] == 0x33 {
        f := Some(VendorHtCap);
      }
    } else if Known(id) {
      f := Some(ById(id));
    }
  }
}

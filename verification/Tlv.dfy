/** Type-length-value lists, in the three layouts the driver edits in place:
    802.11 elements, P2P attributes inside an element, and PPPoE tags. */
module Tlv {
  import opened Bytes

  datatype Kind = Element | Attribute | PppoeTag

  datatype Rec = Rec(id: nat, data: seq<u8>)

  function HeaderLen(k: Kind): nat {
    match k
    case Element => 2
    case Attribute => 3
    case PppoeTag => 4
  }

  /** An id, then the data length: one byte each; one byte and little-endian 16; both big-endian 16. */
  function Header(k: Kind, id: nat, len: nat): (h: seq<u8>)
    requires RecOk(k, id, len)
    ensures |h| == HeaderLen(k)
  {
    match k
    case Element => [id, len]
    case Attribute => [id, len % 256, len / 256]
    case PppoeTag => [id / 256, id % 256, len / 256, len % 256]
  }

  predicate RecOk(k: Kind, id: nat, len: nat) {
    match k
    case Element => id < 256 && len < 256
    case Attribute => id < 256 && len < 65536
    case PppoeTag => id < 65536 && len < 65536
  }

  predicate AllOk(k: Kind, rs: seq<Rec>) {
    forall i :: 0 <= i < |rs| ==> RecOk(k, rs[i].id, |rs[i].data|)
  }

  function IdAt(k: Kind, b: seq<u8>, i: nat): nat
    requires i + HeaderLen(k) <= |b|
  {
    if k.PppoeTag? then Be16(b[i], b[i + 1]) else b[i]
  }

  function LenAt(k: Kind, b: seq<u8>, i: nat): nat
    requires i + HeaderLen(k) <= |b|
  {
    match k
    case Element => b[i + 1]
    case Attribute => Be16(b[i + 2], b[i + 1])
    case PppoeTag => Be16(b[i + 2], b[i + 3])
  }

  function SerOne(k: Kind, r: Rec): (s: seq<u8>)
    requires RecOk(k, r.id, |r.data|)
    ensures |s| == HeaderLen(k) + |r.data|
  {
    Header(k, r.id, |r.data|) + r.data
  }

  function Ser(k: Kind, rs: seq<Rec>): seq<u8>
    requires AllOk(k, rs)
  {
    if rs == [] then [] else SerOne(k, rs[0]) + Ser(k, rs[1..])
  }

  /** The buffer is exactly a list of records. */
  predicate Tiles(k: Kind, b: seq<u8>)
    decreases |b|
  {
    b == [] || (|b| >= HeaderLen(k) && HeaderLen(k) + LenAt(k, b, 0) <= |b| && Tiles(k, b[HeaderLen(k) + LenAt(k, b, 0)..]))
  }

  function Parse(k: Kind, b: seq<u8>): seq<Rec>
    requires Tiles(k, b)
    decreases |b|
  {
    if b == [] then []
    else
      var n := HeaderLen(k) + LenAt(k, b, 0);
      [Rec(IdAt(k, b, 0), b[HeaderLen(k)..n])] + Parse(k, b[n..])
  }

  // ---------------------------------------------------------------- parsing and printing are inverse

  lemma SerOneAt(k: Kind, r: Rec, rest: seq<u8>)
    requires RecOk(k, r.id, |r.data|)
    ensures var b := SerOne(k, r) + rest;
            && IdAt(k, b, 0) == r.id && LenAt(k, b, 0) == |r.data|
            && b[HeaderLen(k)..HeaderLen(k) + |r.data|] == r.data
            && b[HeaderLen(k) + |r.data|..] == rest
  {}

  lemma {:induction false} ParseSer(k: Kind, rs: seq<Rec>)
    requires AllOk(k, rs)
    ensures Tiles(k, Ser(k, rs)) && Parse(k, Ser(k, rs)) == rs
  {
    if rs != [] {
      SerOneAt(k, rs[0], Ser(k, rs[1..]));
      ParseSer(k, rs[1..]);
    }
  }

  /** Reading a header and printing it again gives the same bytes. */
  lemma HeaderAt(k: Kind, b: seq<u8>)
    requires |b| >= HeaderLen(k)
    ensures RecOk(k, IdAt(k, b, 0), LenAt(k, b, 0))
    ensures Header(k, IdAt(k, b, 0), LenAt(k, b, 0)) == b[..HeaderLen(k)]
  {
    match k
    case Element => assert b[..2] == [b[0], b[1]];
    case Attribute =>
      Be16Split(b[2], b[1]);
      assert b[..3] == [b[0], b[1], b[2]];
    case PppoeTag =>
      Be16Split(b[0], b[1]);
      Be16Split(b[2], b[3]);
      assert b[..4] == [b[0], b[1], b[2], b[3]];
  }

  lemma ThreeParts(b: seq<u8>, i: nat, j: nat)
    requires i <= j <= |b|
    ensures b[..i] + b[i..j] + b[j..] == b
  {}

  lemma {:induction false} SerParse(k: Kind, b: seq<u8>)
    requires Tiles(k, b)
    ensures AllOk(k, Parse(k, b)) && Ser(k, Parse(k, b)) == b
    decreases |b|
  {
    if b != [] {
      var h, id, len := HeaderLen(k), IdAt(k, b, 0), LenAt(k, b, 0);
      var r, tail := Rec(id, b[h..h + len]), b[h + len..];
      HeaderAt(k, b);
      SerParse(k, tail);
      ParseStep(k, b, r, tail);
      ThreeParts(b, h, h + len);
    }
  }

  lemma ParseStep(k: Kind, b: seq<u8>, r: Rec, tail: seq<u8>)
    requires Tiles(k, b) && b != []
    requires var h := HeaderLen(k); r == Rec(IdAt(k, b, 0), b[h..h + LenAt(k, b, 0)]) && tail == b[h + LenAt(k, b, 0)..]
    requires RecOk(k, r.id, |r.data|) && AllOk(k, Parse(k, tail))
    ensures AllOk(k, Parse(k, b)) && Ser(k, Parse(k, b)) == SerOne(k, r) + Ser(k, Parse(k, tail))
  {
    var rs, rest := Parse(k, b), Parse(k, tail);
    assert rs == [r] + rest && rs[0] == r && rs[1..] == rest;
  }

  lemma {:induction false} SerAppend(k: Kind, a: seq<Rec>, b: seq<Rec>)
    requires AllOk(k, a) && AllOk(k, b)
    ensures AllOk(k, a + b) && Ser(k, a + b) == Ser(k, a) + Ser(k, b)
  {
    if a == [] {
      assert a + b == b;
    } else {
      var c := a + b;
      assert c[0] == a[0] && c[1..] == a[1..] + b;
      assert AllOk(k, a[1..]);
      SerAppend(k, a[1..], b);
      var h, x, y := SerOne(k, a[0]), Ser(k, a[1..]), Ser(k, b);
      assert Ser(k, c) == h + (x + y) == h + x + y;
    }
  }

  // ---------------------------------------------------------------- walking a buffer

  /** Byte position of record n. */
  function Pos(k: Kind, rs: seq<Rec>, n: nat): nat
    requires AllOk(k, rs) && n <= |rs|
  {
    |Ser(k, rs[..n])|
  }

  lemma SplitAround(k: Kind, rs: seq<Rec>, n: nat)
    requires AllOk(k, rs) && n < |rs|
    ensures Ser(k, rs) == Ser(k, rs[..n]) + (SerOne(k, rs[n]) + Ser(k, rs[n + 1..]))
  {
    SplitAt(k, rs, n);
    assert rs[n..][1..] == rs[n + 1..];
  }

  lemma PosNext(k: Kind, rs: seq<Rec>, n: nat)
    requires AllOk(k, rs) && n < |rs|
    ensures Pos(k, rs, n + 1) == Pos(k, rs, n) + HeaderLen(k) + |rs[n].data|
  {
    var one := [rs[n]];
    assert rs[..n + 1] == rs[..n] + one;
    SerAppend(k, rs[..n], one);
    assert one[1..] == [];
  }

  lemma PosStart(k: Kind, rs: seq<Rec>)
    requires AllOk(k, rs)
    ensures AllOk(k, []) && Ser(k, []) == [] && Pos(k, rs, 0) == 0
  {
    assert rs[..0] == [];
  }

  lemma SerSingle(k: Kind, r: Rec)
    requires RecOk(k, r.id, |r.data|)
    ensures AllOk(k, [r]) && Ser(k, [r]) == SerOne(k, r)
  {
    assert [r][1..] == [];
  }

  /** Record (id, data) is what a walker at position p sees. */
  predicate Sees(k: Kind, b: seq<u8>, p: nat, id: nat, data: seq<u8>) {
    && p + HeaderLen(k) + |data| <= |b|
    && IdAt(k, b, p) == id && LenAt(k, b, p) == |data|
    && b[p + HeaderLen(k)..p + HeaderLen(k) + |data|] == data
  }

  /** The same, for a list that lies inside a larger buffer. */
  lemma AtRecordIn(k: Kind, buf: seq<u8>, at: nat, rs: seq<Rec>, n: nat)
    requires AllOk(k, rs) && n < |rs|
    requires at + |Ser(k, rs)| <= |buf| && buf[at..at + |Ser(k, rs)|] == Ser(k, rs)
    ensures Sees(k, buf, at + Pos(k, rs, n), rs[n].id, rs[n].data)
    ensures Pos(k, rs, n + 1) == Pos(k, rs, n) + HeaderLen(k) + |rs[n].data| <= |Ser(k, rs)|
  {
    hide Ser;
    SplitAround(k, rs, n);
    PosNext(k, rs, n);
    SeesInside(k, buf, at, Ser(k, rs), Ser(k, rs[..n]), rs[n], Ser(k, rs[n + 1..]));
  }

  lemma SeesInside(k: Kind, buf: seq<u8>, at: nat, all: seq<u8>, a: seq<u8>, r: Rec, rest: seq<u8>)
    requires RecOk(k, r.id, |r.data|) && all == a + (SerOne(k, r) + rest)
    requires at + |all| <= |buf| && buf[at..at + |all|] == all
    ensures Sees(k, buf, at + |a|, r.id, r.data) && |a| + HeaderLen(k) + |r.data| <= |all|
  {
    AtBoundary(k, a, r, rest);
    InsideBuffer(k, buf, at, all, |a|, r.id, r.data);
  }

  lemma InsideBuffer(k: Kind, buf: seq<u8>, at: nat, b: seq<u8>, i: nat, id: nat, data: seq<u8>)
    requires at + |b| <= |buf| && buf[at..at + |b|] == b
    requires Sees(k, b, i, id, data)
    ensures Sees(k, buf, at + i, id, data)
  {
    assert forall j :: 0 <= j < |b| ==> buf[at + j] == b[j];
  }

  lemma AtBoundary(k: Kind, a: seq<u8>, r: Rec, rest: seq<u8>)
    requires RecOk(k, r.id, |r.data|)
    ensures Sees(k, a + (SerOne(k, r) + rest), |a|, r.id, r.data)
  {
    var t := SerOne(k, r) + rest;
    SerOneAt(k, r, rest);
    assert forall j :: 0 <= j < |t| ==> (a + t)[|a| + j] == t[j];
  }

  lemma SplitAt(k: Kind, rs: seq<Rec>, n: nat)
    requires AllOk(k, rs) && n <= |rs|
    ensures Ser(k, rs) == Ser(k, rs[..n]) + Ser(k, rs[n..])
    ensures Pos(k, rs, n) <= |Ser(k, rs)|
    ensures Ser(k, rs)[..Pos(k, rs, n)] == Ser(k, rs[..n]) && Ser(k, rs)[Pos(k, rs, n)..] == Ser(k, rs[n..])
  {
    assert rs == rs[..n] + rs[n..];
    SerAppend(k, rs[..n], rs[n..]);
  }

  lemma PosEnd(k: Kind, rs: seq<Rec>, n: nat)
    requires AllOk(k, rs) && n <= |rs|
    ensures Pos(k, rs, n) <= |Ser(k, rs)|
    ensures Pos(k, rs, n) == |Ser(k, rs)| <==> n == |rs|
  {
    SplitAt(k, rs, n);
    assert n == |rs| ==> rs[n..] == [];
    if n < |rs| {
      assert |Ser(k, rs[n..])| >= HeaderLen(k);
    }
  }

  /** Replacing records n to m by a list of records, in the list and in its bytes. */
  lemma Splice(k: Kind, rs: seq<Rec>, n: nat, m: nat, new': seq<Rec>)
    requires AllOk(k, rs) && AllOk(k, new') && n <= m <= |rs|
    ensures AllOk(k, rs[..n] + new' + rs[m..])
    ensures Pos(k, rs, n) <= Pos(k, rs, m) <= |Ser(k, rs)|
    ensures Ser(k, rs[..n] + new' + rs[m..])
            == Ser(k, rs)[..Pos(k, rs, n)] + Ser(k, new') + Ser(k, rs)[Pos(k, rs, m)..]
  {
    hide Ser;
    assert rs[..m][..n] == rs[..n];
    SplitAt(k, rs[..m], n);
    SplitAt(k, rs, n);
    SplitAt(k, rs, m);
    SerAppend(k, rs[..n], new');
    SerAppend(k, rs[..n] + new', rs[m..]);
  }

  lemma CutOne(k: Kind, rs: seq<Rec>, n: nat, rest: seq<Rec>)
    requires AllOk(k, rs) && n < |rs| && rest == rs[..n] + rs[n + 1..]
    ensures Pos(k, rs, n) + HeaderLen(k) + |rs[n].data| == Pos(k, rs, n + 1) <= |Ser(k, rs)|
    ensures AllOk(k, rest) && Ser(k, rest) == Ser(k, rs)[..Pos(k, rs, n)] + Ser(k, rs)[Pos(k, rs, n + 1)..]
  {
    hide Ser;
    PosNext(k, rs, n);
    SplitAt(k, rs, n);
    SplitAt(k, rs, n + 1);
    SerAppend(k, rs[..n], rs[n + 1..]);
  }

  // ---------------------------------------------------------------- searching

  predicate Matches(r: Rec, id: nat, prefix: seq<u8>) {
    r.id == id && prefix <= r.data
  }

  /** Index of the first record with this id whose data begins with the prefix, or the length. */
  function First(rs: seq<Rec>, id: nat, prefix: seq<u8>): (n: nat)
    ensures n <= |rs|
    ensures n < |rs| ==> Matches(rs[n], id, prefix)
    ensures forall i :: 0 <= i < n ==> !Matches(rs[i], id, prefix)
  {
    if rs == [] then 0 else if Matches(rs[0], id, prefix) then 0 else 1 + First(rs[1..], id, prefix)
  }

  lemma FirstIs(rs: seq<Rec>, id: nat, prefix: seq<u8>, n: nat)
    requires n <= |rs| && (n < |rs| ==> Matches(rs[n], id, prefix))
    requires forall i :: 0 <= i < n ==> !Matches(rs[i], id, prefix)
    ensures First(rs, id, prefix) == n
  {}

  /** Every record but those with this id and prefix, in order. */
  function Without(rs: seq<Rec>, id: nat, prefix: seq<u8>): seq<Rec> {
    if rs == [] then []
    else (if Matches(rs[0], id, prefix) then [] else [rs[0]]) + Without(rs[1..], id, prefix)
  }

  lemma WithoutOk(k: Kind, rs: seq<Rec>, id: nat, prefix: seq<u8>)
    requires AllOk(k, rs)
    ensures AllOk(k, Without(rs, id, prefix))
  {}

  /** Taking out the first match leaves the filter unchanged. */
  lemma {:induction false} WithoutFirst(rs: seq<Rec>, id: nat, prefix: seq<u8>)
    ensures var n := First(rs, id, prefix);
            if n == |rs| then Without(rs, id, prefix) == rs
            else Without(rs, id, prefix) == rs[..n] + Without(rs[n + 1..], id, prefix)
  {
    if rs != [] && !Matches(rs[0], id, prefix) {
      WithoutFirst(rs[1..], id, prefix);
      var n := First(rs, id, prefix);
      if n == |rs| {
        assert rs == [rs[0]] + rs[1..];
      } else {
        assert rs[1..][..n - 1] == rs[1..n] && rs[1..][n..] == rs[n + 1..];
        assert rs[..n] == [rs[0]] + rs[1..n];
      }
    }
  }

  lemma WithoutAppend(a: seq<Rec>, b: seq<Rec>, id: nat, prefix: seq<u8>)
    ensures Without(a + b, id, prefix) == Without(a, id, prefix) + Without(b, id, prefix)
  {
    if a == [] {
      assert a + b == b;
    } else {
      assert (a + b)[1..] == a[1..] + b;
      WithoutAppend(a[1..], b, id, prefix);
    }
  }

  // ---------------------------------------------------------------- headers, searching and filtering written out

  /** The three header layouts, byte by byte. */
  lemma HeaderBytes(id: nat, len: nat)
    ensures id < 256 && len < 256 ==> Header(Element, id, len) == [id, len]
    ensures id < 256 && len < 65536 ==> Header(Attribute, id, len) == [id, len % 256, len / 256]
    ensures id < 65536 && len < 65536 ==> Header(PppoeTag, id, len) == [id / 256, id % 256, len / 256, len % 256]
  {}

  /** The search returns the first record that has the id and whose data begins with the prefix, byte by byte. */
  lemma FirstMeans(rs: seq<Rec>, id: nat, prefix: seq<u8>)
    ensures forall n :: 0 <= n < |rs| ==>
              (First(rs, id, prefix) == n <==>
                && rs[n].id == id && |rs[n].data| >= |prefix| && rs[n].data[..|prefix|] == prefix
                && forall i :: 0 <= i < n ==>
                     !(rs[i].id == id && |rs[i].data| >= |prefix| && rs[i].data[..|prefix|] == prefix))
    ensures First(rs, id, prefix) == |rs| <==>
              forall i :: 0 <= i < |rs| ==>
                !(rs[i].id == id && |rs[i].data| >= |prefix| && rs[i].data[..|prefix|] == prefix)
  {
    forall i | 0 <= i < |rs|
      ensures Matches(rs[i], id, prefix) <==> rs[i].id == id && |rs[i].data| >= |prefix| && rs[i].data[..|prefix|] == prefix
    {}
    var n := First(rs, id, prefix);
    hide Matches, First;
  }

  /** The same as a caller sees it: there is a result exactly if some record fits, and it is the first of those. */
  lemma FirstFound(rs: seq<Rec>, id: nat, prefix: seq<u8>)
    ensures First(rs, id, prefix) < |rs| <==>
              exists i :: 0 <= i < |rs| && rs[i].id == id && |rs[i].data| >= |prefix| && rs[i].data[..|prefix|] == prefix
    ensures forall n :: 0 <= n < |rs| && rs[n].id == id && |rs[n].data| >= |prefix| && rs[n].data[..|prefix|] == prefix
                        && (forall i :: 0 <= i < n ==>
                              !(rs[i].id == id && |rs[i].data| >= |prefix| && rs[i].data[..|prefix|] == prefix))
                        ==> First(rs, id, prefix) == n
  {
    FirstMeans(rs, id, prefix);
    hide First;
  }

  /** The filter keeps exactly the records that lack the id or do not begin with the prefix, in order and each as
      often as it occurs: `at` lists their places. */
  lemma {:induction false} WithoutMeans(rs: seq<Rec>, id: nat, prefix: seq<u8>) returns (at: seq<nat>)
    ensures |at| == |Without(rs, id, prefix)|
    ensures forall k :: 0 <= k < |at| ==> at[k] < |rs| && Without(rs, id, prefix)[k] == rs[at[k]]
    ensures forall j, k :: 0 <= j < k < |at| ==> at[j] < at[k]
    ensures forall i :: 0 <= i < |rs| ==>
              (i in at <==> !(rs[i].id == id && |rs[i].data| >= |prefix| && rs[i].data[..|prefix|] == prefix))
  {
    if rs == [] {
      return [];
    }
    var k, front := |rs| - 1, rs[..|rs| - 1];
    WithoutLast(rs, id, prefix);
    hide Without, Matches;
    at := WithoutMeans(front, id, prefix);
    if !(rs[k].id == id && |rs[k].data| >= |prefix| && rs[k].data[..|prefix|] == prefix) {
      OneMore(rs, at);
      at := at + [k];
    }
  }

  lemma WithoutLast(rs: seq<Rec>, id: nat, prefix: seq<u8>)
    requires rs != []
    ensures var k := |rs| - 1;
            var gone := rs[k].id == id && |rs[k].data| >= |prefix| && rs[k].data[..|prefix|] == prefix;
            Without(rs, id, prefix) == Without(rs[..k], id, prefix) + if gone then [] else [rs[k]]
  {
    var k := |rs| - 1;
    assert rs == rs[..k] + [rs[k]];
    WithoutAppend(rs[..k], [rs[k]], id, prefix);
    assert [rs[k]][1..] == [];
  }

  lemma OneMore(rs: seq<Rec>, at: seq<nat>)
    requires rs != [] && forall k :: 0 <= k < |at| ==> at[k] < |rs| - 1
    ensures forall i :: i in at + [|rs| - 1] <==> i in at || i == |rs| - 1
  {}

  /** Something is filtered out exactly if some record has the id and begins with the prefix. */
  lemma WithoutShortensIff(rs: seq<Rec>, id: nat, prefix: seq<u8>)
    ensures Without(rs, id, prefix) != rs <==>
              exists i :: 0 <= i < |rs| && rs[i].id == id && |rs[i].data| >= |prefix| && rs[i].data[..|prefix|] == prefix
  {
    var n := First(rs, id, prefix);
    WithoutFirst(rs, id, prefix);
    if n < |rs| {
      WithoutLength(rs[n + 1..], id, prefix);
      hide Without, First;
      assert rs[n].id == id && |rs[n].data| >= |prefix| && rs[n].data[..|prefix|] == prefix;
      assert |Without(rs, id, prefix)| < |rs|;
    } else {
      hide Without, First;
      forall i | 0 <= i < |rs|
        ensures !(rs[i].id == id && |rs[i].data| >= |prefix| && rs[i].data[..|prefix|] == prefix)
      {
        assert !Matches(rs[i], id, prefix);
      }
    }
  }

  lemma WithoutLength(rs: seq<Rec>, id: nat, prefix: seq<u8>)
    ensures |Without(rs, id, prefix)| <= |rs|
  {}
}

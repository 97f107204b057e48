/** Editing the elements of the beacon an access point sends (core/rtw_ap.c). */
module BeaconIe {
  import opened Bytes
  import opened Tlv
  import opened IeBuffer

  const SSID: u8 := 0

  // ---------------------------------------------------------------- replacing a range of elements

  /** Elements n to m of the list become new', the elements behind move up or down. */
  lemma Replaced(f: seq<u8>, es: seq<Rec>, n: nat, m: nat, new': seq<Rec>, p: nat, q: nat, end: nat)
    requires Has(f, FIXED, es) && n <= m <= |es| && AllOk(Element, new')
    requires p == ElemPos(FIXED, es, n) && q == ElemPos(FIXED, es, m) && end == FIXED + Size(es)
    requires p + Size(new') + (end - q) <= |f|
    ensures p <= q <= end <= |f|
    ensures var g, now := Written(f, p, Ser(Element, new') + f[q..end]), es[..n] + new' + es[m..];
            Has(g, FIXED, now) && FIXED + Size(now) == p + Size(new') + (end - q) && g[..FIXED] == f[..FIXED]
  {
    hide Ser;
    var ser, w := Ser(Element, es), Ser(Element, new');
    Splice(Element, es, n, m, new');
    SplicedBytes(f, ser, w, p, q, end);
  }

  lemma SplicedBytes(f: seq<u8>, ser: seq<u8>, w: seq<u8>, p: nat, q: nat, end: nat)
    requires FIXED <= p <= q <= end <= |f| && f[FIXED..end] == ser && p + |w| + (end - q) <= |f|
    ensures var g, last := Written(f, p, w + f[q..end]), p + |w| + (end - q);
            g[FIXED..last] == ser[..p - FIXED] + w + ser[q - FIXED..] && g[..FIXED] == f[..FIXED]
  {
    var g := Written(f, p, w + f[q..end]);
    assert ser[..p - FIXED] == f[FIXED..p] && ser[q - FIXED..] == f[q..end];
  }

  /** Both editors back up what follows q, write at p, and copy the backup behind what they wrote. */
  method ReplaceRange(a: array<u8>, p: nat, w: seq<u8>, q: nat, end: nat) returns (newEnd: nat)
    requires p <= q <= end <= a.Length && p + |w| + (end - q) <= a.Length
    modifies a
    ensures a[..] == Written(old(a[..]), p, w + old(a[..])[q..end]) && newEnd == p + |w| + (end - q)
  {
    ghost var f := a[..];
    var backup := a[q..end];
    Overwrite(a, p, w);
    Overwrite(a, p + |w|, backup);
    TwoWrites(f, p, w, backup);
    newEnd := p + |w| + |backup|;
  }

  lemma TwoWrites(f: seq<u8>, p: nat, w: seq<u8>, x: seq<u8>)
    requires p + |w| + |x| <= |f|
    ensures Written(Written(f, p, w), p + |w|, x) == Written(f, p, w + x)
  {}

  // ---------------------------------------------------------------- adding and removing an element

  predicate Sorted(es: seq<Rec>) {
    forall i, j :: 0 <= i < j < |es| ==> es[i].id <= es[j].id
  }

  /** First element whose id is not below the index. */
  function Place(es: seq<Rec>, index: nat): (k: nat)
    ensures k <= |es| && (k < |es| ==> es[k].id >= index)
    ensures forall i :: 0 <= i < k ==> es[i].id < index
  {
    if es == [] || es[0].id >= index then 0 else 1 + Place(es[1..], index)
  }

  lemma PlaceIs(es: seq<Rec>, index: nat, k: nat)
    requires k <= |es| && (k < |es| ==> es[k].id >= index)
    requires forall i :: 0 <= i < k ==> es[i].id < index
    ensures Place(es, index) == k
  {}

  /** The add goes through: the element to be replaced, or else the one before the gap, has data. */
  predicate Applies(es: seq<Rec>, index: nat) {
    var k := Place(es, index);
    if k < |es| && es[k].id == index then es[k].data != [] else k > 0 && es[k - 1].data != []
  }

  function Added(es: seq<Rec>, index: nat, data: seq<u8>): seq<Rec> {
    var k := Place(es, index);
    if !Applies(es, index) then es
    else if k < |es| && es[k].id == index then es[k := Rec(index, data)]
    else es[..k] + [Rec(index, data)] + es[k..]
  }

  function Removed(es: seq<Rec>, index: nat): seq<Rec> {
    var n := First(es, index, []);
    if n < |es| && es[n].data != [] then es[..n] + es[n + 1..] else es
  }

  /** A sorted list stays sorted. */
  lemma AddKeepsSorted(es: seq<Rec>, index: nat, data: seq<u8>)
    requires forall i, j :: 0 <= i < j < |es| ==> es[i].id <= es[j].id
    ensures var new' := Added(es, index, data); forall i, j :: 0 <= i < j < |new'| ==> new'[i].id <= new'[j].id
  {
    var k, new' := Place(es, index), Added(es, index, data);
    if Applies(es, index) && !(k < |es| && es[k].id == index) {
      forall i, j | 0 <= i < j < |new'| ensures new'[i].id <= new'[j].id {
        assert new'[i] == if i < k then es[i] else if i == k then Rec(index, data) else es[i - 1];
        assert new'[j] == if j < k then es[j] else if j == k then Rec(index, data) else es[j - 1];
      }
    }
  }

  function Count(es: seq<Rec>, id: nat): nat {
    if es == [] then 0 else (if es[0].id == id then 1 else 0) + Count(es[1..], id)
  }

  lemma {:induction false} CountAppend(a: seq<Rec>, b: seq<Rec>, id: nat)
    ensures Count(a + b, id) == Count(a, id) + Count(b, id)
  {
    if a == [] {
      assert a + b == b;
    } else {
      assert (a + b)[1..] == a[1..] + b;
      CountAppend(a[1..], b, id);
    }
  }

  /** Exchanging n to m for one element of an id touches no other id; it adds one unless it replaces one. */
  lemma OneExchanged(es: seq<Rec>, n: nat, m: nat, r: Rec)
    requires n <= m <= |es| && (m == n || (m == n + 1 && es[n].id == r.id))
    ensures var new' := es[..n] + [r] + es[m..];
            && Without(new', r.id, []) == Without(es, r.id, [])
            && Count(new', r.id) == Count(es, r.id) + 1 - (m - n)
  {
    var x, old', z := es[..n], es[n..m], es[m..];
    SingleOf(r);
    if m > n {
      assert old' == [es[n]];
      SingleOf(es[n]);
    }
    ThreeSlices(es, n, m);
    hide Without, Count;
    InThreeParts(x, old', z, r.id);
    InThreeParts(x, [r], z, r.id);
  }

  lemma ThreeSlices(es: seq<Rec>, n: nat, m: nat)
    requires n <= m <= |es|
    ensures es == es[..n] + es[n..m] + es[m..]
  {}

  lemma SingleOf(r: Rec)
    ensures Without([r], r.id, []) == [] && Count([r], r.id) == 1
    ensures Without([], r.id, []) == [] && Count([], r.id) == 0
  {}

  lemma InThreeParts(x: seq<Rec>, y: seq<Rec>, z: seq<Rec>, id: nat)
    ensures Without(x + y + z, id, []) == Without(x, id, []) + Without(y, id, []) + Without(z, id, [])
    ensures Count(x + y + z, id) == Count(x, id) + Count(y, id) + Count(z, id)
  {
    hide Without, Count;
    WithoutAppend(x + y, z, id, []);
    WithoutAppend(x, y, id, []);
    CountAppend(x + y, z, id);
    CountAppend(x, y, id);
  }

  /** Of a sorted list an add changes one element of its own id and nothing else. */
  lemma AddChangesOne(es: seq<Rec>, index: nat, data: seq<u8>)
    requires Sorted(es)
    ensures var new' := Added(es, index, data);
            && Without(new', index, []) == Without(es, index, [])
            && (Applies(es, index) ==>
                  && First(new', index, []) == Place(es, index) < |new'| && new'[Place(es, index)].data == data
                  && Count(new', index) == if Count(es, index) == 0 then 1 else Count(es, index))
  {
    var k, new' := Place(es, index), Added(es, index, data);
    if Applies(es, index) {
      FirstIs(new', index, [], k);
      if k < |es| && es[k].id == index {
        assert new' == es[..k] + [Rec(index, data)] + es[k + 1..];
        OneExchanged(es, k, k + 1, Rec(index, data));
        CountSome(es, index, k);
      } else {
        OneExchanged(es, k, k, Rec(index, data));
        CountNone(es, index);
      }
    }
  }

  lemma CountNone(es: seq<Rec>, id: nat)
    requires forall i :: 0 <= i < |es| ==> es[i].id != id
    ensures Count(es, id) == 0
  {}

  lemma CountSome(es: seq<Rec>, id: nat, k: nat)
    requires k < |es| && es[k].id == id
    ensures Count(es, id) > 0
  {
    if k > 0 {
      CountSome(es[1..], id, k - 1);
    }
  }

  /** For an id that is not there yet, the guard decides whether the list has it afterwards. */
  lemma AddedIffApplies(es: seq<Rec>, index: nat, data: seq<u8>)
    requires Sorted(es) && (forall i :: 0 <= i < |es| ==> es[i].id != index)
    ensures Count(Added(es, index, data), index) == if Applies(es, index) then 1 else 0
  {
    AddChangesOne(es, index, data);
    CountNone(es, index);
  }

  /** Adding an id that is not there and then removing it gives the old list, whether or not the add
      went through. */
  lemma AddThenRemove(es: seq<Rec>, index: nat, data: seq<u8>)
    requires data != [] && (forall i :: 0 <= i < |es| ==> es[i].id != index)
    ensures Removed(Added(es, index, data), index) == es
  {
    var k, new' := Place(es, index), Added(es, index, data);
    if Applies(es, index) {
      FirstIs(new', index, [], k);
      InsertedThenCut(es, k, Rec(index, data));
    } else {
      FirstIs(es, index, [], |es|);
    }
    hide Place, First;
  }

  lemma InsertedThenCut(es: seq<Rec>, k: nat, r: Rec)
    requires k <= |es|
    ensures var new' := es[..k] + [r] + es[k..]; new'[..k] + new'[k + 1..] == es
  {}

  /** With empty data the removal finds the element but leaves it: then it is undone only if the add was not made. */
  lemma AddEmptyThenRemove(es: seq<Rec>, index: nat)
    requires forall i :: 0 <= i < |es| ==> es[i].id != index
    ensures Removed(Added(es, index, []), index) == es <==> !Applies(es, index)
  {
    var k, new' := Place(es, index), Added(es, index, []);
    if Applies(es, index) {
      FirstIs(new', index, [], k);
      assert |new'| == |es| + 1;
    } else {
      FirstIs(es, index, [], |es|);
    }
  }

  /** An element can be added behind a hidden SSID only if another element with data lies between. */
  lemma HiddenSsidBlocksAdd(rest: seq<Rec>, index: nat, data: seq<u8>)
    requires 0 < index && (rest == [] || index < rest[0].id)
    ensures Added([Rec(SSID, [])] + rest, index, data) == [Rec(SSID, [])] + rest
  {
    var es := [Rec(SSID, [])] + rest;
    PlaceIs(es, index, 1);
  }

  // ---------------------------------------------------------------- the same, written out

  /** With every id in front of k smaller and none behind it smaller: an element of the id at k is replaced where it
      is if it has data; otherwise the new one goes in at k if there is an element in front and that has data.  In
      all other cases nothing changes. */
  lemma AddedMeans(es: seq<Rec>, index: nat, data: seq<u8>, k: nat)
    requires k <= |es| && (forall i :: 0 <= i < k ==> es[i].id < index) && (k < |es| ==> es[k].id >= index)
    ensures var there := k < |es| && es[k].id == index;
            && (there && es[k].data != [] ==> Added(es, index, data) == es[k := Rec(index, data)])
            && (there && es[k].data == [] ==> Added(es, index, data) == es)
            && (!there && k > 0 && es[k - 1].data != [] ==> Added(es, index, data) == es[..k] + [Rec(index, data)] + es[k..])
            && (!there && (k == 0 || es[k - 1].data == []) ==> Added(es, index, data) == es)
  {
    PlaceIs(es, index, k);
    hide Place;
  }

  /** In a sorted list the first element of the id is overwritten, whatever surrounds it, unless it is empty. */
  lemma AddReplacesFirst(es: seq<Rec>, index: nat, data: seq<u8>, n: nat)
    requires forall i, j :: 0 <= i < j < |es| ==> es[i].id <= es[j].id
    requires n < |es| && es[n].id == index && forall i :: 0 <= i < n ==> es[i].id != index
    ensures Added(es, index, data) == if es[n].data != [] then es[n := Rec(index, data)] else es
  {
    AddedMeans(es, index, data, n);
    hide Added;
  }

  /** An id that is absent from a sorted list arrives exactly if there is a last smaller id and that element has data. */
  lemma AddInsertsIff(es: seq<Rec>, index: nat, data: seq<u8>)
    requires forall i, j :: 0 <= i < j < |es| ==> es[i].id <= es[j].id
    requires forall i :: 0 <= i < |es| ==> es[i].id != index
    ensures Rec(index, data) in Added(es, index, data) <==>
              exists j :: 0 <= j < |es| && es[j].id < index && es[j].data != [] && (j + 1 < |es| ==> es[j + 1].id > index)
    ensures Rec(index, data) !in Added(es, index, data) ==> Added(es, index, data) == es
  {
    var k := Place(es, index);
    AddedMeans(es, index, data, k);
    if k > 0 && es[k - 1].data != [] {
      hide Added, Place;
      assert (es[..k] + [Rec(index, data)] + es[k..])[k] == Rec(index, data);
      assert es[k - 1].id < index && (k < |es| ==> es[k].id > index);
    }
  }

  /** A removal cuts out the first element of the id unless that is empty. */
  lemma RemovedMeans(es: seq<Rec>, index: nat)
    ensures forall n :: 0 <= n < |es| && es[n].id == index && (forall i :: 0 <= i < n ==> es[i].id != index) ==>
              Removed(es, index) == if es[n].data != [] then es[..n] + es[n + 1..] else es
    ensures (forall i :: 0 <= i < |es| ==> es[i].id != index) ==> Removed(es, index) == es
  {
    FirstById(es, index);
    hide First;
  }

  /** Two buffers with the same fixed part and the same elements have the same bytes. */
  lemma SameListSameBytes(f: seq<u8>, g: seq<u8>, es: seq<Rec>)
    requires Has(f, FIXED, es) && Has(g, FIXED, es) && f[..FIXED] == g[..FIXED]
    ensures f[..FIXED + Size(es)] == g[..FIXED + Size(es)]
  {
    var end := FIXED + Size(es);
    assert f[..end] == f[..FIXED] + f[FIXED..end] && g[..end] == g[..FIXED] + g[FIXED..end];
  }

  /** rtw_add_bcn_ie */
  method AddBcnIe(a: array<u8>, ieLength: nat, index: u8, data: seq<u8>, ghost es: seq<Rec>) returns (newLength: nat)
    requires Has(a[..], FIXED, es) && ieLength == FIXED + Size(es) && |data| < 256
    requires AllOk(Element, Added(es, index, data)) ==> FIXED + Size(Added(es, index, data)) <= a.Length
    modifies a
    ensures Has(a[..], FIXED, Added(es, index, data)) && newLength == FIXED + Size(Added(es, index, data))
    ensures a[..FIXED] == old(a[..FIXED])
  {
    hide Ser;
    var p, ielen, match' := FindPlace(a, ieLength, index, es);
    AddedOk(es, index, data);
    if p.None? || ielen == 0 {
      return ieLength;
    }
    ghost var k := Place(es, index);
    PosNext(Element, es, if match' then k else k - 1);
    var q := p.value + ielen + 2;
    var dst := if match' then p.value else q;
    ghost var n, m := k, if match' then k + 1 else k;
    assert Added(es, index, data) == es[..n] + [Rec(index, data)] + es[m..];
    ExchangedSize(es, n, m, Rec(index, data));
    newLength := InsertElement(a, dst, q, ieLength, index, data, es, n, m);
  }

  lemma ExchangedSize(es: seq<Rec>, n: nat, m: nat, r: Rec)
    requires AllOk(Element, es) && n <= m <= |es| && RecOk(Element, r.id, |r.data|)
    ensures AllOk(Element, es[..n] + [r] + es[m..])
    ensures Size(es[..n] + [r] + es[m..]) == Pos(Element, es, n) + 2 + |r.data| + (Size(es) - Pos(Element, es, m))
  {
    SerSingle(Element, r);
    Splice(Element, es, n, m, [r]);
  }

  lemma AddedOk(es: seq<Rec>, index: u8, data: seq<u8>)
    requires AllOk(Element, es) && |data| < 256
    ensures AllOk(Element, Added(es, index, data))
  {}

  /** The loop of rtw_add_bcn_ie: the element of this id, or the last one before its place. */
  method FindPlace(a: array<u8>, ieLength: nat, index: u8, ghost es: seq<Rec>)
    returns (p: Option<nat>, ielen: nat, match': bool)
    requires Has(a[..], FIXED, es) && ieLength == FIXED + Size(es)
    ensures var k := Place(es, index);
            && match' == (k < |es| && es[k].id == index)
            && (if match' then p == Some(ElemPos(FIXED, es, k)) && ielen == |es[k].data|
                else if k == 0 then p == None
                else p == Some(ElemPos(FIXED, es, k - 1)) && ielen == |es[k - 1].data|)
  {
    hide Ser;
    p, ielen, match' := None, 0, false;
    var i := FIXED;
    ghost var k := 0;
    PosStart(Element, es);
    while i < ieLength
      invariant k <= |es| && i == ElemPos(FIXED, es, k) && !match'
      invariant forall j :: 0 <= j < k ==> es[j].id < index
      invariant if k == 0 then p == None else p == Some(ElemPos(FIXED, es, k - 1)) && ielen == |es[k - 1].data|
      decreases |es| - k
    {
      PosEnd(Element, es, k);
      ElemFields(a[..], FIXED, es, k);
      if a[i] > index {
        break;
      } else if a[i] == index {
        p, ielen, match' := Some(i), a[i + 1], true;
        break;
      }
      p, ielen := Some(i), a[i + 1];
      i, k := i + (ielen + 2), k + 1;
    }
    PosEnd(Element, es, k);
    PlaceIs(es, index, k);
  }

  /** Write one element over the elements n to m. */
  method InsertElement(a: array<u8>, p: nat, q: nat, end: nat, id: u8, data: seq<u8>, ghost es: seq<Rec>, ghost n: nat, ghost m: nat)
    returns (newEnd: nat)
    requires Has(a[..], FIXED, es) && end == FIXED + Size(es) && |data| < 256
    requires n <= m <= |es| && p == ElemPos(FIXED, es, n) && q == ElemPos(FIXED, es, m)
    requires p + 2 + |data| + (end - q) <= a.Length
    modifies a
    ensures var now := es[..n] + [Rec(id, data)] + es[m..];
            Has(a[..], FIXED, now) && newEnd == FIXED + Size(now)
    ensures a[..FIXED] == old(a[..FIXED])
  {
    ghost var r := Rec(id, data);
    SerSingle(Element, r);
    hide Ser;
    Replaced(a[..], es, n, m, [r], p, q, end);
    newEnd := ReplaceRange(a, p, [id, |data|] + data, q, end);
  }

  /** rtw_remove_bcn_ie */
  method RemoveBcnIe(a: array<u8>, ieLength: nat, index: u8, ghost es: seq<Rec>) returns (newLength: nat)
    requires Has(a[..], FIXED, es) && ieLength == FIXED + Size(es)
    modifies a
    ensures Has(a[..], FIXED, Removed(es, index)) && newLength == FIXED + Size(Removed(es, index))
    ensures a[..FIXED] == old(a[..FIXED])
  {
    var p, ielen := GetIe(a, FIXED, index, ieLength - FIXED, es);
    if p.None? || ielen == 0 {
      return ieLength;
    }
    newLength := CutOut(a, ieLength, index, p.value, ielen, es);
  }

  /** Copy the backup of what follows over the element found. */
  method CutOut(a: array<u8>, end: nat, index: u8, p: nat, len: nat, ghost es: seq<Rec>) returns (newEnd: nat)
    requires Has(a[..], FIXED, es) && end == FIXED + Size(es) && First(es, index, []) < |es| && len > 0
    requires var n := First(es, index, []); p == ElemPos(FIXED, es, n) && len == |es[n].data|
    modifies a
    ensures Has(a[..], FIXED, Removed(es, index)) && newEnd == FIXED + Size(Removed(es, index))
    ensures a[..FIXED] == old(a[..FIXED])
  {
    ghost var f := a[..];
    RemovedBytes(f, es, index, p, len, end);
    hide *;
    newEnd := ReplaceRange(a, p, [], p + 2 + len, end);
    assert a[..FIXED] == a[..][..FIXED] == f[..FIXED];
  }

  lemma RemovedBytes(f: seq<u8>, es: seq<Rec>, index: u8, p: nat, len: nat, end: nat)
    requires Has(f, FIXED, es) && end == FIXED + Size(es) && First(es, index, []) < |es| && len > 0
    requires var n := First(es, index, []); p == ElemPos(FIXED, es, n) && len == |es[n].data|
    ensures FIXED <= p <= p + 2 + len <= end <= |f| && AllOk(Element, Removed(es, index))
    ensures var g := Written(f, p, [] + f[p + 2 + len..end]);
            && Has(g, FIXED, Removed(es, index)) && FIXED + Size(Removed(es, index)) == end - (2 + len)
            && g[..FIXED] == f[..FIXED]
  {
    var n := First(es, index, []);
    HasBytes(f, FIXED, es);
    assert es[..n] + [] + es[n + 1..] == Removed(es, index);
    hide Ser, Has, First, Pos, Removed;
    PosNext(Element, es, n);
    PosStart(Element, es);
    Replaced(f, es, n, n + 1, [], p, p + 2 + len, end);
  }
}

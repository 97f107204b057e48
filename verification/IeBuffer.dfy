/** Searching and filtering a buffer of 802.11 elements (core/rtw_ieee80211.c). */
module IeBuffer {
  import opened Bytes
  import opened Tlv

  const MAX_IE_SZ: nat := 768
  const FIXED: nat := 12   // timestamp, beacon interval and capabilities come before the elements

  /** The elements es lie in the buffer from `at` on. */
  ghost predicate Has(f: seq<u8>, at: nat, es: seq<Rec>) {
    && AllOk(Element, es)
    && at + |Ser(Element, es)| <= |f|
    && f[at..at + |Ser(Element, es)|] == Ser(Element, es)
  }

  function ElemPos(at: nat, es: seq<Rec>, n: nat): nat
    requires AllOk(Element, es) && n <= |es|
  {
    at + Pos(Element, es, n)
  }

  function Size(es: seq<Rec>): nat
    requires AllOk(Element, es)
  {
    |Ser(Element, es)|
  }

  /** The fields of element n as the driver reads them. */
  lemma ElemFields(f: seq<u8>, at: nat, es: seq<Rec>, n: nat)
    requires Has(f, at, es) && n < |es|
    ensures var p, len := ElemPos(at, es, n), |es[n].data|;
            && p + 2 + len <= at + Size(es)
            && f[p] == es[n].id && f[p + 1] == len && f[p + 2..p + 2 + len] == es[n].data
            && ElemPos(at, es, n + 1) == p + 2 + len
  {
    AtRecordIn(Element, f, at, es, n);
  }

  lemma ElemPrefix(f: seq<u8>, at: nat, es: seq<Rec>, n: nat, m: nat)
    requires Has(f, at, es) && n < |es| && m <= |es[n].data|
    ensures var p := ElemPos(at, es, n); p + 2 + m <= |f| && f[p + 2..p + 2 + m] == es[n].data[..m]
  {
    hide Ser;
    ElemFields(f, at, es, n);
    var p, len := ElemPos(at, es, n), |es[n].data|;
    assert f[p + 2..p + 2 + len][..m] == f[p + 2..p + 2 + m];
  }

  /** rtw_get_ie: the walk is bounded by the buffer and finds the first element of the id. */
  method GetIe(a: array<u8>, at: nat, id: u8, limit: int, ghost es: seq<Rec>) returns (p: Option<nat>, len: nat)
    requires Has(a[..], at, es) && limit == Size(es)
    ensures var n := First(es, id, []);
            && p == (if n < |es| then Some(ElemPos(at, es, n)) else None)
            && len == (if n < |es| then |es[n].data| else 0)
    ensures p.Some? <==> exists i :: 0 <= i < |es| && es[i].id == id
    ensures forall n :: 0 <= n < |es| && es[n].id == id && (forall i :: 0 <= i < n ==> es[i].id != id) ==>
              p == Some(ElemPos(at, es, n)) && len == |es[n].data|
  {
    FirstById(es, id);
    p, len := Walk(a, at, id, limit, es);
    hide First, Ser;
  }

  lemma FirstById(es: seq<Rec>, id: nat)
    ensures First(es, id, []) < |es| <==> exists i :: 0 <= i < |es| && es[i].id == id
    ensures forall n :: 0 <= n < |es| && es[n].id == id && (forall i :: 0 <= i < n ==> es[i].id != id) ==> First(es, id, []) == n
  {
    FirstMeans(es, id, []);
    hide First;
  }

  /** The loop of rtw_get_ie. */
  method Walk(a: array<u8>, at: nat, id: u8, limit: int, ghost es: seq<Rec>) returns (p: Option<nat>, len: nat)
    requires Has(a[..], at, es) && limit == Size(es)
    ensures var n := First(es, id, []);
            && p == (if n < |es| then Some(ElemPos(at, es, n)) else None)
            && len == (if n < |es| then |es[n].data| else 0)
  {
    p, len := None, 0;
    PosEnd(Element, es, 0);
    PosStart(Element, es);
    hide Ser, Has, First, Matches, Pos;
    if limit < 1 {
      FirstIs(es, id, [], 0);
      return;
    }
    var q, i := at, 0;
    ghost var n := 0;
    while true
      invariant n < |es| && q == ElemPos(at, es, n) && i == q - at
      invariant forall j :: 0 <= j < n ==> !Matches(es[j], id, [])
      decreases |es| - n
    {
      ElemFields(a[..], at, es, n);
      if a[q] == id {
        FirstIs(es, id, [], n);
        return Some(q), a[q + 1];
      }
      var tmp := a[q + 1];
      q, i, n := q + (tmp + 2), i + (tmp + 2), n + 1;
      PosEnd(Element, es, n);
      if i >= limit {
        break;
      }
    }
    FirstIs(es, id, [], |es|);
  }

  // ---------------------------------------------------------------- writing an element

  /** rtw_set_ie: the length is cut to an octet, the data is not. */
  method SetIe(a: array<u8>, at: nat, id: u8, source: seq<u8>, frlen: nat) returns (next: nat, newFrlen: nat)
    requires at + 2 + |source| <= a.Length
    modifies a
    ensures a[..] == Written(old(a[..]), at, [id, |source| % 256] + source)
    ensures next == at + |source| + 2 && newFrlen == frlen + |source| + 2
  {
    ghost var f := a[..];
    a[at], a[at + 1] := id, |source| % 256;
    assert a[..] == Written(f, at, [id, |source| % 256]);
    Overwrite(a, at + 2, source);
    HeaderThenData(f, at, id, source);
    next, newFrlen := at + |source| + 2, frlen + (|source| + 2);
  }

  lemma HeaderThenData(f: seq<u8>, at: nat, id: u8, source: seq<u8>)
    requires at + 2 + |source| <= |f|
    ensures var h := [id, |source| % 256];
            Written(Written(f, at, h), at + 2, source) == Written(f, at, h + source)
  {}

  /** What was written is read back as that element exactly if the data fits the length octet ... */
  lemma SetIeReadsBackIff(f: seq<u8>, at: nat, id: u8, source: seq<u8>)
    requires at + 2 + |source| <= |f|
    ensures Sees(Element, Written(f, at, [id, |source| % 256] + source), at, id, source) <==> |source| < 256
  {}

  /** ... and then writing behind a list of elements appends to the list. */
  lemma SetIeAppends(f: seq<u8>, base: nat, es: seq<Rec>, id: u8, source: seq<u8>)
    requires Has(f, base, es) && |source| < 256 && base + Size(es) + 2 + |source| <= |f|
    ensures var g := Written(f, base + Size(es), [id, |source| % 256] + source);
            Has(g, base, es + [Rec(id, source)]) && Size(es + [Rec(id, source)]) == Size(es) + 2 + |source|
  {
    var r, at, end := Rec(id, source), base + Size(es), base + Size(es) + 2 + |source|;
    SerSingle(Element, r);
    hide Ser;
    SerAppend(Element, es, [r]);
    var g := Written(f, at, SerOne(Element, r));
    assert g[base..end] == f[base..at] + SerOne(Element, r);
  }

  /** Elements that have the id are long enough for the OUI comparison. */
  predicate LongEnough(es: seq<Rec>, id: nat, oui: seq<u8>) {
    forall j :: 0 <= j < |es| && es[j].id == id ==> |es[j].data| >= |oui|
  }

  /** rtw_get_ie_ex: first element with the id whose data begins with the OUI (none given: any). */
  method GetIeEx(a: array<u8>, at: nat, inLen: nat, eid: u8, oui: seq<u8>, ghost es: seq<Rec>)
    returns (p: Option<nat>, ielen: nat)
    requires Has(a[..], at, es) && inLen == Size(es) && LongEnough(es, eid, oui)
    ensures var n := First(es, eid, oui);
            && p == (if n < |es| then Some(ElemPos(at, es, n)) else None)
            && ielen == (if n < |es| then |es[n].data| + 2 else 0)
    ensures p.Some? <==>
              exists i :: 0 <= i < |es| && es[i].id == eid && |es[i].data| >= |oui| && es[i].data[..|oui|] == oui
    ensures forall n :: 0 <= n < |es| && es[n].id == eid && |es[n].data| >= |oui| && es[n].data[..|oui|] == oui
                        && (forall i :: 0 <= i < n ==> !(es[i].id == eid && |es[i].data| >= |oui| && es[i].data[..|oui|] == oui))
                        ==> p == Some(ElemPos(at, es, n)) && ielen == |es[n].data| + 2
  {
    FirstFound(es, eid, oui);
    p, ielen := WalkEx(a, at, inLen, eid, oui, es);
    hide First, Ser;
  }

  /** The loop of rtw_get_ie_ex. */
  method WalkEx(a: array<u8>, at: nat, inLen: nat, eid: u8, oui: seq<u8>, ghost es: seq<Rec>)
    returns (p: Option<nat>, ielen: nat)
    requires Has(a[..], at, es) && inLen == Size(es) && LongEnough(es, eid, oui)
    ensures var n := First(es, eid, oui);
            && p == (if n < |es| then Some(ElemPos(at, es, n)) else None)
            && ielen == (if n < |es| then |es[n].data| + 2 else 0)
  {
    hide Ser;
    p, ielen := None, 0;
    var cnt := 0;
    ghost var n := 0;
    PosStart(Element, es);
    while cnt < inLen
      invariant n <= |es| && at + cnt == ElemPos(at, es, n)
      invariant forall j :: 0 <= j < n ==> !Matches(es[j], eid, oui)
      decreases |es| - n
    {
      PosEnd(Element, es, n);
      ElemFields(a[..], at, es, n);
      var elen: int := a[at + cnt + 1];
      if eid == a[at + cnt] {
        ElemPrefix(a[..], at, es, n, |oui|);
        if a[at + cnt + 2..at + cnt + 2 + |oui|] == oui {
          FirstIs(es, eid, oui, n);
          return Some(at + cnt), elen + 2;
        }
      }
      cnt, n := cnt + (elen + 2), n + 1;
    }
    PosEnd(Element, es, n);
    FirstIs(es, eid, oui, n);
  }

  // ---------------------------------------------------------------- removing elements

  lemma CutBytes(f: seq<u8>, at: nat, ser: seq<u8>, i: nat, j: nat)
    requires i <= j <= |ser| && at + |ser| <= |f| && f[at..at + |ser|] == ser
    ensures var p, q, end := at + i, at + j, at + |ser|;
            var g := Written(f, p, f[q..end]);
            && |g| == |f| && g[at..p] == ser[..i] && g[p..p + (end - q)] == ser[j..]
            && g[..at] == f[..at] && g[end..] == f[end..]
  {
    var p, q, end := at + i, at + j, at + |ser|;
    assert f[q..end] == f[at..end][j..] && f[at..p] == f[at..end][..i];
  }

  /** Copying the remainder over element n joins what is kept with what is still to do. */
  lemma CutElement(f: seq<u8>, at: nat, es: seq<Rec>, n: nat, p: nat, q: nat, end: nat)
    requires Has(f, at, es) && n < |es|
    requires p == ElemPos(at, es, n) && q == p + 2 + |es[n].data| && end == at + Size(es)
    ensures at <= p <= q <= end <= |f| && Size(es[..n]) == p - at && Size(es[n + 1..]) == end - q
    ensures var g := Written(f, p, f[q..end]);
            && Has(g, at, es[..n]) && Has(g, p, es[n + 1..])
            && g[..at] == f[..at] && g[end..] == f[end..]
  {
    HasBytes(f, at, es);
    hide Ser, Has;
    var ser := Ser(Element, es);
    SplitAt(Element, es, n);
    SplitAt(Element, es, n + 1);
    PosNext(Element, es, n);
    CutSer(f, at, ser, es[..n], es[n + 1..], p, q, end);
  }

  /** The same, with the lists and their bytes named. */
  lemma CutSer(f: seq<u8>, at: nat, ser: seq<u8>, a: seq<Rec>, b: seq<Rec>, p: nat, q: nat, end: nat)
    requires AllOk(Element, a) && AllOk(Element, b) && at <= p <= q <= end <= |f| && |ser| == end - at && f[at..end] == ser
    requires ser[..p - at] == Ser(Element, a) && ser[q - at..] == Ser(Element, b)
    ensures Size(a) == p - at && Size(b) == end - q
    ensures var g := Written(f, p, f[q..end]);
            && Has(g, at, a) && Has(g, p, b)
            && g[..at] == f[..at] && g[end..] == f[end..]
  {
    hide Ser, Written, Has, AllOk;
    CutBytes(f, at, ser, p - at, q - at);
    var g := Written(f, p, f[q..end]);
    HasFrom(g, at, p, a, ser[..p - at]);
    HasFrom(g, p, p + (end - q), b, ser[q - at..]);
  }

  lemma HasFrom(g: seq<u8>, at: nat, end: nat, es: seq<Rec>, ser: seq<u8>)
    requires AllOk(Element, es) && ser == Ser(Element, es) && at + |ser| == end <= |g| && g[at..end] == ser
    ensures Has(g, at, es) && Size(es) == |ser|
  {}

  lemma HasBytes(f: seq<u8>, at: nat, es: seq<Rec>)
    requires Has(f, at, es)
    ensures AllOk(Element, es) && at + Size(es) <= |f| && f[at..at + Size(es)] == Ser(Element, es)
  {}

  /** Elements in front of and behind each other are one list. */
  lemma Join(f: seq<u8>, at: nat, a: seq<Rec>, b: seq<Rec>)
    requires Has(f, at, a) && Has(f, at + Size(a), b)
    ensures Has(f, at, a + b) && Size(a + b) == Size(a) + Size(b)
  {
    SerAppend(Element, a, b);
    var m, e := at + Size(a), at + Size(a) + Size(b);
    assert f[at..e] == f[at..m] + f[m..e];
  }

  /** A write behind the elements does not touch them. */
  lemma HasBefore(f: seq<u8>, g: seq<u8>, at: nat, es: seq<Rec>, end: nat)
    requires Has(f, at, es) && at + Size(es) <= end <= |f| && end <= |g| && g[..end] == f[..end]
    ensures Has(g, at, es)
  {
    assert g[at..at + Size(es)] == g[..end][at..at + Size(es)];
  }

  /** rtw_ies_remove_ie: filter the elements behind `offset` in place. */
  method RemoveIe(a: array<u8>, iesLen: nat, offset: nat, eid: u8, oui: seq<u8>, ghost es: seq<Rec>)
    returns (success: bool, newLen: nat)
    requires iesLen <= a.Length && iesLen - offset <= MAX_IE_SZ
    requires offset <= iesLen ==> Has(a[..], offset, es) && offset + Size(es) == iesLen && LongEnough(es, eid, oui)
    modifies a
    ensures iesLen <= offset ==> !success && newLen == iesLen && a[..] == old(a[..])
    ensures offset < iesLen ==>
              && success == (Without(es, eid, oui) != es)
              && Has(a[..], offset, Without(es, eid, oui)) && newLen == offset + Size(Without(es, eid, oui))
              && a[..offset] == old(a[..offset]) && a[iesLen..] == old(a[iesLen..])
    ensures offset < iesLen ==>
              (success <==> exists i :: 0 <= i < |es| && es[i].id == eid && |es[i].data| >= |oui| && es[i].data[..|oui|] == oui)
  {
    WithoutShortensIff(es, eid, oui);
    success, newLen := RemoveAll(a, iesLen, offset, eid, oui, es);
    hide Without, Ser, Has;
  }

  /** The loop of rtw_ies_remove_ie. */
  method RemoveAll(a: array<u8>, iesLen: nat, offset: nat, eid: u8, oui: seq<u8>, ghost es: seq<Rec>)
    returns (success: bool, newLen: nat)
    requires iesLen <= a.Length && iesLen - offset <= MAX_IE_SZ
    requires offset <= iesLen ==> Has(a[..], offset, es) && offset + Size(es) == iesLen && LongEnough(es, eid, oui)
    modifies a
    ensures iesLen <= offset ==> !success && newLen == iesLen && a[..] == old(a[..])
    ensures offset < iesLen ==>
              && success == (Without(es, eid, oui) != es)
              && Has(a[..], offset, Without(es, eid, oui)) && newLen == offset + Size(Without(es, eid, oui))
              && a[..offset] == old(a[..offset]) && a[iesLen..] == old(a[iesLen..])
  {
    hide Ser;
    success, newLen := false, iesLen;
    if iesLen <= offset {
      return;
    }
    var start: nat, searchLen: nat := offset, iesLen - offset;
    ghost var f, kept, todo: seq<Rec> := a[..], [], es;
    RemovalStart(f, iesLen, offset, es);
    assert LongEnough(es, eid, oui) && PartlyFiltered(es, eid, oui, kept, todo, success);
    hide RemovalState, PartlyFiltered, Without;
    while true
      invariant RemovalState(f, a[..], iesLen, offset, start, searchLen, kept, todo) && newLen == start + searchLen
      invariant LongEnough(todo, eid, oui) && PartlyFiltered(es, eid, oui, kept, todo, success)
      decreases |todo|
    {
      RemovalFacts(f, a[..], iesLen, offset, start, searchLen, kept, todo);
      var target, targetLen := GetIeEx(a, start, searchLen, eid, oui, todo);
      ghost var n := First(todo, eid, oui);
      FilterStep(es, eid, oui, kept, todo, success);
      if target.None? {
        break;
      }
      var remainLen := CutFound(a, f, iesLen, offset, start, searchLen, target.value, targetLen, kept, todo, n);
      newLen := newLen - targetLen;
      success := true;
      start, searchLen := target.value, remainLen;
      kept, todo := kept + todo[..n], todo[n + 1..];
    }
    RemovalEnd(f, a[..], iesLen, offset, start, searchLen, kept, todo);
  }

  /** The removal loop on the bytes f: `kept` lies in front of start, `todo` from there to the new end. */
  ghost predicate RemovalState(f: seq<u8>, g: seq<u8>, iesLen: nat, offset: nat, start: nat, searchLen: nat,
                               kept: seq<Rec>, todo: seq<Rec>) {
    && offset <= start && start + searchLen <= iesLen <= |g| == |f|
    && Has(g, offset, kept) && start == offset + Size(kept)
    && Has(g, start, todo) && searchLen == Size(todo)
    && g[..offset] == f[..offset] && g[iesLen..] == f[iesLen..]
  }

  lemma RemovalStart(f: seq<u8>, iesLen: nat, offset: nat, es: seq<Rec>)
    requires offset <= iesLen <= |f| && Has(f, offset, es) && offset + Size(es) == iesLen
    ensures RemovalState(f, f, iesLen, offset, offset, iesLen - offset, [], es)
  {
    PosStart(Element, es);
    hide Ser;
  }

  lemma RemovalFacts(f: seq<u8>, g: seq<u8>, iesLen: nat, offset: nat, start: nat, searchLen: nat, kept: seq<Rec>, todo: seq<Rec>)
    requires RemovalState(f, g, iesLen, offset, start, searchLen, kept, todo)
    ensures Has(g, start, todo) && AllOk(Element, todo) && searchLen == Size(todo) && AllOk(Element, kept)
    ensures offset <= start && start + searchLen <= iesLen <= |g|
  {}

  lemma RemovalEnd(f: seq<u8>, g: seq<u8>, iesLen: nat, offset: nat, start: nat, searchLen: nat, kept: seq<Rec>, todo: seq<Rec>)
    requires RemovalState(f, g, iesLen, offset, start, searchLen, kept, todo)
    ensures Has(g, offset, kept + todo) && start + searchLen == offset + Size(kept + todo)
    ensures offset <= |g| == |f| && iesLen <= |g| && g[..offset] == f[..offset] && g[iesLen..] == f[iesLen..]
  {
    hide Ser;
    Join(g, offset, kept, todo);
  }

  lemma TailKept(f: seq<u8>, g: seq<u8>, m: nat, n: nat)
    requires m <= n <= |f| == |g| && f[m..] == g[m..]
    ensures f[n..] == g[n..]
  {
    assert f[n..] == f[m..][n - m..] && g[n..] == g[m..][n - m..];
  }

  /** The state of the removal loop, on element lists. */
  predicate PartlyFiltered(es: seq<Rec>, id: nat, oui: seq<u8>, kept: seq<Rec>, todo: seq<Rec>, success: bool) {
    && Without(es, id, oui) == kept + Without(todo, id, oui)
    && (if success then |kept| + |todo| < |es| else kept + todo == es)
  }

  lemma FilterStep(es: seq<Rec>, id: nat, oui: seq<u8>, kept: seq<Rec>, todo: seq<Rec>, success: bool)
    requires PartlyFiltered(es, id, oui, kept, todo, success)
    ensures var n := First(todo, id, oui);
            if n == |todo| then Without(es, id, oui) == kept + todo && success == (Without(es, id, oui) != es)
            else PartlyFiltered(es, id, oui, kept + todo[..n], todo[n + 1..], true)
  {
    var n := First(todo, id, oui);
    WithoutFirst(todo, id, oui);
    hide Without, First;
    if n < |todo| {
      var all, rest, front := Without(es, id, oui), Without(todo[n + 1..], id, oui), todo[..n];
      assert all == kept + (front + rest) == (kept + front) + rest;
    }
  }

  /** One round of the removal loop: back the remainder up and copy it over the element found. */
  method CutFound(a: array<u8>, ghost f: seq<u8>, ghost iesLen: nat, ghost offset: nat, start: nat, searchLen: nat, p: nat, targetLen: nat,
                  ghost kept: seq<Rec>, ghost todo: seq<Rec>, ghost n: nat)
    returns (remainLen: nat)
    requires RemovalState(f, a[..], iesLen, offset, start, searchLen, kept, todo) && AllOk(Element, todo)
    requires n < |todo| && p == ElemPos(start, todo, n) && targetLen == |todo[n].data| + 2
    modifies a
    ensures RemovalState(f, a[..], iesLen, offset, p, remainLen, kept + todo[..n], todo[n + 1..])
    ensures p + targetLen + remainLen == start + searchLen
  {
    var remain := p + targetLen;
    RoundKeepsState(f, a[..], iesLen, offset, start, searchLen, kept, todo, n, p, remain);
    hide *;
    remainLen := searchLen - (remain - start);
    var buf := a[remain..remain + remainLen];
    assert buf == a[..][remain..start + searchLen];
    Overwrite(a, p, buf);
  }

  lemma RoundKeepsState(f: seq<u8>, g: seq<u8>, iesLen: nat, offset: nat, start: nat, searchLen: nat,
                        kept: seq<Rec>, todo: seq<Rec>, n: nat, p: nat, q: nat)
    requires RemovalState(f, g, iesLen, offset, start, searchLen, kept, todo) && AllOk(Element, todo)
    requires n < |todo| && p == ElemPos(start, todo, n) && q == p + 2 + |todo[n].data|
    ensures start <= p <= q <= start + searchLen <= |g|
    ensures RemovalState(f, Written(g, p, g[q..start + searchLen]), iesLen, offset, p, start + searchLen - q, kept + todo[..n], todo[n + 1..])
  {
    CutRound(g, offset, start, kept, todo, n, p, q, start + searchLen);
    hide Ser, Has, Pos;
    var h := Written(g, p, g[q..start + searchLen]);
    assert |h| == |g|;
    TailKept(g, h, start + searchLen, iesLen);
  }

  lemma CutRound(f: seq<u8>, offset: nat, start: nat, kept: seq<Rec>, todo: seq<Rec>, n: nat, p: nat, q: nat, end: nat)
    requires Has(f, offset, kept) && start == offset + Size(kept) && Has(f, start, todo) && end == start + Size(todo)
    requires n < |todo| && p == ElemPos(start, todo, n) && q == p + 2 + |todo[n].data|
    ensures start <= p <= q <= end <= |f| && AllOk(Element, kept + todo[..n]) && AllOk(Element, todo[n + 1..])
    ensures p == offset + Size(kept + todo[..n]) && end - q == Size(todo[n + 1..])
    ensures var g := Written(f, p, f[q..end]);
            && Has(g, offset, kept + todo[..n]) && Has(g, p, todo[n + 1..])
            && g[..offset] == f[..offset] && g[end..] == f[end..]
  {
    CutElement(f, start, todo, n, p, q, end);
    var g := Written(f, p, f[q..end]);
    Kept(f, g, offset, kept, start);
    Join(g, offset, kept, todo[..n]);
  }

  lemma Kept(f: seq<u8>, g: seq<u8>, offset: nat, kept: seq<Rec>, start: nat)
    requires Has(f, offset, kept) && start == offset + Size(kept) && |g| >= start && g[..start] == f[..start]
    ensures Has(g, offset, kept) && g[..offset] == f[..offset]
  {
    HasBefore(f, g, offset, kept, start);
    assert g[..offset] == g[..start][..offset] && f[..offset] == f[..start][..offset];
  }
}

/** Removing a P2P attribute from the P2P element of a BSS entry, in place (core/rtw_ieee80211.c):
    a list inside an element of a list. */
module P2pAttr {
  import opened Bytes
  import opened Tlv
  import opened IeBuffer

  const VENDOR: u8 := 221
  const P2P_OUI: seq<u8> := [0x50, 0x6F, 0x9A, 0x09]

  function P2pElement(attrs: seq<Rec>): Rec
    requires AllOk(Attribute, attrs)
  {
    Rec(VENDOR, P2P_OUI + Ser(Attribute, attrs))
  }

  /** The first P2P element, if any, is a well-formed list of attributes. */
  ghost predicate Nested(es: seq<Rec>, attrs: seq<Rec>) {
    var n := First(es, VENDOR, P2P_OUI);
    AllOk(Attribute, attrs) && (n < |es| ==> es[n] == P2pElement(attrs))
  }

  /** The list with the attribute taken out of its first P2P element. */
  function Filtered(es: seq<Rec>, attrs: seq<Rec>, id: u8): seq<Rec>
    requires AllOk(Attribute, attrs)
  {
    var n := First(es, VENDOR, P2P_OUI);
    WithoutOk(Attribute, attrs, id, []);
    if n < |es| then es[n := P2pElement(Without(attrs, id, []))] else es
  }

  // ---------------------------------------------------------------- inside the element

  /** An element at p with this total length holds the attributes behind its OUI. */
  ghost predicate HasAttrs(f: seq<u8>, p: nat, ielen: nat, attrs: seq<Rec>) {
    && AllOk(Attribute, attrs)
    && ielen == 6 + |Ser(Attribute, attrs)| && ielen - 2 < 256 && p + ielen <= |f|
    && f[p] == VENDOR && f[p + 1] == ielen - 2 && f[p + 2..p + 6] == P2P_OUI
    && f[p + 6..p + ielen] == Ser(Attribute, attrs)
  }

  lemma AttrFields(f: seq<u8>, p: nat, ielen: nat, attrs: seq<Rec>, n: nat)
    requires HasAttrs(f, p, ielen, attrs) && n < |attrs|
    ensures var q, len := p + 6 + Pos(Attribute, attrs, n), |attrs[n].data|;
            && q + 3 + len <= p + ielen && p + 6 + Pos(Attribute, attrs, n + 1) == q + 3 + len
            && f[q] == attrs[n].id && Be16(f[q + 2], f[q + 1]) == len
  {
    AtRecordIn(Attribute, f, p + 6, attrs, n);
  }

  /** rtw_get_p2p_attr */
  method GetP2pAttr(a: array<u8>, p: nat, ielen: nat, id: u8, ghost attrs: seq<Rec>)
    returns (target: Option<nat>, len: nat)
    requires HasAttrs(a[..], p, ielen, attrs)
    ensures var n := First(attrs, id, []);
            && target == (if n < |attrs| then Some(p + 6 + Pos(Attribute, attrs, n)) else None)
            && len == (if n < |attrs| then |attrs[n].data| + 3 else 0)
  {
    hide Ser;
    target, len := None, 0;
    assert a[..][p + 2..p + 6] == a[p + 2..p + 6];
    if a[p] != VENDOR || a[p + 2..p + 6] != P2P_OUI {
      return;
    }
    var q := p + 6;
    ghost var n := 0;
    PosStart(Attribute, attrs);
    while q - p < ielen
      invariant n <= |attrs| && q == p + 6 + Pos(Attribute, attrs, n)
      invariant forall j :: 0 <= j < n ==> !Matches(attrs[j], id, [])
      decreases |attrs| - n
    {
      PosEnd(Attribute, attrs, n);
      AttrFields(a[..], p, ielen, attrs, n);
      var attrLen := (Be16(a[q + 2], a[q + 1]) + 3) % 65536;
      if a[q] == id {
        FirstIs(attrs, id, [], n);
        return Some(q), attrLen;
      }
      q, n := q + attrLen, n + 1;
    }
    PosEnd(Attribute, attrs, n);
    FirstIs(attrs, id, [], n);
  }

  /** The bytes after one round of the removal loop: closed up, zero-filled, length byte corrected. */
  function Closed(f: seq<u8>, p: nat, ielen: nat, t: nat, len: nat): seq<u8>
    requires p + 2 <= t && t + len <= p + ielen <= |f|
    requires 2 <= ielen - len < 258
  {
    Written(Written(f, t, f[t + len..p + ielen] + Zeros(len)), p + 1, [ielen - len - 2])
  }

  lemma ClosedParts(f: seq<u8>, p: nat, ielen: nat, t: nat, len: nat)
    requires p + 6 <= t && t + len <= p + ielen <= |f| && 2 <= ielen - len < 258
    ensures var g, end := Closed(f, p, ielen, t, len), p + ielen;
            && |g| == |f| && g[..p + 1] == f[..p + 1] && g[p + 1] == ielen - len - 2
            && g[p + 2..t] == f[p + 2..t] && g[t..end - len] == f[t + len..end]
            && g[end - len..end] == Zeros(len) && g[end..] == f[end..]
  {
    var end, w := p + ielen, f[t + len..p + ielen] + Zeros(len);
    ShiftedParts(f, t, len, end);
    var h, b := Written(f, t, w), [ielen - len - 2];
    WrittenApart(h, p + 1, b, 0, p + 1);
    WrittenApart(h, p + 1, b, p + 2, t);
    WrittenApart(h, p + 1, b, t, end - len);
    WrittenApart(h, p + 1, b, end - len, end);
    WrittenApart(h, p + 1, b, end, |h|);
    WrittenApart(f, t, w, 0, p + 1);
    WrittenApart(f, t, w, p + 2, t);
    WrittenApart(f, t, w, end, |f|);
  }

  lemma ShiftedParts(f: seq<u8>, t: nat, len: nat, end: nat)
    requires t + len <= end <= |f|
    ensures var h := Written(f, t, f[t + len..end] + Zeros(len));
            h[t..end - len] == f[t + len..end] && h[end - len..end] == Zeros(len)
  {}

  lemma CloseAttr(f: seq<u8>, p: nat, ielen: nat, attrs: seq<Rec>, n: nat)
    requires HasAttrs(f, p, ielen, attrs) && n < |attrs|
    ensures var t, len := p + 6 + Pos(Attribute, attrs, n), |attrs[n].data| + 3;
            && p + 6 <= t && t + len <= p + ielen && 6 <= ielen - len < 258
            && HasAttrs(Closed(f, p, ielen, t, len), p, ielen - len, attrs[..n] + attrs[n + 1..])
  {
    hide Ser;
    var ser := Ser(Attribute, attrs);
    var t, len := p + 6 + Pos(Attribute, attrs, n), |attrs[n].data| + 3;
    var rest := attrs[..n] + attrs[n + 1..];
    CutOne(Attribute, attrs, n, rest);
    ClosedParts(f, p, ielen, t, len);
    Inside(f, p + 6, ser, t, t + len);
    var g, end := Closed(f, p, ielen, t, len), p + ielen;
    assert g[p] == g[..p + 1][p] == f[..p + 1][p];
    assert g[p + 2..p + 6] == g[p + 2..t][..4] == f[p + 2..t][..4] == f[p + 2..p + 6];
    assert g[p + 6..end - len] == g[p + 2..t][4..] + g[t..end - len];
    assert f[p + 2..t][4..] == f[p + 6..t];
  }

  /** Clear the attribute, copy the following ones up to the end over it, clear what they leave. */
  method ShiftOver(a: array<u8>, t: nat, len: nat, end: nat)
    requires t + len <= end <= a.Length
    modifies a
    ensures a[..] == Written(old(a[..]), t, old(a[..])[t + len..end] + Zeros(len))
  {
    ghost var f := a[..];
    Overwrite(a, t, Zeros(len));
    var tail := a[t + len..end];
    assert tail == f[t + len..end];
    Overwrite(a, t, tail);
    Overwrite(a, end - len, Zeros(len));
    WriteOver(f, t, Zeros(len), tail);
  }

  method LowerByte(a: array<u8>, i: nat, n: nat)
    requires i < a.Length && n <= a[..][i]
    modifies a
    ensures a[..] == Written(old(a[..]), i, [old(a[..])[i] - n])
  {
    a[i] := a[i] - n;
  }

  /** The body of the loop in rtw_p2p_attr_remove. */
  method CloseOver(a: array<u8>, p: nat, ielen: nat, t: nat, len: nat) returns (left: nat)
    requires p + 6 <= t && t + len <= p + ielen <= a.Length && 6 <= ielen - len && ielen < 258
    requires a[p + 1] == ielen - 2
    modifies a
    ensures left == ielen - len && a[..] == Closed(old(a[..]), p, ielen, t, len)
  {
    ghost var f := a[..];
    assert f[p + 1] == ielen - 2;
    ghost var h := ClosedIs(f, p, ielen, t, len);
    hide Closed, Written, Zeros;
    ShiftOver(a, t, len, p + ielen);
    LowerByte(a, p + 1, len);
    left := ielen - len;
  }

  lemma ClosedIs(f: seq<u8>, p: nat, ielen: nat, t: nat, len: nat) returns (h: seq<u8>)
    requires p + 6 <= t && t + len <= p + ielen <= |f| && 2 <= ielen - len < 258 && f[p + 1] == ielen - 2
    ensures h == Written(f, t, f[t + len..p + ielen] + Zeros(len)) && |h| == |f| && h[p + 1] == ielen - 2
    ensures Closed(f, p, ielen, t, len) == Written(h, p + 1, [h[p + 1] - len])
  {
    h := Written(f, t, f[t + len..p + ielen] + Zeros(len));
  }

  /** Clearing, closing up and clearing the end again is one write. */
  lemma WriteOver(f: seq<u8>, t: nat, z: seq<u8>, tail: seq<u8>)
    requires t + |z| + |tail| <= |f|
    ensures Written(Written(Written(f, t, z), t, tail), t + |tail|, z) == Written(f, t, tail + z)
  {}

  /** What rtw_p2p_attr_remove leaves: the filtered element, zeros up to its old end, the rest untouched. */
  ghost predicate ElementFiltered(f: seq<u8>, g: seq<u8>, p: nat, oldLen: nat, newLen: nat, attrs: seq<Rec>) {
    && |g| == |f| && newLen <= oldLen && p + oldLen <= |f|
    && HasAttrs(g, p, newLen, attrs)
    && g[p + newLen..p + oldLen] == Zeros(oldLen - newLen)
    && g[..p] == f[..p] && g[p + oldLen..] == f[p + oldLen..]
  }

  lemma CloseKeepsRest(f: seq<u8>, g: seq<u8>, p: nat, oldLen: nat, ielen: nat, attrs: seq<Rec>, n: nat)
    requires ElementFiltered(f, g, p, oldLen, ielen, attrs) && n < |attrs|
    ensures var t, len := p + 6 + Pos(Attribute, attrs, n), |attrs[n].data| + 3;
            && p + 6 <= t && t + len <= p + ielen && 6 <= ielen - len < 258
            && ElementFiltered(f, Closed(g, p, ielen, t, len), p, oldLen, ielen - len, attrs[..n] + attrs[n + 1..])
  {
    LengthByte(g, p, ielen, attrs);
    hide Ser, HasAttrs;
    CloseAttr(g, p, ielen, attrs, n);
    var t, len := p + 6 + Pos(Attribute, attrs, n), |attrs[n].data| + 3;
    ClosedParts(g, p, ielen, t, len);
    ClosedRegions(g, Closed(g, p, ielen, t, len), p, p + ielen, len, p + oldLen);
    hide Closed;
  }

  /** A freed tail in front of a freed tail; what is around is as it was. */
  lemma ClosedRegions(g: seq<u8>, h: seq<u8>, p: nat, mid: nat, len: nat, end: nat)
    requires |h| == |g| && p + len < mid <= end <= |g|
    requires h[..p + 1] == g[..p + 1] && h[mid - len..mid] == Zeros(len) && h[mid..] == g[mid..]
    requires g[mid..end] == Zeros(end - mid)
    ensures h[mid - len..end] == Zeros(end - mid + len) && h[end..] == g[end..] && h[..p] == g[..p]
  {
    assert h[mid..end] == h[mid..][..end - mid] == g[mid..][..end - mid] == g[mid..end];
    assert h[mid - len..end] == h[mid - len..mid] + h[mid..end];
    assert h[end..] == h[mid..][end - mid..] == g[mid..][end - mid..];
    assert h[..p] == h[..p + 1][..p] && g[..p] == g[..p + 1][..p];
  }

  lemma LengthByte(g: seq<u8>, p: nat, ielen: nat, attrs: seq<Rec>)
    requires HasAttrs(g, p, ielen, attrs)
    ensures AllOk(Attribute, attrs) && p + ielen <= |g| && 6 <= ielen < 258 && g[p + 1] == ielen - 2
  {}

  /** rtw_p2p_attr_remove: every attribute with the id goes, the others keep their order. */
  method AttrRemove(a: array<u8>, p: nat, ielenOri: nat, id: u8, ghost attrs: seq<Rec>) returns (ielen: nat)
    requires HasAttrs(a[..], p, ielenOri, attrs)
    modifies a
    ensures ElementFiltered(old(a[..]), a[..], p, ielenOri, ielen, Without(attrs, id, []))
  {
    hide Ser, HasAttrs, Without, First;
    ielen := ielenOri;
    ghost var f, kept := a[..], attrs;
    LengthByte(f, p, ielen, attrs);
    while true
      invariant ElementFiltered(f, a[..], p, ielenOri, ielen, kept)
      invariant Without(kept, id, []) == Without(attrs, id, [])
      decreases |kept|
    {
      var target, len := GetP2pAttr(a, p, ielen, id, kept);
      ghost var n := First(kept, id, []);
      WithoutFirst(kept, id, []);
      if target.None? {
        break;
      }
      CloseKeepsRest(f, a[..], p, ielenOri, ielen, kept, n);
      WithoutAppend(kept[..n], kept[n + 1..], id, []);
      WithoutNone(kept[..n], id, []);
      LengthByte(a[..], p, ielen, kept);
      ielen := CloseOver(a, p, ielen, target.value, len);
      kept := kept[..n] + kept[n + 1..];
    }
  }

  lemma WithoutNone(rs: seq<Rec>, id: nat, prefix: seq<u8>)
    requires forall j :: 0 <= j < |rs| ==> !Matches(rs[j], id, prefix)
    ensures Without(rs, id, prefix) == rs
  {
    if rs != [] {
      assert rs == [rs[0]] + rs[1..];
    }
  }

  // ---------------------------------------------------------------- in the BSS entry

  /** rtw_get_p2p_ie; its length and position guards never fire on a buffer of this capacity. */
  method GetP2pIe(a: array<u8>, at: nat, inLen: int, ghost es: seq<Rec>) returns (p: Option<nat>, ielen: nat)
    requires inLen >= 0 ==> Has(a[..], at, es) && inLen == Size(es) <= MAX_IE_SZ && LongEnough(es, VENDOR, P2P_OUI)
    ensures inLen < 0 ==> p == None
    ensures inLen >= 0 ==>
              var n := First(es, VENDOR, P2P_OUI);
              && p == (if n < |es| then Some(ElemPos(at, es, n)) else None)
              && ielen == (if n < |es| then |es[n].data| + 2 else 0)
    ensures inLen >= 0 ==>
              (p.Some? <==> exists i :: 0 <= i < |es| && es[i].id == 221 && |es[i].data| >= 4 && es[i].data[..4] == [0x50, 0x6F, 0x9A, 0x09])
    ensures forall n :: inLen >= 0 && 0 <= n < |es| && es[n].id == 221 && |es[n].data| >= 4 && es[n].data[..4] == [0x50, 0x6F, 0x9A, 0x09]
                        && (forall i :: 0 <= i < n ==>
                              !(es[i].id == 221 && |es[i].data| >= 4 && es[i].data[..4] == [0x50, 0x6F, 0x9A, 0x09]))
                        ==> p == Some(ElemPos(at, es, n)) && ielen == |es[n].data| + 2
  {
    p, ielen := None, 0;
    if inLen < 0 {
      return;
    }
    hide First;
    p, ielen := GetIeEx(a, at, inLen, VENDOR, P2P_OUI, es);
  }

  /** Seen from outside, the P2P element is its header, OUI and attributes. */
  lemma ElementHasAttrs(f: seq<u8>, p: nat, attrs: seq<Rec>, len: nat)
    requires AllOk(Attribute, attrs) && p + 2 + len <= |f|
    requires f[p] == VENDOR && f[p + 1] == len && f[p + 2..p + 2 + len] == P2P_OUI + Ser(Attribute, attrs)
    ensures HasAttrs(f, p, len + 2, attrs)
  {
    var d := f[p + 2..p + 2 + len];
    assert f[p + 2..p + 6] == d[..4] && f[p + 6..p + 2 + len] == d[4..];
  }

  lemma AttrsAreElement(f: seq<u8>, p: nat, ielen: nat, attrs: seq<Rec>)
    requires HasAttrs(f, p, ielen, attrs)
    ensures RecOk(Element, VENDOR, |P2pElement(attrs).data|)
    ensures f[p..p + ielen] == SerOne(Element, P2pElement(attrs))
  {
    assert f[p..p + ielen] == [f[p], f[p + 1]] + f[p + 2..p + 6] + f[p + 6..p + ielen];
  }

  /** What an edit of the element list leaves: the new list, zeros up to the old length, the rest untouched. */
  ghost predicate Edited(f: seq<u8>, h: seq<u8>, ieLength: nat, newLength: nat, es: seq<Rec>) {
    && |h| == |f| && FIXED <= newLength <= ieLength <= |f|
    && Has(h, FIXED, es) && newLength == FIXED + Size(es)
    && h[..FIXED] == f[..FIXED]
    && h[newLength..ieLength] == Zeros(ieLength - newLength) && h[ieLength..] == f[ieLength..]
  }

  lemma GapBytes(f: seq<u8>, g: seq<u8>, p: nat, q': nat, q: nat, end: nat)
    requires |g| == |f| && FIXED <= p <= q' <= q <= end <= |f| && g[..p] == f[..p] && g[q..] == f[q..]
    ensures var h, m := Written(g, q', g[q..end] + Zeros(q - q')), end - (q - q');
            && h[FIXED..m] == f[FIXED..p] + g[p..q'] + f[q..end]
            && h[..FIXED] == f[..FIXED] && h[m..end] == Zeros(q - q') && h[end..] == f[end..]
  {
    var z, m := Zeros(q - q'), end - (q - q');
    var h := Written(g, q', g[q..end] + z);
    assert h[..q'] == g[..q'] && h[q'..end] == g[q..end] + z && h[end..] == g[end..];
    assert g[q..end] == g[q..][..end - q] == f[q..end] && g[end..] == g[q..][end - q..] == f[end..];
    assert h[..p] == g[..p] && h[p..q'] == g[p..q'];
    assert h[q'..m] == h[q'..end][..m - q'] == g[q..end] && h[m..end] == h[q'..end][m - q'..] == z;
    assert h[FIXED..p] == h[..p][FIXED..] == f[FIXED..p] && h[..FIXED] == h[..p][..FIXED] == f[..FIXED];
    assert h[FIXED..m] == h[FIXED..p] + h[p..q'] + h[q'..m];
  }

  lemma ReplaceSer(es: seq<Rec>, n: nat, e: Rec)
    requires AllOk(Element, es) && n < |es| && RecOk(Element, e.id, |e.data|)
    ensures AllOk(Element, es[n := e])
    ensures Pos(Element, es, n) + 2 + |es[n].data| == Pos(Element, es, n + 1) <= |Ser(Element, es)|
    ensures Ser(Element, es[n := e])
            == Ser(Element, es)[..Pos(Element, es, n)] + SerOne(Element, e) + Ser(Element, es)[Pos(Element, es, n + 1)..]
  {
    Splice(Element, es, n, n + 1, [e]);
    PosNext(Element, es, n);
    assert es[..n] + [e] + es[n + 1..] == es[n := e];
    assert [e][1..] == [] && Ser(Element, [e]) == SerOne(Element, e) + [];
  }

  /** Element n of f has become e in g, and the bytes [q', q) behind it are free. */
  ghost predicate Gap(f: seq<u8>, g: seq<u8>, es: seq<Rec>, n: nat, e: Rec, q': nat, q: nat) {
    && Has(f, FIXED, es) && n < |es| && RecOk(Element, e.id, |e.data|)
    && |g| == |f| && ElemPos(FIXED, es, n) <= q' <= q <= |f| && q == ElemPos(FIXED, es, n) + 2 + |es[n].data|
    && g[..ElemPos(FIXED, es, n)] == f[..ElemPos(FIXED, es, n)]
    && g[ElemPos(FIXED, es, n)..q'] == SerOne(Element, e) && g[q..] == f[q..]
  }

  /** Closing the gap behind the shortened element leaves the list with that one element replaced. */
  lemma CloseGap(f: seq<u8>, g: seq<u8>, es: seq<Rec>, n: nat, e: Rec, q': nat, q: nat, end: nat)
    requires Gap(f, g, es, n, e, q', q) && end == FIXED + Size(es)
    ensures q <= end && AllOk(Element, es[n := e])
    ensures Edited(f, Written(g, q', g[q..end] + Zeros(q - q')), end, end - (q - q'), es[n := e])
  {
    hide Ser;
    var ser, p := Ser(Element, es), ElemPos(FIXED, es, n);
    ReplaceSer(es, n, e);
    GapBytes(f, g, p, q', q, end);
    Inside(f, FIXED, ser, p, q);
  }

  lemma Inside(f: seq<u8>, at: nat, ser: seq<u8>, p: nat, q: nat)
    requires at <= p <= q <= at + |ser| <= |f| && f[at..at + |ser|] == ser
    ensures f[at..p] == ser[..p - at] && f[q..at + |ser|] == ser[q - at..]
  {}

  lemma FilteredLeavesGap(f: seq<u8>, g: seq<u8>, es: seq<Rec>, n: nat, ori: nat, ielen: nat, kept: seq<Rec>)
    requires Has(f, FIXED, es) && n < |es| && ori == |es[n].data| + 2
    requires ElementFiltered(f, g, ElemPos(FIXED, es, n), ori, ielen, kept)
    ensures var p := ElemPos(FIXED, es, n); Gap(f, g, es, n, P2pElement(kept), p + ielen, p + ori)
  {
    AttrsAreElement(g, ElemPos(FIXED, es, n), ielen, kept);
  }

  /** The second half of rtw_WLAN_BSSID_EX_remove_p2p_attr. */
  method CloseEntry(a: array<u8>, nextIe: nat, nextIeOri: nat, ieLength: nat,
                    ghost f: seq<u8>, ghost es: seq<Rec>, ghost n: nat, ghost e: Rec)
    returns (newLength: nat)
    requires Gap(f, a[..], es, n, e, nextIe, nextIeOri) && ieLength == FIXED + Size(es)
    modifies a
    ensures AllOk(Element, es[n := e]) && Edited(f, a[..], ieLength, newLength, es[n := e])
  {
    CloseGap(f, a[..], es, n, e, nextIe, nextIeOri, ieLength);
    newLength := ieLength;
    if nextIe != nextIeOri {
      newLength := CloseRemainder(a, nextIe, nextIeOri, ieLength);
    } else {
      NoGap(a[..], nextIe, ieLength);
    }
  }

  /** rtw_WLAN_BSSID_EX_remove_p2p_attr */
  method RemoveP2pAttr(a: array<u8>, ieLength: nat, id: u8, ghost es: seq<Rec>, ghost attrs: seq<Rec>) returns (newLength: nat)
    requires ieLength <= a.Length
    requires ieLength >= FIXED ==> Has(a[..], FIXED, es) && ieLength == FIXED + Size(es) <= MAX_IE_SZ
    requires ieLength >= FIXED ==> LongEnough(es, VENDOR, P2P_OUI) && Nested(es, attrs)
    modifies a
    ensures ieLength < FIXED ==> newLength == ieLength && a[..] == old(a[..])
    ensures ieLength >= FIXED ==> Edited(old(a[..]), a[..], ieLength, newLength, Filtered(es, attrs, id))
    ensures ieLength >= FIXED ==>
              && FIXED <= newLength <= ieLength && a[..FIXED] == old(a[..FIXED]) && a[ieLength..] == old(a[ieLength..])
              && (forall i :: newLength <= i < ieLength ==> a[i] == 0)
              && ieLength - newLength == (if exists i :: 0 <= i < |es| && es[i].id == 221 && |es[i].data| >= 4 && es[i].data[..4] == [0x50, 0x6F, 0x9A, 0x09]
                                          then AttrBytes(attrs, id) else 0)
  {
    ghost var f := a[..];
    newLength := RemoveFrom(a, ieLength, id, es, attrs);
    if ieLength >= FIXED {
      FilteredLength(es, attrs, id);
      EditedMeans(f, a[..], ieLength, newLength, Filtered(es, attrs, id));
      hide Edited, Filtered, Has, Ser, AttrBytes;
    }
  }

  lemma EditedMeans(f: seq<u8>, h: seq<u8>, ieLength: nat, newLength: nat, es: seq<Rec>)
    requires Edited(f, h, ieLength, newLength, es)
    ensures |h| == |f| && FIXED <= newLength <= ieLength <= |f| && AllOk(Element, es) && newLength == FIXED + Size(es)
    ensures h[FIXED..newLength] == Ser(Element, es)
    ensures h[..FIXED] == f[..FIXED] && h[ieLength..] == f[ieLength..]
    ensures forall i :: newLength <= i < ieLength ==> h[i] == 0
  {
    forall i | newLength <= i < ieLength ensures h[i] == 0 {
      assert h[i] == h[newLength..ieLength][i - newLength];
    }
  }

  /** The statements of rtw_WLAN_BSSID_EX_remove_p2p_attr. */
  method RemoveFrom(a: array<u8>, ieLength: nat, id: u8, ghost es: seq<Rec>, ghost attrs: seq<Rec>) returns (newLength: nat)
    requires ieLength <= a.Length
    requires ieLength >= FIXED ==> Has(a[..], FIXED, es) && ieLength == FIXED + Size(es) <= MAX_IE_SZ
    requires ieLength >= FIXED ==> LongEnough(es, VENDOR, P2P_OUI) && Nested(es, attrs)
    modifies a
    ensures ieLength < FIXED ==> newLength == ieLength && a[..] == old(a[..])
    ensures ieLength >= FIXED ==> Edited(old(a[..]), a[..], ieLength, newLength, Filtered(es, attrs, id))
  {
    newLength := ieLength;
    var found, ielenOri := GetP2pIe(a, FIXED, ieLength - FIXED, es);
    if found.Some? {
      newLength := FilterFound(a, found.value, ielenOri, ieLength, id, es, attrs);
    }
  }

  method FilterFound(a: array<u8>, p: nat, ielenOri: nat, ieLength: nat, id: u8, ghost es: seq<Rec>, ghost attrs: seq<Rec>)
    returns (newLength: nat)
    requires Has(a[..], FIXED, es) && ieLength == FIXED + Size(es) && Nested(es, attrs)
    requires var n := First(es, VENDOR, P2P_OUI);
             n < |es| && p == ElemPos(FIXED, es, n) && ielenOri == |es[n].data| + 2
    modifies a
    ensures Edited(old(a[..]), a[..], ieLength, newLength, Filtered(es, attrs, id))
  {
    hide Ser;
    ghost var n, kept := First(es, VENDOR, P2P_OUI), Without(attrs, id, []);
    FoundElement(a[..], es, attrs, n, p);
    ghost var f := a[..];
    var ielen := AttrRemove(a, p, ielenOri, id, attrs);
    FilteredLeavesGap(f, a[..], es, n, ielenOri, ielen, kept);
    newLength := CloseEntry(a, p + ielen, p + ielenOri, ieLength, f, es, n, P2pElement(kept));
  }

  lemma FoundElement(f: seq<u8>, es: seq<Rec>, attrs: seq<Rec>, n: nat, p: nat)
    requires Has(f, FIXED, es) && n < |es| && p == ElemPos(FIXED, es, n)
    requires AllOk(Attribute, attrs) && es[n] == P2pElement(attrs)
    ensures HasAttrs(f, p, |es[n].data| + 2, attrs)
  {
    ElemFields(f, FIXED, es, n);
    ElementHasAttrs(f, p, attrs, |es[n].data|);
  }

  lemma NoGap(g: seq<u8>, q: nat, end: nat)
    requires q <= end <= |g|
    ensures Written(g, q, g[q..end] + Zeros(0)) == g
  {}

  lemma MoveThenClear(g: seq<u8>, q': nat, q: nat, end: nat)
    requires q' <= q <= end <= |g|
    ensures Written(Moved(g, q', q, end - q), q' + (end - q), Zeros(q - q')) == Written(g, q', g[q..end] + Zeros(q - q'))
  {}

  method CloseRemainder(a: array<u8>, nextIe: nat, nextIeOri: nat, ieLength: nat) returns (newLength: nat)
    requires nextIe <= nextIeOri <= ieLength <= a.Length
    modifies a
    ensures newLength == ieLength - (nextIeOri - nextIe)
    ensures a[..] == Written(old(a[..]), nextIe, old(a[..])[nextIeOri..ieLength] + Zeros(nextIeOri - nextIe))
  {
    ghost var g := a[..];
    var remainLen := ieLength - nextIeOri;
    MoveThenClear(g, nextIe, nextIeOri, ieLength);
    MoveBytes(a, a.Length, nextIe, nextIeOri, remainLen);
    assert a[..a.Length] == a[..] && g[..a.Length] == g;
    Overwrite(a, nextIe + remainLen, Zeros(nextIeOri - nextIe));
    newLength := ieLength - (nextIeOri - nextIe);
  }

  // ---------------------------------------------------------------- what the removal means

  /** Bytes that the attributes of an id take up. */
  function AttrBytes(attrs: seq<Rec>, id: nat): nat {
    if attrs == [] then 0 else (if attrs[0].id == id then 3 + |attrs[0].data| else 0) + AttrBytes(attrs[1..], id)
  }

  lemma {:induction false} AttrBytesZeroIff(attrs: seq<Rec>, id: nat)
    ensures AttrBytes(attrs, id) == 0 <==> forall i :: 0 <= i < |attrs| ==> attrs[i].id != id
  {
    if attrs != [] {
      AttrBytesZeroIff(attrs[1..], id);
      assert forall i :: 0 < i < |attrs| ==> attrs[i] == attrs[1..][i - 1];
    }
  }

  lemma {:induction false} AttrBytesGone(attrs: seq<Rec>, id: nat)
    requires AllOk(Attribute, attrs)
    ensures AllOk(Attribute, Without(attrs, id, []))
    ensures |Ser(Attribute, Without(attrs, id, []))| == |Ser(Attribute, attrs)| - AttrBytes(attrs, id)
  {
    if attrs != [] {
      var r, rest := attrs[0], attrs[1..];
      AttrBytesGone(rest, id);
      WithoutHead(attrs, id);
      SerHead(attrs);
      if r.id == id {
        assert Without(attrs, id, []) == Without(rest, id, []);
      } else {
        var kept := [r] + Without(rest, id, []);
        assert kept[1..] == Without(rest, id, []) && kept == Without(attrs, id, []);
        SerHead(kept);
      }
    }
  }

  lemma WithoutHead(attrs: seq<Rec>, id: nat)
    requires attrs != []
    ensures Without(attrs, id, []) == (if attrs[0].id == id then [] else [attrs[0]]) + Without(attrs[1..], id, [])
  {}

  lemma SerHead(attrs: seq<Rec>)
    requires attrs != [] && AllOk(Attribute, attrs)
    ensures |Ser(Attribute, attrs)| == 3 + |attrs[0].data| + |Ser(Attribute, attrs[1..])|
  {}

  /** A BSS entry without a P2P element keeps its elements. */
  lemma NothingToFilter(es: seq<Rec>, attrs: seq<Rec>, id: u8)
    requires AllOk(Attribute, attrs)
    requires forall i :: 0 <= i < |es| ==> !(es[i].id == 221 && |es[i].data| >= 4 && es[i].data[..4] == [0x50, 0x6F, 0x9A, 0x09])
    ensures Filtered(es, attrs, id) == es
  {
    FirstMeans(es, VENDOR, P2P_OUI);
  }

  /** With the first P2P element at n: every other element is unchanged.  Element n is the P2P OUI followed by bytes
      that parse to exactly the attributes with another id, in order and each as often as it occurred, and it is
      shorter by what the removed ones took up. */
  lemma FilteredMeans(es: seq<Rec>, attrs: seq<Rec>, id: u8, n: nat) returns (kept: seq<Rec>, at: seq<nat>)
    requires AllOk(Attribute, attrs) && n < |es| && es[n].id == 221 && es[n].data == [0x50, 0x6F, 0x9A, 0x09] + Ser(Attribute, attrs)
    requires forall i :: 0 <= i < n ==> !(es[i].id == 221 && |es[i].data| >= 4 && es[i].data[..4] == [0x50, 0x6F, 0x9A, 0x09])
    ensures var now := Filtered(es, attrs, id);
            && |now| == |es| && (forall i :: 0 <= i < |es| && i != n ==> now[i] == es[i])
            && now[n].id == 221 && |now[n].data| >= 4 && now[n].data[..4] == [0x50, 0x6F, 0x9A, 0x09]
            && Tiles(Attribute, now[n].data[4..]) && Parse(Attribute, now[n].data[4..]) == kept
            && |now[n].data| == |es[n].data| - AttrBytes(attrs, id)
    ensures |at| == |kept| && forall k :: 0 <= k < |at| ==> at[k] < |attrs| && kept[k] == attrs[at[k]]
    ensures forall j, k :: 0 <= j < k < |at| ==> at[j] < at[k]
    ensures forall i :: 0 <= i < |attrs| ==> (i in at <==> attrs[i].id != id)
  {
    assert es[n].data[..4] == P2P_OUI;
    FirstFound(es, VENDOR, P2P_OUI);
    AttrBytesGone(attrs, id);
    at := WithoutMeans(attrs, id, []);
    kept := Without(attrs, id, []);
    ParseSer(Attribute, kept);
    hide Ser, Without, First, Parse, Tiles, AttrBytes;
    var d := P2P_OUI + Ser(Attribute, kept);
    assert d[..4] == P2P_OUI && d[4..] == Ser(Attribute, kept);
    assert Filtered(es, attrs, id)[n].data == d;
  }

  /** By how much the list shrinks. */
  lemma FilteredLength(es: seq<Rec>, attrs: seq<Rec>, id: u8)
    requires AllOk(Element, es) && Nested(es, attrs)
    ensures AllOk(Element, Filtered(es, attrs, id))
    ensures Size(es) - Size(Filtered(es, attrs, id))
            == if exists i :: 0 <= i < |es| && es[i].id == 221 && |es[i].data| >= 4 && es[i].data[..4] == [0x50, 0x6F, 0x9A, 0x09]
               then AttrBytes(attrs, id) else 0
  {
    FirstFound(es, VENDOR, P2P_OUI);
    AttrBytesGone(attrs, id);
    var n := First(es, VENDOR, P2P_OUI);
    if n < |es| {
      var e := P2pElement(Without(attrs, id, []));
      hide Ser, Without, First, AttrBytes;
      ReplacedSize(es, n, e);
    }
  }

  lemma ReplacedSize(es: seq<Rec>, n: nat, e: Rec)
    requires AllOk(Element, es) && n < |es| && e.id < 256 && |e.data| <= |es[n].data|
    ensures AllOk(Element, es[n := e]) && Size(es) - Size(es[n := e]) == |es[n].data| - |e.data|
  {
    ReplaceSer(es, n, e);
    hide Ser;
  }
}

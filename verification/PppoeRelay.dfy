/** PPPoE Relay-Session-Id tags (RFC 2516, Appendix A) added to and taken from a frame in place
    (core/rtw_br_ext.c). */
module PppoeRelay {
  import opened Bytes
  import opened Tlv

  const RELAY_SID: nat := 0x0110
  const MAGIC: seq<u8> := [0x81, 0x86]
  const LENGTH_AT: nat := 18   // ph->length, after the Ethernet header and four header bytes
  const TAGS_AT: nat := 20     // ph->tag
  const TAG_BUF: nat := 40

  // ---------------------------------------------------------------- on tag lists

  function FirstRelay(tags: seq<Rec>): (n: nat)
    ensures n <= |tags|
  {
    First(tags, RELAY_SID, [])
  }

  function OldRelay(tags: seq<Rec>): seq<u8> {
    var n := FirstRelay(tags);
    if n < |tags| then tags[n].data else []
  }

  function WithoutRelay(tags: seq<Rec>): seq<Rec> {
    var n := FirstRelay(tags);
    if n < |tags| then tags[..n] + tags[n + 1..] else tags
  }

  /** The relay tag that carries the client's address in front of what was there before. */
  function OwnTag(mac: Mac, before: seq<u8>): Rec {
    Rec(RELAY_SID, MAGIC + mac + before)
  }

  /** Which client a discovery answer is for; nothing if the first relay tag is not ours. */
  function ClientOf(tags: seq<Rec>): Option<Mac> {
    var n := FirstRelay(tags);
    if n < |tags| && |tags[n].data| >= 8 && tags[n].data[..2] == MAGIC then Some(tags[n].data[2..8]) else None
  }

  /** What is left in place of our relay tag once the address is taken out. */
  function Rest(data: seq<u8>): seq<Rec> {
    if |data| > 8 then [Rec(RELAY_SID, data[8..])] else []
  }

  function Answered(tags: seq<Rec>): seq<Rec>
    requires ClientOf(tags).Some?
  {
    var n := FirstRelay(tags);
    tags[..n] + Rest(tags[n].data) + tags[n + 1..]
  }

  /** An answer that echoes our tag behind any tags that are no relay tags finds its client
      and gets the previous relay data back; all other tags keep their order. */
  lemma EchoFindsClient(mac: Mac, before: seq<u8>, front: seq<Rec>, back: seq<Rec>)
    requires FirstRelay(front) == |front|
    ensures var echoed := front + [OwnTag(mac, before)] + back;
            && ClientOf(echoed) == Some(mac)
            && Answered(echoed) == front + (if before == [] then [] else [Rec(RELAY_SID, before)]) + back
  {
    var own := OwnTag(mac, before);
    var echoed := front + [own] + back;
    FirstIs(echoed, RELAY_SID, [], |front|);
    assert own.data[..2] == MAGIC && own.data[2..8] == mac && own.data[8..] == before;
    assert echoed[..|front|] == front && echoed[|front| + 1..] == back;
  }

  /** INSERT followed by LOOKUP on the echoed list: the client is found again, an empty or missing old
      relay tag is gone, a non-empty one has moved to the front, everything else is as it was. */
  lemma RelayRoundTrip(tags: seq<Rec>, mac: Mac)
    ensures var inserted := [OwnTag(mac, OldRelay(tags))] + WithoutRelay(tags);
            && ClientOf(inserted) == Some(mac)
            && Answered(inserted)
               == (if OldRelay(tags) == [] then [] else [Rec(RELAY_SID, OldRelay(tags))]) + WithoutRelay(tags)
  {
    var own, rest := OwnTag(mac, OldRelay(tags)), WithoutRelay(tags);
    EchoFindsClient(mac, OldRelay(tags), [], rest);
    assert [] + [own] + rest == [own] + rest;
  }

  // ---------------------------------------------------------------- the same, written out

  /** A client is found exactly if the first relay tag has at least eight bytes and begins with 81 86; its address
      is the six bytes behind. */
  lemma ClientMeans(tags: seq<Rec>)
    ensures forall n :: 0 <= n < |tags| && tags[n].id == 0x0110 && (forall i :: 0 <= i < n ==> tags[i].id != 0x0110) ==>
              ClientOf(tags) == if |tags[n].data| >= 8 && tags[n].data[0] == 0x81 && tags[n].data[1] == 0x86
                                then Some(tags[n].data[2..8]) else None
    ensures (forall i :: 0 <= i < |tags| ==> tags[i].id != 0x0110) ==> ClientOf(tags) == None
  {
    FirstMeans(tags, 0x0110, []);
    var n := FirstRelay(tags);
    assert n < |tags| && |tags[n].data| >= 8 ==> tags[n].data[..2] == [tags[n].data[0], tags[n].data[1]];
    hide First;
  }

  /** The first relay tag is what is taken out and whose data is kept. */
  lemma OldRelayMeans(tags: seq<Rec>)
    ensures forall n :: 0 <= n < |tags| && tags[n].id == 0x0110 && (forall i :: 0 <= i < n ==> tags[i].id != 0x0110) ==>
              && FirstRelay(tags) == n && OldRelay(tags) == tags[n].data
              && WithoutRelay(tags) == tags[..n] + tags[n + 1..]
    ensures (forall i :: 0 <= i < |tags| ==> tags[i].id != 0x0110) ==> OldRelay(tags) == [] && WithoutRelay(tags) == tags
  {
    FirstMeans(tags, 0x0110, []);
    hide First;
  }

  /** What the client gets: the rest of our tag's data, or nothing, stands where the tag was. */
  lemma AnsweredMeans(tags: seq<Rec>, n: nat)
    requires n < |tags| && tags[n].id == 0x0110 && forall i :: 0 <= i < n ==> tags[i].id != 0x0110
    requires |tags[n].data| >= 8 && tags[n].data[0] == 0x81 && tags[n].data[1] == 0x86
    ensures ClientOf(tags) == Some(tags[n].data[2..8])
    ensures Answered(tags) == tags[..n] + (if |tags[n].data| > 8 then [Rec(0x0110, tags[n].data[8..])] else []) + tags[n + 1..]
  {
    ClientMeans(tags);
    OldRelayMeans(tags);
    AnsweredAt(tags, n);
    hide *;
  }

  lemma AnsweredAt(tags: seq<Rec>, n: nat)
    requires ClientOf(tags).Some? && FirstRelay(tags) == n
    ensures n < |tags| && |tags[n].data| >= 8
    ensures Answered(tags) == tags[..n] + (if |tags[n].data| > 8 then [Rec(0x0110, tags[n].data[8..])] else []) + tags[n + 1..]
  {
    hide First;
  }

  lemma OwnTagMeans(mac: Mac, before: seq<u8>)
    ensures OwnTag(mac, before) == Rec(0x0110, [0x81, 0x86] + mac + before)
  {}

  /** The tags begin at byte 20 and fill the length that bytes 18 and 19 give, most significant first. */
  lemma CarriesIff(f: seq<u8>, tags: seq<Rec>)
    requires AllOk(PppoeTag, tags)
    ensures var ser := Ser(PppoeTag, tags);
            Carries(f, tags) <==> 20 + |ser| <= |f| && |ser| / 256 == f[18] && |ser| % 256 == f[19] && f[20..20 + |ser|] == ser
  {}

  // ---------------------------------------------------------------- on the bytes of a frame

  /** These bytes are a discovery frame with exactly these tags; `ph->length` is their size. */
  ghost predicate Carries(f: seq<u8>, tags: seq<Rec>) {
    && AllOk(PppoeTag, tags)
    && TAGS_AT + |Ser(PppoeTag, tags)| <= |f|
    && f[TAGS_AT..TAGS_AT + |Ser(PppoeTag, tags)|] == Ser(PppoeTag, tags)
    && Be16(f[LENGTH_AT], f[LENGTH_AT + 1]) == |Ser(PppoeTag, tags)|
  }

  function WithLength(f: seq<u8>, n: nat): seq<u8>
    requires TAGS_AT <= |f| && n < 65536
  {
    Written(f, LENGTH_AT, [n / 256, n % 256])
  }

  lemma SetLength(f: seq<u8>, n: nat)
    requires TAGS_AT <= |f| && n < 65536
    ensures var g := WithLength(f, n);
            && |g| == |f| && Be16(g[LENGTH_AT], g[LENGTH_AT + 1]) == n
            && g[..LENGTH_AT] == f[..LENGTH_AT] && g[TAGS_AT..] == f[TAGS_AT..]
  {}

  /** Cutting bytes out of the tags: what is in front of the cut stays, the tags close up. */
  lemma CutTags(f: seq<u8>, ser: seq<u8>, at: nat, cut: nat)
    requires TAGS_AT <= at && at - TAGS_AT + cut <= |ser|
    requires TAGS_AT + |ser| <= |f| && f[TAGS_AT..TAGS_AT + |ser|] == ser
    ensures var g, rest := f[..at] + f[at + cut..], ser[..at - TAGS_AT] + ser[at - TAGS_AT + cut..];
            && g[..TAGS_AT] == f[..TAGS_AT] && TAGS_AT + |rest| <= |g|
            && g[TAGS_AT..TAGS_AT + |rest|] == rest
            && f[LENGTH_AT] == g[LENGTH_AT] && f[LENGTH_AT + 1] == g[LENGTH_AT + 1]
  {
    assert forall i :: 0 <= i < |ser| ==> f[TAGS_AT + i] == ser[i];
  }

  /** Moving the tail over a region and dropping as many bytes at the end cuts the region out. */
  lemma CutByMoving(f: seq<u8>, src: nat, n: nat)
    requires src + n <= |f|
    ensures Moved(f, src, src + n, |f| - (src + n))[..|f| - n] == f[..src] + f[src + n..]
  {}

  /** Cutting record n out of the frame and correcting the length leaves the other tags. */
  lemma CutRecord(f: seq<u8>, tags: seq<Rec>, n: nat)
    requires Carries(f, tags) && n < |tags|
    ensures var at, cut, rest := TAGS_AT + Pos(PppoeTag, tags, n), 4 + |tags[n].data|, tags[..n] + tags[n + 1..];
            && at + cut <= |f| && AllOk(PppoeTag, rest)
            && |Ser(PppoeTag, tags)| - cut == |Ser(PppoeTag, rest)| < 65536
            && var h := f[..at] + f[at + cut..];
               var g := WithLength(h, |Ser(PppoeTag, rest)|);
               && h[LENGTH_AT] == f[LENGTH_AT] && h[LENGTH_AT + 1] == f[LENGTH_AT + 1]
               && Carries(g, rest) && g[..LENGTH_AT] == f[..LENGTH_AT]
  {
    hide Ser;
    var ser := Ser(PppoeTag, tags);
    var at, cut, left := TAGS_AT + Pos(PppoeTag, tags, n), 4 + |tags[n].data|, tags[..n] + tags[n + 1..];
    CutOne(PppoeTag, tags, n, left);
    CutTags(f, ser, at, cut);
    Relength(f, f[..at] + f[at + cut..], Ser(PppoeTag, left));
  }

  lemma CutRelay(f: seq<u8>, tags: seq<Rec>, at: nat, oldLen: nat)
    requires Carries(f, tags) && FirstRelay(tags) < |tags|
    requires at == TAGS_AT + Pos(PppoeTag, tags, FirstRelay(tags)) && oldLen == |OldRelay(tags)|
    ensures at + (4 + oldLen) <= |f| && AllOk(PppoeTag, WithoutRelay(tags))
    ensures |Ser(PppoeTag, WithoutRelay(tags))| == Be16(f[LENGTH_AT], f[LENGTH_AT + 1]) - 4 - oldLen
    ensures var h := f[..at] + f[at + (4 + oldLen)..];
            var g := WithLength(h, |Ser(PppoeTag, WithoutRelay(tags))|);
            && h[LENGTH_AT] == f[LENGTH_AT] && h[LENGTH_AT + 1] == f[LENGTH_AT + 1]
            && Carries(g, WithoutRelay(tags)) && g[..LENGTH_AT] == f[..LENGTH_AT]
  {
    hide Ser;
    CutRecord(f, tags, FirstRelay(tags));
  }

  /** Correcting the length field completes an edit of the tags. */
  lemma Relength(f: seq<u8>, h: seq<u8>, rest: seq<u8>)
    requires TAGS_AT + |rest| <= |h| && TAGS_AT <= |f| && |rest| < 65536
    requires h[TAGS_AT..TAGS_AT + |rest|] == rest && h[..TAGS_AT] == f[..TAGS_AT]
    ensures var g := WithLength(h, |rest|);
            && |g| == |h| && g[TAGS_AT..TAGS_AT + |rest|] == rest
            && Be16(g[LENGTH_AT], g[LENGTH_AT + 1]) == |rest| && g[..LENGTH_AT] == f[..LENGTH_AT]
  {
    var g := WithLength(h, |rest|);
    SetLength(h, |rest|);
    assert g[TAGS_AT..TAGS_AT + |rest|] == g[TAGS_AT..][..|rest|];
    assert h[..LENGTH_AT] == h[..TAGS_AT][..LENGTH_AT];
  }

  /** The fields of tag n as the driver reads them. */
  lemma TagFields(f: seq<u8>, tags: seq<Rec>, n: nat)
    requires Carries(f, tags) && n < |tags|
    ensures var cur, len := TAGS_AT + Pos(PppoeTag, tags, n), |tags[n].data|;
            && cur + 4 + len <= TAGS_AT + |Ser(PppoeTag, tags)| <= |f|
            && Be16(f[cur], f[cur + 1]) == tags[n].id && Be16(f[cur + 2], f[cur + 3]) == len
            && f[cur + 4..cur + 4 + len] == tags[n].data
            && TAGS_AT + Pos(PppoeTag, tags, n + 1) == cur + 4 + len
  {
    AtRecordIn(PppoeTag, f, TAGS_AT, tags, n);
  }

  /** Bytes after the tags do not matter. */
  lemma Grown(f: seq<u8>, g: seq<u8>, tags: seq<Rec>)
    requires Carries(f, tags) && |f| <= |g| && g[..|f|] == f
    ensures Carries(g, tags) && g[..LENGTH_AT] == f[..LENGTH_AT]
  {
    hide Ser;
    SamePrefix(f, g, TAGS_AT, TAGS_AT + |Ser(PppoeTag, tags)|);
    SamePrefix(f, g, 0, LENGTH_AT);
    assert forall i :: 0 <= i < |f| ==> g[i] == f[i];
  }

  lemma SamePrefix(f: seq<u8>, g: seq<u8>, lo: nat, hi: nat)
    requires |f| <= |g| && g[..|f|] == f && lo <= hi <= |f|
    ensures g[lo..hi] == f[lo..hi]
  {
    assert forall i :: 0 <= i < |f| ==> f[i] == g[..|f|][i] == g[i];
  }

  /** Making room in front of the tags and writing a tag there. */
  lemma PrependRecord(f: seq<u8>, own: Rec, tags: seq<Rec>)
    requires Carries(f, tags) && RecOk(PppoeTag, own.id, |own.data|)
    requires TAGS_AT + |SerOne(PppoeTag, own)| + |Ser(PppoeTag, tags)| <= |f| < 65536
    ensures var tag, size := SerOne(PppoeTag, own), |Ser(PppoeTag, tags)|;
            var m := Moved(f, TAGS_AT + |tag|, TAGS_AT, size);
            var g := Written(WithLength(m, size + |tag|), TAGS_AT, tag);
            Carries(g, [own] + tags) && g[..LENGTH_AT] == f[..LENGTH_AT]
  {
    var tag, ser, both := SerOne(PppoeTag, own), Ser(PppoeTag, tags), [own] + tags;
    SerSingle(PppoeTag, own);
    hide Ser;
    SerAppend(PppoeTag, [own], tags);
    var m := Moved(f, TAGS_AT + |tag|, TAGS_AT, |ser|);
    MovedSlices(f, TAGS_AT + |tag|, TAGS_AT, |ser|, 0, TAGS_AT);
    var l := WithLength(m, |ser| + |tag|);
    SetLength(m, |ser| + |tag|);
    WrittenPrefix(f, m, l, tag, ser);
  }

  lemma OwnTagBytes(mac: Mac, before: seq<u8>)
    requires |before| <= 28
    ensures var own, value := OwnTag(mac, before), MAGIC + mac + before;
            && own.data == value && RecOk(PppoeTag, own.id, |own.data|)
            && SerOne(PppoeTag, own) == [RELAY_SID / 256, RELAY_SID % 256, |value| / 256, |value| % 256] + value
  {}

  lemma WrittenPrefix(f: seq<u8>, m: seq<u8>, l: seq<u8>, tag: seq<u8>, ser: seq<u8>)
    requires TAGS_AT + |tag| + |ser| <= |m| == |l| == |f|
    requires m[TAGS_AT + |tag|..TAGS_AT + |tag| + |ser|] == ser && l[TAGS_AT..] == m[TAGS_AT..]
    requires l[..LENGTH_AT] == m[..LENGTH_AT] && m[..TAGS_AT] == f[..TAGS_AT]
    ensures var g := Written(l, TAGS_AT, tag);
            && g[TAGS_AT..TAGS_AT + |tag + ser|] == tag + ser
            && g[LENGTH_AT] == l[LENGTH_AT] && g[LENGTH_AT + 1] == l[LENGTH_AT + 1]
            && g[..LENGTH_AT] == f[..LENGTH_AT]
  {
    var g := Written(l, TAGS_AT, tag);
    var n := TAGS_AT + |tag|;
    assert g[n..n + |ser|] == l[n..n + |ser|] == l[TAGS_AT..][|tag|..|tag| + |ser|] == m[TAGS_AT..][|tag|..|tag| + |ser|];
    assert m[TAGS_AT..][|tag|..|tag| + |ser|] == m[n..n + |ser|];
    assert g[TAGS_AT..n] == tag;
    assert g[TAGS_AT..n + |ser|] == g[TAGS_AT..n] + g[n..n + |ser|];
    assert g[..LENGTH_AT] == l[..LENGTH_AT];
    assert m[..LENGTH_AT] == m[..TAGS_AT][..LENGTH_AT];
  }

  /** Cutting the first eight data bytes out of record n and storing its new length. */
  lemma ShrunkSer(tags: seq<Rec>, n: nat)
    requires AllOk(PppoeTag, tags) && n < |tags| && |tags[n].data| >= 8
    ensures var ser, p, d := Ser(PppoeTag, tags), Pos(PppoeTag, tags, n), tags[n].data;
            var new' := tags[..n] + [Rec(tags[n].id, d[8..])] + tags[n + 1..];
            && p + 12 <= |ser| && AllOk(PppoeTag, new') && |Ser(PppoeTag, new')| == |ser| - 8
            && Ser(PppoeTag, new')
               == Written(ser[..p + 4] + ser[p + 12..], p + 2, [(|d| - 8) / 256, (|d| - 8) % 256])
  {
    var r := Rec(tags[n].id, tags[n].data[8..]);
    SerSingle(PppoeTag, r);
    ShrunkBytes(Ser(PppoeTag, tags[..n]), tags[n], Ser(PppoeTag, tags[n + 1..]));
    hide Ser;
    SplitAround(PppoeTag, tags, n);
    SerAppend(PppoeTag, tags[..n], [r]);
    SerAppend(PppoeTag, tags[..n] + [r], tags[n + 1..]);
  }

  lemma ShrunkBytes(a: seq<u8>, r: Rec, b: seq<u8>)
    requires RecOk(PppoeTag, r.id, |r.data|) && |r.data| >= 8
    ensures var ser, p, less := a + (SerOne(PppoeTag, r) + b), |a|, Rec(r.id, r.data[8..]);
            Written(ser[..p + 4] + ser[p + 12..], p + 2, [(|r.data| - 8) / 256, (|r.data| - 8) % 256])
            == a + SerOne(PppoeTag, less) + b
  {
    var ser, p, less := a + (SerOne(PppoeTag, r) + b), |a|, Rec(r.id, r.data[8..]);
    var h := Header(PppoeTag, r.id, |r.data|);
    assert ser == a + h + r.data + b;
    assert ser[..p + 4] == a + h;
    assert ser[p + 12..] == r.data[8..] + b;
  }

  /** Overwriting inside the tags of a frame. */
  lemma WriteInTags(h: seq<u8>, c: seq<u8>, q: nat, w: seq<u8>)
    requires TAGS_AT + |c| <= |h| && h[TAGS_AT..TAGS_AT + |c|] == c && q + |w| <= |c|
    ensures var g := Written(h, TAGS_AT + q, w);
            g[TAGS_AT..TAGS_AT + |c|] == Written(c, q, w) && g[..TAGS_AT] == h[..TAGS_AT]
  {
    assert forall i :: 0 <= i < |c| ==> h[TAGS_AT + i] == c[i];
  }

  /** The LOOKUP edit when data remains in the relay tag: cut, correct ph->length, correct the tag's length. */
  lemma ShrinkRecord(f: seq<u8>, tags: seq<Rec>, n: nat)
    requires Carries(f, tags) && n < |tags| && |tags[n].data| >= 8 && |f| < 65536
    ensures var at, d := TAGS_AT + Pos(PppoeTag, tags, n), tags[n].data;
            var new' := tags[..n] + [Rec(tags[n].id, d[8..])] + tags[n + 1..];
            && at + 12 <= |f| && |Ser(PppoeTag, tags)| >= 8
            && var h := f[..at + 4] + f[at + 12..];
               var g := WithLength(h, |Ser(PppoeTag, tags)| - 8);
               && h[LENGTH_AT] == f[LENGTH_AT] && h[LENGTH_AT + 1] == f[LENGTH_AT + 1]
               && at + 4 <= |g|
               && Carries(Written(g, at + 2, [(|d| - 8) / 256, (|d| - 8) % 256]), new')
               && Written(g, at + 2, [(|d| - 8) / 256, (|d| - 8) % 256])[..LENGTH_AT] == f[..LENGTH_AT]
  {
    hide Ser;
    var ser, p, d := Ser(PppoeTag, tags), Pos(PppoeTag, tags, n), tags[n].data;
    var at, w := TAGS_AT + p, [(|d| - 8) / 256, (|d| - 8) % 256];
    ShrunkSer(tags, n);
    CutTags(f, ser, at + 4, 8);
    var h, c := f[..at + 4] + f[at + 12..], ser[..p + 4] + ser[p + 12..];
    Relength(f, h, c);
    var g := WithLength(h, |c|);
    WriteInTags(g, c, p + 2, w);
    var k := Written(g, at + 2, w);
    assert k[LENGTH_AT] == k[..TAGS_AT][LENGTH_AT] == g[..TAGS_AT][LENGTH_AT];
    assert k[LENGTH_AT + 1] == k[..TAGS_AT][LENGTH_AT + 1] == g[..TAGS_AT][LENGTH_AT + 1];
    assert k[..LENGTH_AT] == k[..TAGS_AT][..LENGTH_AT] == g[..TAGS_AT][..LENGTH_AT];
  }

  /** Writing the destination address does not touch length or tags. */
  lemma SetDestination(f: seq<u8>, mac: seq<u8>, tags: seq<Rec>)
    requires Carries(f, tags) && |mac| == 6
    ensures Carries(Written(f, 0, mac), tags)
    ensures Written(f, 0, mac)[..6] == mac && Written(f, 0, mac)[6..] == f[6..]
  {
    var g := Written(f, 0, mac);
    assert forall i :: 6 <= i < |f| ==> g[i] == f[i];
    var n := |Ser(PppoeTag, tags)|;
    assert g[TAGS_AT..TAGS_AT + n] == f[TAGS_AT..TAGS_AT + n];
  }

  lemma FrontBytes(f: seq<u8>, g: seq<u8>, mac: Mac)
    requires LENGTH_AT <= |f| && LENGTH_AT <= |g| && g[..LENGTH_AT] == Written(f, 0, mac)[..LENGTH_AT]
    ensures g[..6] == mac && g[6..18] == f[6..18]
  {
    var h := Written(f, 0, mac);
    assert g[..6] == g[..LENGTH_AT][..6] && h[..6] == h[..LENGTH_AT][..6];
    assert g[6..18] == g[..LENGTH_AT][6..] && h[6..18] == h[..LENGTH_AT][6..];
  }

  // ---------------------------------------------------------------- on frames

  class Skb {
    const data: array<u8>
    var len: nat

    constructor (data: array<u8>, len: nat)
      requires TAGS_AT <= len <= data.Length < 65536
      ensures this.data == data && this.len == len && Frame() == data[..len]
    {
      this.data, this.len := data, len;
    }

    ghost predicate Sized()
      reads this
    {
      TAGS_AT <= len <= data.Length < 65536
    }

    ghost function Frame(): seq<u8>
      requires Sized()
      reads this, data
    {
      data[..len]
    }

    method PhLength() returns (n: nat)
      requires Sized()
      ensures n == Be16(Frame()[LENGTH_AT], Frame()[LENGTH_AT + 1])
    {
      n := Be16(data[LENGTH_AT], data[LENGTH_AT + 1]);
    }

    method SetPhLength(n: nat)
      requires Sized() && n < 65536
      modifies data
      ensures Frame() == WithLength(old(Frame()), n)
    {
      data[LENGTH_AT], data[LENGTH_AT + 1] := n / 256, n % 256;
    }

    /** __nat25_find_pppoe_tag */
    method FindTag(id: nat, ghost tags: seq<Rec>) returns (at: Option<nat>)
      requires Sized() && Carries(Frame(), tags)
      ensures var n := First(tags, id, []);
              at == if n < |tags| then Some(TAGS_AT + Pos(PppoeTag, tags, n)) else None
    {
      ghost var n, f := 0, Frame();
      var cur := TAGS_AT;
      var length := PhLength();
      while cur - TAGS_AT < length
        invariant n <= |tags| && cur == TAGS_AT + Pos(PppoeTag, tags, n)
        invariant forall i :: 0 <= i < n ==> !Matches(tags[i], id, [])
        decreases |tags| - n
      {
        PosEnd(PppoeTag, tags, n);
        TagFields(f, tags, n);
        var tagType, tagLen := Be16(data[cur], data[cur + 1]), Be16(data[cur + 2], data[cur + 3]);
        if tagType == id {
          FirstIs(tags, id, [], n);
          return Some(cur);
        }
        cur, n := cur + 4 + tagLen, n + 1;
      }
      PosEnd(PppoeTag, tags, n);
      FirstIs(tags, id, [], n);
      return None;
    }

    /** skb_pull_and_merge: cut n bytes out of the frame. */
    method PullAndMerge(src: nat, n: nat) returns (ok: bool)
      requires Sized() && TAGS_AT <= src
      modifies this`len, data
      ensures Sized() && ok == (src + n <= old(len))
      ensures Frame() == if ok then old(Frame())[..src] + old(Frame())[src + n..] else old(Frame())
    {
      if src + n > len || len < n {
        return false;
      }
      var tail := len - (src + n);
      ghost var f := Frame();
      if tail > 0 {
        MoveBytes(data, len, src, src + n, tail);
      }
      assert Frame() == Moved(f, src, src + n, tail);
      CutByMoving(f, src, n);
      len := len - n;
      assert data[..len] == data[..len + n][..len];
      ok := true;
    }

    /** skb_put */
    method Put(n: nat)
      requires Sized() && len + n <= data.Length
      modifies this`len
      ensures Sized() && len == old(len) + n && Frame()[..old(len)] == old(Frame())
    {
      len := len + n;
    }

    /** Remove the first relay tag, as the insert path does with an old one. */
    method RemoveTag(at: nat, oldLen: nat, ghost tags: seq<Rec>) returns (ok: bool)
      requires Sized() && Carries(Frame(), tags) && FirstRelay(tags) < |tags|
      requires at == TAGS_AT + Pos(PppoeTag, tags, FirstRelay(tags)) && oldLen == |OldRelay(tags)|
      modifies this`len, data
      ensures ok && Sized() && len == old(len) - (4 + oldLen) && Carries(Frame(), WithoutRelay(tags))
      ensures Frame()[..LENGTH_AT] == old(Frame())[..LENGTH_AT]
    {
      hide Ser;
      ghost var f, rest := Frame(), WithoutRelay(tags);
      CutRelay(f, tags, at, oldLen);
      ok := PullAndMerge(at, 4 + oldLen);
      var length := PhLength();
      assert length - 4 - oldLen == |Ser(PppoeTag, rest)|;
      SetPhLength(length - 4 - oldLen);
    }

    /** __nat25_add_pppoe_tag: make room in front of the tags and write the new one there. */
    method AddTag(tag: seq<u8>, ghost own: Rec, ghost tags: seq<Rec>) returns (r: int)
      requires Sized() && Carries(Frame(), tags) && RecOk(PppoeTag, own.id, |own.data|) && tag == SerOne(PppoeTag, own)
      modifies this`len, data
      ensures Sized() && r == if data.Length - old(len) < |tag| then -1 else |tag|
      ensures r < 0 ==> Frame() == old(Frame())
      ensures r >= 0 ==> len == old(len) + |tag| && Carries(Frame(), [own] + tags)
      ensures Frame()[..LENGTH_AT] == old(Frame())[..LENGTH_AT]
    {
      hide Ser;
      if data.Length - len < |tag| {
        return -1;
      }
      ghost var f := Frame();
      Put(|tag|);
      Grown(f, Frame(), tags);
      PrependRecord(Frame(), own, tags);
      var length := PhLength();
      MoveBytes(data, len, TAGS_AT + |tag|, TAGS_AT, length);
      SetPhLength(length + |tag|);
      WriteBytes(data, len, TAGS_AT, tag);
      r := |tag|;
    }

    method Slice(lo: nat, hi: nat) returns (b: seq<u8>)
      requires Sized() && lo <= hi <= len
      ensures b == Frame()[lo..hi]
    {
      b := data[lo..hi];
    }

    /** Find the first relay tag and read its length. */
    method PeekRelay(ghost tags: seq<Rec>) returns (found: bool, at: nat, tagLen: nat)
      requires Sized() && Carries(Frame(), tags)
      ensures found == (FirstRelay(tags) < |tags|)
      ensures found ==>
                && at == TAGS_AT + Pos(PppoeTag, tags, FirstRelay(tags)) && at + 4 + tagLen <= len
                && tagLen == |OldRelay(tags)| && Frame()[at + 4..at + 4 + tagLen] == OldRelay(tags)
    {
      var tag := FindTag(RELAY_SID, tags);
      if tag.None? {
        return false, 0, 0;
      }
      found, at := true, tag.value;
      TagFields(Frame(), tags, FirstRelay(tags));
      tagLen := Be16(data[at + 2], data[at + 3]);
    }

    /** Insert path, first half: copy the data of an old relay tag and delete that tag. */
    method TakeOldRelay(ghost tags: seq<Rec>) returns (ok: bool, before: seq<u8>)
      requires Sized() && Carries(Frame(), tags)
      modifies this`len, data
      ensures Sized() && Frame()[..LENGTH_AT] == old(Frame())[..LENGTH_AT]
      ensures ok == (|OldRelay(tags)| <= 28)
      ensures !ok ==> Frame() == old(Frame())
      ensures ok ==> before == OldRelay(tags) && Carries(Frame(), WithoutRelay(tags))
                     && len == old(len) - if FirstRelay(tags) < |tags| then 4 + |before| else 0
    {
      var found, at, oldLen := PeekRelay(tags);
      if !found {
        return true, [];
      }
      if oldLen + 4 + 2 + 6 > TAG_BUF {
        return false, [];
      }
      before := Slice(at + 4, at + 4 + oldLen);
      ok := RemoveTag(at, oldLen, tags);
    }

    /** Insert path, second half: put a tag with the client's address in front of the others. */
    method AddOwnTag(before: seq<u8>, ghost tags: seq<Rec>) returns (r: int)
      requires Sized() && Carries(Frame(), tags) && |before| <= 28
      modifies this`len, data
      ensures Sized() && Frame()[..LENGTH_AT] == old(Frame())[..LENGTH_AT]
      ensures r == (if data.Length - old(len) < 12 + |before| then -1 else 0)
      ensures r < 0 ==> Frame() == old(Frame())
      ensures r == 0 ==> len == old(len) + 12 + |before| && Carries(Frame(), [OwnTag(old(Frame())[6..12], before)] + tags)
    {
      hide Ser;
      var mac := Slice(6, 12);
      ghost var own := OwnTag(mac, before);
      var value := MAGIC + mac + before;
      OwnTagBytes(mac, before);
      hide OwnTag, SerOne, Carries;
      r := AddTag([RELAY_SID / 256, RELAY_SID % 256, |value| / 256, |value| % 256] + value, own, tags);
      r := if r < 0 then -1 else 0;
    }

    /** The INSERT case for PADI and PADR frames of nat25_db_handle. */
    method InsertRelay(ghost tags: seq<Rec>) returns (r: int)
      requires Sized() && Carries(Frame(), tags)
      modifies this`len, data
      ensures Sized() && Frame()[..LENGTH_AT] == old(Frame())[..LENGTH_AT]
      ensures |OldRelay(tags)| > 28 ==> r == -1 && Frame() == old(Frame())
      ensures var before := OldRelay(tags);
              var cut := if FirstRelay(tags) < |tags| then 4 + |before| else 0;
              var room := data.Length - (old(len) - cut) >= 12 + |before|;
              |before| <= 28 ==>
                && r == (if room then 0 else -1)
                && len == old(len) - cut + (if room then 12 + |before| else 0)
                && Carries(Frame(), (if room then [OwnTag(old(Frame())[6..12], before)] else []) + WithoutRelay(tags))
    {
      hide Ser, Carries, OwnTag, OldRelay, WithoutRelay;
      ghost var f := Frame();
      var ok, before := TakeOldRelay(tags);
      if !ok {
        return -1;
      }
      assert Frame()[..LENGTH_AT][6..12] == Frame()[6..12] && f[..LENGTH_AT][6..12] == f[6..12];
      r := AddOwnTag(before, WithoutRelay(tags));
      assert [] + WithoutRelay(tags) == WithoutRelay(tags);
    }

    /** Lookup path, first half: is the first relay tag ours, and whose address does it carry? */
    method FindClient(ghost tags: seq<Rec>) returns (client: Option<Mac>, at: nat, tagLen: nat)
      requires Sized() && Carries(Frame(), tags)
      ensures client == ClientOf(tags)
      ensures client.Some? ==> at == TAGS_AT + Pos(PppoeTag, tags, FirstRelay(tags)) && tagLen == |tags[FirstRelay(tags)].data|
      ensures forall n :: 0 <= n < |tags| && tags[n].id == 0x0110 && (forall i :: 0 <= i < n ==> tags[i].id != 0x0110) ==>
                client == if |tags[n].data| >= 8 && tags[n].data[0] == 0x81 && tags[n].data[1] == 0x86
                          then Some(tags[n].data[2..8]) else None
      ensures (forall i :: 0 <= i < |tags| ==> tags[i].id != 0x0110) ==> client == None
    {
      ClientMeans(tags);
      client, at, tagLen := ReadClient(tags);
      hide First, ClientOf, FirstRelay;
    }

    method ReadClient(ghost tags: seq<Rec>) returns (client: Option<Mac>, at: nat, tagLen: nat)
      requires Sized() && Carries(Frame(), tags)
      ensures client == ClientOf(tags)
      ensures client.Some? ==> at == TAGS_AT + Pos(PppoeTag, tags, FirstRelay(tags)) && tagLen == |tags[FirstRelay(tags)].data|
    {
      var found;
      found, at, tagLen := PeekRelay(tags);
      if !found || tagLen < 8 {
        return None, at, tagLen;
      }
      var d := Slice(at + 4, at + 4 + tagLen);
      assert d[..2] == [d[0], d[1]];
      if Be16(d[0], d[1]) != 0x8186 {
        return None, at, tagLen;
      }
      client := Some(d[2..8]);
    }

    /** The LOOKUP case for PADO and PADS frames of nat25_db_handle.  A list without a relay tag, or whose first one
        is short or begins with other bytes, is refused and the frame left alone. */
    method LookupRelay(ghost tags: seq<Rec>) returns (r: int)
      requires Sized() && Carries(Frame(), tags)
      modifies this`len, data
      ensures Sized() && r == (if ClientOf(tags).Some? then 0 else -1)
      ensures ClientOf(tags).Some? ==> Carries(Frame(), Answered(tags))
      ensures forall n :: 0 <= n < |tags| && tags[n].id == 0x0110 && (forall i :: 0 <= i < n ==> tags[i].id != 0x0110) ==>
                if |tags[n].data| >= 8 && tags[n].data[0] == 0x81 && tags[n].data[1] == 0x86
                then r == 0 && Frame()[..6] == tags[n].data[2..8] && Frame()[6..18] == old(Frame())[6..18]
                else r == -1 && Frame() == old(Frame())
      ensures (forall i :: 0 <= i < |tags| ==> tags[i].id != 0x0110) ==> r == -1 && Frame() == old(Frame())
    {
      ghost var f := Frame();
      ClientMeans(tags);
      r := EditAnswer(tags);
      hide First, ClientOf, Carries, Answered;
      if ClientOf(tags).Some? {
        FrontBytes(f, Frame(), ClientOf(tags).value);
      }
    }

    method EditAnswer(ghost tags: seq<Rec>) returns (r: int)
      requires Sized() && Carries(Frame(), tags)
      modifies this`len, data
      ensures Sized() && r == (if ClientOf(tags).Some? then 0 else -1)
      ensures ClientOf(tags).None? ==> Frame() == old(Frame())
      ensures ClientOf(tags).Some? ==>
                && Frame()[..LENGTH_AT] == Written(old(Frame()), 0, ClientOf(tags).value)[..LENGTH_AT]
                && Carries(Frame(), Answered(tags))
    {
      var client, at, tagLen := FindClient(tags);
      if client.None? {
        return -1;
      }
      SetDestination(Frame(), client.value, tags);
      WriteBytes(data, len, 0, client.value);
      if tagLen > 8 {
        TakeAddress(at, tagLen, tags);
      } else {
        DropTag(at, tags);
      }
      r := 0;
    }

    /** offset == 4: the tag keeps its header and what follows the client address. */
    method TakeAddress(at: nat, tagLen: nat, ghost tags: seq<Rec>)
      requires Sized() && Carries(Frame(), tags) && ClientOf(tags).Some?
      requires at == TAGS_AT + Pos(PppoeTag, tags, FirstRelay(tags)) && tagLen == |tags[FirstRelay(tags)].data| > 8
      modifies this`len, data
      ensures Sized() && Carries(Frame(), Answered(tags)) && Frame()[..LENGTH_AT] == old(Frame())[..LENGTH_AT]
    {
      hide Ser;
      ShrinkRecord(Frame(), tags, FirstRelay(tags));
      var ok := PullAndMerge(at + 4, 8);
      var length := PhLength();
      SetPhLength(length - 8);
      WriteBytes(data, len, at + 2, [(tagLen - 8) / 256, (tagLen - 8) % 256]);
    }

    /** offset == 0: nothing is left of the tag. */
    method DropTag(at: nat, ghost tags: seq<Rec>)
      requires Sized() && Carries(Frame(), tags) && ClientOf(tags).Some?
      requires at == TAGS_AT + Pos(PppoeTag, tags, FirstRelay(tags)) && |tags[FirstRelay(tags)].data| == 8
      modifies this`len, data
      ensures Sized() && Carries(Frame(), Answered(tags)) && Frame()[..LENGTH_AT] == old(Frame())[..LENGTH_AT]
    {
      CutRecord(Frame(), tags, FirstRelay(tags));
      assert Answered(tags) == tags[..FirstRelay(tags)] + tags[FirstRelay(tags) + 1..];
      var ok := PullAndMerge(at, 12);
      var length := PhLength();
      SetPhLength(length - 12);
    }
  }
}

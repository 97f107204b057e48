/** Choosing the operating channel from the peer's channel list in a GO negotiation request (core/rtw_p2p.c). */
module ChInclusion {
  import opened Bytes
  import opened Tlv

  const LIST_MAX: nat := 100   // size of the handler's local buffers
  const COUNTRY: nat := 3

  // ---------------------------------------------------------------- the peer's list

  /** A channel list attribute holds a country string and then, per operating class, the class, a count and the
      channels: the layout of an element. */
  predicate ChannelList(content: seq<u8>, classes: seq<Rec>) {
    && AllOk(Element, classes) && COUNTRY <= |content| <= LIST_MAX
    && content[COUNTRY..] == Ser(Element, classes)
  }

  function Channels(classes: seq<Rec>): seq<u8> {
    if classes == [] then [] else Channels(classes[..|classes| - 1]) + classes[|classes| - 1].data
  }

  lemma {:induction false} ChannelsFit(classes: seq<Rec>)
    requires AllOk(Element, classes)
    ensures |Channels(classes)| <= |Ser(Element, classes)|
  {
    if classes != [] {
      var n := |classes| - 1;
      ChannelsFit(classes[..n]);
      assert classes[..n] + [classes[n]] == classes;
      SerSingle(Element, classes[n]);
      SerAppend(Element, classes[..n], [classes[n]]);
    }
  }

  lemma ChannelsStep(classes: seq<Rec>, n: nat)
    requires AllOk(Element, classes) && n < |classes|
    ensures Channels(classes[..n + 1]) == Channels(classes[..n]) + classes[n].data
    ensures |Channels(classes[..n + 1])| <= |Ser(Element, classes)|
  {
    var front := classes[..n + 1];
    assert front[..n] == classes[..n] && front[n] == classes[n];
    ChannelsFit(front);
    SplitAt(Element, classes, n + 1);
  }

  /** The fields of class n as the driver reads them. */
  lemma ClassFields(f: seq<u8>, classes: seq<Rec>, n: nat)
    requires AllOk(Element, classes) && n < |classes| && COUNTRY + |Ser(Element, classes)| <= |f|
    requires f[COUNTRY..COUNTRY + |Ser(Element, classes)|] == Ser(Element, classes)
    ensures var p, len := COUNTRY + Pos(Element, classes, n), |classes[n].data|;
            && p + 2 + len <= COUNTRY + |Ser(Element, classes)| && f[p + 1] == len && f[p + 2..p + 2 + len] == classes[n].data
            && COUNTRY + Pos(Element, classes, n + 1) == p + 2 + len
  {
    AtRecordIn(Element, f, COUNTRY, classes, n);
  }

  /** The inner loop: one class's channels go behind the ones collected so far. */
  method CopyClass(content: array<u8>, at: nat, temp: nat, list: array<u8>, start: nat, ghost f: seq<u8>) returns (j: nat)
    requires |f| <= content.Length && f == content[..|f|] && at + 2 + temp <= |f|
    requires start + temp <= list.Length && list != content
    modifies list
    ensures j == start + temp && list[..j] == old(list[..start]) + f[at + 2..at + 2 + temp]
  {
    j := start;
    for i := 0 to temp
      invariant j == start + i && list[..j] == old(list[..start]) + f[at + 2..at + 2 + i]
    {
      assert content[at + 2 + i] == f[at + 2 + i];
      list[j] := content[at + 1 + 1 + i];
      j := j + 1;
    }
  }

  /** rtw_p2p_get_peer_ch_list */
  method GetPeerChList(content: array<u8>, chCnt: nat, list: array<u8>, ghost classes: seq<Rec>) returns (chNo: nat)
    requires chCnt <= content.Length && list.Length == LIST_MAX && list != content
    requires ChannelList(content[..chCnt], classes)
    modifies list
    ensures chNo <= LIST_MAX && list[..chNo] == Channels(classes)
  {
    ghost var f := content[..chCnt];
    assert f[COUNTRY..chCnt] == f[COUNTRY..];
    var at, left, j, n := COUNTRY, chCnt - COUNTRY, 0, 0;
    chNo := 0;
    PosStart(Element, classes);
    assert classes[..0] == [] && Channels([]) == [] && list[..0] == [] && |Ser(Element, classes)| == left && chCnt <= LIST_MAX;
    assert f[COUNTRY..COUNTRY + |Ser(Element, classes)|] == Ser(Element, classes);
    assert AllOk(Element, classes);
    hide Ser, Channels, ChannelList, AllOk, Pos;
    while left > 0
      invariant 0 <= n <= |classes| && at == COUNTRY + Pos(Element, classes, n) && at + left == chCnt && left >= 0
      invariant j == chNo <= LIST_MAX && list[..chNo] == Channels(classes[..n])
      invariant content[..chCnt] == f
      decreases |classes| - n
    {
      PosEnd(Element, classes, n);
      ClassFields(f, classes, n);
      ChannelsStep(classes, n);
      var temp: int := content[at + 1];
      assert temp == |classes[n].data| && f[at + 2..at + 2 + temp] == classes[n].data by {
        assert content[at + 1] == f[at + 1];
      }
      j := CopyClass(content, at, temp, list, j, f);
      at, left, chNo, n := at + 2 + temp, left - 2 - temp, chNo + temp, n + 1;
    }
    PosEnd(Element, classes, n);
    assert classes[..n] == classes;
  }

  // ---------------------------------------------------------------- the intersection

  /** First place from t on where the channel is listed, or the length. */
  function FirstFrom(own: seq<u8>, ch: u8, t: nat): (j: nat)
    requires t <= |own|
    ensures t <= j <= |own| && (j < |own| ==> own[j] == ch)
    ensures forall i :: t <= i < j ==> own[i] != ch
    decreases |own| - t
  {
    if t == |own| || own[t] == ch then t else FirstFrom(own, ch, t + 1)
  }

  /** What rtw_p2p_ch_inclusion collects: the search for each channel starts where the last one was found. */
  function Included(peer: seq<u8>, own: seq<u8>, t: nat): seq<u8>
    requires t <= |own|
  {
    if peer == [] then []
    else
      var j := FirstFrom(own, peer[0], t);
      if j < |own| then [peer[0]] + Included(peer[1..], own, j) else Included(peer[1..], own, t)
  }

  /** All the peer's channels that are in the own list, in the peer's order. */
  function Shared(peer: seq<u8>, own: seq<u8>): (r: seq<u8>)
    ensures forall c :: c in r <==> c in peer && c in own
  {
    if peer == [] then [] else (if peer[0] in own then [peer[0]] else []) + Shared(peer[1..], own)
  }

  /** Nothing is shared with an empty list, and a channel behind the others is selected exactly if it is in the own list. */
  lemma {:induction false} SharedGrows(peer: seq<u8>, ch: u8, own: seq<u8>)
    ensures Shared([], own) == []
    ensures Shared(peer + [ch], own) == Shared(peer, own) + if ch in own then [ch] else []
  {
    if peer == [] {
      assert peer + [ch] == [ch] && [ch][1..] == [];
    } else {
      assert (peer + [ch])[1..] == peer[1..] + [ch];
      SharedGrows(peer[1..], ch, own);
    }
  }

  /** The first channel of the peer's list that is in the own list comes first, whatever the cursor loses later. */
  lemma FirstIsFound(peer: seq<u8>, own: seq<u8>, i: nat)
    requires i < |peer| && peer[i] in own && forall j :: 0 <= j < i ==> peer[j] !in own
    ensures Included(peer, own, 0) != [] && Included(peer, own, 0)[0] == peer[i]
  {
    IncludedStep(peer, own, 0);
    assert peer[0] in own <==> FirstFrom(own, peer[0], 0) < |own|;
    hide Included, FirstFrom;
    if i > 0 {
      FirstIsFound(peer[1..], own, i - 1);
    }
  }

  predicate Subsequence(a: seq<u8>, b: seq<u8>) {
    a == [] || (b != [] && ((a[0] == b[0] && Subsequence(a[1..], b[1..])) || Subsequence(a, b[1..])))
  }

  /** A subsequence is found at strictly growing places. */
  lemma {:induction false} SubsequencePlaces(a: seq<u8>, b: seq<u8>) returns (at: seq<nat>)
    requires Subsequence(a, b)
    ensures |at| == |a| && forall k :: 0 <= k < |at| ==> at[k] < |b| && b[at[k]] == a[k]
    ensures forall j, k :: 0 <= j < k < |at| ==> at[j] < at[k]
    decreases |b|
  {
    if a == [] {
      return [];
    }
    var s := Subsequence(a[1..], b[1..]) && a[0] == b[0];
    var rest := SubsequencePlaces(if s then a[1..] else a, b[1..]);
    hide Subsequence;
    at := (if s then [0] else []) + seq(|rest|, k requires 0 <= k < |rest| => rest[k] + 1);
  }

  /** The channels can be found in the own list without going back; `at` says where. */
  predicate FoundInOrder(chs: seq<u8>, own: seq<u8>, at: seq<nat>) {
    && |at| == |chs|
    && (forall k :: 0 <= k < |at| ==> at[k] < |own| && own[at[k]] == chs[k])
    && (forall k :: 0 < k < |at| ==> at[k - 1] <= at[k])
  }

  /** The result is a subsequence of the peer's list, and every channel is in the own list too. */
  lemma {:induction false} IncludedSound(peer: seq<u8>, own: seq<u8>, t: nat)
    requires t <= |own|
    ensures var r := Included(peer, own, t);
            && Subsequence(r, peer) && |r| <= |peer|
            && forall c :: c in r ==> c in peer && c in own
  {
    if peer != [] {
      var j := FirstFrom(own, peer[0], t);
      IncludedSound(peer[1..], own, if j < |own| then j else t);
    }
  }

  /** Nothing in common is reported only if nothing is. */
  lemma {:induction false} EmptyIffDisjoint(peer: seq<u8>, own: seq<u8>)
    ensures Included(peer, own, 0) == [] <==> Shared(peer, own) == []
  {
    if peer != [] {
      EmptyIffDisjoint(peer[1..], own);
      assert peer[0] in own <==> FirstFrom(own, peer[0], 0) < |own|;
    }
  }

  lemma {:induction false} IncludedInOrder(peer: seq<u8>, own: seq<u8>, t: nat) returns (at: seq<nat>)
    requires t <= |own|
    ensures FoundInOrder(Included(peer, own, t), own, at) && (at != [] ==> t <= at[0])
  {
    if peer == [] {
      at := [];
    } else {
      var j := FirstFrom(own, peer[0], t);
      IncludedStep(peer, own, t);
      hide Included, FirstFrom;
      at := IncludedInOrder(peer[1..], own, if j < |own| then j else t);
      if j < |own| {
        FoundFurther(peer[0], Included(peer[1..], own, j), own, j, at);
        at := [j] + at;
      }
    }
  }

  lemma FoundFurther(ch: u8, chs: seq<u8>, own: seq<u8>, j: nat, at: seq<nat>)
    requires FoundInOrder(chs, own, at) && j < |own| && own[j] == ch && (at != [] ==> j <= at[0])
    ensures FoundInOrder([ch] + chs, own, [j] + at)
  {}

  lemma IncludedStep(peer: seq<u8>, own: seq<u8>, t: nat)
    requires t <= |own|
    ensures peer == [] ==> Included(peer, own, t) == []
    ensures peer != [] ==>
              var j := FirstFrom(own, peer[0], t);
              Included(peer, own, t) == if j < |own| then [peer[0]] + Included(peer[1..], own, j) else Included(peer[1..], own, t)
  {}

  lemma {:induction false} InOrderIncludesAll(peer: seq<u8>, own: seq<u8>, t: nat, at: seq<nat>)
    requires t <= |own| && FoundInOrder(Shared(peer, own), own, at) && (at != [] ==> t <= at[0])
    ensures Included(peer, own, t) == Shared(peer, own)
  {
    if peer != [] {
      var j := FirstFrom(own, peer[0], t);
      if peer[0] in own {
        assert own[at[0]] == peer[0] && j <= at[0];
        InOrderIncludesAll(peer[1..], own, j, at[1..]);
      } else {
        InOrderIncludesAll(peer[1..], own, t, at);
      }
    }
  }

  /** The result is the whole intersection exactly if the shared channels, in the peer's order, can be found in
      the own list without going back. */
  lemma IncludesAllIff(peer: seq<u8>, own: seq<u8>)
    ensures Included(peer, own, 0) == Shared(peer, own) <==> exists at :: FoundInOrder(Shared(peer, own), own, at)
  {
    if Included(peer, own, 0) == Shared(peer, own) {
      var at := IncludedInOrder(peer, own, 0);
    }
    if at :| FoundInOrder(Shared(peer, own), own, at) {
      InOrderIncludesAll(peer, own, 0, at);
    }
  }

  /** The inner loop of rtw_p2p_ch_inclusion */
  method SearchFrom(own: seq<u8>, ch: u8, temp: nat) returns (j: nat)
    requires temp <= |own|
    ensures j == FirstFrom(own, ch, temp)
  {
    j := temp;
    while j < |own| && own[j] != ch
      invariant temp <= j <= |own| && FirstFrom(own, ch, j) == FirstFrom(own, ch, temp)
    {
      j := j + 1;
    }
  }

  /** rtw_p2p_ch_inclusion */
  method ChInclusion(own: seq<u8>, peer: array<u8>, peerNum: nat, out: array<u8>) returns (chNo: nat)
    requires peerNum <= peer.Length && peerNum <= out.Length && out != peer
    modifies out
    ensures chNo <= peerNum && out[..chNo] == Included(peer[..peerNum], own, 0)
  {
    ghost var p := peer[..peerNum];
    var temp := 0;
    chNo := 0;
    assert p[0..] == p && out[..0] == [];
    hide Included, FirstFrom;
    for i := 0 to peerNum
      invariant 0 <= temp <= |own| && chNo <= i && peer[..peerNum] == p
      invariant out[..chNo] + Included(p[i..], own, temp) == Included(p, own, 0)
    {
      assert p[i..][0] == p[i] == peer[i] && p[i..][1..] == p[i + 1..];
      IncludedStep(p[i..], own, temp);
      var j := SearchFrom(own, peer[i], temp);
      if j < |own| {
        Associate(out[..chNo], p[i], Included(p[i + 1..], own, j));
        chNo := AddChannel(out, chNo, peer[i]);
        temp := j;
      }
    }
    IncludedStep(p[peerNum..], own, temp);
    assert out[..chNo] + [] == out[..chNo];
  }

  lemma Associate(got: seq<u8>, ch: u8, rest: seq<u8>)
    ensures got + ([ch] + rest) == (got + [ch]) + rest
  {}

  method AddChannel(out: array<u8>, chNo: nat, ch: u8) returns (next: nat)
    requires chNo < out.Length
    modifies out
    ensures next == chNo + 1 && out[..next] == old(out[..chNo]) + [ch]
  {
    out[chNo] := ch;
    next := chNo + 1;
  }

  // ---------------------------------------------------------------- the operating channel

  /** rtw_p2p_is_channel_list_ok */
  method IsChannelListOk(ch: u8, list: array<u8>, cnt: nat) returns (found: bool)
    requires cnt <= list.Length
    ensures found <==> ch in list[..cnt]
  {
    found := false;
    for i := 0 to cnt
      invariant ch !in list[..i]
    {
      if list[i] == ch {
        return true;
      }
    }
  }

  /** The channel list part of process_p2p_group_negotation_req, for a request with one P2P element: fails, or
      gives the operating channel. peerOp is 0 if the request names none. */
  method ChooseChannel(content: array<u8>, chCnt: nat, own: seq<u8>, op: u8, isGo: bool, buddyLinked: bool, peerOp: u8,
                       ghost classes: seq<Rec>)
    returns (r: Option<u8>)
    requires chCnt <= content.Length && ChannelList(content[..chCnt], classes)
    ensures var peer := Channels(classes);
            var both := Included(peer, own, 0);
            && (r == None <==> Shared(peer, own) == [] || (isGo && op !in both && buddyLinked))
            && (r.Some? && !isGo ==> r == Some(op))
            && (r.Some? && isGo ==>
                  && r.value in peer && r.value in own
                  && (op in both ==> r.value == op) && (op !in both && peerOp in both ==> r.value == peerOp)
                  && (op !in both && peerOp !in both ==> both != [] && r.value == both[0]))
    ensures var peer := Channels(classes);
            && ((forall i :: 0 <= i < |peer| ==> peer[i] !in own) ==> r == None)
            && (forall i :: 0 <= i < |peer| && peer[i] in own && (forall j :: 0 <= j < i ==> peer[j] !in own)
                            && isGo && r.Some? && op !in Included(peer, own, 0) && peerOp !in Included(peer, own, 0) ==>
                  r.value == peer[i])
  {
    var peerList, common := new u8[LIST_MAX], new u8[LIST_MAX];
    var peerNum := GetPeerChList(content, chCnt, peerList, classes);
    var num := ChInclusion(own, peerList, peerNum, common);
    ghost var peer := Channels(classes);
    IncludedSound(peer, own, 0);
    EmptyIffDisjoint(peer, own);
    forall i | 0 <= i < |peer| && peer[i] in own && forall j :: 0 <= j < i ==> peer[j] !in own
      ensures Included(peer, own, 0) != [] && Included(peer, own, 0)[0] == peer[i]
    {
      FirstIsFound(peer, own, i);
    }
    assert Shared(peer, own) != [] ==> Shared(peer, own)[0] in peer && Shared(peer, own)[0] in own;
    hide Included, Shared;
    if num == 0 {
      return None;
    }
    r := Some(op);
    if isGo {
      var ok := IsChannelListOk(op, common, num);
      if !ok {
        if buddyLinked {
          return None;
        }
        ok := IsChannelListOk(peerOp, common, num);
        if ok {
          r := Some(peerOp);
        } else {
          assert common[..num][0] == common[0];
          r := Some(common[0]);
        }
      }
    }
  }

  /** The one cursor loses shared channels when the orders differ: here channel 1. */
  lemma OrderLosesChannel()
    ensures Shared([6, 1], [1, 6]) == [6, 1] && Included([6, 1], [1, 6], 0) == [6]
  {
    assert FirstFrom([1, 6], 6, 0) == 1 && FirstFrom([1, 6], 1, 1) == 2;
    assert [6, 1][1..] == [1];
    assert Shared([1], [1, 6]) == [1];
  }
}

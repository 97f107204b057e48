/** Group owner negotiation: following the three frames, and who becomes group owner (core/rtw_p2p.c). */
module P2pNego {
  import opened Bytes

  const MAX_INTENT: nat := 15

  datatype Kind = Req | Resp | Conf

  /** A negotiation frame seen on the way out (tx) or in. peer: the other end. intent: intent and tie breaker,
      0 if absent; status and channels as the attributes give them, if present. */
  datatype Frame = Frame(kind: Kind, tx: bool, peer: Mac, token: u8, intent: u8, status: Option<u8>, opCh: Option<u8>, listenCh: Option<u8>)

  /** struct rtw_wdev_nego_info; state 0: request, 1: response, 2: confirmation seen. */
  datatype Nego = Nego(state: u8, peer: Mac, active: u8, token: u8, status: u8, reqIntent: u8, reqOpCh: u8, reqListenCh: u8,
                       rspIntent: u8, rspOpCh: u8, confOpCh: u8)

  /** rtw_wdev_nego_info_init */
  function Init(): Nego {
    Nego(0xFF, [0, 0, 0, 0, 0, 0], 0xFF, 0, 0xFF, 0xFF, 0, 0, 0xFF, 0, 0)
  }

  /** A missing channel is -1 stored in an octet. */
  function Octet(ch: Option<u8>, missing: u8): u8 {
    if ch.Some? then ch.value else missing
  }

  /** rtw_p2p_nego_intent_compare: is the requester group owner? */
  function RequesterIsGo(req: u8, resp: u8): bool {
    if req / 2 == resp / 2 then req % 2 == 1 else req / 2 > resp / 2
  }

  datatype Outcome = Outcome(nego: Nego, accepted: bool, isGo: bool)

  /** The GO negotiation arms of rtw_p2p_check_frames. */
  function Step(n: Nego, f: Frame): Outcome {
    match f.kind
    case Req =>
      var m := if n.token != f.token then Init() else n;
      Outcome(m.(peer := f.peer, active := if f.tx then 1 else 0, token := f.token, reqOpCh := Octet(f.opCh, 0xFF),
                 reqListenCh := Octet(f.listenCh, 0xFF), reqIntent := f.intent, state := 0), true, false)
    case Resp =>
      if n.token == f.token && n.state == 0 && n.peer == f.peer then
        Outcome(n.(status := Octet(f.status, 0xFF), rspOpCh := Octet(f.opCh, 0xFF), rspIntent := f.intent, state := 1,
                   token := if f.status == Some(0) then n.token else 0), true, false)
      else Outcome(n, false, false)
    case Conf =>
      if n.token == f.token && n.state == 1 && n.peer == f.peer then
        Outcome(n.(status := Octet(f.status, 0xFF), confOpCh := Octet(f.opCh, 0), state := 2, token := 0), true,
                f.status == Some(0) && RequesterIsGo(n.reqIntent, n.rspIntent) != !f.tx)
      else Outcome(n, false, false)
  }

  /** The negotiation record after a run of frames. */
  function Run(h: seq<Frame>): Nego {
    if h == [] then Init() else Step(Run(h[..|h| - 1]), h[|h| - 1]).nego
  }

  // ---------------------------------------------------------------- what the history must look like

  /** Same dialog with the same device. */
  predicate Match(f: Frame, req: Frame) {
    f.token == req.token && f.peer == req.peer
  }

  predicate LatestReq(h: seq<Frame>, i: nat) {
    i < |h| && h[i].kind == Req && forall x :: i < x < |h| ==> h[x].kind != Req
  }

  predicate NoneMatches(h: seq<Frame>, from: nat, to: nat, kind: Kind, req: Frame)
    requires to <= |h|
  {
    forall x :: from <= x < to ==> !(h[x].kind == kind && Match(h[x], req))
  }

  /** Request i is the latest one and still without an answer. */
  predicate Waiting(h: seq<Frame>, i: nat) {
    LatestReq(h, i) && NoneMatches(h, i + 1, |h|, Resp, h[i])
  }

  /** Request i is the latest one, j is the first answer to it, j says success, and it is not confirmed yet. */
  predicate Agreed(h: seq<Frame>, i: nat, j: nat) {
    && LatestReq(h, i) && i < j < |h|
    && h[j].kind == Resp && Match(h[j], h[i]) && h[j].status == Some(0)
    && NoneMatches(h, i + 1, j, Resp, h[i])
    && NoneMatches(h, j + 1, |h|, Conf, h[i])
  }

  /** Request i is the latest one, j is the first answer to it and does not report success, and no confirmation with
      a zero token came from that device since. */
  predicate Refused(h: seq<Frame>, i: nat, j: nat) {
    && LatestReq(h, i) && i < j < |h|
    && h[j].kind == Resp && Match(h[j], h[i]) && h[j].status != Some(0)
    && NoneMatches(h, i + 1, j, Resp, h[i])
    && NoneMatches(h, j + 1, |h|, Conf, h[i].(token := 0))
  }

  // ---------------------------------------------------------------- runs are sound

  lemma WaitingShorter(h: seq<Frame>, i: nat)
    requires Waiting(h, i) && i < |h| - 1
    ensures Waiting(h[..|h| - 1], i)
  {}

  lemma {:induction false} RunWaiting(h: seq<Frame>, i: nat)
    requires Waiting(h, i)
    ensures var n := Run(h);
            && n.state == 0 && n.token == h[i].token && n.peer == h[i].peer && n.active == (if h[i].tx then 1 else 0)
            && n.reqIntent == h[i].intent && n.reqOpCh == Octet(h[i].opCh, 0xFF) && n.reqListenCh == Octet(h[i].listenCh, 0xFF)
  {
    var k := |h| - 1;
    if i < k {
      WaitingShorter(h, i);
      RunWaiting(h[..k], i);
    }
  }

  lemma AgreedShorter(h: seq<Frame>, i: nat, j: nat)
    requires Agreed(h, i, j)
    ensures if j == |h| - 1 then Waiting(h[..j], i) else Agreed(h[..|h| - 1], i, j)
  {}

  lemma {:induction false} RunAgreed(h: seq<Frame>, i: nat, j: nat)
    requires Agreed(h, i, j)
    ensures var n := Run(h);
            && n.state == 1 && n.token == h[i].token && n.peer == h[i].peer
            && n.reqIntent == h[i].intent && n.rspIntent == h[j].intent && n.status == 0
            && n.reqOpCh == Octet(h[i].opCh, 0xFF) && n.rspOpCh == Octet(h[j].opCh, 0xFF)
  {
    var k := |h| - 1;
    AgreedShorter(h, i, j);
    if j == k {
      RunWaiting(h[..j], i);
    } else {
      RunAgreed(h[..k], i, j);
    }
  }

  lemma RefusedShorter(h: seq<Frame>, i: nat, j: nat)
    requires Refused(h, i, j)
    ensures if j == |h| - 1 then Waiting(h[..j], i) else Refused(h[..|h| - 1], i, j)
  {}

  /** A refusal resets the token, but not the state. */
  lemma {:induction false} RunRefused(h: seq<Frame>, i: nat, j: nat)
    requires Refused(h, i, j)
    ensures var n := Run(h); n.state == 1 && n.token == 0 && n.peer == h[i].peer
  {
    var k := |h| - 1;
    RefusedShorter(h, i, j);
    if j == k {
      RunWaiting(h[..j], i);
    } else {
      RunRefused(h[..k], i, j);
    }
  }

  /** One more frame that neither asks nor continues the dialog. */
  lemma SameLonger(h: seq<Frame>, i: nat, j: nat)
    requires h != [] && h[|h| - 1].kind != Req
    ensures var g, f := h[..|h| - 1], h[|h| - 1];
            && (Waiting(g, i) && !(f.kind == Resp && Match(f, g[i])) ==> Waiting(h, i))
            && (Agreed(g, i, j) && !(f.kind == Conf && Match(f, g[i])) ==> Agreed(h, i, j))
            && (Refused(g, i, j) && !(f.kind == Conf && Match(f, g[i].(token := 0))) ==> Refused(h, i, j))
  {}

  /** The first answer. */
  lemma Answered(h: seq<Frame>, i: nat)
    requires h != [] && Waiting(h[..|h| - 1], i) && h[|h| - 1].kind == Resp && Match(h[|h| - 1], h[i])
    ensures Agreed(h, i, |h| - 1) || Refused(h, i, |h| - 1)
  {}

  /** The record waits only if the history does, and is answered only if the history is. */
  lemma {:induction false} RunOnlyIf(h: seq<Frame>) returns (i: nat, j: nat)
    ensures Run(h).state == 0 ==> Waiting(h, i)
    ensures Run(h).state == 1 ==> Agreed(h, i, j) || Refused(h, i, j)
  {
    i, j := 0, 0;
    if h != [] {
      var k := |h| - 1;
      var g, f := h[..k], h[k];
      assert Run(h) == Step(Run(g), f).nego;
      i, j := RunOnlyIf(g);
      hide Run, Octet, NoneMatches;
      if f.kind == Req {
        i := k;
        assert Waiting(h, k) by { LatestWaits(h); }
      } else {
        hide LatestReq;
        SameLonger(h, i, j);
        if Run(g).state == 0 {
          RunWaiting(g, i);
          if f.kind == Resp && Match(f, g[i]) {
            Answered(h, i);
            j := k;
          }
        } else if Run(g).state == 1 && Agreed(g, i, j) {
          RunAgreed(g, i, j);
        } else if Run(g).state == 1 {
          RunRefused(g, i, j);
        }
      }
    }
  }

  lemma LatestWaits(h: seq<Frame>)
    requires h != [] && h[|h| - 1].kind == Req
    ensures Waiting(h, |h| - 1)
  {}

  /** For any order of frames sent and received, a confirmation is accepted exactly if it continues the dialog of
      the latest request, whose first answer reported success and has not been confirmed before, or if it has a
      zero token, comes from the device of the latest request, and that device's answer was a refusal. */
  lemma ConfAcceptedIff(h: seq<Frame>, f: Frame)
    requires f.kind == Conf
    ensures Step(Run(h), f).accepted <==>
              || (exists i: nat, j: nat :: Agreed(h, i, j) && Match(f, h[i]))
              || (f.token == 0 && exists i: nat, j: nat :: Refused(h, i, j) && f.peer == h[i].peer)
  {
    var i, j := RunOnlyIf(h);
    hide Run;
    if Step(Run(h), f).accepted {
      if Agreed(h, i, j) {
        RunAgreed(h, i, j);
        assert Agreed(h, i, j) && Match(f, h[i]);
      } else {
        RunRefused(h, i, j);
        assert Refused(h, i, j) && f.peer == h[i].peer;
      }
    }
    if x: nat, y: nat :| Agreed(h, x, y) && Match(f, h[x]) {
      RunAgreed(h, x, y);
    }
    if f.token == 0 {
      if x: nat, y: nat :| Refused(h, x, y) && f.peer == h[x].peer {
        RunRefused(h, x, y);
      }
    }
  }

  /** In particular a confirmation with a proper token needs an agreed request with its token and peer. */
  lemma ProperConfNeedsAgreement(h: seq<Frame>, f: Frame)
    requires f.kind == Conf && f.token != 0
    ensures Step(Run(h), f).accepted <==> exists i: nat, j: nat :: Agreed(h, i, j) && Match(f, h[i])
  {
    ConfAcceptedIff(h, f);
  }

  /** And an answer is accepted exactly if it is the first one to the latest request. */
  lemma RespAcceptedIff(h: seq<Frame>, f: Frame)
    requires f.kind == Resp
    ensures Step(Run(h), f).accepted <==> exists i: nat :: Waiting(h, i) && Match(f, h[i])
  {
    var i, j := RunOnlyIf(h);
    hide Run;
    if Step(Run(h), f).accepted {
      RunWaiting(h, i);
      assert Waiting(h, i) && Match(f, h[i]);
    }
    if x: nat :| Waiting(h, x) && Match(f, h[x]) {
      RunWaiting(h, x);
    }
  }

  /** So a refused negotiation can be confirmed: a concrete run. */
  lemma ZeroTokenConfirmsRefusal(peer: Mac)
    ensures var req := Frame(Req, true, peer, 5, 0, None, None, None);
            var refusal := Frame(Resp, false, peer, 5, 0, Some(1), None, None);
            var conf := Frame(Conf, true, peer, 0, 0, Some(0), None, None);
            Step(Run([req, refusal]), conf).accepted && !exists i: nat, j: nat :: Agreed([req, refusal], i, j)
  {
    var req := Frame(Req, true, peer, 5, 0, None, None, None);
    var refusal := Frame(Resp, false, peer, 5, 0, Some(1), None, None);
    var h := [req, refusal];
    assert h[..1] == [req] && [req][..0] == [];
    assert Run([req]) == Step(Init(), req).nego;
    assert Run(h) == Step(Run([req]), refusal).nego;
  }

  // ---------------------------------------------------------------- the same, over the frames themselves

  lemma AgreedMeans(h: seq<Frame>, i: nat, j: nat)
    ensures Agreed(h, i, j) <==>
              && i < j < |h| && h[i].kind == Req && (forall x :: i < x < |h| ==> h[x].kind != Req)
              && h[j].kind == Resp && h[j].token == h[i].token && h[j].peer == h[i].peer && h[j].status == Some(0)
              && (forall x :: i < x < j ==> !(h[x].kind == Resp && h[x].token == h[i].token && h[x].peer == h[i].peer))
              && (forall x :: j < x < |h| ==> !(h[x].kind == Conf && h[x].token == h[i].token && h[x].peer == h[i].peer))
  {}

  /** A confirmation with a proper token: the latest request has its token and its peer, so has the first answer to
      that, which reports success, and no confirmation of theirs came since. */
  lemma ProperConfOverFrames(h: seq<Frame>, f: Frame)
    requires f.kind == Conf && f.token != 0
    ensures Step(Run(h), f).accepted <==>
              exists i: nat, j: nat ::
                && i < j < |h| && h[i].kind == Req && (forall x :: i < x < |h| ==> h[x].kind != Req)
                && h[j].kind == Resp && h[j].status == Some(0)
                && h[j].token == h[i].token == f.token && h[j].peer == h[i].peer == f.peer
                && (forall x :: i < x < j ==> !(h[x].kind == Resp && h[x].token == f.token && h[x].peer == f.peer))
                && (forall x :: j < x < |h| ==> !(h[x].kind == Conf && h[x].token == f.token && h[x].peer == f.peer))
  {
    ProperConfNeedsAgreement(h, f);
    forall i: nat, j: nat
      ensures Agreed(h, i, j) && Match(f, h[i]) <==>
                && i < j < |h| && h[i].kind == Req && (forall x :: i < x < |h| ==> h[x].kind != Req)
                && h[j].kind == Resp && h[j].status == Some(0)
                && h[j].token == h[i].token == f.token && h[j].peer == h[i].peer == f.peer
                && (forall x :: i < x < j ==> !(h[x].kind == Resp && h[x].token == f.token && h[x].peer == f.peer))
                && (forall x :: j < x < |h| ==> !(h[x].kind == Conf && h[x].token == f.token && h[x].peer == f.peer))
    {
      AgreedMeans(h, i, j);
      hide Agreed;
    }
    hide Agreed, Run, Step, Match;
  }

  /** An answer: the latest request has its token and its peer, and no such answer came since. */
  lemma RespOverFrames(h: seq<Frame>, f: Frame)
    requires f.kind == Resp
    ensures Step(Run(h), f).accepted <==>
              exists i: nat ::
                && i < |h| && h[i].kind == Req && (forall x :: i < x < |h| ==> h[x].kind != Req)
                && h[i].token == f.token && h[i].peer == f.peer
                && (forall x :: i < x < |h| ==> !(h[x].kind == Resp && h[x].token == f.token && h[x].peer == f.peer))
  {
    RespAcceptedIff(h, f);
    forall i: nat
      ensures Waiting(h, i) && Match(f, h[i]) <==>
                && i < |h| && h[i].kind == Req && (forall x :: i < x < |h| ==> h[x].kind != Req)
                && h[i].token == f.token && h[i].peer == f.peer
                && (forall x :: i < x < |h| ==> !(h[x].kind == Resp && h[x].token == f.token && h[x].peer == f.peer))
    {}
    hide Waiting, Run, Step, Match;
  }

  /** A request is always accepted, nothing else changes the record, and what is accepted sets its own fields. */
  lemma RecordedFields(n: Nego, f: Frame)
    ensures var o := Step(n, f);
            && (f.kind == Req ==>
                  && o.accepted
                  && o.nego == (if n.token == f.token then n else Nego(255, [0, 0, 0, 0, 0, 0], 255, 0, 255, 255, 0, 0, 255, 0, 0))
                               .(state := 0, peer := f.peer, active := if f.tx then 1 else 0, token := f.token,
                                 reqIntent := f.intent, reqOpCh := if f.opCh.Some? then f.opCh.value else 255,
                                 reqListenCh := if f.listenCh.Some? then f.listenCh.value else 255))
            && (!o.accepted ==> o.nego == n && !o.isGo)
            && (f.kind == Resp && o.accepted ==>
                  o.nego == n.(state := 1, status := if f.status.Some? then f.status.value else 255,
                               rspOpCh := if f.opCh.Some? then f.opCh.value else 255, rspIntent := f.intent,
                               token := if f.status == Some(0) then n.token else 0))
            && (f.kind == Conf && o.accepted ==>
                  o.nego == n.(state := 2, status := if f.status.Some? then f.status.value else 255,
                               confOpCh := if f.opCh.Some? then f.opCh.value else 0, token := 0))
  {}

  // ---------------------------------------------------------------- who is group owner

  /** The higher intent wins; between equal ones the tie breaker of the request decides. */
  lemma HigherIntentWins(a: nat, b: nat, t: nat, u: nat)
    requires a <= 15 && b <= 15 && t < 2 && u < 2
    ensures RequesterIsGo(2 * a + t, 2 * b + u) <==> a > b || (a == b && t == 1)
    ensures RoleOnReq(b, 2 * a + t) == (if b > a then Go else if b < a then Client else if b == 15 then Device
                                        else if t == 1 then Client else Go)
    ensures RoleOnResp(a, 2 * b + u) == (if a > b then Go else if a < b then Client else if a == 15 then Device
                                         else if u == 1 then Client else Go)
    ensures RoleOnConf(b, 2 * a + t) == (if b > a || (b == a && t == 0) then Go else Client)
  {}

  /** Two ends that accept the same request, answer and successful confirmation infer opposite roles, whatever
      else they saw. */
  lemma OppositeRoles(a: seq<Frame>, ca: Frame, b: seq<Frame>, cb: Frame, i: nat, j: nat, x: nat, y: nat)
    requires Agreed(a, i, j) && Agreed(b, x, y)
    requires a[i].intent == b[x].intent && a[j].intent == b[y].intent
    requires ca.kind == Conf && cb.kind == Conf && ca.tx && !cb.tx && ca.status == cb.status == Some(0)
    requires Match(ca, a[i]) && Match(cb, b[x])
    ensures var oa, ob := Step(Run(a), ca), Step(Run(b), cb);
            && oa.accepted && ob.accepted && oa.isGo != ob.isGo
            && oa.isGo == RequesterIsGo(a[i].intent, a[j].intent)
  {
    RunAgreed(a, i, j);
    RunAgreed(b, x, y);
  }

  datatype Role = Device | Client | Go

  /** process_p2p_group_negotation_req: the responder's role from its own intent and the request's attribute;
      Device if both insist. */
  function RoleOnReq(own: nat, req: u8): Role {
    if own == req / 2 then (if own == MAX_INTENT then Device else if req % 2 == 1 then Client else Go)
    else if own > req / 2 then Go else Client
  }

  /** process_p2p_group_negotation_resp: the requester's role from the response's attribute. */
  function RoleOnResp(own: nat, resp: u8): Role {
    if own == resp / 2 then (if own == MAX_INTENT then Device else if resp % 2 == 1 then Client else Go)
    else if own > resp / 2 then Go else Client
  }

  /** process_p2p_group_negotation_confirm: the responder decides again, from the request it kept. */
  function RoleOnConf(own: nat, req: u8): Role {
    if own > req / 2 then Go else if own < req / 2 then Client else if req % 2 == 1 then Client else Go
  }

  /** The driver's own role handlers agree with the roles inferred from the frames exactly if the intents differ,
      or are not both 15 and the response's tie breaker complements the request's, as section 3.1.4.2 of the
      P2P Technical Specification asks. */
  lemma HandlersAgreeIff(req: u8, resp: u8)
    ensures (RoleOnResp(req / 2, resp) == (if RequesterIsGo(req, resp) then Go else Client)
             && RoleOnReq(resp / 2, req) == (if RequesterIsGo(req, resp) then Client else Go))
            <==> req / 2 != resp / 2 || (req / 2 != MAX_INTENT && req % 2 != resp % 2)
  {}

  /** The responder's second decision never contradicts the frames. */
  lemma ConfRoleAgrees(req: u8, resp: u8)
    ensures RoleOnConf(resp / 2, req) == if RequesterIsGo(req, resp) then Client else Go
    ensures RoleOnReq(resp / 2, req) != Device ==> RoleOnConf(resp / 2, req) == RoleOnReq(resp / 2, req)
  {}

  // ---------------------------------------------------------------- the code

  class NegoInfo {
    var state: u8
    var peer: Mac
    var active: u8
    var token: u8
    var status: u8
    var reqIntent: u8
    var reqOpCh: u8
    var reqListenCh: u8
    var rspIntent: u8
    var rspOpCh: u8
    var confOpCh: u8

    ghost function View(): Nego
      reads this
    {
      Nego(state, peer, active, token, status, reqIntent, reqOpCh, reqListenCh, rspIntent, rspOpCh, confOpCh)
    }

    constructor ()
      ensures View() == Init()
    {
      state, peer, active, token, status := 0xFF, [0, 0, 0, 0, 0, 0], 0xFF, 0, 0xFF;
      reqIntent, reqOpCh, reqListenCh, rspIntent, rspOpCh, confOpCh := 0xFF, 0, 0, 0xFF, 0, 0;
    }

    method Reset()
      modifies this
      ensures View() == Init()
    {
      state, peer, active, token, status := 0xFF, [0, 0, 0, 0, 0, 0], 0xFF, 0, 0xFF;
      reqIntent, reqOpCh, reqListenCh, rspIntent, rspOpCh, confOpCh := 0xFF, 0, 0, 0xFF, 0, 0;
    }

    /** rtw_p2p_check_frames, for one negotiation frame. */
    method CheckFrame(f: Frame) returns (accepted: bool, isGo: bool)
      modifies this
      ensures Outcome(View(), accepted, isGo) == Step(old(View()), f)
    {
      accepted, isGo := false, false;
      match f.kind
      case Req =>
        if token != f.token {
          Reset();
        }
        peer, active, token := f.peer, if f.tx then 1 else 0, f.token;
        reqOpCh, reqListenCh, reqIntent, state := Octet(f.opCh, 0xFF), Octet(f.listenCh, 0xFF), f.intent, 0;
        accepted := true;
      case Resp =>
        if token == f.token && state == 0 && peer == f.peer {
          status, rspOpCh, rspIntent, state := Octet(f.status, 0xFF), Octet(f.opCh, 0xFF), f.intent, 1;
          if f.status != Some(0) {
            token := 0;
          }
          accepted := true;
        }
      case Conf =>
        if token == f.token && state == 1 && peer == f.peer {
          status, confOpCh, state := Octet(f.status, 0xFF), Octet(f.opCh, 0), 2;
          if f.status == Some(0) {
            isGo := RequesterIsGo(reqIntent, rspIntent) != !f.tx;
          }
          token := 0;
          accepted := true;
        }
    }
  }
}

/** The pool of scan results (core/rtw_mlme.c): a fixed array of slots, each either free or queued,
    searched by network identity and reused oldest first. */
module ScanPool {
  import opened Bytes

  const TICKS: nat := 0x1_0000_0000   // rtw_get_current_time returns 32 bits of the tick counter
  const LIFETIME: nat := 20000        // SCANQUEUE_LIFETIME, ms

  /** A WLAN_BSSID_EX: what identifies the network, where the frame came from (Reserved[0]), and the rest. */
  datatype Bss = Bss(mac: Mac, ssid: seq<u8>, ibss: bool, ess: bool,
                     frame: nat, ies: seq<u8>, strength: nat, quality: nat, rssi: int)

  datatype Net = Net(bss: Bss, last: nat, fixed: bool, networkType: int, aid: int, joinRes: int)

  datatype Pool = Pool(nets: seq<Net>, free: seq<nat>, scanned: seq<nat>, count: int)

  /** What an update reads besides the pool: the time, the width of a C long, the P2P state, the connection. */
  datatype Env = Env(now: nat, long: nat, p2p: bool, linked: bool, cur: Bss, signal: nat, signalQuality: nat)

  predicate EnvOk(e: Env) {
    e.now < TICKS && (e.long == TICKS || e.long == TICKS * TICKS)
  }

  /** is_same_network */
  predicate Same(a: Bss, b: Bss, feature: bool) {
    || (feature && a.mac == b.mac)
    || (a.ssid == b.ssid && a.mac == b.mac && a.ibss == b.ibss && a.ess == b.ess)
  }

  // ---------------------------------------------------------------- every slot in one place

  function Slots(n: nat): multiset<nat> {
    if n == 0 then multiset{} else Slots(n - 1) + multiset{n - 1}
  }

  predicate InRange(p: Pool) {
    && (forall i :: 0 <= i < |p.free| ==> p.free[i] < |p.nets|)
    && (forall i :: 0 <= i < |p.scanned| ==> p.scanned[i] < |p.nets|)
  }

  /** The two queues together hold every slot once, and the count is the length of the scanned queue. */
  predicate PoolOk(p: Pool) {
    && InRange(p)
    && multiset(p.free) + multiset(p.scanned) == Slots(|p.nets|)
    && p.count == |p.scanned|
  }

  lemma {:induction false} SlotsOnce(n: nat, i: nat)
    ensures Slots(n)[i] == if i < n then 1 else 0
  {
    if n > 0 {
      SlotsOnce(n - 1, i);
    }
  }

  lemma CountTwo(s: seq<nat>, i: nat, j: nat)
    requires i < j < |s| && s[i] == s[j]
    ensures multiset(s)[s[i]] >= 2
  {
    assert s == s[..i] + [s[i]] + s[i + 1..j] + [s[j]] + s[j + 1..];
  }

  /** In particular: free or scanned but never both, and never twice in a queue. */
  lemma EverySlotOnce(p: Pool, slot: nat)
    requires PoolOk(p) && slot < |p.nets|
    ensures slot in p.free <==> slot !in p.scanned
    ensures forall i, j :: 0 <= i < j < |p.scanned| ==> p.scanned[i] != p.scanned[j]
    ensures forall i, j :: 0 <= i < j < |p.free| ==> p.free[i] != p.free[j]
    ensures |p.free| + |p.scanned| == |p.nets|
  {
    SlotsOnce(|p.nets|, slot);
    assert multiset(p.free)[slot] + multiset(p.scanned)[slot] == 1;
    assert slot in p.free <==> slot in multiset(p.free);
    assert slot in p.scanned <==> slot in multiset(p.scanned);
    forall i, j | 0 <= i < j < |p.scanned| ensures p.scanned[i] != p.scanned[j] {
      SlotsOnce(|p.nets|, p.scanned[i]);
      if p.scanned[i] == p.scanned[j] {
        CountTwo(p.scanned, i, j);
      }
    }
    forall i, j | 0 <= i < j < |p.free| ensures p.free[i] != p.free[j] {
      SlotsOnce(|p.nets|, p.free[i]);
      if p.free[i] == p.free[j] {
        CountTwo(p.free, i, j);
      }
    }
    SlotsSize(|p.nets|);
    assert |multiset(p.free) + multiset(p.scanned)| == |p.free| + |p.scanned|;
  }

  lemma SlotsSize(n: nat)
    ensures |Slots(n)| == n
  {}

  // ---------------------------------------------------------------- the operations, on values

  function Blank(): Net {
    Net(Bss([0, 0, 0, 0, 0, 0], [], false, false, 0, [], 0, 0, 0), 0, false, 0, 0, 0)
  }

  function Iota(n: nat): (s: seq<nat>)
    ensures |s| == n && forall i :: 0 <= i < n ==> s[i] == i
  {
    if n == 0 then [] else Iota(n - 1) + [n - 1]
  }

  function Blanks(n: nat): (s: seq<Net>)
    ensures |s| == n && forall i :: 0 <= i < n ==> s[i] == Blank()
  {
    if n == 0 then [] else Blanks(n - 1) + [Blank()]
  }

  /** _rtw_init_mlme_priv */
  function Init(n: nat): Pool {
    Pool(Blanks(n), Iota(n), [], 0)
  }

  function Reset(net: Net, now: nat): Net {
    net.(networkType := 0, fixed := false, last := now, aid := 0, joinRes := 0)
  }

  type Positive = n: nat | 0 < n witness 1000

  /** rtw_get_passing_time_ms: 32-bit arithmetic, hz ticks a second. */
  function PassingMs(now: nat, start: nat, hz: Positive): nat {
    (now - start) % TICKS * 1000 % TICKS / hz
  }

  /** How a flush is asked for: of all entries, or of those too old at this time (at once in ad hoc mode). */
  datatype Flush = Flush(freeAll: bool, now: nat, hz: Positive, adhoc: bool)

  /** _rtw_free_network lets go of this entry. */
  predicate Dead(net: Net, f: Flush) {
    !net.fixed && (f.freeAll || PassingMs(f.now, net.last, f.hz) >= if f.adhoc then 1 else LIFETIME)
  }

  /** Entry k of the scanned queue goes to the tail of the free pool. */
  function Freed(p: Pool, k: nat): Pool
    requires k < |p.scanned|
  {
    p.(free := p.free + [p.scanned[k]], scanned := p.scanned[..k] + p.scanned[k + 1..], count := p.count - 1)
  }

  function FreeNolock(p: Pool, k: nat): Pool
    requires InRange(p) && k < |p.scanned|
  {
    if p.nets[p.scanned[k]].fixed then p else Freed(p, k)
  }

  /** The slots of the queue that are, or are not, let go. */
  function Pick(nets: seq<Net>, q: seq<nat>, dead: bool, f: Flush): (r: seq<nat>)
    requires forall i :: 0 <= i < |q| ==> q[i] < |nets|
    ensures forall x :: x in r <==> x in q && Dead(nets[x], f) == dead
  {
    if q == [] then []
    else (if Dead(nets[q[0]], f) == dead then [q[0]] else []) + Pick(nets, q[1..], dead, f)
  }

  /** rtw_free_network_queue: the dead entries move over in queue order, the others keep theirs. */
  function FreeQueue(p: Pool, f: Flush): Pool
    requires InRange(p)
  {
    var gone := Pick(p.nets, p.scanned, true, f);
    p.(free := p.free + gone,
       scanned := Pick(p.nets, p.scanned, false, f),
       count := p.count - |gone|)
  }

  /** free_scanqueue */
  function FreeScanqueue(p: Pool): Pool {
    p.(free := p.free + p.scanned, scanned := [], count := p.count - |p.scanned|)
  }

  /** time_after(a, b): (long)(b - a) < 0 */
  predicate After(a: nat, b: nat, long: nat)
    requires long > 0
  {
    (b - a) % long >= long / 2
  }

  /** The entry the search loop takes for the oldest among the first n. */
  function Oldest(p: Pool, n: nat, long: nat): (o: nat)
    requires InRange(p) && 0 < n <= |p.scanned| && long > 0
    ensures o < n
  {
    if n == 1 then 0
    else
      var o := Oldest(p, n - 1, long);
      if After(p.nets[p.scanned[o]].last, p.nets[p.scanned[n - 1]].last, long) then n - 1 else o
  }

  /** First entry that is the target network, from k on. */
  function Match(p: Pool, target: Bss, p2p: bool, k: nat): (m: nat)
    requires InRange(p) && k <= |p.scanned|
    ensures k <= m <= |p.scanned|
    ensures m < |p.scanned| ==> Same(p.nets[p.scanned[m]].bss, target, p2p)
    ensures forall i :: k <= i < m ==> !Same(p.nets[p.scanned[i]].bss, target, p2p)
    decreases |p.scanned| - k
  {
    if k == |p.scanned| || Same(p.nets[p.scanned[k]].bss, target, p2p) then k else Match(p, target, p2p, k + 1)
  }

  /** C division by five truncates towards zero. */
  function Div5(x: int): int {
    if x >= 0 then x / 5 else -(-x / 5)
  }

  /** The signal of an entry after a sample: one fifth new, four fifths old, unless the frame was heard on
      another channel; the connected network takes the receiver's own figures. */
  function Smoothed(dst: Bss, src: Bss, e: Env): (nat, nat, int) {
    var rssi := if src.quality != 101 then Div5(src.rssi + dst.rssi * 4) else dst.rssi;
    if e.linked && Same(e.cur, src, false) then (e.signal, e.signalQuality, rssi)
    else if src.quality != 101 then ((src.strength + dst.strength * 4) / 5, (src.quality + dst.quality * 4) / 5, rssi)
    else (dst.strength, dst.quality, rssi)
  }

  /** Smoothing moves each figure towards the sample and never past it. */
  lemma SmoothedIsBetween(dst: Bss, src: Bss, e: Env)
    requires src.quality != 101 && !(e.linked && Same(e.cur, src, false))
    ensures var (strength, quality, rssi) := Smoothed(dst, src, e);
            && (src.strength <= strength <= dst.strength || dst.strength <= strength <= src.strength)
            && (src.quality <= quality <= dst.quality || dst.quality <= quality <= src.quality)
            && (src.rssi <= rssi <= dst.rssi || dst.rssi <= rssi <= src.rssi)
  {}

  /** update_network */
  function Merged(dst: Bss, src: Bss, updateIe: bool, e: Env): Bss {
    var (strength, quality, rssi) := Smoothed(dst, src, e);
    (if updateIe then src else dst).(strength := strength, quality := quality, rssi := rssi)
  }

  /** Probe responses over beacons over probe requests; a probe request never replaces the elements. */
  predicate TakesIes(dst: Bss, src: Bss) {
    src.frame != 2 && src.frame >= dst.frame
  }

  function Heard(target: Bss): Bss {
    if target.quality == 101 then target.(quality := 0) else target
  }

  /** The entry is known: a fresh stamp and signal, and the new elements if they count for more. */
  function Refreshed(p: Pool, k: nat, target: Bss, e: Env): Pool
    requires InRange(p) && k < |p.scanned|
  {
    var s := p.scanned[k];
    var b := p.nets[s].bss;
    p.(nets := p.nets[s := p.nets[s].(last := e.now, bss := Merged(b, target, TakesIes(b, target), e))])
  }

  /** No slot is free: entry k is overwritten where it is. */
  function Reused(p: Pool, k: nat, target: Bss, e: Env): Pool
    requires InRange(p) && k < |p.scanned|
  {
    var s := p.scanned[k];
    p.(nets := p.nets[s := Reset(p.nets[s], e.now).(bss := Heard(target))])
  }

  /** The first free slot goes to the tail of the queue. */
  function Appended(p: Pool, target: Bss, e: Env): Pool
    requires InRange(p) && p.free != []
  {
    var s := p.free[0];
    p.(nets := p.nets[s := Reset(p.nets[s], e.now).(bss := Heard(target))],
       free := p.free[1..], scanned := p.scanned + [s], count := p.count + 1)
  }

  /** rtw_update_scanned_network */
  function Update(p: Pool, target: Bss, e: Env): Pool
    requires InRange(p) && EnvOk(e)
  {
    var k := Match(p, target, e.p2p, 0);
    if k < |p.scanned| then Refreshed(p, k, target, e)
    else if p.free != [] then Appended(p, target, e)
    else if p.scanned != [] then Reused(p, Oldest(p, |p.scanned|, e.long), target, e)
    else p
  }

  /** The elements of a known entry are replaced exactly by a frame that is no probe request and ranks at least as
      high, whatever the lengths: the test for a shorter beacon decides nothing. */
  lemma ElementsReplacedIff(p: Pool, k: nat, target: Bss, e: Env)
    requires InRange(p) && k < |p.scanned|
    ensures var b, now := p.nets[p.scanned[k]].bss, Refreshed(p, k, target, e).nets[p.scanned[k]].bss;
            now.ies == if target.frame != 2 && target.frame >= b.frame then target.ies else b.ies
  {
    hide Smoothed;
  }

  /** So a beacon does replace the longer elements of an earlier beacon. */
  lemma ShorterBeaconReplaces(p: Pool, k: nat, target: Bss, e: Env)
    requires InRange(p) && k < |p.scanned| && p.nets[p.scanned[k]].bss.frame == target.frame == 1
    requires |p.nets[p.scanned[k]].bss.ies| > |target.ies|
    ensures Refreshed(p, k, target, e).nets[p.scanned[k]].bss.ies == target.ies
  {
    ElementsReplacedIff(p, k, target, e);
    hide Refreshed;
  }

  // ---------------------------------------------------------------- conservation

  lemma MultisetSnoc(s: seq<nat>, x: nat)
    ensures multiset(s + [x]) == multiset(s) + multiset{x}
  {}

  lemma {:induction false} IotaSlots(n: nat)
    ensures multiset(Iota(n)) == Slots(n)
  {
    if n > 0 {
      assert Iota(n) == Iota(n - 1) + [n - 1] && Slots(n) == Slots(n - 1) + multiset{n - 1};
      hide Iota, Slots;
      IotaSlots(n - 1);
      MultisetSnoc(Iota(n - 1), n - 1);
    }
  }

  lemma InitOk(n: nat)
    ensures PoolOk(Init(n))
  {
    IotaSlots(n);
    hide Slots, Iota, Blanks;
  }

  /** Moving slots between the queues keeps the pool sound. */
  lemma SameSlots(p: Pool, q: Pool)
    requires PoolOk(p) && |q.nets| == |p.nets| && q.count == |q.scanned|
    requires multiset(q.free) + multiset(q.scanned) == multiset(p.free) + multiset(p.scanned)
    ensures PoolOk(q)
  {
    var n := |q.nets|;
    hide Slots;
    forall i | 0 <= i < |q.free| ensures q.free[i] < n {
      assert q.free[i] in multiset(q.free);
      SlotsOnce(n, q.free[i]);
    }
    forall i | 0 <= i < |q.scanned| ensures q.scanned[i] < n {
      assert q.scanned[i] in multiset(q.scanned);
      SlotsOnce(n, q.scanned[i]);
    }
  }

  lemma FreedOk(p: Pool, k: nat)
    requires PoolOk(p) && k < |p.scanned|
    ensures PoolOk(Freed(p, k))
  {
    var s := p.scanned;
    assert s == s[..k] + [s[k]] + s[k + 1..];
    SameSlots(p, Freed(p, k));
  }

  lemma {:induction false} PickAll(nets: seq<Net>, q: seq<nat>, f: Flush)
    requires forall i :: 0 <= i < |q| ==> q[i] < |nets|
    ensures multiset(Pick(nets, q, true, f)) + multiset(Pick(nets, q, false, f)) == multiset(q)
    ensures |Pick(nets, q, true, f)| + |Pick(nets, q, false, f)| == |q|
  {
    if q != [] {
      PickAll(nets, q[1..], f);
      hide Dead;
      assert q == [q[0]] + q[1..];
    }
  }

  lemma FreeQueueOk(p: Pool, f: Flush)
    requires PoolOk(p)
    ensures PoolOk(FreeQueue(p, f))
  {
    PickAll(p.nets, p.scanned, f);
    hide Slots, Pick;
    SameSlots(p, FreeQueue(p, f));
  }

  lemma FreeScanqueueOk(p: Pool)
    requires PoolOk(p)
    ensures PoolOk(FreeScanqueue(p))
  {
    SameSlots(p, FreeScanqueue(p));
  }

  lemma UpdateOk(p: Pool, target: Bss, e: Env)
    requires PoolOk(p) && EnvOk(e)
    ensures PoolOk(Update(p, target, e)) && |Update(p, target, e).nets| == |p.nets|
  {
    hide Slots, Merged, Match, Oldest;
    if p.free != [] {
      assert p.free == [p.free[0]] + p.free[1..];
    }
    SameSlots(p, Update(p, target, e));
  }

  // ---------------------------------------------------------------- one entry a network

  /** No two queued entries are the same network. */
  predicate NoTwins(p: Pool, feature: bool)
    requires InRange(p)
  {
    forall i, j :: 0 <= i < j < |p.scanned| ==> !Same(p.nets[p.scanned[i]].bss, p.nets[p.scanned[j]].bss, feature)
  }

  /** Which queue entry an update writes; |scanned| stands for the one it appends. */
  function Target(p: Pool, target: Bss, e: Env): (k: nat)
    requires InRange(p) && EnvOk(e)
    ensures k <= |p.scanned|
  {
    var k := Match(p, target, e.p2p, 0);
    if k < |p.scanned| || p.free != [] || p.scanned == [] then k else Oldest(p, |p.scanned|, e.long)
  }

  /** An update writes one entry, which then is the target network heard just now, and leaves the others. */
  lemma UpdateWritesOne(p: Pool, target: Bss, e: Env)
    requires PoolOk(p) && EnvOk(e) && p.nets != []
    ensures var q, k := Update(p, target, e), Target(p, target, e);
            && InRange(q) && |q.scanned| == |p.scanned| + (if k == |p.scanned| then 1 else 0) && k < |q.scanned|
            && p.scanned <= q.scanned
            && (forall i :: 0 <= i < |q.scanned| && i != k ==> q.nets[q.scanned[i]] == p.nets[p.scanned[i]])
            && q.nets[q.scanned[k]].last == e.now
            && Same(q.nets[q.scanned[k]].bss, target, e.p2p)
            && (k == |p.scanned| || !Same(p.nets[p.scanned[k]].bss, target, e.p2p) ==>
                  q.nets[q.scanned[k]].bss == Heard(target))
  {
    EverySlotOnce(p, 0);
    var k := Target(p, target, e);
    if k == |p.scanned| {
      EverySlotOnce(p, p.free[0]);
      WroteAppended(p, target, e);
    } else {
      WroteInPlace(p, k, target, e);
    }
    hide PoolOk, Refreshed, Reused, Appended, Oldest, Match, Same;
  }

  lemma WroteAppended(p: Pool, target: Bss, e: Env)
    requires InRange(p) && p.free != [] && p.free[0] !in p.scanned
    ensures var q, k := Appended(p, target, e), |p.scanned|;
            && InRange(q) && q.scanned == p.scanned + [p.free[0]] && q.nets[p.free[0]].last == e.now
            && (forall i :: 0 <= i < k ==> q.nets[q.scanned[i]] == p.nets[p.scanned[i]])
            && Same(q.nets[p.free[0]].bss, target, e.p2p) && q.nets[p.free[0]].bss == Heard(target)
  {}

  lemma WroteInPlace(p: Pool, k: nat, target: Bss, e: Env)
    requires InRange(p) && k < |p.scanned| && forall i, j :: 0 <= i < j < |p.scanned| ==> p.scanned[i] != p.scanned[j]
    ensures var q := Reused(p, k, target, e);
            && InRange(q) && q.scanned == p.scanned && q.nets[q.scanned[k]].last == e.now
            && (forall i :: 0 <= i < |p.scanned| && i != k ==> q.nets[q.scanned[i]] == p.nets[p.scanned[i]])
            && Same(q.nets[q.scanned[k]].bss, target, e.p2p) && q.nets[q.scanned[k]].bss == Heard(target)
    ensures var q := Refreshed(p, k, target, e);
            && InRange(q) && q.scanned == p.scanned && q.nets[q.scanned[k]].last == e.now
            && (forall i :: 0 <= i < |p.scanned| && i != k ==> q.nets[q.scanned[i]] == p.nets[p.scanned[i]])
            && (Same(p.nets[p.scanned[k]].bss, target, e.p2p) ==> Same(q.nets[q.scanned[k]].bss, target, e.p2p))
  {
    hide Smoothed, TakesIes;
  }

  /** With P2P off, and also with P2P on throughout, survey updates never make two entries for one network. */
  lemma UpdateKeepsUnique(p: Pool, target: Bss, e: Env)
    requires PoolOk(p) && EnvOk(e) && NoTwins(p, e.p2p)
    ensures InRange(Update(p, target, e)) && NoTwins(Update(p, target, e), e.p2p)
  {
    if p.nets == [] {
      EverySlotOnceEmpty(p);
      return;
    }
    UpdateWritesOne(p, target, e);
    var q, k := Update(p, target, e), Target(p, target, e);
    forall i, j | 0 <= i < j < |q.scanned| ensures !Same(q.nets[q.scanned[i]].bss, q.nets[q.scanned[j]].bss, e.p2p) {
      if i == k {
        OthersDiffer(p, target, e, j);
      } else if j == k {
        OthersDiffer(p, target, e, i);
      }
    }
  }

  lemma EverySlotOnceEmpty(p: Pool)
    requires PoolOk(p) && p.nets == []
    ensures p.free == [] && p.scanned == []
  {
    assert Slots(0) == multiset{};
    assert |multiset(p.free) + multiset(p.scanned)| == 0;
  }

  lemma OthersDiffer(p: Pool, target: Bss, e: Env, i: nat)
    requires PoolOk(p) && EnvOk(e) && NoTwins(p, e.p2p) && i < |p.scanned| && i != Target(p, target, e)
    ensures !Same(p.nets[p.scanned[i]].bss, target, e.p2p)
  {
    var m := Match(p, target, e.p2p, 0);
    if m < |p.scanned| && m < i {
      assert !Same(p.nets[p.scanned[m]].bss, p.nets[p.scanned[i]].bss, e.p2p);
    }
  }

  /** Identities of a matched entry after the update: those of the frame if its elements are taken, else its own. */
  lemma RefreshedIdentity(p: Pool, k: nat, target: Bss, e: Env, x: Bss)
    requires InRange(p) && k < |p.scanned|
    ensures var b, q := p.nets[p.scanned[k]].bss, Refreshed(p, k, target, e);
            InRange(q) && (Same(q.nets[p.scanned[k]].bss, x, false) <==> Same(if TakesIes(b, target) then target else b, x, false))
  {
    hide Smoothed, TakesIes;
  }

  /** With P2P on the update matches on the address alone, so it can give an entry the identity of another one:
      exactly if the matched entry takes the frame's elements and another entry is the frame's network already. */
  lemma P2pKeepsUniqueIff(p: Pool, target: Bss, e: Env)
    requires PoolOk(p) && EnvOk(e) && e.p2p && NoTwins(p, false)
    ensures var k, q := Match(p, target, true, 0), Update(p, target, e);
            && InRange(q)
            && (NoTwins(q, false) <==>
                  !(k < |p.scanned| && TakesIes(p.nets[p.scanned[k]].bss, target)
                    && exists i :: 0 <= i < |p.scanned| && i != k && Same(p.nets[p.scanned[i]].bss, target, false)))
  {
    var k, q := Match(p, target, true, 0), Update(p, target, e);
    if p.nets == [] {
      EverySlotOnceEmpty(p);
    } else if k < |p.scanned| {
      EverySlotOnce(p, 0);
      WroteInPlace(p, k, target, e);
      P2pTwinsIff(p, k, target, e);
    } else {
      UpdateWritesOne(p, target, e);
      NewcomerHasNoTwin(p, q, target, Target(p, target, e));
    }
  }

  /** An entry overwritten or appended with a network that no entry is keeps all entries different. */
  lemma NewcomerHasNoTwin(p: Pool, q: Pool, target: Bss, k: nat)
    requires InRange(p) && InRange(q) && NoTwins(p, false) && p.scanned <= q.scanned
    requires k < |q.scanned| <= |p.scanned| + 1 && (|q.scanned| > |p.scanned| ==> k == |p.scanned|)
    requires forall i :: 0 <= i < |q.scanned| && i != k ==> q.nets[q.scanned[i]] == p.nets[p.scanned[i]]
    requires q.nets[q.scanned[k]].bss == Heard(target)
    requires forall i :: 0 <= i < |p.scanned| ==> !Same(p.nets[p.scanned[i]].bss, target, true)
    ensures NoTwins(q, false)
  {
    forall i, j | 0 <= i < j < |q.scanned| ensures !Same(q.nets[q.scanned[i]].bss, q.nets[q.scanned[j]].bss, false) {
      var other := if i == k then j else i;
      if i == k || j == k {
        assert q.nets[q.scanned[other]] == p.nets[p.scanned[other]];
        assert !Same(p.nets[p.scanned[other]].bss, target, true);
      }
    }
  }

  lemma P2pTwinsIff(p: Pool, k: nat, target: Bss, e: Env)
    requires InRange(p) && k < |p.scanned| && NoTwins(p, false)
    requires forall i, j :: 0 <= i < j < |p.scanned| ==> p.scanned[i] != p.scanned[j]
    ensures var q := Refreshed(p, k, target, e);
            && InRange(q)
            && (NoTwins(q, false) <==>
                  !(TakesIes(p.nets[p.scanned[k]].bss, target)
                    && exists i :: 0 <= i < |p.scanned| && i != k && Same(p.nets[p.scanned[i]].bss, target, false)))
  {
    var q := Refreshed(p, k, target, e);
    WroteInPlace(p, k, target, e);
    var b, now := p.nets[p.scanned[k]].bss, q.nets[p.scanned[k]].bss;
    var id := if TakesIes(b, target) then target else b;
    forall x: Bss ensures Same(now, x, false) <==> Same(id, x, false) {
      RefreshedIdentity(p, k, target, e, x);
    }
    hide TakesIes, Refreshed;
    if i :| TakesIes(b, target) && 0 <= i < |p.scanned| && i != k && Same(p.nets[p.scanned[i]].bss, target, false) {
      assert Same(q.nets[q.scanned[if i < k then i else k]].bss, q.nets[q.scanned[if i < k then k else i]].bss, false);
    } else {
      forall i, j | 0 <= i < j < |q.scanned| ensures !Same(q.nets[q.scanned[i]].bss, q.nets[q.scanned[j]].bss, false) {
        assert i != k ==> q.nets[q.scanned[i]] == p.nets[p.scanned[i]];
        assert j != k ==> q.nets[q.scanned[j]] == p.nets[p.scanned[j]];
        assert !Same(p.nets[p.scanned[i]].bss, p.nets[p.scanned[j]].bss, false);
      }
    }
  }

  /** It happens: two networks of one access point, listed with P2P off, become the same one. */
  lemma SwitchingOnP2pMakesTwins(mac: Mac)
    ensures var a := Bss(mac, [65], false, true, 1, [], 0, 0, 0);
            var b := a.(ssid := [66]);
            var p := Pool([Net(a, 0, false, 0, 0, 0), Net(b, 0, false, 0, 0, 0)], [], [0, 1], 2);
            var e := Env(0, TICKS, true, false, a, 0, 0);
            PoolOk(p) && EnvOk(e) && NoTwins(p, false) && !NoTwins(Update(p, b, e), false)
  {
    var a := Bss(mac, [65], false, true, 1, [], 0, 0, 0);
    var b := a.(ssid := [66]);
    var p := Pool([Net(a, 0, false, 0, 0, 0), Net(b, 0, false, 0, 0, 0)], [], [0, 1], 2);
    var e := Env(0, TICKS, true, false, a, 0, 0);
    assert Slots(2) == multiset{0, 1} by {
      assert Slots(1) == multiset{0};
    }
    hide Slots;
    assert Same(p.nets[p.scanned[1]].bss, b, false);
    P2pKeepsUniqueIff(p, b, e);
    hide Update;
  }

  // ---------------------------------------------------------------- whose slot is reused

  function Age(now: nat, stamp: nat): nat {
    (now - stamp) % TICKS
  }

  lemma AgeIs(now: nat, stamp: nat)
    ensures Age(now, stamp) == (now - stamp) % 0x1_0000_0000
  {}

  predicate IsOldest(p: Pool, now: nat, o: nat)
    requires InRange(p) && o < |p.scanned|
  {
    forall j :: 0 <= j < |p.scanned| ==> Age(now, p.nets[p.scanned[j]].last) <= Age(now, p.nets[p.scanned[o]].last)
  }

  predicate StampsOk(p: Pool)
    requires InRange(p)
  {
    forall i :: 0 <= i < |p.scanned| ==> p.nets[p.scanned[i]].last < TICKS
  }

  lemma AfterIsYounger(a: nat, b: nat, now: nat)
    requires a < TICKS && b < TICKS && now < TICKS && Age(now, a) < TICKS / 2 && Age(now, b) < TICKS / 2
    ensures After(a, b, TICKS) <==> Age(now, a) < Age(now, b)
  {}

  /** With a long as wide as the clock and all entries heard within half its range, the least recently
      heard entry is reused, whether or not the clock wrapped. */
  lemma {:induction false} ReusesOldest(p: Pool, now: nat, n: nat)
    requires InRange(p) && StampsOk(p) && now < TICKS && 0 < n <= |p.scanned|
    requires forall i :: 0 <= i < |p.scanned| ==> Age(now, p.nets[p.scanned[i]].last) < TICKS / 2
    ensures forall j :: 0 <= j < n ==>
              Age(now, p.nets[p.scanned[j]].last) <= Age(now, p.nets[p.scanned[Oldest(p, n, TICKS)]].last)
  {
    if n > 1 {
      ReusesOldest(p, now, n - 1);
      AfterIsYounger(p.nets[p.scanned[Oldest(p, n - 1, TICKS)]].last, p.nets[p.scanned[n - 1]].last, now);
    }
  }

  lemma WideAfter(a: nat, b: nat)
    requires a < TICKS && b < TICKS
    ensures After(a, b, TICKS * TICKS) <==> a > b
  {}

  /** With a 64-bit long the comparison ignores that the 32-bit clock wraps: the smallest stamp is reused. */
  lemma {:induction false} WideReusesSmallest(p: Pool, n: nat)
    requires InRange(p) && StampsOk(p) && 0 < n <= |p.scanned|
    ensures forall j :: 0 <= j < n ==> p.nets[p.scanned[j]].last >= p.nets[p.scanned[Oldest(p, n, TICKS * TICKS)]].last
  {
    if n > 1 {
      WideReusesSmallest(p, n - 1);
      WideAfter(p.nets[p.scanned[Oldest(p, n - 1, TICKS * TICKS)]].last, p.nets[p.scanned[n - 1]].last);
    }
  }

  /** So there the least recently heard entry is reused exactly if the clock did not wrap between two entries. */
  lemma WideReusesOldestIff(p: Pool, now: nat)
    requires InRange(p) && StampsOk(p) && now < TICKS && p.scanned != []
    ensures IsOldest(p, now, Oldest(p, |p.scanned|, TICKS * TICKS)) <==>
            || (forall i :: 0 <= i < |p.scanned| ==> p.nets[p.scanned[i]].last <= now)
            || (forall i :: 0 <= i < |p.scanned| ==> p.nets[p.scanned[i]].last > now)
  {
    var n := |p.scanned|;
    WideReusesSmallest(p, n);
    var o := Oldest(p, n, TICKS * TICKS);
    hide Oldest;
    forall i | 0 <= i < n
      ensures Age(now, p.nets[p.scanned[i]].last) == now - p.nets[p.scanned[i]].last + if p.nets[p.scanned[i]].last <= now then 0 else TICKS
    {}
    hide Age;
    if x, y :| 0 <= x < n && 0 <= y < n && p.nets[p.scanned[x]].last <= now && p.nets[p.scanned[y]].last > now {
      assert p.nets[p.scanned[o]].last <= now;
      assert Age(now, p.nets[p.scanned[y]].last) > Age(now, p.nets[p.scanned[o]].last);
    }
  }

  /** The age test of a queue flush is the true comparison exactly for entries too young by any count, and for those
      whose age in thousandths still reaches the limit after 32-bit wrap-around. */
  lemma FlushTestExactIff(now: nat, start: nat, hz: Positive, lifetime: nat)
    ensures (PassingMs(now, start, hz) >= lifetime <==> Age(now, start) * 1000 >= lifetime * hz)
            <==> (Age(now, start) * 1000 < lifetime * hz || Age(now, start) * 1000 % TICKS >= lifetime * hz)
  {
    var x := Age(now, start) * 1000;
    assert x % TICKS <= x;
    DivAtLeast(x % TICKS, hz, lifetime);
  }

  lemma DivAtLeast(x: nat, d: nat, n: nat)
    requires d > 0
    ensures x / d >= n <==> x >= n * d
  {
    assert x == x / d * d + x % d;
    if x / d >= n {
      assert x / d * d >= n * d;
    } else {
      assert (x / d + 1) * d <= n * d;
    }
  }

  /** The first age at which it goes wrong: an entry of more than eleven hours counts as new. */
  lemma FlushTestWraps(hz: Positive)
    requires hz >= 100
    ensures Age(4294968, 0) * 1000 >= LIFETIME * 100 && PassingMs(4294968, 0, hz) < 8
  {
    assert 4294968 * 1000 % TICKS == 704;
    DivAtLeast(704, hz, 8);
  }

  // ---------------------------------------------------------------- the operations, written out

  /** With the P2P feature the address alone identifies a network. */
  lemma SameMeans(a: Bss, b: Bss, feature: bool)
    ensures Same(a, b, feature) <==> a.mac == b.mac && (feature || (a.ssid == b.ssid && a.ibss == b.ibss && a.ess == b.ess))
  {}

  /** The figures after a sample: a fifth of the new plus four fifths of the old, towards zero; unchanged for a frame
      of quality 101; strength and quality of the connected network are the receiver's own. */
  lemma SmoothedExactly(dst: Bss, src: Bss, e: Env)
    ensures var (strength, quality, rssi) := Smoothed(dst, src, e);
            var own := e.linked && e.cur.mac == src.mac && e.cur.ssid == src.ssid && e.cur.ibss == src.ibss && e.cur.ess == src.ess;
            && (own ==> strength == e.signal && quality == e.signalQuality)
            && (!own && src.quality == 101 ==> strength == dst.strength && quality == dst.quality)
            && (!own && src.quality != 101 ==>
                  && 5 * strength <= src.strength + 4 * dst.strength < 5 * strength + 5
                  && 5 * quality <= src.quality + 4 * dst.quality < 5 * quality + 5)
            && (src.quality == 101 ==> rssi == dst.rssi)
            && (src.quality != 101 ==>
                  var x := src.rssi + 4 * dst.rssi;
                  (x >= 0 ==> 5 * rssi <= x < 5 * rssi + 5) && (x <= 0 ==> 5 * rssi - 5 < x <= 5 * rssi))
  {
    assert src.rssi + dst.rssi * 4 == src.rssi + 4 * dst.rssi;
  }

  /** A known network keeps its slot and its bookkeeping: only stamp and description change, the latter to the frame's
      or not at all but for the three figures. */
  lemma RefreshedExactly(p: Pool, k: nat, target: Bss, e: Env)
    requires InRange(p) && k < |p.scanned|
    ensures var q, s := Refreshed(p, k, target, e), p.scanned[k];
            var b, now := p.nets[s].bss, q.nets[s].bss;
            && q.free == p.free && q.scanned == p.scanned && q.count == p.count
            && q.nets[s] == p.nets[s].(last := e.now, bss := now)
            && (now.strength, now.quality, now.rssi) == Smoothed(b, target, e)
            && now == (if target.frame != 2 && target.frame >= b.frame then target else b)
                      .(strength := now.strength, quality := now.quality, rssi := now.rssi)
  {
    hide Smoothed;
  }

  /** The first entry of the same network is refreshed, wherever it is. */
  lemma KnownIsRefreshed(p: Pool, target: Bss, e: Env, k: nat)
    requires InRange(p) && EnvOk(e) && k < |p.scanned| && Same(p.nets[p.scanned[k]].bss, target, e.p2p)
    requires forall i :: 0 <= i < k ==> !Same(p.nets[p.scanned[i]].bss, target, e.p2p)
    ensures Update(p, target, e) == Refreshed(p, k, target, e)
  {
    MatchIs(p, target, e.p2p, 0, k);
    hide Match, Same, Refreshed;
  }

  lemma MatchIs(p: Pool, target: Bss, p2p: bool, from: nat, k: nat)
    requires InRange(p) && from <= k < |p.scanned| && Same(p.nets[p.scanned[k]].bss, target, p2p)
    requires forall i :: from <= i < k ==> !Same(p.nets[p.scanned[i]].bss, target, p2p)
    ensures Match(p, target, p2p, from) == k
  {}

  /** A network that is not listed takes the head of the free pool and goes to the tail of the queue; only when the
      pool is empty an entry is overwritten, and with no entry either, nothing happens. */
  lemma NewNetworkStored(p: Pool, target: Bss, e: Env)
    requires InRange(p) && EnvOk(e)
    requires forall i :: 0 <= i < |p.scanned| ==> !Same(p.nets[p.scanned[i]].bss, target, e.p2p)
    ensures var q := Update(p, target, e);
            var stored := Net(if target.quality == 101 then target.(quality := 0) else target, e.now, false, 0, 0, 0);
            && (p.free != [] ==> q == Pool(p.nets[p.free[0] := stored], p.free[1..], p.scanned + [p.free[0]], p.count + 1))
            && (p.free == [] && p.scanned != [] ==>
                  q == p.(nets := p.nets[p.scanned[Oldest(p, |p.scanned|, e.long)] := stored]))
            && (p.free == [] && p.scanned == [] ==> q == p)
  {
    hide Same;
  }

  /** A single entry is let go unless it is fixed: its slot goes to the tail of the free pool. */
  lemma FreedUnlessFixed(p: Pool, k: nat)
    requires InRange(p) && k < |p.scanned|
    ensures FreeNolock(p, k)
            == if p.nets[p.scanned[k]].fixed then p
               else Pool(p.nets, p.free + [p.scanned[k]], p.scanned[..k] + p.scanned[k + 1..], p.count - 1)
  {}

  /** A flush keeps fixed entries and, unless it is of all, those whose age in milliseconds is below 20000 (in ad hoc
      mode: 1); the others join the free pool behind what is there. */
  lemma FlushKeeps(p: Pool, f: Flush)
    requires PoolOk(p)
    ensures var q := FreeQueue(p, f);
            && q.nets == p.nets && p.free <= q.free && q.count == |q.scanned|
            && |q.free| + |q.scanned| == |p.free| + |p.scanned|
    ensures forall s :: s in FreeQueue(p, f).scanned <==> s in p.scanned && KeptBy(p.nets[s], f)
  {
    PickAll(p.nets, p.scanned, f);
    DeadOrKept(f);
    hide Pick, Dead, KeptBy, PassingMs;
  }

  predicate KeptBy(net: Net, f: Flush) {
    net.fixed || (!f.freeAll && ((f.now - net.last) % 0x1_0000_0000 * 1000) % 0x1_0000_0000 / f.hz < if f.adhoc then 1 else 20000)
  }

  lemma DeadOrKept(f: Flush)
    ensures forall net: Net :: Dead(net, f) <==> !KeptBy(net, f)
    ensures forall net: Net :: net.fixed ==> !Dead(net, f)
    ensures forall net: Net :: !net.fixed && f.freeAll ==> Dead(net, f)
    ensures forall net: Net :: !net.fixed && !f.freeAll ==>
              (Dead(net, f) <==>
                 ((f.now - net.last) % 0x1_0000_0000 * 1000) % 0x1_0000_0000 / f.hz >= if f.adhoc then 1 else 20000)
  {}

  /** The entries that stay keep their order. */
  lemma FlushKeepsOrder(p: Pool, f: Flush, i: nat, j: nat) returns (x: nat, y: nat)
    requires InRange(p) && i < j < |FreeQueue(p, f).scanned|
    ensures x < y < |p.scanned| && p.scanned[x] == FreeQueue(p, f).scanned[i] && p.scanned[y] == FreeQueue(p, f).scanned[j]
  {
    x, y := PickOrder(p.nets, p.scanned, f, i, j);
  }

  // ---------------------------------------------------------------- whole runs

  datatype Op =
    | Survey(target: Bss, env: Env)
    | Free(k: nat)
    | FlushQueue(f: Flush)
    | FlushAll
    | Fix(k: nat, fixed: bool)

  predicate OpOk(op: Op, p2p: bool) {
    op.Survey? ==> EnvOk(op.env) && op.env.p2p == p2p
  }

  function Step(p: Pool, op: Op): Pool
    requires InRange(p) && (op.Survey? ==> EnvOk(op.env))
  {
    match op
    case Survey(target, env) => Update(p, target, env)
    case Free(k) => if k < |p.scanned| then FreeNolock(p, k) else p
    case FlushQueue(f) => FreeQueue(p, f)
    case FlushAll => FreeScanqueue(p)
    case Fix(k, fixed) => if k < |p.scanned| then p.(nets := p.nets[p.scanned[k] := p.nets[p.scanned[k]].(fixed := fixed)]) else p
  }

  lemma StepKeeps(p: Pool, op: Op, p2p: bool)
    requires PoolOk(p) && NoTwins(p, p2p) && OpOk(op, p2p)
    ensures var q := Step(p, op); PoolOk(q) && NoTwins(q, p2p) && |q.nets| == |p.nets|
  {
    hide Slots, Merged, Match, Oldest, Same, Pick;
    match op
    case Survey(target, env) =>
      UpdateOk(p, target, env);
      UpdateKeepsUnique(p, target, env);
      hide Update, PoolOk, NoTwins;
    case Free(k) =>
      if k < |p.scanned| {
        FreeKeepsUnique(p, k, p2p);
      }
    case FlushQueue(f) =>
      FreeQueueOk(p, f);
      PickKeepsUnique(p, f);
      hide PoolOk, NoTwins;
    case FlushAll =>
      FreeScanqueueOk(p);
      hide PoolOk;
    case Fix(k, fixed) =>
      FixOk(p, k, fixed, p2p);
  }

  lemma FixOk(p: Pool, k: nat, fixed: bool, p2p: bool)
    requires PoolOk(p) && NoTwins(p, p2p)
    ensures var q := Step(p, Fix(k, fixed)); PoolOk(q) && NoTwins(q, p2p) && |q.nets| == |p.nets|
  {
    var q := Step(p, Fix(k, fixed));
    SameSlots(p, q);
    assert forall i :: 0 <= i < |p.scanned| ==> q.nets[q.scanned[i]].bss == p.nets[p.scanned[i]].bss;
  }

  lemma FreeKeepsUnique(p: Pool, k: nat, p2p: bool)
    requires PoolOk(p) && NoTwins(p, p2p) && k < |p.scanned|
    ensures PoolOk(FreeNolock(p, k)) && NoTwins(FreeNolock(p, k), p2p)
  {
    FreedOk(p, k);
    hide Slots;
    var q := Freed(p, k);
    forall i, j | 0 <= i < j < |q.scanned| ensures !Same(q.nets[q.scanned[i]].bss, q.nets[q.scanned[j]].bss, p2p) {
      var x, y := if i < k then i else i + 1, if j < k then j else j + 1;
      assert q.scanned[i] == p.scanned[x] && q.scanned[j] == p.scanned[y] && x < y;
    }
  }

  lemma {:induction false} PickOrder(nets: seq<Net>, q: seq<nat>, f: Flush, i: nat, j: nat)
    returns (x: nat, y: nat)
    requires forall i :: 0 <= i < |q| ==> q[i] < |nets|
    requires i < j < |Pick(nets, q, false, f)|
    ensures var r := Pick(nets, q, false, f); x < y < |q| && q[x] == r[i] && q[y] == r[j]
  {
    assert Pick(nets, q, false, f) == (if Dead(nets[q[0]], f) then [] else [q[0]]) + Pick(nets, q[1..], false, f);
    hide Dead, Pick;
    if Dead(nets[q[0]], f) {
      x, y := PickOrder(nets, q[1..], f, i, j);
      x, y := x + 1, y + 1;
    } else if i > 0 {
      x, y := PickOrder(nets, q[1..], f, i - 1, j - 1);
      x, y := x + 1, y + 1;
    } else {
      y := PickMember(nets, q[1..], f, j - 1);
      x, y := 0, y + 1;
    }
  }

  lemma PickMember(nets: seq<Net>, q: seq<nat>, f: Flush, j: nat) returns (y: nat)
    requires forall i :: 0 <= i < |q| ==> q[i] < |nets|
    requires j < |Pick(nets, q, false, f)|
    ensures y < |q| && q[y] == Pick(nets, q, false, f)[j]
  {
    hide Dead;
    var x := Pick(nets, q, false, f)[j];
    assert x in q;
    y :| 0 <= y < |q| && q[y] == x;
  }

  lemma PickKeepsUnique(p: Pool, f: Flush)
    requires PoolOk(p)
    ensures InRange(FreeQueue(p, f))
    ensures forall feature :: NoTwins(p, feature) ==> NoTwins(FreeQueue(p, f), feature)
  {
    var q := FreeQueue(p, f);
    FreeQueueOk(p, f);
    forall feature, i, j | NoTwins(p, feature) && 0 <= i < j < |q.scanned|
      ensures !Same(q.nets[q.scanned[i]].bss, q.nets[q.scanned[j]].bss, feature)
    {
      var x, y := PickOrder(p.nets, p.scanned, f, i, j);
    }
  }

  function Run(p: Pool, ops: seq<Op>, p2p: bool): (q: Pool)
    requires PoolOk(p) && NoTwins(p, p2p) && forall i :: 0 <= i < |ops| ==> OpOk(ops[i], p2p)
    ensures PoolOk(q) && NoTwins(q, p2p) && |q.nets| == |p.nets|
    decreases |ops|
  {
    if ops == [] then p
    else
      StepKeeps(p, ops[0], p2p);
      Run(Step(p, ops[0]), ops[1..], p2p)
  }

  /** After any run from an empty pool of any size, every slot is in one place, the count is right, and
      with P2P off no network is listed twice. */
  lemma RunsConserve(n: nat, ops: seq<Op>, slot: nat)
    requires slot < n && forall i :: 0 <= i < |ops| ==> OpOk(ops[i], false)
    ensures PoolOk(Init(n)) && NoTwins(Init(n), false)
    ensures var q := Run(Init(n), ops, false);
            && (slot in q.free <==> slot !in q.scanned) && q.count == |q.scanned| == n - |q.free|
            && forall i, j :: 0 <= i < j < |q.scanned| ==> !Same(q.nets[q.scanned[i]].bss, q.nets[q.scanned[j]].bss, false)
  {
    InitOk(n);
    EverySlotOnce(Run(Init(n), ops, false), slot);
  }

  // ---------------------------------------------------------------- the code

  /** The queue flush from entry k on, one entry at a time. */
  function FlushFrom(p: Pool, k: nat, f: Flush): Pool
    requires InRange(p) && k <= |p.scanned|
    decreases |p.scanned| - k
  {
    if k == |p.scanned| then p
    else if Dead(p.nets[p.scanned[k]], f) then FlushFrom(Freed(p, k), k, f)
    else FlushFrom(p, k + 1, f)
  }

  lemma FlushFromStep(p: Pool, k: nat, f: Flush)
    requires InRange(p) && k < |p.scanned|
    ensures InRange(Freed(p, k))
    ensures FlushFrom(p, k, f) == if Dead(p.nets[p.scanned[k]], f) then FlushFrom(Freed(p, k), k, f) else FlushFrom(p, k + 1, f)
  {}

  function FlushResult(p: Pool, k: nat, f: Flush): Pool
    requires InRange(p) && k <= |p.scanned|
  {
    var gone := Pick(p.nets, p.scanned[k..], true, f);
    p.(free := p.free + gone, scanned := p.scanned[..k] + Pick(p.nets, p.scanned[k..], false, f), count := p.count - |gone|)
  }

  lemma FlushResultStep(p: Pool, k: nat, f: Flush)
    requires InRange(p) && k < |p.scanned| && InRange(Freed(p, k))
    ensures FlushResult(p, k, f)
            == if Dead(p.nets[p.scanned[k]], f) then FlushResult(Freed(p, k), k, f) else FlushResult(p, k + 1, f)
  {
    PickOne(p.nets, p.scanned, k, f);
    hide Pick, Dead;
    var rest := p.scanned[k + 1..];
    var gone, kept := Pick(p.nets, rest, true, f), Pick(p.nets, rest, false, f);
    assert [] + gone == gone && [] + kept == kept;
    MoveOne(p.free, p.scanned, k, gone, kept);
  }

  lemma MoveOne(free: seq<nat>, s: seq<nat>, k: nat, gone: seq<nat>, kept: seq<nat>)
    requires k < |s|
    ensures var q := s[..k] + s[k + 1..]; q[..k] == s[..k] && q[k..] == s[k + 1..]
    ensures (free + [s[k]]) + gone == free + ([s[k]] + gone)
    ensures s[..k + 1] + kept == s[..k] + ([s[k]] + kept)
  {}

  lemma {:induction false} FlushFromIs(p: Pool, k: nat, f: Flush)
    requires InRange(p) && k <= |p.scanned|
    ensures FlushFrom(p, k, f) == FlushResult(p, k, f)
    decreases |p.scanned| - k
  {
    if k < |p.scanned| {
      FlushFromStep(p, k, f);
      FlushResultStep(p, k, f);
      var q := Freed(p, k);
      assert |q.scanned| == |p.scanned| - 1;
      hide *;
      if Dead(p.nets[p.scanned[k]], f) {
        FlushFromIs(q, k, f);
      } else {
        FlushFromIs(p, k + 1, f);
      }
    }
  }

  lemma PickOne(nets: seq<Net>, q: seq<nat>, k: nat, f: Flush)
    requires k < |q| && forall i :: 0 <= i < |q| ==> q[i] < |nets|
    ensures forall dead :: Pick(nets, q[k..], dead, f)
                           == (if Dead(nets[q[k]], f) == dead then [q[k]] else []) + Pick(nets, q[k + 1..], dead, f)
  {
    assert q[k..][1..] == q[k + 1..];
  }

  lemma ScanqueueStep(p: Pool)
    requires p.scanned != []
    ensures FreeScanqueue(Freed(p, 0)) == FreeScanqueue(p)
  {
    var s := p.scanned;
    assert s[..0] + s[1..] == s[1..];
    assert (p.free + [s[0]]) + s[1..] == p.free + s;
  }

  class MlmePriv {
    const nets: array<Net>      // free_bss_buf
    var free: seq<nat>          // free_bss_pool
    var scanned: seq<nat>       // scanned_queue
    var count: int              // num_of_scanned

    ghost function View(): Pool
      reads this, nets
    {
      Pool(nets[..], free, scanned, count)
    }

    ghost predicate Valid()
      reads this, nets
    {
      PoolOk(View())
    }

    constructor (n: nat)
      ensures Valid() && View() == Init(n) && fresh(nets)
    {
      nets := new Net[n](_ => Blank());
      scanned, count := [], 0;
      var pool := [];
      for i := 0 to n
        invariant pool == Iota(i)
      {
        pool := pool + [i];
      }
      free := pool;
      new;
      InitOk(n);
      assert nets[..] == Blanks(n);
    }

    /** The common part of the functions that free an entry. */
    method Release(k: nat)
      requires k < |scanned|
      modifies this
      ensures View() == Freed(old(View()), k)
    {
      var slot := scanned[k];
      scanned := scanned[..k] + scanned[k + 1..];
      free := free + [slot];
      count := count - 1;
    }

    /** _rtw_free_network_nolock */
    method FreeNetworkNolock(k: nat)
      requires Valid() && k < |scanned|
      modifies this
      ensures Valid() && View() == FreeNolock(old(View()), k)
    {
      FreedOk(View(), k);
      if nets[scanned[k]].fixed {
        return;
      }
      Release(k);
    }

    /** _rtw_free_network; the entry's place in the queue is known to the caller. */
    method FreeNetwork(k: nat, f: Flush) returns (gone: bool)
      requires InRange(View()) && k < |scanned|
      modifies this
      ensures gone == Dead(nets[old(scanned[k])], f)
      ensures View() == if gone then Freed(old(View()), k) else old(View())
    {
      var net := nets[scanned[k]];
      if net.fixed {
        return false;
      }
      var lifetime := if f.adhoc then 1 else LIFETIME;
      if !f.freeAll {
        var delta := PassingMs(f.now, net.last, f.hz);
        if delta < lifetime {
          return false;
        }
      }
      Release(k);
      gone := true;
    }

    /** _rtw_free_network_queue: the next entry is known before this one is freed. */
    method FreeNetworkQueue(f: Flush)
      requires Valid()
      modifies this
      ensures Valid() && View() == FreeQueue(old(View()), f)
    {
      ghost var p := View();
      var k: nat := 0;
      FlushFromIs(p, 0, f);
      FreeQueueOk(p, f);
      assert FlushResult(p, 0, f) == FreeQueue(p, f) by {
        assert p.scanned[0..] == p.scanned && p.scanned[..0] == [];
      }
      assert InRange(p);
      hide Pick, Dead, PoolOk, FreeQueue, FlushFrom, FlushResult;
      while k < |scanned|
        invariant k <= |scanned| && InRange(View()) && FlushFrom(View(), k, f) == FlushFrom(p, 0, f)
        decreases |scanned| - k
      {
        FlushFromStep(View(), k, f);
        var gone := FreeNetwork(k, f);
        if !gone {
          k := k + 1;
        }
      }
    }

    /** free_scanqueue */
    method FreeScanQueue()
      requires Valid()
      modifies this
      ensures Valid() && View() == FreeScanqueue(old(View()))
    {
      ghost var p := View();
      FreeScanqueueOk(p);
      hide PoolOk;
      while scanned != []
        invariant FreeScanqueue(View()) == FreeScanqueue(p)
        decreases |scanned|
      {
        ScanqueueStep(View());
        Release(0);
      }
      assert free + [] == free;
    }

    /** The search loop: the matching entry, or the oldest of all. */
    method Search(target: Bss, e: Env) returns (k: nat, oldest: Option<nat>)
      requires Valid() && EnvOk(e)
      ensures k == Match(View(), target, e.p2p, 0)
      ensures k == |scanned| ==> oldest == if scanned == [] then None else Some(Oldest(View(), |scanned|, e.long))
    {
      assert InRange(View());
      hide PoolOk, Same;
      k, oldest := 0, None;
      while k < |scanned|
        invariant k <= |scanned| && Match(View(), target, e.p2p, 0) == Match(View(), target, e.p2p, k)
        invariant oldest == if k == 0 then None else Some(Oldest(View(), k, e.long))
      {
        var net := nets[scanned[k]];
        if e.p2p && net.bss.mac == target.mac {
          assert Same(net.bss, target, e.p2p);
          return;
        }
        if Same(net.bss, target, e.p2p) {
          return;
        }
        if oldest.None? || After(nets[scanned[oldest.value]].last, net.last, e.long) {
          oldest := Some(k);
        }
        k := k + 1;
      }
    }

    /** _rtw_alloc_network: the slot is counted already but in neither queue. */
    method AllocNetwork(now: nat) returns (slot: Option<nat>)
      requires InRange(View())
      modifies this`free, this`count, nets
      ensures old(free) == [] ==> slot == None && View() == old(View())
      ensures old(free) != [] ==>
                && slot == Some(old(free[0])) && free == old(free[1..]) && count == old(count) + 1
                && nets[..] == old(nets[..])[slot.value := Reset(old(nets[slot.value]), now)]
    {
      if free == [] {
        return None;
      }
      slot := Some(free[0]);
      free := free[1..];
      nets[slot.value] := Reset(nets[slot.value], now);
      count := count + 1;
    }

    method Refresh(k: nat, target: Bss, e: Env)
      requires InRange(View()) && k < |scanned|
      modifies nets
      ensures View() == Refreshed(old(View()), k, target, e)
    {
      var slot := scanned[k];
      var b := nets[slot].bss;
      var updateIe := true;
      if |b.ies| > |target.ies| && target.frame == 1 {
        updateIe := false;
      }
      if target.frame != 2 && target.frame >= b.frame {
        updateIe := true;
      } else {
        updateIe := false;
      }
      nets[slot] := nets[slot].(last := e.now, bss := Merged(b, target, updateIe, e));
    }

    method Reuse(k: nat, target: Bss, e: Env)
      requires InRange(View()) && k < |scanned|
      modifies nets
      ensures View() == Reused(old(View()), k, target, e)
    {
      var slot := scanned[k];
      nets[slot] := Reset(nets[slot], e.now).(bss := Heard(target));
    }

    method Append(target: Bss, e: Env)
      requires InRange(View()) && free != []
      modifies this, nets
      ensures View() == Appended(old(View()), target, e)
    {
      var slot := AllocNetwork(e.now);
      nets[slot.value] := nets[slot.value].(bss := Heard(target), last := e.now);
      scanned := scanned + [slot.value];
    }

    /** rtw_update_scanned_network */
    method UpdateScannedNetwork(target: Bss, e: Env)
      requires Valid() && EnvOk(e)
      modifies this, nets
      ensures Valid() && View() == Update(old(View()), target, e)
    {
      UpdateOk(View(), target, e);
      var k, oldest := Search(target, e);
      assert InRange(View());
      hide PoolOk, Match, Oldest, Refreshed, Reused, Appended;
      if k < |scanned| {
        Refresh(k, target, e);
      } else if free != [] {
        Append(target, e);
      } else if oldest.Some? {
        Reuse(oldest.value, target, e);
      }
    }
  }
}

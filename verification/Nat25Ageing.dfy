/** Whole runs of the NAT2.5 database: it is a plain map, and entries age exactly. */
module Nat25Ageing {
  import opened Bytes
  import opened Nat25Model

  /** One locked operation; `now` is the true time, of which the jiffies word is a residue. */
  datatype Op =
    | OpInsert(now: nat, mac: Mac, key: NetAddr, allocOk: bool)
    | OpLookup(now: nat, key: NetAddr)
    | OpTouch(now: nat, key: NetAddr)
    | OpExpire(now: nat)
    | OpCleanup(now: nat)

  /** The word that stands for a true time. */
  function Jiffies(now: nat, limit: Limit): nat {
    now % limit.word
  }

  function ApplyDb(hash: HashFn, d: Database, op: Op, limit: Limit): Database
    requires |d| == HASH_SIZE
  {
    match op
    case OpInsert(now, mac, key, ok) => Insert(hash, d, mac, key, Jiffies(now, limit), ok)
    case OpLookup(now, key) => Lookup(hash, d, key, Jiffies(now, limit), limit)
    case OpTouch(now, key) => Touch(hash, d, key, Jiffies(now, limit))
    case OpExpire(now) => Expire(d, Jiffies(now, limit), limit)
    case OpCleanup(_) => Empty()
  }

  function ApplyMap(m: map<NetAddr, Val>, op: Op, limit: Limit): map<NetAddr, Val> {
    match op
    case OpInsert(now, mac, key, ok) => MapInsert(m, mac, key, Jiffies(now, limit), ok)
    case OpLookup(now, key) => MapLookup(m, key, Jiffies(now, limit), limit)
    case OpTouch(now, key) => MapTouch(m, key, Jiffies(now, limit))
    case OpExpire(now) => MapExpire(m, Jiffies(now, limit), limit)
    case OpCleanup(_) => map[]
  }

  function RunDb(hash: HashFn, d: Database, ops: seq<Op>, limit: Limit): Database
    requires |d| == HASH_SIZE
    decreases |ops|
  {
    if ops == [] then d else RunDb(hash, ApplyDb(hash, d, ops[0], limit), ops[1..], limit)
  }

  function RunMap(m: map<NetAddr, Val>, ops: seq<Op>, limit: Limit): map<NetAddr, Val>
    decreases |ops|
  {
    if ops == [] then m else RunMap(ApplyMap(m, ops[0], limit), ops[1..], limit)
  }

  lemma StepRefines(hash: HashFn, d: Database, op: Op, limit: Limit)
    requires DatabaseOk(hash, d)
    ensures var r := ApplyDb(hash, d, op, limit);
            DatabaseOk(hash, r) && ToMap(hash, r) == ApplyMap(ToMap(hash, d), op, limit)
  {
    hide Jiffies, Insert, Lookup, Touch, Expire, MapInsert, MapLookup, MapTouch, MapExpire, ToMap, DatabaseOk, Empty;
    match op
    case OpInsert(now, mac, key, ok) => InsertIsMapInsert(hash, d, mac, key, Jiffies(now, limit), ok);
    case OpLookup(now, key) => LookupIsMapLookup(hash, d, key, Jiffies(now, limit), limit);
    case OpTouch(now, key) => TouchIsMapTouch(hash, d, key, Jiffies(now, limit));
    case OpExpire(now) => ExpireIsMapExpire(hash, d, Jiffies(now, limit), limit);
    case OpCleanup(_) => EmptyIsEmptyMap(hash);
  }

  /** After any run the hashed buckets hold each key once, in its bucket, and are the plain map. */
  lemma {:induction false} RunRefinesMap(hash: HashFn, d: Database, ops: seq<Op>, limit: Limit)
    requires DatabaseOk(hash, d)
    ensures var r := RunDb(hash, d, ops, limit);
            DatabaseOk(hash, r) && ToMap(hash, r) == RunMap(ToMap(hash, d), ops, limit)
    decreases |ops|
  {
    if ops != [] {
      StepRefines(hash, d, ops[0], limit);
      RunRefinesMap(hash, ApplyDb(hash, d, ops[0], limit), ops[1..], limit);
    }
  }

  // ---------------------------------------------------------------- time

  lemma ModShift(x: int, k: int, w: Word)
    ensures (x + k * w) % w == x % w
  {
    if w == 0x1_0000_0000 {
      Shift32(x, k);
    } else {
      Shift64(x, k);
    }
  }

  lemma Shift32(x: int, k: int)
    ensures (x + k * 0x1_0000_0000) % 0x1_0000_0000 == x % 0x1_0000_0000
  {}

  lemma Shift64(x: int, k: int)
    ensures (x + k * 0x1_0000_0000_0000_0000) % 0x1_0000_0000_0000_0000 == x % 0x1_0000_0000_0000_0000
  {}

  lemma Residue(x: nat, w: Word)
    ensures x == x % w + x / w * w
  {}

  /** The word comparison only sees the true age modulo the word. */
  lemma ExpiredByAge(stamp: nat, now: nat, limit: Limit)
    ensures Expired(Jiffies(stamp, limit), Jiffies(now, limit), limit)
            <==> (now - stamp - limit.ticks) % limit.word < limit.word / 2
  {
    var w := limit.word;
    var k := now / w - stamp / w;
    Residue(now, w);
    Residue(stamp, w);
    var x := now % w - limit.ticks - stamp % w;
    Distribute(now / w, stamp / w, w);
    assert now - stamp - limit.ticks == x + k * w;
    ModShift(x, k, w);
  }

  lemma Distribute(a: int, b: int, w: int)
    ensures (a - b) * w == a * w - b * w
  {}

  /** The time-out test is the true comparison exactly for ages below the limit, and for ages above it by less
      than half a turn of the counter, or by that and any number of whole turns. */
  lemma TimeTestExactIff(stamp: nat, now: nat, limit: Limit)
    requires stamp <= now && limit.ticks <= limit.word / 2
    ensures (Expired(Jiffies(stamp, limit), Jiffies(now, limit), limit) <==> now - stamp >= limit.ticks)
            <==> (now - stamp < limit.ticks || (now - stamp - limit.ticks) % limit.word < limit.word / 2)
  {
    ExpiredByAge(stamp, now, limit);
    var x, w := now - stamp - limit.ticks, limit.word;
    if x < 0 {
      ModShift(x + w, -1, w);
      assert (x + w) % w == x + w;
    }
  }

  // ---------------------------------------------------------------- ageing of one entry

  function Sweeps(ops: seq<Op>): nat {
    if ops == [] then 0 else (if ops[0].OpExpire? then 1 else 0) + Sweeps(ops[1..])
  }

  /** Nothing renews or empties the entry under this key. */
  predicate LeavesAlone(op: Op, key: NetAddr) {
    !op.OpCleanup? && !((op.OpInsert? || op.OpTouch?) && op.key == key)
  }

  /** The time of the operation, for an entry stamped at `stamp`, lies in the half turn after its limit. */
  predicate PastLimit(op: Op, stamp: nat, limit: Limit) {
    stamp + limit.ticks <= op.now < stamp + limit.ticks + limit.word / 2
  }

  /** One operation on an expired entry: a sweep takes a use, or the entry if it was the last; no other touches it. */
  lemma ExpiredStep(m: map<NetAddr, Val>, key: NetAddr, stamp: nat, op: Op, limit: Limit)
    requires key in m && m[key].stamp == Jiffies(stamp, limit) && limit.ticks <= limit.word / 2
    requires LeavesAlone(op, key) && PastLimit(op, stamp, limit)
    ensures var m' := ApplyMap(m, op, limit);
            if op.OpExpire? && m[key].uses == 1 then key !in m'
            else key in m' && m'[key] == m[key].(uses := m[key].uses - if op.OpExpire? then 1 else 0)
  {
    TimeTestExactIff(stamp, op.now, limit);
    hide Expired;
  }

  /** Once expired and not renewed, an entry goes at exactly its use-count-th sweep; lookups do not help it. */
  lemma {:induction false} ExpiredEntryLastsItsUses(m: map<NetAddr, Val>, key: NetAddr, stamp: nat, ops: seq<Op>, limit: Limit)
    requires key in m && m[key].stamp == Jiffies(stamp, limit) && m[key].uses >= 1 && limit.ticks <= limit.word / 2
    requires forall i :: 0 <= i < |ops| ==> LeavesAlone(ops[i], key) && PastLimit(ops[i], stamp, limit)
    ensures key in RunMap(m, ops, limit) <==> Sweeps(ops) < m[key].uses
    ensures key in RunMap(m, ops, limit) ==> RunMap(m, ops, limit)[key] == m[key].(uses := m[key].uses - Sweeps(ops))
    decreases |ops|
  {
    if ops != [] {
      assert LeavesAlone(ops[0], key) && PastLimit(ops[0], stamp, limit);
      ExpiredStep(m, key, stamp, ops[0], limit);
      hide ApplyMap, PastLimit, LeavesAlone;
      var m' := ApplyMap(m, ops[0], limit);
      if key in m' {
        ExpiredEntryLastsItsUses(m', key, stamp, ops[1..], limit);
      } else {
        GoneStaysGone(m', key, ops[1..], limit);
      }
    }
  }

  lemma {:induction false} GoneStaysGone(m: map<NetAddr, Val>, key: NetAddr, ops: seq<Op>, limit: Limit)
    requires key !in m
    requires forall i :: 0 <= i < |ops| ==> LeavesAlone(ops[i], key)
    ensures key !in RunMap(m, ops, limit)
    decreases |ops|
  {
    if ops != [] {
      assert LeavesAlone(ops[0], key);
      GoneStaysGone(ApplyMap(m, ops[0], limit), key, ops[1..], limit);
    }
  }

  function Hits(ops: seq<Op>, key: NetAddr): nat {
    if ops == [] then 0 else (if ops[0].OpLookup? && ops[0].key == key then 1 else 0) + Hits(ops[1..], key)
  }

  /** Before its limit an entry is never swept, and each lookup adds one use to outlive the limit by. */
  lemma {:induction false} FreshEntryIsKept(m: map<NetAddr, Val>, key: NetAddr, stamp: nat, ops: seq<Op>, limit: Limit)
    requires key in m && m[key].stamp == Jiffies(stamp, limit) && limit.ticks <= limit.word / 2
    requires forall i :: 0 <= i < |ops| ==> LeavesAlone(ops[i], key) && stamp <= ops[i].now < stamp + limit.ticks
    ensures key in RunMap(m, ops, limit)
    ensures RunMap(m, ops, limit)[key] == m[key].(uses := m[key].uses + Hits(ops, key))
    decreases |ops|
  {
    if ops != [] {
      assert LeavesAlone(ops[0], key) && stamp <= ops[0].now < stamp + limit.ticks;
      TimeTestExactIff(stamp, ops[0].now, limit);
      FreshEntryIsKept(ApplyMap(m, ops[0], limit), key, stamp, ops[1..], limit);
    }
  }
}

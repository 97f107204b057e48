/** What the NAT2.5 network database of core/rtw_br_ext.c stores, as values.

    A database is one list of items for each hash bucket; `ToMap` reads it as a plain map from
    network addresses.  The table that links entries in place is in Nat25Table. */
module Nat25Model {

  import opened Bytes

  type NetAddr = k: seq<u8> | |k| == 17 witness [0, 0, 0, 0, 0, 0, 0, 0, 0, 0, 0, 0, 0, 0, 0, 0, 0]

  const HASH_SIZE: nat := 16

  // ---------------------------------------------------------------- hashing

  function Xor(k: seq<u8>, lo: nat, hi: nat): nat
    requires lo <= hi <= |k|
    decreases hi - lo
  {
    if lo == hi then 0 else BitXor(k[lo], Xor(k, lo + 1, hi))
  }

  /** __nat25_network_hash: which bytes enter depends on the protocol in byte 0. */
  function NetworkHash(k: NetAddr): (h: nat)
    ensures h < HASH_SIZE
  {
    var x :=
      if k[0] == 1 then Xor(k, 7, 11)
      else if k[0] == 3 then Xor(k, 1, 11)
      else if k[0] == 4 then Xor(k, 1, 4)
      else if k[0] == 5 then Xor(k, 0, 9)
      else if k[0] == 2 then Xor(k, 1, 17)
      else Xor(k, 0, 17);
    x % HASH_SIZE
  }

  lemma {:induction false} BitXorBit(a: nat, b: nat, i: nat)
    ensures Bit(BitXor(a, b), i) == (Bit(a, i) != Bit(b, i))
    decreases i
  {
    if i > 0 {
      ZeroBits(i);
      BitXorBit(a / 2, b / 2, i - 1);
    }
  }

  lemma ZeroBits(i: nat)
    ensures !Bit(0, i)
    decreases i
  {
    if i > 0 {
      ZeroBits(i - 1);
    }
  }

  /** The bytes from lo to hi that have bit i. */
  function Having(k: seq<u8>, lo: nat, hi: nat, i: nat): (s: set<nat>)
    requires lo <= hi <= |k|
    ensures forall j :: j in s <==> lo <= j < hi && Bit(k[j], i)
  {
    set j: nat | lo <= j < hi && Bit(k[j], i)
  }

  lemma {:induction false} XorBit(k: seq<u8>, lo: nat, hi: nat, i: nat)
    requires lo <= hi <= |k|
    ensures Bit(Xor(k, lo, hi), i) <==> |Having(k, lo, hi, i)| % 2 == 1
    decreases hi - lo
  {
    if lo == hi {
      ZeroBits(i);
      assert Having(k, lo, hi, i) == {};
    } else {
      XorBit(k, lo + 1, hi, i);
      BitXorBit(k[lo], Xor(k, lo + 1, hi), i);
      var rest := Having(k, lo + 1, hi, i);
      assert Having(k, lo, hi, i) == if Bit(k[lo], i) then {lo} + rest else rest;
    }
  }

  /** The hash is an exclusive or modulo 16: bit i of it says whether an odd number of the bytes that the protocol
      uses have that bit. */
  lemma HashBits(k: NetAddr) returns (x: nat, lo: nat, hi: nat)
    ensures NetworkHash(k) == x % 16 && lo <= hi <= 17
    ensures forall i: nat :: Bit(x, i) <==> |Having(k, lo, hi, i)| % 2 == 1
    ensures k[0] == 1 ==> lo == 7 && hi == 11
    ensures k[0] == 2 ==> lo == 1 && hi == 17
    ensures k[0] == 3 ==> lo == 1 && hi == 11
    ensures k[0] == 4 ==> lo == 1 && hi == 4
    ensures k[0] == 5 ==> lo == 0 && hi == 9
    ensures k[0] == 0 || k[0] > 5 ==> lo == 0 && hi == 17
  {
    lo := if k[0] == 1 then 7 else if 2 <= k[0] <= 4 then 1 else 0;
    hi := match k[0] case 1 => 11 case 3 => 11 case 4 => 4 case 5 => 9 case _ => 17;
    x := Xor(k, lo, hi);
    forall i: nat ensures Bit(x, i) <==> |Having(k, lo, hi, i)| % 2 == 1 {
      XorBit(k, lo, hi, i);
    }
  }

  /** The kernel version decides which branches exist; the database is correct for any such hash. */
  type HashFn = f: NetAddr -> nat | forall k: NetAddr :: f(k) < HASH_SIZE witness (k: NetAddr) => NetworkHash(k)

  // ---------------------------------------------------------------- time

  /** The jiffies counter is an unsigned long that wraps; its width is the host's. */
  type Word = w: nat | w == 0x1_0000_0000 || w == 0x1_0000_0000_0000_0000 witness 0x1_0000_0000

  /** When an entry is too old, on a counter of this width. */
  datatype Limit = Limit(ticks: nat, word: Word)

  /** time_before_eq(stamp, now - limit) on unsigned words, as __nat25_has_expired asks it. */
  predicate Expired(stamp: nat, now: nat, limit: Limit) {
    (now - limit.ticks - stamp) % limit.word < limit.word / 2
  }

  // ---------------------------------------------------------------- the database

  datatype Item = Item(key: NetAddr, mac: Mac, stamp: nat, uses: int)
  datatype Val = Val(mac: Mac, stamp: nat, uses: int)

  type Database = seq<seq<Item>>

  /** Every item is in the bucket of its key, and keys are unique. */
  predicate KeysOk(hash: HashFn, b: seq<Item>, h: nat) {
    && (forall j :: 0 <= j < |b| ==> hash(b[j].key) == h)
    && (forall j, k :: 0 <= j < k < |b| ==> b[j].key != b[k].key)
  }

  /** ... and reference counts are positive. */
  predicate BucketOk(hash: HashFn, b: seq<Item>, h: nat) {
    && (forall j :: 0 <= j < |b| ==> hash(b[j].key) == h && b[j].uses >= 1)
    && (forall j, k :: 0 <= j < k < |b| ==> b[j].key != b[k].key)
  }

  predicate DatabaseOk(hash: HashFn, d: Database) {
    |d| == HASH_SIZE && forall h :: 0 <= h < HASH_SIZE ==> BucketOk(hash, d[h], h)
  }

  /** Position of a key in a bucket, or its length. */
  function Find(b: seq<Item>, key: NetAddr): (p: nat)
    ensures p <= |b|
    ensures p < |b| ==> b[p].key == key
    ensures forall j :: 0 <= j < p ==> b[j].key != key
  {
    if b == [] then 0 else if b[0].key == key then 0 else 1 + Find(b[1..], key)
  }

  function BucketGet(b: seq<Item>, key: NetAddr): Option<Val> {
    var p := Find(b, key);
    if p < |b| then Some(Val(b[p].mac, b[p].stamp, b[p].uses)) else None
  }

  function Get(hash: HashFn, d: Database, key: NetAddr): Option<Val>
    requires |d| == HASH_SIZE
  {
    BucketGet(d[hash(key)], key)
  }

  function Insert(hash: HashFn, d: Database, mac: Mac, key: NetAddr, now: nat, allocOk: bool): Database
    requires |d| == HASH_SIZE
  {
    var b := d[hash(key)];
    var p := Find(b, key);
    if p < |b| then d[hash(key) := b[p := b[p].(mac := mac, stamp := now)]]
    else if allocOk then d[hash(key) := [Item(key, mac, now, 1)] + b]
    else d
  }

  /** A hit on a live item counts as one more use; an expired item is left alone. */
  function Lookup(hash: HashFn, d: Database, key: NetAddr, now: nat, limit: Limit): Database
    requires |d| == HASH_SIZE
  {
    var b := d[hash(key)];
    var p := Find(b, key);
    if p < |b| && !Expired(b[p].stamp, now, limit) then d[hash(key) := b[p := b[p].(uses := b[p].uses + 1)]] else d
  }

  /** The transmit path refreshes the entry it caches. */
  function Touch(hash: HashFn, d: Database, key: NetAddr, now: nat): Database
    requires |d| == HASH_SIZE
  {
    var b := d[hash(key)];
    var p := Find(b, key);
    if p < |b| then d[hash(key) := b[p := b[p].(stamp := now)]] else d
  }

  /** One ageing pass over a bucket: an expired item loses a use and goes when it was the last. */
  function Sweep(b: seq<Item>, now: nat, limit: Limit): seq<Item> {
    if b == [] then [] else SweepOne(b[0], now, limit) + Sweep(b[1..], now, limit)
  }

  function Expire(d: Database, now: nat, limit: Limit): (r: Database)
    ensures |r| == |d|
    ensures forall h :: 0 <= h < |d| ==> r[h] == Sweep(d[h], now, limit)
  {
    if d == [] then [] else [Sweep(d[0], now, limit)] + Expire(d[1..], now, limit)
  }

  function EmptyBuckets(n: nat): (d: Database)
    ensures |d| == n && forall h :: 0 <= h < n ==> d[h] == []
  {
    if n == 0 then [] else [[]] + EmptyBuckets(n - 1)
  }

  function Empty(): Database {
    EmptyBuckets(HASH_SIZE)
  }

  function SweepOne(it: Item, now: nat, limit: Limit): seq<Item> {
    if !Expired(it.stamp, now, limit) then [it]
    else if it.uses == 1 then []
    else [it.(uses := it.uses - 1)]
  }

  lemma SweepSingle(it: Item, now: nat, limit: Limit)
    ensures Sweep([it], now, limit) == SweepOne(it, now, limit)
  {
    assert [it][1..] == [];
  }

  lemma SweepAppend(a: seq<Item>, b: seq<Item>, now: nat, limit: Limit)
    ensures Sweep(a + b, now, limit) == Sweep(a, now, limit) + Sweep(b, now, limit)
  {
    if a == [] {
      assert a + b == b;
    } else {
      assert (a + b)[1..] == a[1..] + b;
      SweepAppend(a[1..], b, now, limit);
    }
  }

  /** A bucket whose first k items have been swept. */
  ghost function PartlySwept(b: seq<Item>, k: nat, now: nat, limit: Limit): seq<Item>
    requires k <= |b|
  {
    Sweep(b[..k], now, limit) + b[k..]
  }

  lemma SweepStart(b: seq<Item>, now: nat, limit: Limit)
    ensures PartlySwept(b, 0, now, limit) == b && b[..0] == []
  {}

  lemma SweepEnd(b: seq<Item>, now: nat, limit: Limit)
    ensures PartlySwept(b, |b|, now, limit) == Sweep(b, now, limit)
  {
    assert b[..|b|] == b;
  }

  /** Sweeping the item at the boundary moves the boundary by one. */
  lemma SweepProgress(b: seq<Item>, k: nat, now: nat, limit: Limit)
    requires k <= |b|
    ensures var s, q := PartlySwept(b, k, now, limit), |Sweep(b[..k], now, limit)|;
            && (q < |s| <==> k < |b|)
            && (k < |b| ==>
                  && s[..q] + SweepOne(s[q], now, limit) + s[q + 1..] == PartlySwept(b, k + 1, now, limit)
                  && q + |SweepOne(s[q], now, limit)| == |Sweep(b[..k + 1], now, limit)|)
  {
    if k < |b| {
      var s, q := PartlySwept(b, k, now, limit), |Sweep(b[..k], now, limit)|;
      assert b[..k + 1] == b[..k] + [b[k]];
      SweepAppend(b[..k], [b[k]], now, limit);
      SweepSingle(b[k], now, limit);
      assert s[q] == b[k] && s[..q] == Sweep(b[..k], now, limit) && s[q + 1..] == b[k + 1..];
    }
  }

  lemma SpliceCases(b: seq<Item>, p: nat, it: Item)
    requires p < |b|
    ensures b == b[..p] + [b[p]] + b[p + 1..] && b[p := it] == b[..p] + [it] + b[p + 1..]
    ensures b[p := it][..p] + b[p := it][p + 1..] == b[..p] + [] + b[p + 1..]
  {}

  // ---------------------------------------------------------------- a plain map

  ghost function Keys(d: Database): set<NetAddr> {
    set h, j | 0 <= h < |d| && 0 <= j < |d[h]| :: d[h][j].key
  }

  /** The payload of an item that carries the key. */
  ghost function Payload(d: Database, key: NetAddr): Val
    requires key in Keys(d)
  {
    var h, j :| 0 <= h < |d| && 0 <= j < |d[h]| && d[h][j].key == key;
    Val(d[h][j].mac, d[h][j].stamp, d[h][j].uses)
  }

  ghost function ToMap(hash: HashFn, d: Database): map<NetAddr, Val>
    requires DatabaseOk(hash, d)
  {
    map k | k in Keys(d) :: Payload(d, k)
  }

  lemma FindMisses(b: seq<Item>, key: NetAddr)
    ensures Find(b, key) == |b| <==> forall j :: 0 <= j < |b| ==> b[j].key != key
  {}

  lemma PrependKeys(hash: HashFn, b: seq<Item>, h: nat, it: Item)
    requires KeysOk(hash, b, h) && hash(it.key) == h && Find(b, it.key) == |b|
    ensures KeysOk(hash, [it] + b, h)
  {
    FindMisses(b, it.key);
  }

  lemma ReplaceKeys(hash: HashFn, b: seq<Item>, h: nat, p: nat, it: Item)
    requires KeysOk(hash, b, h) && p < |b| && it.key == b[p].key
    ensures KeysOk(hash, b[p := it], h)
  {}

  lemma RemoveKeys(hash: HashFn, b: seq<Item>, h: nat, p: nat)
    requires KeysOk(hash, b, h) && p < |b|
    ensures KeysOk(hash, b[..p] + b[p + 1..], h)
  {}

  lemma FindFrom(b: seq<Item>, key: NetAddr, p: nat)
    requires p <= |b| && (p < |b| ==> b[p].key == key)
    requires forall j :: 0 <= j < p ==> b[j].key != key
    ensures Find(b, key) == p
  {}

  lemma FindIs(hash: HashFn, b: seq<Item>, h: nat, p: nat)
    requires BucketOk(hash, b, h) && p < |b|
    ensures Find(b, b[p].key) == p
  {
  }

  /** Walking one bucket is looking the key up in the map. */
  lemma GetIsMapGet(hash: HashFn, d: Database, key: NetAddr)
    requires DatabaseOk(hash, d)
    ensures Get(hash, d, key) == if key in ToMap(hash, d) then Some(ToMap(hash, d)[key]) else None
  {
    var b := d[hash(key)];
    var p := Find(b, key);
    if p < |b| {
      assert d[hash(key)][p].key == key;
    }
    if key in Keys(d) {
      forall h, j | 0 <= h < |d| && 0 <= j < |d[h]| && d[h][j].key == key ensures h == hash(key) && j == p {
        FindIs(hash, d[h], h, j);
      }
    }
  }

  /** The answer is the contents of the item with the key, wherever it is in its bucket. */
  lemma GetMeans(hash: HashFn, d: Database, key: NetAddr)
    requires DatabaseOk(hash, d)
    ensures forall j :: 0 <= j < |d[hash(key)]| && d[hash(key)][j].key == key ==>
              Get(hash, d, key) == Some(Val(d[hash(key)][j].mac, d[hash(key)][j].stamp, d[hash(key)][j].uses))
    ensures Get(hash, d, key).None? <==> forall h, j :: 0 <= h < |d| && 0 <= j < |d[h]| ==> d[h][j].key != key
  {
    var b := d[hash(key)];
    FindMisses(b, key);
    forall j | 0 <= j < |b| && b[j].key == key ensures Find(b, key) == j {
      FindIs(hash, b, hash(key), j);
    }
  }

  /** Two databases that answer alike are the same map. */
  lemma SameAnswersSameMap(hash: HashFn, d: Database, m: map<NetAddr, Val>)
    requires DatabaseOk(hash, d)
    requires forall k: NetAddr :: Get(hash, d, k) == if k in m then Some(m[k]) else None
    ensures ToMap(hash, d) == m
  {
    forall k: NetAddr
      ensures k in ToMap(hash, d) <==> k in m
      ensures k in m ==> ToMap(hash, d)[k] == m[k]
    {
      GetIsMapGet(hash, d, k);
      assert Get(hash, d, k) == if k in m then Some(m[k]) else None;
    }
  }

  function MapInsert(m: map<NetAddr, Val>, mac: Mac, key: NetAddr, now: nat, allocOk: bool): map<NetAddr, Val> {
    if key in m then m[key := Val(mac, now, m[key].uses)]
    else if allocOk then m[key := Val(mac, now, 1)]
    else m
  }

  function MapLookup(m: map<NetAddr, Val>, key: NetAddr, now: nat, limit: Limit): map<NetAddr, Val> {
    if key in m && !Expired(m[key].stamp, now, limit) then m[key := m[key].(uses := m[key].uses + 1)] else m
  }

  function MapTouch(m: map<NetAddr, Val>, key: NetAddr, now: nat): map<NetAddr, Val> {
    if key in m then m[key := m[key].(stamp := now)] else m
  }

  /** Each operation changes what is stored under its own key, and that alone. */
  lemma OperationsAre(m: map<NetAddr, Val>, mac: Mac, key: NetAddr, now: nat, allocOk: bool, limit: Limit)
    ensures forall k :: k != key && k in m ==>
              && k in MapInsert(m, mac, key, now, allocOk) && MapInsert(m, mac, key, now, allocOk)[k] == m[k]
              && k in MapLookup(m, key, now, limit) && MapLookup(m, key, now, limit)[k] == m[k]
              && k in MapTouch(m, key, now) && MapTouch(m, key, now)[k] == m[k]
    ensures forall k :: k != key && k !in m ==>
              && k !in MapInsert(m, mac, key, now, allocOk)
              && k !in MapLookup(m, key, now, limit) && k !in MapTouch(m, key, now)
    ensures key in MapInsert(m, mac, key, now, allocOk) <==> key in m || allocOk
    ensures key in MapInsert(m, mac, key, now, allocOk) ==>
              MapInsert(m, mac, key, now, allocOk)[key] == Val(mac, now, if key in m then m[key].uses else 1)
    ensures key in MapLookup(m, key, now, limit) <==> key in m
    ensures key in m ==> MapLookup(m, key, now, limit)[key]
                         == Val(m[key].mac, m[key].stamp, m[key].uses + if Expired(m[key].stamp, now, limit) then 0 else 1)
    ensures key in MapTouch(m, key, now) <==> key in m
    ensures key in m ==> MapTouch(m, key, now)[key] == Val(m[key].mac, now, m[key].uses)
  {}

  /** What one ageing pass makes of an entry. */
  function Aged(v: Val, now: nat, limit: Limit): Option<Val> {
    if !Expired(v.stamp, now, limit) then Some(v)
    else if v.uses == 1 then None
    else Some(v.(uses := v.uses - 1))
  }

  function MapExpire(m: map<NetAddr, Val>, now: nat, limit: Limit): map<NetAddr, Val> {
    map k | k in m && Aged(m[k], now, limit).Some? :: Aged(m[k], now, limit).value
  }

  /** Replacing one bucket changes the answers for the keys of that bucket only. */
  lemma ReplaceBucket(hash: HashFn, d: Database, h: nat, b: seq<Item>)
    requires DatabaseOk(hash, d) && h < HASH_SIZE && BucketOk(hash, b, h)
    ensures DatabaseOk(hash, d[h := b])
    ensures forall k: NetAddr :: hash(k) != h ==> Get(hash, d[h := b], k) == Get(hash, d, k)
  {}

  /** Changing the payload of one item changes the answer for its key only. */
  lemma ReplaceItem(hash: HashFn, b: seq<Item>, h: nat, p: nat, it: Item)
    requires BucketOk(hash, b, h) && p < |b| && it.key == b[p].key && it.uses >= 1
    ensures BucketOk(hash, b[p := it], h)
    ensures forall k: NetAddr :: Find(b[p := it], k) == Find(b, k)
  {
    forall k: NetAddr ensures Find(b[p := it], k) == Find(b, k) {
      ReplaceItemFind(b, p, it, k);
    }
  }

  lemma ReplaceItemFind(b: seq<Item>, p: nat, it: Item, k: NetAddr)
    requires p < |b| && it.key == b[p].key
    ensures Find(b[p := it], k) == Find(b, k)
  {
    if p > 0 {
      assert b[p := it][1..] == b[1..][p - 1 := it];
      ReplaceItemFind(b[1..], p - 1, it, k);
    } else {
      assert b[p := it][1..] == b[1..];
    }
  }

  /** The map that an update of the payload under one key produces. */
  lemma UpdateIsMapUpdate(hash: HashFn, d: Database, key: NetAddr, it: Item)
    requires DatabaseOk(hash, d) && it.key == key && it.uses >= 1
    requires Find(d[hash(key)], key) < |d[hash(key)]|
    ensures var b := d[hash(key)];
            var r := d[hash(key) := b[Find(b, key) := it]];
            DatabaseOk(hash, r) && ToMap(hash, r) == ToMap(hash, d)[key := Val(it.mac, it.stamp, it.uses)]
  {
    var h := hash(key);
    var b := d[h];
    var p := Find(b, key);
    var r := d[h := b[p := it]];
    ReplaceItem(hash, b, h, p, it);
    ReplaceBucket(hash, d, h, b[p := it]);
    var m := ToMap(hash, d)[key := Val(it.mac, it.stamp, it.uses)];
    forall k: NetAddr ensures Get(hash, r, k) == if k in m then Some(m[k]) else None {
      GetIsMapGet(hash, d, k);
    }
    SameAnswersSameMap(hash, r, m);
  }

  /** Linking a new item at the head of its bucket adds one key. */
  lemma PrependIsMapPut(hash: HashFn, d: Database, it: Item)
    requires DatabaseOk(hash, d) && it.uses >= 1
    requires Find(d[hash(it.key)], it.key) == |d[hash(it.key)]|
    ensures var r := d[hash(it.key) := [it] + d[hash(it.key)]];
            DatabaseOk(hash, r) && ToMap(hash, r) == ToMap(hash, d)[it.key := Val(it.mac, it.stamp, it.uses)]
  {
    var h := hash(it.key);
    var c := [it] + d[h];
    assert c[1..] == d[h];
    ReplaceBucket(hash, d, h, c);
    var r, m := d[h := c], ToMap(hash, d)[it.key := Val(it.mac, it.stamp, it.uses)];
    forall k: NetAddr ensures Get(hash, r, k) == if k in m then Some(m[k]) else None {
      GetIsMapGet(hash, d, k);
      assert Find(c, k) == if k == it.key then 0 else 1 + Find(d[h], k);
    }
    SameAnswersSameMap(hash, r, m);
  }

  lemma InsertIsMapInsert(hash: HashFn, d: Database, mac: Mac, key: NetAddr, now: nat, allocOk: bool)
    requires DatabaseOk(hash, d)
    ensures var r := Insert(hash, d, mac, key, now, allocOk);
            DatabaseOk(hash, r) && ToMap(hash, r) == MapInsert(ToMap(hash, d), mac, key, now, allocOk)
  {
    var h := hash(key);
    var b := d[h];
    var p := Find(b, key);
    GetIsMapGet(hash, d, key);
    if p < |b| {
      UpdateIsMapUpdate(hash, d, key, b[p].(mac := mac, stamp := now));
    } else if allocOk {
      PrependIsMapPut(hash, d, Item(key, mac, now, 1));
    }
  }

  lemma LookupIsMapLookup(hash: HashFn, d: Database, key: NetAddr, now: nat, limit: Limit)
    requires DatabaseOk(hash, d)
    ensures var r := Lookup(hash, d, key, now, limit);
            DatabaseOk(hash, r) && ToMap(hash, r) == MapLookup(ToMap(hash, d), key, now, limit)
  {
    var b := d[hash(key)];
    var p := Find(b, key);
    GetIsMapGet(hash, d, key);
    if p < |b| && !Expired(b[p].stamp, now, limit) {
      UpdateIsMapUpdate(hash, d, key, b[p].(uses := b[p].uses + 1));
    }
  }

  lemma TouchIsMapTouch(hash: HashFn, d: Database, key: NetAddr, now: nat)
    requires DatabaseOk(hash, d)
    ensures DatabaseOk(hash, Touch(hash, d, key, now)) && ToMap(hash, Touch(hash, d, key, now)) == MapTouch(ToMap(hash, d), key, now)
  {
    var b := d[hash(key)];
    var p := Find(b, key);
    GetIsMapGet(hash, d, key);
    if p < |b| {
      UpdateIsMapUpdate(hash, d, key, b[p].(stamp := now));
    }
  }

  lemma ConsGet(it: Item, b: seq<Item>, key: NetAddr)
    ensures BucketGet([it] + b, key) == if it.key == key then Some(Val(it.mac, it.stamp, it.uses)) else BucketGet(b, key)
  {
    assert ([it] + b)[1..] == b;
  }

  /** A pass over a bucket decides about each key by that key's entry alone. */
  lemma {:induction false} SweepGet(hash: HashFn, b: seq<Item>, h: nat, now: nat, limit: Limit, key: NetAddr)
    requires BucketOk(hash, b, h)
    ensures BucketGet(Sweep(b, now, limit), key)
            == match BucketGet(b, key) case None => None case Some(v) => Aged(v, now, limit)
  {
    if b != [] {
      var one, rest := SweepOne(b[0], now, limit), Sweep(b[1..], now, limit);
      assert b == [b[0]] + b[1..];
      SweepGet(hash, b[1..], h, now, limit, key);
      ConsGet(b[0], b[1..], key);
      if b[0].key == key {
        assert forall j :: 0 <= j < |b| - 1 ==> b[1..][j].key != key;
        assert BucketGet(b[1..], key) == None;
      }
      if one == [] {
        assert one + rest == rest;
      } else {
        assert one == [one[0]];
        ConsGet(one[0], rest, key);
      }
    }
  }

  /** What survives a pass keeps its bucket, its keys stay unique, and no key is new. */
  lemma {:induction false} SweepOk(hash: HashFn, b: seq<Item>, h: nat, now: nat, limit: Limit)
    requires BucketOk(hash, b, h)
    ensures BucketOk(hash, Sweep(b, now, limit), h)
    ensures forall k :: 0 <= k < |Sweep(b, now, limit)| ==> Find(b, Sweep(b, now, limit)[k].key) < |b|
  {
    if b != [] {
      var one, rest := SweepOne(b[0], now, limit), Sweep(b[1..], now, limit);
      SweepOk(hash, b[1..], h, now, limit);
      var s := one + rest;
      forall k | 0 <= k < |rest| ensures rest[k].key != b[0].key && Find(b, rest[k].key) < |b| {
        assert b[1..][Find(b[1..], rest[k].key)].key == rest[k].key;
        FindMisses(b, rest[k].key);
      }
      forall k | 0 <= k < |s| ensures Find(b, s[k].key) < |b| && hash(s[k].key) == h && s[k].uses >= 1 {
        assert s[k] == if k < |one| then one[k] else rest[k - |one|];
      }
    }
  }

  lemma ExpireGet(hash: HashFn, d: Database, now: nat, limit: Limit, k: NetAddr)
    requires DatabaseOk(hash, d)
    ensures var m := MapExpire(ToMap(hash, d), now, limit);
            Get(hash, Expire(d, now, limit), k) == if k in m then Some(m[k]) else None
  {
    GetIsMapGet(hash, d, k);
    SweepGet(hash, d[hash(k)], hash(k), now, limit, k);
  }

  lemma ExpireIsMapExpire(hash: HashFn, d: Database, now: nat, limit: Limit)
    requires DatabaseOk(hash, d)
    ensures var r := Expire(d, now, limit);
            DatabaseOk(hash, r) && ToMap(hash, r) == MapExpire(ToMap(hash, d), now, limit)
  {
    var r, m := Expire(d, now, limit), MapExpire(ToMap(hash, d), now, limit);
    forall h | 0 <= h < HASH_SIZE ensures BucketOk(hash, r[h], h) {
      SweepOk(hash, d[h], h, now, limit);
    }
    forall k: NetAddr ensures Get(hash, r, k) == if k in m then Some(m[k]) else None {
      ExpireGet(hash, d, now, limit, k);
    }
    SameAnswersSameMap(hash, r, m);
  }

  lemma EmptyIsEmptyMap(hash: HashFn)
    ensures DatabaseOk(hash, Empty()) && ToMap(hash, Empty()) == map[]
  {}

  lemma InsertKeepsOk(hash: HashFn, d: Database, mac: Mac, key: NetAddr, now: nat, allocOk: bool)
    requires DatabaseOk(hash, d)
    ensures DatabaseOk(hash, Insert(hash, d, mac, key, now, allocOk))
  {
    InsertIsMapInsert(hash, d, mac, key, now, allocOk);
  }

  lemma LookupKeepsOk(hash: HashFn, d: Database, key: NetAddr, now: nat, limit: Limit)
    requires DatabaseOk(hash, d)
    ensures DatabaseOk(hash, Lookup(hash, d, key, now, limit))
  {
    LookupIsMapLookup(hash, d, key, now, limit);
  }

  lemma TouchKeepsOk(hash: HashFn, d: Database, key: NetAddr, now: nat)
    requires DatabaseOk(hash, d)
    ensures DatabaseOk(hash, Touch(hash, d, key, now))
  {
    TouchIsMapTouch(hash, d, key, now);
  }

  lemma ExpireKeepsOk(hash: HashFn, d: Database, now: nat, limit: Limit)
    requires DatabaseOk(hash, d)
    ensures DatabaseOk(hash, Expire(d, now, limit))
  {
    ExpireIsMapExpire(hash, d, now, limit);
  }
}

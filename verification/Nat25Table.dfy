/** The NAT2.5 hash table linked in place (core/rtw_br_ext.c).

    Each bucket head and each `next` field is a slot; an entry keeps the slot that points at it,
    so that it can be unlinked without walking its chain. */
module Nat25Table {
  import opened Bytes
  import opened Nat25Model
  import opened Nat25Ageing

  /** The target of a `pprev_hash` pointer. */
  datatype Slot = NoSlot | Bucket(index: nat) | NextOf(entry: Entry)

  class Entry {
    const key: NetAddr
    var next: Entry?
    var pprev: Slot
    var uses: int
    var mac: Mac
    var stamp: nat

    constructor (key: NetAddr, mac: Mac, now: nat)
      ensures this.key == key && this.mac == mac && stamp == now && uses == 1
    {
      this.key, this.mac, stamp, uses := key, mac, now, 1;
      next, pprev := null, NoSlot;
    }

    ghost function Payload(): Item
      reads this`mac, this`stamp, this`uses
    {
      Item(key, mac, stamp, uses)
    }
  }

  ghost function First(c: seq<Entry>): Entry? {
    if c == [] then null else c[0]
  }

  /** The next fields lead along the chain to null and the back-slots lead back to bucket h. */
  ghost predicate Chained(h: nat, c: seq<Entry>)
    reads (set e | e in c)`next, (set e | e in c)`pprev
  {
    && (forall j {:trigger c[j].next} :: 0 <= j < |c| ==> c[j].next == if j + 1 < |c| then c[j + 1] else null)
    && (forall j {:trigger c[j].pprev} :: 0 <= j < |c| ==> c[j].pprev == if j == 0 then Bucket(h) else NextOf(c[j - 1]))
  }

  ghost predicate Distinct(c: seq<Entry>) {
    forall j, k :: 0 <= j < k < |c| ==> c[j] != c[k]
  }

  /** The entries of the chain carry these items. */
  ghost predicate Carries(c: seq<Entry>, b: seq<Item>)
    reads (set e | e in c)`mac, (set e | e in c)`stamp, (set e | e in c)`uses
  {
    |c| == |b| && forall j :: 0 <= j < |c| ==> c[j].Payload() == b[j]
  }

  lemma OthersStay(c: seq<Entry>, p: nat)
    requires p < |c|
    ensures forall x :: x in c[..p] + c[p + 1..] ==> x in c
    ensures forall x :: x in c && x != c[p] ==> x in c[..p] + c[p + 1..]
  {
    var d := c[..p] + c[p + 1..];
    forall x | x in c && x != c[p] ensures x in d {
      var j :| 0 <= j < |c| && c[j] == x;
      assert d[if j < p then j else j - 1] == x;
    }
  }

  /** __network_hash_link */
  method Link(heads: array<Entry?>, h: nat, e: Entry, ghost c: seq<Entry>)
    requires h < heads.Length && heads[h] == First(c) && Chained(h, c) && Distinct(c) && e !in c
    modifies heads, e`next, e`pprev, (set x | x in c)`pprev
    ensures heads[..] == old(heads[..])[h := e]
    ensures Chained(h, [e] + c)
  {
    e.next := heads[h];
    if e.next != null {
      e.next.pprev := NextOf(e);
    }
    heads[h] := e;
    e.pprev := Bucket(h);
    ghost var d := [e] + c;
    forall j | 0 <= j < |d| ensures d[j].next == if j + 1 < |d| then d[j + 1] else null {
      if j > 0 {
        assert d[j] == c[j - 1] && old(c[j - 1].next) == if j < |c| then c[j] else null;
      }
    }
  }

  /** The pointer surgery of __network_hash_unlink: the slot in front and the entry behind are joined. */
  method Bypass(heads: array<Entry?>, ghost h: nat, e: Entry, ghost c: seq<Entry>, ghost p: nat)
    requires h < heads.Length && heads[h] == First(c) && Chained(h, c) && Distinct(c) && p < |c| && c[p] == e
    modifies heads, (set x | x in c)`next, (set x | x in c)`pprev
    ensures heads[..] == if p == 0 then old(heads[..])[h := old(e.next)] else old(heads[..])
    ensures forall j {:trigger c[j].next} :: 0 <= j < |c| ==>
              c[j].next == if j == p then null else if j + 1 == p then old(e.next) else old(c[j].next)
    ensures forall j {:trigger c[j].pprev} :: 0 <= j < |c| ==>
              c[j].pprev == if j == p then NoSlot else if j == p + 1 then old(e.pprev) else old(c[j].pprev)
  {
    assert e.next == if p + 1 < |c| then c[p + 1] else null by { assert c[p].next == e.next; }
    assert e.pprev == if p == 0 then Bucket(h) else NextOf(c[p - 1]) by { assert c[p].pprev == e.pprev; }
    match e.pprev {
      case Bucket(i) => heads[i] := e.next;
      case NextOf(q) => q.next := e.next;
      case NoSlot =>
    }
    if e.next != null {
      e.next.pprev := e.pprev;
    }
    e.next := null;
    e.pprev := NoSlot;
  }

  /** __network_hash_unlink */
  method Unlink(heads: array<Entry?>, ghost h: nat, e: Entry, ghost c: seq<Entry>, ghost b: seq<Item>, ghost p: nat)
    requires h < heads.Length && heads[h] == First(c) && Chained(h, c) && Distinct(c) && Carries(c, b)
    requires p < |c| && c[p] == e
    modifies heads, (set x | x in c)`next, (set x | x in c)`pprev
    ensures heads[..] == old(heads[..])[h := First(c[..p] + c[p + 1..])]
    ensures Chained(h, c[..p] + c[p + 1..]) && Carries(c[..p] + c[p + 1..], b[..p] + b[p + 1..])
    ensures e.next == null && e.pprev == NoSlot
  {
    assert c[p].next == e.next && c[p].pprev == e.pprev;
    hide Carries;
    Bypass(heads, h, e, c, p);
    ghost var d := c[..p] + c[p + 1..];
    forall j | 0 <= j < |d|
      ensures d[j].next == if j + 1 < |d| then d[j + 1] else null
      ensures d[j].pprev == if j == 0 then Bucket(h) else NextOf(d[j - 1])
    {
      assert d[j] == c[if j < p then j else j + 1];
    }
    CarriesWithout(c, b, p);
  }

  lemma CarriesWithout(c: seq<Entry>, b: seq<Item>, p: nat)
    requires Carries(c, b) && p < |c|
    ensures Carries(c[..p] + c[p + 1..], b[..p] + b[p + 1..])
  {}

  method WritePayload(e: Entry, mac: Mac, stamp: nat, uses: int, ghost c: seq<Entry>, ghost b: seq<Item>, ghost p: nat)
    requires Distinct(c) && Carries(c, b) && p < |c| && c[p] == e
    modifies e`mac, e`stamp, e`uses
    ensures Carries(c, b[p := Item(e.key, mac, stamp, uses)]) && e.uses == uses
  {
    e.mac, e.stamp, e.uses := mac, stamp, uses;
  }

  /** The source the cached entry belongs to: scdb_mac and scdb_ip. */
  datatype Source = Source(mac: Mac, ip: seq<u8>)

  const NO_SOURCE := Source([0, 0, 0, 0, 0, 0], [0, 0, 0, 0])

  class Table {
    const hash: HashFn
    const limit: Limit
    const heads: array<Entry?>
    var scdb: Entry?                // the transmit path's cached entry ...
    var scdbSrc: Source             // ... and whose it is
    ghost var chains: seq<seq<Entry>>
    ghost var items: Database
    ghost var nodes: set<Entry>     // every entry ever linked

    /** Bucket h is an acyclic chain with exact back-slots that carries the items of the bucket. */
    ghost predicate BucketLinked(h: nat)
      reads this`chains, this`items, heads, if h < |chains| then chains[h] else []
    {
      && h < heads.Length && h < |chains| && h < |items|
      && heads[h] == First(chains[h])
      && Chained(h, chains[h])
      && Carries(chains[h], items[h])
      && KeysOk(hash, items[h], h)
    }

    ghost predicate Linked()
      reads this, heads, nodes
    {
      && heads.Length == HASH_SIZE && |chains| == HASH_SIZE && |items| == HASH_SIZE
      && (forall h :: 0 <= h < HASH_SIZE ==> forall e :: e in chains[h] ==> e in nodes)
      && (forall h :: 0 <= h < HASH_SIZE ==> BucketLinked(h))
      && (scdb != null ==> scdb in chains[hash(scdb.key)])
    }

    /** The table is linked soundly, and what it stores is a well-formed database. */
    ghost predicate Valid()
      reads this, heads, nodes
    {
      Linked() && DatabaseOk(hash, items)
    }

    /** The cache is as it was, or has been emptied. */
    predicate CacheKept(was: Entry?, src: Source)
      reads this
    {
      (scdb == was && scdbSrc == src) || (scdb == null && scdbSrc == NO_SOURCE)
    }

    constructor (hash: HashFn, limit: Limit)
      ensures Valid() && items == Empty() && this.limit == limit && this.hash == hash && scdb == null
      ensures fresh(heads) && nodes == {}
    {
      this.hash, this.limit := hash, limit;
      heads := new Entry?[HASH_SIZE](_ => null);
      scdb, scdbSrc := null, NO_SOURCE;
      chains := seq(HASH_SIZE, _ => []);
      items := Empty();
      nodes := {};
      new;
      EmptyIsEmptyMap(hash);
    }

    lemma EntryInItsBucket(h: nat, e: Entry)
      requires Linked() && h < HASH_SIZE && e in chains[h]
      ensures hash(e.key) == h && Distinct(chains[h])
    {
      assert BucketLinked(h);
      var c, b := chains[h], items[h];
      var j :| 0 <= j < |c| && c[j] == e;
      assert c[j].Payload() == b[j];
      forall i, k | 0 <= i < k < |c| ensures c[i] != c[k] {
        assert c[i].Payload() == b[i] && c[k].Payload() == b[k] && b[i].key != b[k].key;
      }
    }

    lemma OtherBucketsApart(h: nat)
      requires Linked() && h < HASH_SIZE
      ensures forall g, e :: 0 <= g < HASH_SIZE && g != h && e in chains[g] ==> e !in chains[h]
    {
      forall g, e | 0 <= g < HASH_SIZE && g != h && e in chains[g] ensures e !in chains[h] {
        EntryInItsBucket(g, e);
        if e in chains[h] {
          EntryInItsBucket(h, e);
        }
      }
    }

    /** Walk the chain of a key's bucket. */
    method FindEntry(key: NetAddr) returns (e: Entry?, ghost p: nat)
      requires Linked()
      ensures p == Find(items[hash(key)], key)
      ensures e == if p < |chains[hash(key)]| then chains[hash(key)][p] else null
      ensures |chains[hash(key)]| == |items[hash(key)]|
      ensures e != null ==> e.Payload() == items[hash(key)][p]
    {
      ghost var h := hash(key);
      ghost var c, b := chains[h], items[h];
      assert BucketLinked(h);
      e, p := heads[hash(key)], 0;
      while e != null
        invariant p <= |c| && e == if p < |c| then c[p] else null
        invariant forall j :: 0 <= j < p ==> b[j].key != key
        decreases |c| - p
      {
        assert c[p].Payload() == b[p];
        if e.key == key {
          break;
        }
        assert c[p].next == e.next;
        e, p := e.next, p + 1;
      }
      FindFrom(b, key, p);
    }

    /** A bucket whose head, entries and items are untouched stays linked. */
    twostate lemma BucketUntouched(g: nat)
      requires g < |old(chains)| && g < |chains| && g < |old(items)| && g < |items| && old(BucketLinked(g))
      requires chains[g] == old(chains[g]) && items[g] == old(items[g]) && heads[g] == old(heads[g])
      requires forall e :: e in chains[g] ==> unchanged(e)
      ensures BucketLinked(g)
    {
      ghost var c := chains[g];
      forall j | 0 <= j < |c|
        ensures c[j].next == old(c[j].next) && c[j].pprev == old(c[j].pprev) && c[j].Payload() == old(c[j].Payload())
      {
        assert c[j] in chains[g];
      }
    }

    /** When one bucket is linked anew and nothing in the others has changed, the table is linked. */
    twostate lemma Relinked(h: nat)
      requires old(Linked()) && h < HASH_SIZE && BucketLinked(h)
      requires |chains| == HASH_SIZE == |items| && heads.Length == HASH_SIZE && old(nodes) <= nodes
      requires forall g :: 0 <= g < HASH_SIZE && g != h ==>
                 chains[g] == old(chains[g]) && items[g] == old(items[g]) && heads[g] == old(heads[g])
      requires forall g, e :: 0 <= g < HASH_SIZE && g != h && e in chains[g] ==> unchanged(e)
      requires forall e :: e in chains[h] ==> e in nodes
      requires scdb != null ==> scdb in chains[hash(scdb.key)]
      ensures Linked()
    {
      forall g | 0 <= g < HASH_SIZE && g != h ensures BucketLinked(g) {
        assert old(BucketLinked(g));
        BucketUntouched(g);
      }
      hide BucketLinked;
      forall g, e | 0 <= g < HASH_SIZE && e in chains[g] ensures e in nodes {
        assert g != h ==> e in old(chains[g]);
      }
    }

    /** Rewrite the payload of a linked entry in place. */
    method SetPayload(e: Entry, mac: Mac, stamp: nat, uses: int, ghost h: nat, ghost p: nat)
      requires Linked() && h < HASH_SIZE && p < |chains[h]| && chains[h][p] == e
      modifies this`items, e`mac, e`stamp, e`uses
      ensures Linked() && e.uses == uses
      ensures |old(items)[h]| == |chains[h]|
      ensures items == old(items)[h := old(items)[h][p := Item(e.key, mac, stamp, uses)]]
    {
      assert BucketLinked(h);
      ghost var c, b, it := chains[h], items[h], Item(e.key, mac, stamp, uses);
      assert c[p].Payload() == b[p];
      ReplaceKeys(hash, b, h, p, it);
      OtherBucketsApart(h);
      EntryInItsBucket(h, e);
      hide Chained, Carries, KeysOk;
      WritePayload(e, mac, stamp, uses, c, b, p);
      items := items[h := b[p := it]];
      assert BucketLinked(h);
      hide BucketLinked;
      Relinked(h);
    }

    method LookupAndReplace(key: NetAddr, now: nat, dst: Mac) returns (hit: bool, dst': Mac)
      requires Valid()
      modifies this`items, nodes
      ensures Valid()
      ensures items == Lookup(hash, old(items), key, now, limit)
      ensures hit == Get(hash, old(items), key).Some?
      ensures dst' == match Get(hash, old(items), key)
                      case Some(v) => if Expired(v.stamp, now, limit) then dst else v.mac
                      case None => dst
    {
      LookupKeepsOk(hash, items, key, now, limit);
      var e, p := FindEntry(key);
      hit, dst' := e != null, dst;
      if e != null {
        if !Expired(e.stamp, now, limit) {
          dst' := e.mac;
          SetPayload(e, e.mac, e.stamp, e.uses + 1, hash(key), p);
        }
      }
    }

    /** __nat25_db_network_insert */
    method InsertAddress(mac: Mac, key: NetAddr, now: nat, allocOk: bool)
      requires Valid()
      modifies this`items, this`chains, this`nodes, heads, nodes
      ensures Valid() && fresh(nodes - old(nodes))
      ensures items == Insert(hash, old(items), mac, key, now, allocOk)
    {
      InsertKeepsOk(hash, items, mac, key, now, allocOk);
      var e, p := FindEntry(key);
      if e != null {
        SetPayload(e, mac, now, e.uses, hash(key), p);
        return;
      }
      if !allocOk {
        return;
      }
      var n := new Entry(key, mac, now);
      LinkEntry(n);
    }

    method LinkEntry(e: Entry)
      requires Linked() && e !in nodes && Find(items[hash(e.key)], e.key) == |items[hash(e.key)]|
      modifies this`items, this`chains, this`nodes, heads, nodes, e
      ensures Linked() && nodes == old(nodes) + {e}
      ensures items == old(items)[hash(e.key) := [old(e.Payload())] + old(items)[hash(e.key)]]
    {
      ghost var h, it := hash(e.key), e.Payload();
      OtherBucketsApart(h);
      LinkFirst(e, h);
      assert heads[..][h] == e;
      assert forall g :: 0 <= g < HASH_SIZE && g != h ==> heads[..][g] == old(heads[..])[g];
      chains := chains[h := [e] + chains[h]];
      items := items[h := [it] + items[h]];
      nodes := nodes + {e};
      hide Chained, Carries, KeysOk;
      assert BucketLinked(h);
      hide BucketLinked;
      Relinked(h);
    }

    /** Link the entry in front of the chain of its bucket. */
    method LinkFirst(e: Entry, ghost h: nat)
      requires Linked() && e !in nodes && h == hash(e.key) && Find(items[h], e.key) == |items[h]|
      modifies heads, e`next, e`pprev, (set x | x in chains[h])`pprev
      ensures heads[..] == old(heads[..])[h := e]
      ensures Chained(h, [e] + chains[h]) && Carries([e] + chains[h], [e.Payload()] + items[h])
      ensures KeysOk(hash, [e.Payload()] + items[h], h)
    {
      assert BucketLinked(h);
      ghost var c := chains[h];
      if c != [] {
        EntryInItsBucket(h, c[0]);
      }
      PrependKeys(hash, items[h], h, e.Payload());
      hide BucketLinked, KeysOk;
      Link(heads, hash(e.key), e, c);
    }

    method UnlinkEntry(e: Entry, ghost h: nat, ghost p: nat)
      requires Linked() && h < HASH_SIZE && p < |chains[h]| && chains[h][p] == e && scdb != e
      modifies this`items, this`chains, heads, nodes
      ensures Linked()
      ensures chains == old(chains)[h := old(chains)[h][..p] + old(chains)[h][p + 1..]]
      ensures |old(items)[h]| == |old(chains)[h]|
      ensures items == old(items)[h := old(items)[h][..p] + old(items)[h][p + 1..]]
    {
      assert BucketLinked(h);
      ghost var c, b := chains[h], items[h];
      ghost var c', b' := c[..p] + c[p + 1..], b[..p] + b[p + 1..];
      OtherBucketsApart(h);
      EntryInItsBucket(h, e);
      RemoveKeys(hash, b, h, p);
      OthersStay(c, p);
      hide Chained, Carries, KeysOk, Distinct;
      Unlink(heads, h, e, c, b, p);
      chains := chains[h := c'];
      items := items[h := b'];
      assert heads[..][h] == First(c');
      assert BucketLinked(h);
      assert forall g :: 0 <= g < HASH_SIZE && g != h ==> heads[..][g] == old(heads[..])[g];
      hide BucketLinked;
      Relinked(h);
    }

    /** The body of nat25_db_expire's inner loop: the successor is read before the entry may be freed. */
    method SweepEntry(f: Entry, h: nat, ghost p: nat, now: nat) returns (g: Entry?, ghost p': nat)
      requires Linked() && h < HASH_SIZE && p < |chains[h]| && chains[h][p] == f
      modifies this`scdb, this`scdbSrc, this`items, this`chains, heads, nodes
      ensures Linked()
      ensures |old(items)[h]| == |old(chains)[h]| && |items[h]| == |chains[h]|
      ensures var b, one := old(items)[h], SweepOne(old(items)[h][p], now, limit);
              items == old(items)[h := b[..p] + one + b[p + 1..]] && p' == p + |one|
      ensures g == if p' < |chains[h]| then chains[h][p'] else null
      ensures CacheKept(old(scdb), old(scdbSrc))
    {
      assert BucketLinked(h) && f.Payload() == items[h][p];
      ghost var b := items[h];
      ghost var less := b[p].(uses := b[p].uses - 1);
      SpliceCases(b, p, less);
      g := f.next;
      p' := p + 1;
      assert g == if p + 1 < |chains[h]| then chains[h][p + 1] else null by { assert chains[h][p].next == f.next; }
      hide BucketLinked;
      if Expired(f.stamp, now, limit) {
        SetPayload(f, f.mac, f.stamp, f.uses - 1, h, p);
        assert items[h] == b[p := less];
        if f.uses == 0 {
          if scdb == f {
            scdb, scdbSrc := null, NO_SOURCE;
          }
          UnlinkEntry(f, h, p);
          p' := p;
          assert items[h] == b[..p] + [] + b[p + 1..];
        }
      }
      assert items[h] == b[..p] + SweepOne(b[p], now, limit) + b[p + 1..];
      assert items == old(items)[h := items[h]];
    }

    /** SweepEntry, seen as progress through the bucket b as it was before the sweep. */
    method SweepNext(f: Entry, h: nat, ghost p: nat, now: nat, ghost b: seq<Item>, ghost k: nat) returns (g: Entry?, ghost p': nat)
      requires Linked() && h < HASH_SIZE && p < |chains[h]| && chains[h][p] == f && |items[h]| == |chains[h]|
      requires k <= |b| && items[h] == PartlySwept(b, k, now, limit) && p == |Sweep(b[..k], now, limit)|
      modifies this`scdb, this`scdbSrc, this`items, this`chains, heads, nodes
      ensures Linked() && |chains| == HASH_SIZE == |items| && |items[h]| == |chains[h]|
      ensures k < |b| && items == old(items)[h := PartlySwept(b, k + 1, now, limit)] && p' == |Sweep(b[..k + 1], now, limit)|
      ensures g == if p' < |chains[h]| then chains[h][p'] else null
      ensures CacheKept(old(scdb), old(scdbSrc))
    {
      SweepProgress(b, k, now, limit);
      hide BucketLinked, Sweep, SweepOne, PartlySwept;
      g, p' := SweepEntry(f, h, p, now);
    }

    /** One bucket of nat25_db_expire. */
    method SweepBucket(h: nat, now: nat)
      requires Linked() && h < HASH_SIZE
      modifies this`scdb, this`scdbSrc, this`items, this`chains, heads, nodes
      ensures Linked()
      ensures items == old(items)[h := Sweep(old(items)[h], now, limit)]
      ensures CacheKept(old(scdb), old(scdbSrc))
    {
      ghost var d0, b := items, items[h];
      ghost var k, p := 0, 0;
      assert BucketLinked(h);
      SweepStart(b, now, limit);
      SweepEnd(b, now, limit);
      var f := heads[h];
      assert d0[h := b] == d0 && f == if 0 < |chains[h]| then chains[h][0] else null;
      SweepProgress(b, 0, now, limit);
      hide BucketLinked, Linked, Sweep, PartlySwept, First;
      while f != null
        invariant Linked() && |chains| == HASH_SIZE == |items| && k <= |b| && CacheKept(old(scdb), old(scdbSrc))
        invariant items == d0[h := PartlySwept(b, k, now, limit)]
        invariant p == |Sweep(b[..k], now, limit)| && |items[h]| == |chains[h]|
        invariant f == if p < |chains[h]| then chains[h][p] else null
        decreases |b| - k
      {
        f, p := SweepNext(f, h, p, now, b, k);
        k := k + 1;
      }
      SweepProgress(b, k, now, limit);
    }

    method ExpireEntries(now: nat)
      requires Valid()
      modifies this`scdb, this`scdbSrc, this`items, this`chains, heads, nodes
      ensures Valid()
      ensures items == Expire(old(items), now, limit)
      ensures CacheKept(old(scdb), old(scdbSrc))
    {
      ghost var d0 := items;
      ExpireKeepsOk(hash, d0, now, limit);
      for i := 0 to HASH_SIZE
        invariant Linked() && CacheKept(old(scdb), old(scdbSrc))
        invariant forall h :: 0 <= h < HASH_SIZE ==> items[h] == if h < i then Sweep(d0[h], now, limit) else d0[h]
      {
        SweepBucket(i, now);
      }
      assert items == Expire(d0, now, limit);
    }

    /** The body of nat25_db_cleanup's inner loop, on the first entry of a bucket. */
    method CleanEntry(f: Entry, i: nat) returns (g: Entry?)
      requires Linked() && i < HASH_SIZE && f == First(chains[i])
      modifies this`scdb, this`scdbSrc, this`items, this`chains, heads, nodes
      ensures Linked() && g == First(chains[i]) && |old(items)[i]| > 0 && |items[i]| == |old(items)[i]| - 1 == |chains[i]|
      ensures forall h :: 0 <= h < HASH_SIZE && h != i ==> items[h] == old(items)[h]
    {
      assert BucketLinked(i);
      assert f.next == if 1 < |chains[i]| then chains[i][1] else null by { assert chains[i][0].next == f.next; }
      g := f.next;
      if scdb == f {
        scdb, scdbSrc := null, NO_SOURCE;
      }
      hide BucketLinked;
      UnlinkEntry(f, i, 0);
    }

    /** nat25_db_cleanup */
    method Cleanup()
      requires Valid()
      modifies this`scdb, this`scdbSrc, this`items, this`chains, heads, nodes
      ensures Valid() && items == Empty() && scdb == null
    {
      for i := 0 to HASH_SIZE
        invariant Linked()
        invariant forall h :: 0 <= h < i ==> items[h] == []
      {
        assert BucketLinked(i);
        hide BucketLinked;
        var f := heads[i];
        while f != null
          invariant Linked() && f == First(chains[i]) && |items[i]| == |chains[i]|
          invariant forall h :: 0 <= h < i ==> items[h] == []
          decreases |items[i]|
        {
          f := CleanEntry(f, i);
        }
      }
      NothingLeft();
    }

    lemma NothingLeft()
      requires Linked() && forall h :: 0 <= h < HASH_SIZE ==> items[h] == []
      ensures Valid() && items == Empty() && scdb == null
    {
      assert items == Empty();
      EmptyIsEmptyMap(hash);
      assert scdb != null ==> BucketLinked(hash(scdb.key));
    }

    /** Look the source address up and cache the entry, or cache nothing. */
    method CacheEntry(key: NetAddr)
      requires Valid()
      modifies this`scdb
      ensures Valid()
      ensures scdb != null <==> Get(hash, items, key).Some?
      ensures scdb != null ==> scdb.key == key
    {
      var e, p := FindEntry(key);
      if e != null {
        assert e in chains[hash(key)];
      }
      scdb := e;
    }

    /** Renew the cached entry without another lookup. */
    method RenewCached(now: nat)
      requires Valid()
      modifies this`items, nodes
      ensures Valid()
      ensures items == if scdb == null then old(items) else Touch(hash, old(items), scdb.key, now)
    {
      if scdb != null {
        ghost var h := hash(scdb.key);
        ghost var p := Find(items[h], scdb.key);
        TouchKeepsOk(hash, items, scdb.key, now);
        assert BucketLinked(h);
        ghost var j :| 0 <= j < |chains[h]| && chains[h][j] == scdb;
        assert scdb.Payload() == items[h][j];
        FindIs(hash, items[h], h, j);
        SetPayload(scdb, scdb.mac, now, scdb.uses, h, p);
      }
    }

    /** The transmit path of rtw_xmit.c for an IP frame; `direct` is the rest of the condition of its first branch.
        The cached entry is renewed for the cached source address, whatever IP address the frame carries; another
        source address is looked up and cached if it is found. */
    method Transmit(src: Source, key: NetAddr, direct: bool, now: nat) returns (handled: bool)
      requires Valid()
      modifies this`scdb, this`scdbSrc, this`items, nodes
      ensures Valid()
      ensures var hit := if src.mac == old(scdbSrc).mac then old(scdb) != null else Get(hash, old(items), key).Some?;
              && handled == hit
              && items == (if !hit then old(items)
                           else Touch(hash, old(items), if src.mac == old(scdbSrc).mac then old(scdb).key else key, now))
              && scdbSrc == (if src.mac != old(scdbSrc).mac && hit then src
                             else if src.mac == old(scdbSrc).mac && !hit then NO_SOURCE else old(scdbSrc))
      ensures if src.mac == old(scdbSrc).mac then scdb == old(scdb) else scdb != null <==> handled
      ensures src.mac != old(scdbSrc).mac && scdb != null ==> scdb.key == key
    {
      if direct && scdbSrc.mac == src.mac && scdb != null {
        RenewCached(now);
        return true;
      }
      handled := false;
      if scdbSrc.mac != src.mac {
        CacheEntry(key);
        if scdb != null {
          scdbSrc := src;
          RenewCached(now);
          handled := true;
        }
      } else if scdb != null {
        RenewCached(now);
        handled := true;
      } else {
        scdbSrc := NO_SOURCE;
      }
    }

    // -------------------------------------------------------------- whole runs

    method Apply(op: Op)
      requires Valid()
      modifies this`scdb, this`scdbSrc, this`items, this`chains, this`nodes, heads, nodes
      ensures Valid() && fresh(nodes - old(nodes))
      ensures items == ApplyDb(hash, old(items), op, limit)
    {
      match op
      case OpInsert(now, mac, key, ok) =>
        InsertAddress(mac, key, Jiffies(now, limit), ok);
      case OpLookup(now, key) =>
        var hit, dst := LookupAndReplace(key, Jiffies(now, limit), NO_SOURCE.mac);
      case OpTouch(now, key) =>
        CacheEntry(key);
        RenewCached(Jiffies(now, limit));
      case OpExpire(now) =>
        ExpireEntries(Jiffies(now, limit));
      case OpCleanup(_) =>
        Cleanup();
    }

    /** After any run of operations chains, back-slots and the cached pointer are sound, and the linked table holds
        what the run leaves in the specification, so in the plain map. */
    method RunOps(ops: seq<Op>)
      requires Valid()
      modifies this`scdb, this`scdbSrc, this`items, this`chains, this`nodes, heads, nodes
      ensures Valid() && fresh(nodes - old(nodes))
      ensures items == RunDb(hash, old(items), ops, limit)
      ensures ToMap(hash, items) == RunMap(ToMap(hash, old(items)), ops, limit)
    {
      ghost var d := items;
      RunRefinesMap(hash, d, ops, limit);
      hide DatabaseOk, Linked, ApplyDb, ToMap, RunMap;
      for i := 0 to |ops|
        invariant Valid() && fresh(nodes - old(nodes)) && |items| == HASH_SIZE
        invariant RunDb(hash, items, ops[i..], limit) == RunDb(hash, d, ops, limit)
      {
        assert ops[i..][0] == ops[i] && ops[i..][1..] == ops[i + 1..];
        Apply(ops[i]);
      }
    }
  }
}

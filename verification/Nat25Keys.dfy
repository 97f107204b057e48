/** Keys of the NAT2.5 database for IPv4 addresses (core/rtw_br_ext.c): IP frames are entered in host byte
    order, ARP frames as they are on the wire. */
module Nat25Keys {
  import opened Bytes
  import opened Nat25Model

  datatype Protocol = Ip | Arp

  /** An IPv4 address as on the wire. */
  type IpAddr = a: seq<u8> | |a| == 4 witness [0, 0, 0, 0]

  function Reversed(a: IpAddr): IpAddr {
    [a[3], a[2], a[1], a[0]]
  }

  /** __nat25_generate_ipv4_network_addr on the word each protocol's branch hands it. */
  function KeyOf(p: Protocol, littleEndian: bool, a: IpAddr): NetAddr {
    [1, 0, 0, 0, 0, 0, 0] + (if p.Ip? && littleEndian then Reversed(a) else a) + [0, 0, 0, 0, 0, 0]
  }

  /** The address stands at bytes 7 to 10 behind the type byte; in a frame of IP it is turned round. */
  lemma KeyBytes(p: Protocol, littleEndian: bool, a: IpAddr)
    ensures var k := KeyOf(p, littleEndian, a);
            && k[0] == 1 && k[1..7] == [0, 0, 0, 0, 0, 0] && k[11..] == [0, 0, 0, 0, 0, 0]
            && k[7..11] == if p.Ip? && littleEndian then [a[3], a[2], a[1], a[0]] else [a[0], a[1], a[2], a[3]]
  {}

  lemma KeysEqualIff(p: Protocol, q: Protocol, littleEndian: bool, s: IpAddr, d: IpAddr)
    ensures KeyOf(p, littleEndian, s) == KeyOf(q, littleEndian, d)
            <==> d == (if p == q || !littleEndian then s else Reversed(s))
  {
    var x := if p.Ip? && littleEndian then Reversed(s) else s;
    var y := if q.Ip? && littleEndian then Reversed(d) else d;
    assert KeyOf(p, littleEndian, s)[7..11] == x && KeyOf(q, littleEndian, d)[7..11] == y;
    FourBytes(s, d);
  }

  lemma FourBytes(s: IpAddr, d: IpAddr)
    ensures s == d <==> s[0] == d[0] && s[1] == d[1] && s[2] == d[2] && s[3] == d[3]
    ensures Reversed(s) == d <==> s == Reversed(d)
  {}

  /** A client learned from a frame of one protocol is found by a frame of the same protocol for exactly its
      address.  Across the two protocols, on a little-endian host, it is found for its reversed address. */
  lemma FoundIff(hash: HashFn, d: Database, littleEndian: bool, mac: Mac, now: nat, p: Protocol, s: IpAddr, q: Protocol, a: IpAddr)
    requires DatabaseOk(hash, d)
    requires Get(hash, d, KeyOf(q, littleEndian, a)).None?
    ensures Get(hash, Insert(hash, d, mac, KeyOf(p, littleEndian, s), now, true), KeyOf(q, littleEndian, a)).Some?
            <==> a == (if p == q || !littleEndian then s else Reversed(s))
  {
    var key := KeyOf(p, littleEndian, s);
    InsertIsMapInsert(hash, d, mac, key, now, true);
    GetIsMapGet(hash, d, KeyOf(q, littleEndian, a));
    GetIsMapGet(hash, Insert(hash, d, mac, key, now, true), KeyOf(q, littleEndian, a));
    KeysEqualIff(p, q, littleEndian, s, a);
    hide *;
  }
}

/** Turning a DHCP request into a broadcast one and repairing its UDP checksum (dhcp_flag_bcast in
    core/rtw_br_ext.c). Sixteen-bit fields are in network order. */
module DhcpChecksum {
  import opened Bytes

  const ETH_HLEN: nat := 14
  const IPPROTO_UDP: u8 := 17
  const BROADCAST_FLAG: nat := 0x8000
  const CHECK_AT: nat := 6      // in the UDP header
  const FLAGS_AT: nat := 18     // behind the eight bytes of the UDP header
  const COOKIE_AT: nat := 244

  function Word(f: seq<u8>, i: nat): (w: nat)
    requires i + 2 <= |f|
    ensures w < 65536
  {
    Be16(f[i], f[i + 1])
  }

  function SetWord(f: seq<u8>, i: nat, w: nat): (g: seq<u8>)
    requires i + 2 <= |f| && w < 65536
    ensures |g| == |f|
  {
    f[i := w / 256][i + 1 := w % 256]
  }

  /** Sum of the 16-bit words, an odd last octet padded with zero. */
  function WordSum(s: seq<u8>): nat {
    if |s| == 0 then 0 else if |s| == 1 then s[0] * 256 else Word(s, 0) + WordSum(s[2..])
  }

  /** Where the UDP header starts: behind an IPv4 header of ihl words. */
  function UdpAt(f: seq<u8>): nat
    requires |f| > ETH_HLEN
  {
    ETH_HLEN + f[ETH_HLEN] % 16 * 4
  }

  predicate HoldsDhcp(f: seq<u8>) {
    |f| >= ETH_HLEN + 20 && f[ETH_HLEN] % 16 >= 5 && UdpAt(f) + COOKIE_AT + 4 <= |f|
  }

  /** The UDP datagram with the length it announces; it reaches at least over the flags. */
  predicate HasDatagram(f: seq<u8>) {
    HoldsDhcp(f) && FLAGS_AT + 2 <= Word(f, UdpAt(f) + 4) <= |f| - UdpAt(f)
  }

  function Datagram(f: seq<u8>): seq<u8>
    requires HasDatagram(f)
  {
    f[UdpAt(f)..UdpAt(f) + Word(f, UdpAt(f) + 4)]
  }

  /** What a receiver adds up: the pseudo header (addresses, protocol, length) and the datagram. */
  function ChecksumTotal(f: seq<u8>): nat
    requires HasDatagram(f)
  {
    WordSum(f[ETH_HLEN + 12..ETH_HLEN + 20]) + IPPROTO_UDP + Word(f, UdpAt(f) + 4) + WordSum(Datagram(f))
  }

  /** The one's complement sum is zero. */
  predicate ChecksumOk(f: seq<u8>)
    requires HasDatagram(f)
  {
    ChecksumTotal(f) % 65535 == 0
  }

  /** Folding the carries in, until sixteen bits are left. */
  function Folded(x: nat): nat {
    if x < 65536 then x else Folded(x % 65536 + x / 65536)
  }

  lemma {:induction false} FoldedIs(x: nat)
    ensures Folded(x) < 65536 && Folded(x) <= x && Folded(x) % 65535 == x % 65535 && (Folded(x) == 0 <==> x == 0)
  {
    if x >= 65536 {
      FoldedIs(x % 65536 + x / 65536);
      ModFold(x);
    }
  }

  lemma ModFold(x: nat)
    ensures (x % 65536 + x / 65536) % 65535 == x % 65535
  {
    var r, q := x % 65536, x / 65536;
    assert x == (r + q) + 65535 * q;
    ModPlus(r + q, q);
  }

  lemma {:induction false} ModPlus(a: int, q: nat)
    ensures (a + 65535 * q) % 65535 == a % 65535
  {
    if q > 0 {
      ModPlus(a, q - 1);
      assert a + 65535 * q == (a + 65535 * (q - 1)) + 65535;
    }
  }

  predicate Fires(f: seq<u8>, disabled: bool)
    requires HoldsDhcp(f)
  {
    var u := UdpAt(f);
    && !disabled && Word(f, 12) == 0x0800 && f[ETH_HLEN + 9] == IPPROTO_UDP
    && Word(f, u) == 68 && Word(f, u + 2) == 67
    && Word(f, u + COOKIE_AT) == 0x6382 && Word(f, u + COOKIE_AT + 2) == 0x5363
    && Word(f, u + FLAGS_AT) < BROADCAST_FLAG
  }

  function NewCheck(check: nat, flags: nat): nat
    requires check < 65536 && flags < 65536
  {
    FoldedIs(65535 - check + flags);
    65535 - Folded(65535 - check + flags)
  }

  function Patched(f: seq<u8>): seq<u8>
    requires HoldsDhcp(f) && Word(f, UdpAt(f) + FLAGS_AT) < BROADCAST_FLAG
  {
    var u := UdpAt(f);
    var flags := Word(f, u + FLAGS_AT) + BROADCAST_FLAG;
    SetWord(SetWord(f, u + FLAGS_AT, flags), u + CHECK_AT, NewCheck(Word(f, u + CHECK_AT), flags))
  }

  // ---------------------------------------------------------------- the effect on the sum

  lemma {:induction false} WordSumSet(s: seq<u8>, i: nat, w: nat)
    requires i % 2 == 0 && i + 2 <= |s| && w < 65536
    ensures WordSum(SetWord(s, i, w)) == WordSum(s) - Word(s, i) + w
  {
    var t := SetWord(s, i, w);
    Be16Whole(w);
    if i == 0 {
      assert t[2..] == s[2..];
    } else {
      WordSumSet(s[2..], i - 2, w);
      assert t[2..] == SetWord(s[2..], i - 2, w);
    }
  }

  lemma Be16Whole(w: nat)
    requires w < 65536
    ensures Be16(w / 256, w % 256) == w
  {}

  lemma SetWordSlice(f: seq<u8>, i: nat, w: nat, lo: nat, hi: nat)
    requires lo <= i && i + 2 <= hi <= |f| && w < 65536
    ensures SetWord(f, i, w)[lo..hi] == SetWord(f[lo..hi], i - lo, w)
  {}

  lemma SetWordApart(f: seq<u8>, i: nat, w: nat, lo: nat, hi: nat)
    requires i + 2 <= |f| && w < 65536 && lo <= hi <= |f| && (hi <= i || i + 2 <= lo)
    ensures SetWord(f, i, w)[lo..hi] == f[lo..hi]
    ensures forall j :: lo <= j < hi ==> SetWord(f, i, w)[j] == f[j]
  {}

  /** Storing a word in the datagram at an even place, other than its length, shifts the sum by the difference. */
  lemma StoreShiftsTotal(f: seq<u8>, at: nat, w: nat)
    requires HasDatagram(f) && at % 2 == 0 && 6 <= at && at + 2 <= Word(f, UdpAt(f) + 4) && w < 65536
    ensures var g := SetWord(f, UdpAt(f) + at, w);
            && HasDatagram(g) && UdpAt(g) == UdpAt(f)
            && ChecksumTotal(g) == ChecksumTotal(f) - Word(f, UdpAt(f) + at) + w
  {
    var u, n := UdpAt(f), Word(f, UdpAt(f) + 4);
    var g := SetWord(f, u + at, w);
    SetWordApart(f, u + at, w, 0, u + 6);
    assert g[ETH_HLEN + 12..ETH_HLEN + 20] == f[ETH_HLEN + 12..ETH_HLEN + 20];
    SetWordSlice(f, u + at, w, u, u + n);
    WordSumSet(f[u..u + n], at, w);
  }

  /** For any message the repair leaves the sum off by the old flags, in one's complement arithmetic. */
  lemma PatchShiftsTotal(f: seq<u8>)
    requires HasDatagram(f) && Word(f, UdpAt(f) + FLAGS_AT) < BROADCAST_FLAG
    ensures HasDatagram(Patched(f))
    ensures (ChecksumTotal(Patched(f)) + Word(f, UdpAt(f) + FLAGS_AT)) % 65535 == ChecksumTotal(f) % 65535
  {
    var u := UdpAt(f);
    hide ChecksumTotal, Folded, WordSum, NewCheck;
    var old', check := Word(f, u + FLAGS_AT), Word(f, u + CHECK_AT);
    var flags := old' + BROADCAST_FLAG;
    var g := SetWord(f, u + FLAGS_AT, flags);
    StoreShiftsTotal(f, FLAGS_AT, flags);
    FieldsBefore(f, u, flags);
    assert CHECK_AT + 2 <= Word(g, u + 4) && Patched(f) == SetWord(g, u + CHECK_AT, NewCheck(check, flags));
    hide SetWord, Word, HasDatagram, UdpAt, Patched;
    StoreShiftsTotal(g, CHECK_AT, NewCheck(check, flags));
    FoldArithmetic(ChecksumTotal(f), check, old', ChecksumTotal(Patched(f)));
  }

  /** The flags lie behind the checksum and the length. */
  lemma FieldsBefore(f: seq<u8>, u: nat, w: nat)
    requires u + FLAGS_AT + 2 <= |f| && w < 65536
    ensures var g := SetWord(f, u + FLAGS_AT, w); Word(g, u + CHECK_AT) == Word(f, u + CHECK_AT) && Word(g, u + 4) == Word(f, u + 4)
  {}

  lemma FoldArithmetic(total: nat, check: nat, old': nat, after: nat)
    requires check < 65536 && old' < BROADCAST_FLAG
    requires after == total - old' + (old' + BROADCAST_FLAG) - check + NewCheck(check, old' + BROADCAST_FLAG)
    ensures (after + old') % 65535 == total % 65535
  {
    var x := 65535 - check + (old' + BROADCAST_FLAG);
    var y := Folded(x);
    FoldedIs(x);
    var q, k := x / 65535, y / 65535;
    assert x - y == 65535 * (q - k);
    assert after + old' == total + (x - y);
    ModPlus(total, q - k);
  }

  /** A valid checksum stays valid exactly if the flags word was zero; RFC 2131, section 2, asks for its
      other bits to be zero, so the repair is right for every conforming client. */
  lemma RepairRightIff(f: seq<u8>)
    requires HasDatagram(f) && Word(f, UdpAt(f) + FLAGS_AT) < BROADCAST_FLAG && ChecksumOk(f)
    ensures HasDatagram(Patched(f)) && (ChecksumOk(Patched(f)) <==> Word(f, UdpAt(f) + FLAGS_AT) == 0)
  {
    PatchShiftsTotal(f);
    ModZeroIff(ChecksumTotal(Patched(f)), Word(f, UdpAt(f) + FLAGS_AT));
  }

  lemma ModZeroIff(t: nat, x: nat)
    requires x < 65535 && (t + x) % 65535 == 0
    ensures t % 65535 == 0 <==> x == 0
  {
    if t % 65535 == 0 {
      ModPlus(x, t / 65535);
      assert t + x == x + 65535 * (t / 65535);
    }
  }

  /** The flag is set, the flag word's other bits and every byte but the two words stay. */
  lemma PatchedBytes(f: seq<u8>)
    requires HoldsDhcp(f) && Word(f, UdpAt(f) + FLAGS_AT) < BROADCAST_FLAG
    ensures var u, g, flags := UdpAt(f), Patched(f), Word(f, UdpAt(f) + FLAGS_AT) + BROADCAST_FLAG;
            && |g| == |f| && HoldsDhcp(g) && UdpAt(g) == u
            && Word(g, u + FLAGS_AT) == flags && Word(g, u + CHECK_AT) == NewCheck(Word(f, u + CHECK_AT), flags)
            && (forall i :: 0 <= i < |f| && !(u + CHECK_AT <= i < u + CHECK_AT + 2) && !(u + FLAGS_AT <= i < u + FLAGS_AT + 2)
                  ==> g[i] == f[i])
            && !Fires(g, false)
  {
    var u, flags := UdpAt(f), Word(f, UdpAt(f) + FLAGS_AT) + BROADCAST_FLAG;
    Be16Whole(flags);
    Be16Whole(NewCheck(Word(f, u + CHECK_AT), flags));
    hide NewCheck, Folded;
  }

  /** A datagram sent without a checksum (a zero field) gets one, and that is right only by coincidence. */
  lemma NoChecksumGetsOne(f: seq<u8>)
    requires HasDatagram(f) && Word(f, UdpAt(f) + FLAGS_AT) == 0 && Word(f, UdpAt(f) + CHECK_AT) == 0
    ensures HasDatagram(Patched(f)) && Word(Patched(f), UdpAt(f) + CHECK_AT) == 0x7FFF
    ensures ChecksumOk(Patched(f)) <==> ChecksumOk(f)
  {
    PatchShiftsTotal(f);
    PatchedBytes(f);
    hide *;
    FirstCheck();
  }

  lemma FirstCheck()
    ensures NewCheck(0, BROADCAST_FLAG) == 0x7FFF
  {
    assert Folded(98303) == Folded(32768);
  }

  // ---------------------------------------------------------------- fields byte by byte

  /** The frame is patched exactly if it is an IPv4 packet with UDP from port 68 to port 67, with the DHCP cookie and
      a clear broadcast flag. */
  lemma FiresExactly(f: seq<u8>, disabled: bool)
    requires |f| >= 34 && f[14] % 16 >= 5 && 14 + f[14] % 16 * 4 + 248 <= |f|
    ensures HoldsDhcp(f)
    ensures var u := 14 + f[14] % 16 * 4;
            Fires(f, disabled) <==>
              && !disabled && f[12] == 8 && f[13] == 0 && f[23] == 17
              && f[u] == 0 && f[u + 1] == 68 && f[u + 2] == 0 && f[u + 3] == 67
              && f[u + 244] == 99 && f[u + 245] == 130 && f[u + 246] == 83 && f[u + 247] == 99
              && f[u + 18] < 128
  {}

  /** A patched frame differs in the top bit of the flags and in the two bytes of the checksum. */
  lemma PatchedExactly(f: seq<u8>)
    requires HoldsDhcp(f) && Word(f, UdpAt(f) + FLAGS_AT) < BROADCAST_FLAG
    ensures var u, g := 14 + f[14] % 16 * 4, Patched(f);
            && |g| == |f| && g[u + 18] == f[u + 18] + 128 && f[u + 18] < 128
            && forall i :: 0 <= i < |f| && i != u + 18 && i != u + 6 && i != u + 7 ==> g[i] == f[i]
  {
    var u, g, flags := UdpAt(f), Patched(f), Word(f, UdpAt(f) + FLAGS_AT) + BROADCAST_FLAG;
    PatchedBytes(f);
    assert flags / 256 == f[u + 18] + 128 && flags % 256 == f[u + 19];
    hide NewCheck, Folded, Patched, Fires;
    Be16Split(g[u + 18], g[u + 19]);
  }

  /** The sum a receiver forms: addresses, protocol number, length, and the words of the datagram. */
  lemma TotalExactly(f: seq<u8>)
    requires HasDatagram(f)
    ensures var u := 14 + f[14] % 16 * 4;
            var n := f[u + 4] as int * 256 + f[u + 5];
            && 20 <= n <= |f| - u && ChecksumTotal(f) == WordSum(f[26..34]) + 17 + n + WordSum(f[u..u + n])
            && (ChecksumOk(f) <==> ChecksumTotal(f) % 65535 == 0)
  {}

  lemma WordSumIs(s: seq<u8>)
    ensures WordSum([]) == 0 && (|s| == 1 ==> WordSum(s) == s[0] as int * 256)
    ensures |s| >= 2 ==> WordSum(s) == s[0] as int * 256 + s[1] + WordSum(s[2..])
  {}

  // ---------------------------------------------------------------- the code

  method Fold(x: nat) returns (sum: nat)
    ensures sum == Folded(x)
  {
    sum := x;
    while sum / 65536 != 0
      invariant sum >= 0 && Folded(sum) == Folded(x)
      decreases sum
    {
      sum := sum % 65536 + sum / 65536;
    }
  }

  method PutWord(a: array<u8>, i: nat, w: nat)
    requires i + 2 <= a.Length && w < 65536
    modifies a
    ensures a[..] == SetWord(old(a[..]), i, w)
  {
    a[i], a[i + 1] := w / 256, w % 256;
  }

  /** dhcp_flag_bcast, on a frame long enough for what it reads. */
  method DhcpFlagBcast(a: array<u8>, disabled: bool)
    requires HoldsDhcp(a[..])
    modifies a
    ensures a[..] == if Fires(old(a[..]), disabled) then Patched(old(a[..])) else old(a[..])
  {
    if disabled || Be16(a[12], a[13]) != 0x0800 || a[ETH_HLEN + 9] != IPPROTO_UDP {
      return;
    }
    ghost var f := a[..];
    var u := ETH_HLEN + a[ETH_HLEN] % 16 * 4;
    if Be16(a[u], a[u + 1]) != 68 || Be16(a[u + 2], a[u + 3]) != 67 {
      return;
    }
    var c := u + COOKIE_AT;
    if Be16(a[c], a[c + 1]) != 0x6382 || Be16(a[c + 2], a[c + 3]) != 0x5363 {
      return;
    }
    var flags, check := Be16(a[u + FLAGS_AT], a[u + FLAGS_AT + 1]), Be16(a[u + CHECK_AT], a[u + CHECK_AT + 1]);
    if flags >= BROADCAST_FLAG {
      return;
    }
    hide Patched;
    Patch(a, u, flags, check);
  }

  /** Set the flag and repair the checksum. */
  method Patch(a: array<u8>, u: nat, flags: nat, check: nat)
    requires HoldsDhcp(a[..]) && u == UdpAt(a[..])
    requires flags == Word(a[..], u + FLAGS_AT) < BROADCAST_FLAG && check == Word(a[..], u + CHECK_AT)
    modifies a
    ensures a[..] == Patched(old(a[..]))
  {
    var flags := flags + BROADCAST_FLAG;
    hide SetWord, Word, Folded;
    PutWord(a, u + FLAGS_AT, flags);
    var sum := Fold(65535 - check + flags);
    FoldedIs(65535 - check + flags);
    PutWord(a, u + CHECK_AT, 65535 - sum);
  }
}

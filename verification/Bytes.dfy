/** Octets and the few integer operations on them that the driver uses. */
module Bytes {

  type u8 = x: int | 0 <= x < 256 witness 0

  /** A hardware address. */
  type Mac = m: seq<u8> | |m| == 6 witness [0, 0, 0, 0, 0, 0]

  datatype Option<+T> = None | Some(value: T)

  /** Bitwise exclusive or. */
  function BitXor(a: nat, b: nat): nat {
    if a == 0 && b == 0 then 0
    else (if a % 2 != b % 2 then 1 else 0) + 2 * BitXor(a / 2, b / 2)
  }

  /** Bit i of an unsigned number. */
  function Bit(x: nat, i: nat): bool {
    if i == 0 then x % 2 == 1 else Bit(x / 2, i - 1)
  }

  function Pow2(n: nat): nat {
    if n == 0 then 1 else 2 * Pow2(n - 1)
  }

  function Zeros(n: nat): (s: seq<u8>)
    ensures |s| == n
    ensures forall i :: 0 <= i < n ==> s[i] == 0
  {
    seq(n, _ => 0)
  }

  /** Big-endian 16-bit field. */
  function Be16(hi: u8, lo: u8): (v: nat)
    ensures v < 65536
  {
    hi * 256 + lo
  }

  lemma Be16Split(hi: u8, lo: u8)
    ensures Be16(hi, lo) / 256 == hi && Be16(hi, lo) % 256 == lo
  {}

  // ---------------------------------------------------------------- moving bytes in place

  /** The buffer after n bytes at src have been copied to dst. */
  function Moved(s: seq<u8>, dst: nat, src: nat, n: nat): seq<u8>
    requires dst + n <= |s| && src + n <= |s|
  {
    s[..dst] + s[src..src + n] + s[dst + n..]
  }

  /** The buffer with the bytes at `at` overwritten. */
  function Written(s: seq<u8>, at: nat, w: seq<u8>): seq<u8>
    requires at + |w| <= |s|
  {
    s[..at] + w + s[at + |w|..]
  }

  /** A write leaves the slices beside it alone. */
  lemma WrittenApart(s: seq<u8>, at: nat, w: seq<u8>, lo: nat, hi: nat)
    requires at + |w| <= |s| && lo <= hi <= |s| && (hi <= at || at + |w| <= lo)
    ensures Written(s, at, w)[lo..hi] == s[lo..hi]
  {}

  lemma MovedSlices(s: seq<u8>, dst: nat, src: nat, n: nat, lo: nat, hi: nat)
    requires dst + n <= |s| && src + n <= |s| && lo <= hi <= |s| && (hi <= dst || dst + n <= lo)
    ensures Moved(s, dst, src, n)[lo..hi] == s[lo..hi]
    ensures Moved(s, dst, src, n)[dst..dst + n] == s[src..src + n]
  {}

  /** Writing and moving in a used part of a buffer is the same as in the buffer. */
  lemma WrittenUsed(s: seq<u8>, used: nat, at: nat, w: seq<u8>)
    requires at + |w| <= used <= |s|
    ensures Written(s, at, w)[..used] == Written(s[..used], at, w)
    ensures Written(s, at, w)[used..] == s[used..]
  {
    assert s[..used][..at] == s[..at];
  }

  /** memcpy from outside the buffer. */
  method Overwrite(a: array<u8>, at: nat, w: seq<u8>)
    requires at + |w| <= a.Length
    modifies a
    ensures a[..] == Written(old(a[..]), at, w)
  {
    forall j | at <= j < at + |w| {
      a[j] := w[j - at];
    }
  }

  /** memcpy into the first `used` bytes of a buffer from outside it. */
  method WriteBytes(a: array<u8>, used: nat, at: nat, w: seq<u8>)
    requires used <= a.Length && at + |w| <= used
    modifies a
    ensures a[..used] == Written(old(a[..used]), at, w) && a[used..] == old(a[used..])
  {
    WrittenUsed(a[..], used, at, w);
    ghost var s := a[..];
    Overwrite(a, at, w);
    assert a[..used] == a[..][..used] && a[used..] == a[..][used..];
    assert s[..used] == old(a[..used]) && s[used..] == old(a[used..]);
  }

  /** memmove within the first `used` bytes of a buffer: the regions may overlap. */
  method MoveBytes(a: array<u8>, used: nat, dst: nat, src: nat, n: nat)
    requires used <= a.Length && dst + n <= used && src + n <= used
    modifies a
    ensures a[..used] == Moved(old(a[..used]), dst, src, n) && a[used..] == old(a[used..])
  {
    var w := a[src..src + n];
    assert w == a[..used][src..src + n];
    WriteBytes(a, used, dst, w);
  }
}

/** Bytes, fixed-width little-endian integers and the powers they are bounded by. */
module Bytes {

  type byte = x: int | 0 <= x < 256

  datatype Option<+T> = None | Some(value: T)

  const TWO_31: nat := 0x8000_0000
  const TWO_32: nat := 0x1_0000_0000
  const TWO_63: nat := 0x8000_0000_0000_0000
  const TWO_64: nat := 0x1_0000_0000_0000_0000

  function Pow2(e: nat): (p: nat)
    ensures p >= 1
  {
    if e == 0 then 1 else 2 * Pow2(e - 1)
  }

  lemma Pow2Step7(e: nat)
    ensures Pow2(e + 7) == 128 * Pow2(e)
  {
    assert Pow2(e + 7) == 2 * Pow2(e + 6) == 4 * Pow2(e + 5) == 8 * Pow2(e + 4);
    assert Pow2(e + 4) == 2 * Pow2(e + 3) == 4 * Pow2(e + 2) == 8 * Pow2(e + 1) == 16 * Pow2(e);
  }

  lemma Pow2Small()
    ensures Pow2(24) == 0x100_0000 && Pow2(32) == TWO_32
  {
    Pow2Step7(0); Pow2Step7(7); Pow2Step7(14); Pow2Step7(21);
    assert Pow2(24) == 2 * Pow2(23) == 4 * Pow2(22) == 8 * Pow2(21);
    assert Pow2(32) == 2 * Pow2(31) == 4 * Pow2(30) == 8 * Pow2(29) == 16 * Pow2(28);
  }

  lemma Pow2Values()
    ensures Pow2(32) == TWO_32 && Pow2(63) == TWO_63 && Pow2(64) == TWO_64
  {
    Pow2Small();
    assert Pow2(35) == 2 * Pow2(34) == 4 * Pow2(33) == 8 * Pow2(32);
    Pow2Step7(35); Pow2Step7(42); Pow2Step7(49); Pow2Step7(56);
    assert Pow2(64) == 2 * Pow2(63);
  }

  /** The `width` low-order bytes of n, least significant first. */
  function LittleEndian(n: nat, width: nat): (s: seq<byte>)
    ensures |s| == width
  {
    if width == 0 then [] else [n % 256] + LittleEndian(n / 256, width - 1)
  }

  function FromLittleEndian(s: seq<byte>): (n: nat)
  {
    if s == [] then 0 else s[0] + 256 * FromLittleEndian(s[1..])
  }

  lemma {:induction false} LittleEndianRoundTrip(n: nat, width: nat)
    requires n < Pow2(8 * width)
    ensures FromLittleEndian(LittleEndian(n, width)) == n
  {
    if width > 0 {
      assert Pow2(8 * width) == 256 * Pow2(8 * (width - 1)) by {
        Pow2Step7(8 * (width - 1));
      }
      LittleEndianRoundTrip(n / 256, width - 1);
      assert LittleEndian(n, width)[1..] == LittleEndian(n / 256, width - 1);
    }
  }

  lemma {:induction false} FromLittleEndianRoundTrip(s: seq<byte>)
    ensures LittleEndian(FromLittleEndian(s), |s|) == s
    ensures FromLittleEndian(s) < Pow2(8 * |s|)
  {
    if s != [] {
      assert Pow2(8 * |s|) == 256 * Pow2(8 * (|s| - 1)) by {
        Pow2Step7(8 * (|s| - 1));
      }
      FromLittleEndianRoundTrip(s[1..]);
      var n := FromLittleEndian(s);
      assert n % 256 == s[0] && n / 256 == FromLittleEndian(s[1..]);
    }
  }

  /** The least significant byte comes first. */
  lemma LittleEndianBytes(s: seq<byte>)
    ensures |s| == 4 ==>
              FromLittleEndian(s) ==
              s[0] as int + 0x100 * s[1] as int + 0x1_0000 * s[2] as int + 0x100_0000 * s[3] as int
    ensures |s| == 2 ==> FromLittleEndian(s) == s[0] as int + 0x100 * s[1] as int
  {
    if |s| == 2 || |s| == 4 {
      assert FromLittleEndian(s) == s[0] + 0x100 * FromLittleEndian(s[1..]);
      assert FromLittleEndian(s[1..]) == s[1] + 0x100 * FromLittleEndian(s[1..][1..]);
      assert s[1..][1..] == s[2..];
      if |s| == 4 {
        assert FromLittleEndian(s[2..]) == s[2] + 0x100 * FromLittleEndian(s[2..][1..]);
        assert s[2..][1..] == s[3..];
        assert FromLittleEndian(s[3..]) == s[3] + 0x100 * FromLittleEndian(s[3..][1..]);
      }
    }
  }

  function Zeros(n: nat): (s: seq<byte>)
    ensures |s| == n
    ensures forall i :: 0 <= i < n ==> s[i] == 0
  {
    seq(n, i => 0)
  }

  /** Copies into a buffer, leaving the rest of it as it was. */
  method CopyInto(buf: array<byte>, at: nat, d: seq<byte>)
    requires at + |d| <= buf.Length
    modifies buf
    ensures buf[..at + |d|] == old(buf[..at]) + d
    ensures buf[at + |d|..] == old(buf[..])[at + |d|..]
  {
    forall k | 0 <= k < |d| { buf[at + k] := d[k]; }
  }

  lemma ConcatAssoc<T>(a: seq<T>, b: seq<T>, c: seq<T>)
    ensures (a + b) + c == a + (b + c)
  {
  }

  lemma SliceMiddle(s: seq<byte>, a: seq<byte>, m: seq<byte>)
    requires a + m <= s
    ensures |a| + |m| <= |s| && s[|a|..|a| + |m|] == m
  {
    assert s[..|a + m|] == a + m;
  }

  lemma PrefixTrans(a: seq<byte>, b: seq<byte>, c: seq<byte>)
    requires a <= b <= c
    ensures a <= c
  {
    assert c[..|a|] == c[..|b|][..|a|];
  }

  datatype Width = W32 | W64

  /** Keeping the low-order bits of an unsigned machine word. */
  function Truncate(x: nat, width: Width): (r: nat)
    ensures r <= x
    ensures r < if width == W32 then TWO_32 else TWO_64
  {
    if width == W32 then x % TWO_32 else x % TWO_64
  }

  /** Truncating before or after an addition gives the same machine word. */
  lemma TruncateAdd(a: nat, b: nat, width: Width)
    ensures Truncate(Truncate(a, width) + b, width) == Truncate(a + b, width)
  {
  }
}

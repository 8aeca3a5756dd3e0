/** Machine words as the C sources use them: bytes, 16- and 32-bit unsigned
    integers with wrap-around, two's-complement views and little-endian
    storage. Everything is plain integer arithmetic with the modulus written out. */
module Words {

  const TWO8: int := 0x100
  const TWO16: int := 0x1_0000
  const TWO32: int := 0x1_0000_0000

  type byte = x: int | 0 <= x < 0x100
  type u16 = x: int | 0 <= x < 0x1_0000
  type u32 = x: int | 0 <= x < 0x1_0000_0000

  /** `uint32_t` arithmetic: the value modulo 2^32. */
  function Wrap(x: int): (r: u32)
    ensures (r - x) % TWO32 == 0
  {
    x % TWO32
  }

  /** A remainder of a value below the modulus is the value. */
  lemma SmallMod(x: int, m: int)
    requires 0 <= x < m
    ensures x % m == x
  {
  }

  /** Values that fit 32 bits are left alone. */
  lemma WrapSmall(x: int)
    requires 0 <= x < TWO32
    ensures Wrap(x) == x
  {
  }

  /** Truncation to `uint8_t`. */
  function Low8(x: int): (r: byte)
    ensures (r - x) % TWO8 == 0
  {
    x % TWO8
  }

  /** Values that fit a byte are left alone. */
  lemma Low8Small(x: int)
    requires 0 <= x < TWO8
    ensures Low8(x) == x
  {
  }

  /** `(uint32_t) x` on an `int`: two's complement read as unsigned. */
  function Unsigned32(x: int): (r: u32)
    requires -0x8000_0000 <= x < 0x8000_0000
    ensures r < 0x8000_0000 <==> x >= 0
    ensures x >= 0 ==> r == x
  {
    if x < 0 then x + TWO32 else x
  }

  /** Bitwise complement `~x` of a 32-bit word. */
  function Not(x: u32): (r: u32)
    ensures r + x == 0xFFFF_FFFF
  {
    0xFFFF_FFFF - x
  }

  /** `(int) x` on a 32-bit word: the two's-complement reading. */
  function Signed32(x: u32): (r: int)
    ensures -0x8000_0000 <= r < 0x8000_0000
    ensures (r - x) % TWO32 == 0
    ensures r >= 0 <==> x < 0x8000_0000
  {
    if x < 0x8000_0000 then x else x - TWO32
  }

  /** `(char) b` on a byte (char is signed on the x86 targets of the source). */
  function Signed8(b: byte): (r: int)
    ensures -0x80 <= r < 0x80
    ensures (r - b) % TWO8 == 0
    ensures r >= 0 <==> b < 0x80
  {
    if b < 0x80 then b else b - TWO8
  }

  /** A 32-bit word stored little-endian, as `*(uint32_t*) p = v` does on x86. */
  function Le32(v: u32): (r: seq<byte>)
    ensures |r| == 4
  {
    [v % 0x100, (v / 0x100) % 0x100, (v / 0x1_0000) % 0x100, v / 0x100_0000]
  }

  /** The 32-bit word read little-endian from the first four bytes. */
  function FromLe32(s: seq<byte>): (v: u32)
    requires |s| >= 4
    ensures v % 0x100 == s[0]
  {
    Peel8(s[0], s[1] as int + 0x100 * (s[2] as int) + 0x1_0000 * (s[3] as int));
    s[0] as int + 0x100 * (s[1] as int) + 0x1_0000 * (s[2] as int) + 0x100_0000 * (s[3] as int)
  }

  /** A 16-bit word stored little-endian. */
  function Le16(v: u16): (r: seq<byte>)
    ensures |r| == 2
  {
    [v % 0x100, v / 0x100]
  }

  function FromLe16(s: seq<byte>): (v: u16)
    requires |s| >= 2
  {
    s[0] as int + 0x100 * (s[1] as int)
  }

  /** Splitting a sum at a byte, 16-bit or 24-bit boundary. */
  lemma Peel8(a: byte, t: int)
    ensures (a + 0x100 * t) / 0x100 == t && (a + 0x100 * t) % 0x100 == a
  {
  }

  lemma Peel16(a: u16, t: int)
    ensures (a + 0x1_0000 * t) / 0x1_0000 == t
  {
  }

  lemma Peel24(a: int, t: int)
    requires 0 <= a < 0x100_0000
    ensures (a + 0x100_0000 * t) / 0x100_0000 == t
  {
  }

  lemma Le32RoundTrip(v: u32)
    ensures FromLe32(Le32(v)) == v
  {
    var q1, q2, q3 := v / 0x100, v / 0x1_0000, v / 0x100_0000;
    DivDiv(v);
    assert v == v % 0x100 + 0x100 * q1;
    assert q1 == q1 % 0x100 + 0x100 * q2;
    assert q2 == q2 % 0x100 + 0x100 * q3;
  }

  lemma DivDiv(x: nat)
    ensures x / 0x100 / 0x100 == x / 0x1_0000
    ensures x / 0x1_0000 / 0x100 == x / 0x100_0000
  {
  }

  /** Reading back a word stored at the head of a longer buffer. */
  lemma Le32ReadBack(s: seq<byte>, v: u32)
    requires |s| >= 4 && s[..4] == Le32(v)
    ensures FromLe32(s) == v
  {
    assert s[0] == Le32(v)[0] && s[1] == Le32(v)[1] && s[2] == Le32(v)[2] && s[3] == Le32(v)[3];
    Le32RoundTrip(v);
  }

  lemma FromLe32RoundTrip(s: seq<byte>)
    requires |s| >= 4
    ensures Le32(FromLe32(s)) == s[..4]
  {
    var v := FromLe32(s);
    var hi := s[2] as int + 0x100 * s[3] as int;
    var mid := s[1] as int + 0x100 * hi;
    assert v == s[0] + 0x100 * mid;
    Peel8(s[0], mid);
    Peel8(s[1], hi);
    var lo := s[0] as int + 0x100 * s[1] as int;
    assert v == lo + 0x1_0000 * hi;
    Peel16(lo, hi);
    Peel8(s[2], s[3]);
    var low3 := lo + 0x1_0000 * s[2] as int;
    assert v == low3 + 0x100_0000 * s[3];
    Peel24(low3, s[3]);
    assert Le32(v) == [s[0], s[1], s[2], s[3]];
  }

  lemma Le16RoundTrip(v: u16)
    ensures FromLe16(Le16(v)) == v
  {
  }

  /** `s` with `part` written over it starting at `at` (a `memcpy` into a buffer). */
  function Overwrite(s: seq<byte>, at: nat, part: seq<byte>): (r: seq<byte>)
    requires at + |part| <= |s|
    ensures |r| == |s|
    ensures r[at..at + |part|] == part
    ensures forall i :: 0 <= i < |s| && !(at <= i < at + |part|) ==> r[i] == s[i]
  {
    s[..at] + part + s[at + |part|..]
  }

  function Pow2(n: nat): (r: nat)
    ensures r > 0
  {
    if n == 0 then 1 else 2 * Pow2(n - 1)
  }

  lemma {:induction false} Pow2Add(a: nat, b: nat)
    ensures Pow2(a + b) == Pow2(a) * Pow2(b)
  {
    if a > 0 {
      Pow2Add(a - 1, b);
      assert Pow2(a + b) == 2 * Pow2(a - 1 + b);
    }
  }

  /** `a | b` on unsigned values, one bit at a time from the least significant. */
  function BitOr(a: nat, b: nat): nat
    decreases a + b
  {
    if a == 0 then b
    else if b == 0 then a
    else 2 * BitOr(a / 2, b / 2) + (if a % 2 == 1 || b % 2 == 1 then 1 else 0)
  }

  /** Bit `s` of `x` is set. */
  predicate Bit(x: nat, s: nat) {
    if s == 0 then x % 2 == 1 else Bit(x / 2, s - 1)
  }

  /** OR of a value below `2^k` with a multiple of `2^k` is their sum. */
  lemma {:induction false} BitOrDisjoint(a: nat, b: nat, k: nat)
    requires a < Pow2(k)
    ensures BitOr(a, b * Pow2(k)) == a + b * Pow2(k)
    decreases k
  {
    if a != 0 && b != 0 {
      var p := Pow2(k - 1);
      assert b * Pow2(k) == 2 * (b * p);
      BitOrDisjoint(a / 2, b, k - 1);
    }
  }

  /** A bit is set in `a | b` exactly when it is set in `a` or in `b`. */
  lemma {:induction false} BitOrBit(a: nat, b: nat, s: nat)
    ensures Bit(BitOr(a, b), s) <==> Bit(a, s) || Bit(b, s)
    decreases s
  {
    if a == 0 || b == 0 {
      ZeroBit(s);
    } else {
      var c := BitOr(a / 2, b / 2);
      var lo := if a % 2 == 1 || b % 2 == 1 then 1 else 0;
      var v := BitOr(a, b);
      assert v == 2 * c + lo;
      assert v / 2 == c && v % 2 == lo;
      if s > 0 {
        assert Bit(v, s) == Bit(c, s - 1);
        assert Bit(a, s) == Bit(a / 2, s - 1) && Bit(b, s) == Bit(b / 2, s - 1);
        BitOrBit(a / 2, b / 2, s - 1);
      }
    }
  }

  lemma {:induction false} ZeroBit(s: nat)
    ensures !Bit(0, s)
  {
    if s > 0 {
      ZeroBit(s - 1);
    }
  }

  /** `1 << s` has bit `s` set and no other. */
  lemma {:induction false} PowBit(s: nat, t: nat)
    ensures Bit(Pow2(s), t) <==> s == t
    decreases s
  {
    if s == 0 {
      if t > 0 {
        ZeroBit(t - 1);
      }
    } else if t == 0 {
      assert Pow2(s) == 2 * Pow2(s - 1);
    } else {
      assert Pow2(s) / 2 == Pow2(s - 1);
      PowBit(s - 1, t - 1);
    }
  }

  /** OR of two values below `2^k` stays below it. */
  lemma {:induction false} BitOrBelow(a: nat, b: nat, k: nat)
    requires a < Pow2(k) && b < Pow2(k)
    ensures BitOr(a, b) < Pow2(k)
    decreases k
  {
    if a != 0 && b != 0 {
      BitOrBelow(a / 2, b / 2, k - 1);
    }
  }

  /** `memcpy` of `bytes` into `out` at `at`. */
  method Copy(out: array<byte>, at: nat, bytes: seq<byte>)
    requires at + |bytes| <= out.Length
    modifies out
    ensures out[..] == Overwrite(old(out[..]), at, bytes)
  {
    forall k | 0 <= k < |bytes| {
      out[at + k] := bytes[k];
    }
    assert out[..] == Overwrite(old(out[..]), at, bytes);
  }

  /** A run of `n` copies of one byte. */
  function Fill(b: byte, n: nat): (r: seq<byte>)
    ensures |r| == n
    ensures forall i :: 0 <= i < n ==> r[i] == b
  {
    seq(n, _ => b)
  }
}

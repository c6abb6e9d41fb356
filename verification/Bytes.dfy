/** Bytes, little-endian words and the bit operations the protocol code performs on them. */
module Bytes {

  type byte = x: int | 0 <= x < 0x100
  type u16 = x: int | 0 <= x < 0x1_0000
  type u32 = x: int | 0 <= x < 0x1_0000_0000

  datatype Option<+T> = None | Some(value: T)

  /** The two bytes of a UINT16 as they lie in a packed message. */
  function Le16(x: u16): (s: seq<byte>)
    ensures |s| == 2 && At16(s, 0) == x
  {
    [x % 0x100, x / 0x100]
  }

  /** The four bytes of a UINT32 as they lie in a packed message. */
  function Le32(x: u32): (s: seq<byte>)
    ensures |s| == 4 && At32(s, 0) == x
  {
    [x % 0x100, x / 0x100 % 0x100, x / 0x1_0000 % 0x100, x / 0x100_0000]
  }

  function At16(s: seq<byte>, i: nat): u16
    requires i + 2 <= |s|
  {
    s[i] as int + 0x100 * (s[i + 1] as int)
  }

  function At32(s: seq<byte>, i: nat): u32
    requires i + 4 <= |s|
  {
    s[i] as int + 0x100 * (s[i + 1] as int) + 0x1_0000 * (s[i + 2] as int) + 0x100_0000 * (s[i + 3] as int)
  }

  /** Reading a word depends only on the bytes it covers. */
  lemma At16Within(s: seq<byte>, i: nat, x: u16)
    requires i + 2 <= |s| && s[i..i + 2] == Le16(x)
    ensures At16(s, i) == x
  {
    assert s[i] == s[i..i + 2][0] && s[i + 1] == s[i..i + 2][1];
  }

  lemma At32Within(s: seq<byte>, i: nat, x: u32)
    requires i + 4 <= |s| && s[i..i + 4] == Le32(x)
    ensures At32(s, i) == x
  {
    var w := s[i..i + 4];
    assert s[i] == w[0] && s[i + 1] == w[1] && s[i + 2] == w[2] && s[i + 3] == w[3];
    assert At32(w, 0) == x;
  }

  /** A run of zero bytes, as ZeroMem leaves them. */
  function Zeros(n: nat): (s: seq<byte>)
    ensures |s| == n
  {
    seq(n, _ => 0)
  }

  function Min(a: nat, b: nat): nat {
    if a <= b then a else b
  }

  function Pow2(k: nat): (p: nat)
    ensures p >= 1
  {
    if k == 0 then 1 else 2 * Pow2(k - 1)
  }

  /** Bit k of x. */
  predicate Bit(x: nat, k: nat) {
    if k == 0 then x % 2 == 1 else Bit(x / 2, k - 1)
  }

  /** Bitwise AND of two unsigned words. */
  function And(x: nat, y: nat): nat
    decreases x
  {
    if x == 0 || y == 0 then 0
    else (if x % 2 == 1 && y % 2 == 1 then 1 else 0) + 2 * And(x / 2, y / 2)
  }

  lemma {:induction false} ZeroHasNoBit(k: nat)
    ensures !Bit(0, k)
  {
    if k > 0 {
      ZeroHasNoBit(k - 1);
    }
  }

  lemma {:induction false} AndItself(x: nat)
    ensures And(x, x) == x
  {
    if x > 0 {
      AndItself(x / 2);
    }
  }

  /** Each bit of an AND is set exactly when it is set in both words. */
  lemma {:induction false} BitOfAnd(x: nat, y: nat, k: nat)
    ensures Bit(And(x, y), k) <==> Bit(x, k) && Bit(y, k)
    decreases k
  {
    if x == 0 || y == 0 {
      ZeroHasNoBit(k);
    } else if k > 0 {
      BitOfAnd(x / 2, y / 2, k - 1);
      assert And(x, y) / 2 == And(x / 2, y / 2);
    }
  }

  /** Masking with a single bit tests that bit. */
  lemma {:induction false} AndWithSingleBit(x: nat, k: nat)
    ensures And(x, Pow2(k)) == if Bit(x, k) then Pow2(k) else 0
    decreases k
  {
    if x == 0 {
      ZeroHasNoBit(k);
    } else if k > 0 {
      AndWithSingleBit(x / 2, k - 1);
      assert Pow2(k) / 2 == Pow2(k - 1) && Pow2(k) % 2 == 0;
    } else {
      assert Pow2(0) / 2 == 0;
    }
  }
}

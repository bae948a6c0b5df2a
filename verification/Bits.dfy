/** Or and exclusive or of bytes, bit by bit over integers, and little-endian words. */
module Bits {
  import opened CBytes

  /** Exclusive or of the n low bits. */
  function XorBits(n: nat, a: nat, b: nat): (r: nat)
    ensures r < Pow2(n)
  {
    if n == 0 then 0 else 2 * XorBits(n - 1, a / 2, b / 2) + Parity(a, b)
  }

  function Pow2(n: nat): (r: nat) {
    if n == 0 then 1 else 2 * Pow2(n - 1)
  }

  function Xor(a: byte, b: byte): (r: byte) {
    assert Pow2(8) == 2 * (2 * (2 * (2 * Pow2(4))));
    XorBits(8, a, b)
  }

  function Parity(a: nat, b: nat): (r: nat)
    ensures r < 2
  {
    (a % 2 + b % 2) % 2
  }

  lemma {:induction false} Halve(n: nat, a: nat, b: nat)
    requires n > 0
    ensures XorBits(n, a, b) / 2 == XorBits(n - 1, a / 2, b / 2)
    ensures XorBits(n, a, b) % 2 == Parity(a, b)
  {
  }

  lemma {:induction false} ParityAssoc(a: nat, b: nat, c: nat, ab: nat, bc: nat)
    requires ab % 2 == Parity(a, b) && bc % 2 == Parity(b, c)
    ensures Parity(ab, c) == Parity(a, bc)
  {
  }

  lemma {:induction false} XorBitsAssoc(n: nat, a: nat, b: nat, c: nat)
    ensures XorBits(n, XorBits(n, a, b), c) == XorBits(n, a, XorBits(n, b, c))
  {
    if n > 0 {
      hide XorBits, Parity;
      var ab, bc := XorBits(n, a, b), XorBits(n, b, c);
      Halve(n, a, b);
      Halve(n, b, c);
      ParityAssoc(a, b, c, ab, bc);
      Halve(n, ab, c);
      Halve(n, a, bc);
      XorBitsAssoc(n - 1, a / 2, b / 2, c / 2);
      FromHalves(XorBits(n, ab, c), XorBits(n, a, bc));
    }
  }

  lemma {:induction false} FromHalves(x: nat, y: nat)
    requires x / 2 == y / 2 && x % 2 == y % 2
    ensures x == y
  {
  }

  lemma {:induction false} XorAssoc(a: byte, b: byte, c: byte)
    ensures Xor(Xor(a, b), c) == Xor(a, Xor(b, c))
  {
    XorBitsAssoc(8, a, b, c);
  }

  function OrBits(n: nat, a: nat, b: nat): (r: nat)
    ensures r < Pow2(n)
  {
    if n == 0 then 0 else 2 * OrBits(n - 1, a / 2, b / 2) + if a % 2 + b % 2 == 0 then 0 else 1
  }

  function Or(a: byte, b: byte): (r: byte) {
    assert Pow2(8) == 2 * (2 * (2 * (2 * Pow2(4))));
    OrBits(8, a, b)
  }

  lemma {:induction false} OrBitsZero(n: nat, a: nat, b: nat)
    requires a < Pow2(n) && b < Pow2(n)
    ensures OrBits(n, a, b) == 0 <==> a == 0 && b == 0
  {
    if n > 0 {
      OrBitsZero(n - 1, a / 2, b / 2);
    }
  }

  lemma {:induction false} XorBitsZero(n: nat, a: nat, b: nat)
    requires a < Pow2(n) && b < Pow2(n)
    ensures XorBits(n, a, b) == 0 <==> a == b
  {
    if n > 0 {
      XorBitsZero(n - 1, a / 2, b / 2);
      if a / 2 == b / 2 && a % 2 == b % 2 {
        FromHalves(a, b);
      }
    }
  }

  /** Accumulating differences into d leaves zero exactly when there were none. */
  lemma {:induction false} OrXorZero(d: byte, a: byte, b: byte)
    ensures Or(d, Xor(a, b)) == 0 <==> d == 0 && a == b
  {
    assert Pow2(8) == 2 * (2 * (2 * (2 * Pow2(4))));
    OrBitsZero(8, d, Xor(a, b));
    XorBitsZero(8, a, b);
  }

  // ---------------------------------------------------------------- words

  /** Little-endian 32-bit word. */
  function Word(s: seq<byte>, at: nat): (w: nat)
    requires at + 4 <= |s|
    ensures w < 0x1_0000_0000
  {
    s[at] as int + 0x100 * (s[at + 1] as int) + 0x1_0000 * (s[at + 2] as int) + 0x100_0000 * (s[at + 3] as int)
  }

  function WordBytes(n: nat): (s: seq<byte>)
    requires n < 0x1_0000_0000
    ensures |s| == 4
  {
    [n % 0x100, (n / 0x100) % 0x100, (n / 0x1_0000) % 0x100, n / 0x100_0000]
  }

  lemma {:induction false} WordOfBytes(n: nat)
    requires n < 0x1_0000_0000
    ensures Word(WordBytes(n), 0) == n
  {
    DivDiv(n);
    DivDiv(n / 0x100);
  }

  lemma {:induction false} DivDiv(n: nat)
    ensures n / 0x100 / 0x100 == n / 0x1_0000 && n / 0x100 / 0x1_0000 == n / 0x100_0000
  {
  }

  lemma {:induction false} BytesOfWord(s: seq<byte>, at: nat)
    requires at + 4 <= |s|
    ensures WordBytes(Word(s, at)) == s[at..at + 4]
  {
    var w := Word(s, at);
    var b0: int, b1: int, b2: int, b3: int := s[at], s[at + 1], s[at + 2], s[at + 3];
    DivDiv(w);
    assert w / 0x100 == b1 + 0x100 * b2 + 0x1_0000 * b3;
    assert w / 0x100 / 0x100 == b2 + 0x100 * b3;
    assert w / 0x100 / 0x1_0000 == b3;
  }
}

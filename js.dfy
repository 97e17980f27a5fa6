/** JavaScript value semantics the encoder and the UI helpers rely on:
    UTF-16 strings, the 32-bit integer coercions behind `<<`, `|`, `^`
    and `>>>`, and `undefined` as a missing value. */
module Js {

  /** One UTF-16 code unit, as returned by `String.prototype.charCodeAt`. */
  type CodeUnit = c: int | 0 <= c < 0x1_0000

  /** A JavaScript string: a sequence of UTF-16 code units. */
  type JsString = seq<CodeUnit>

  datatype Option<+T> = None | Some(value: T)

  /** The result of a call that either returns a value or throws. */
  datatype Outcome<+T> = Returns(value: T) | Throws

  const TwoTo32: int := 0x1_0000_0000
  const TwoTo31: int := 0x8000_0000

  predicate IsInt32(x: int) {
    -TwoTo31 <= x < TwoTo31
  }

  /** ToUint32: the operand conversion of `>>>`. */
  function ToUint32(x: int): (r: int)
    ensures 0 <= r < TwoTo32
    ensures (x - r) % TwoTo32 == 0
  {
    x % TwoTo32
  }

  /** ToInt32: the operand and result conversion of `<<`, `|` and `^`. */
  function ToInt32(x: int): (r: int)
    ensures IsInt32(r)
    ensures (x - r) % TwoTo32 == 0
    ensures IsInt32(x) ==> r == x
  {
    var u := x % TwoTo32;
    if u < TwoTo31 then u else u - TwoTo32
  }

  /** Two integers with the same residue modulo 2^32 have the same ToInt32. */
  lemma {:induction false} ToInt32Congruent(x: int, y: int)
    requires (x - y) % TwoTo32 == 0
    ensures ToInt32(x) == ToInt32(y)
  {
    var q := (x - y) / TwoTo32;
    assert x - y == TwoTo32 * q;
    assert x == y + TwoTo32 * q;
    ModShift(y, q);
  }

  lemma ModShift(y: int, q: int)
    ensures (y + TwoTo32 * q) % TwoTo32 == y % TwoTo32
  {
  }

  /** 2 to the power k. */
  function Pow2(k: nat): (r: nat)
    ensures r >= 1
  {
    if k == 0 then 1 else 2 * Pow2(k - 1)
  }

  lemma {:induction false} Pow2Mono(a: nat, b: nat)
    requires a <= b
    ensures Pow2(a) <= Pow2(b)
    decreases b
  {
    if a < b {
      Pow2Mono(a, b - 1);
    }
  }

  /** Bit j (0 = least significant) of a non-negative integer. */
  function BitOf(x: nat, j: nat): bool {
    if j == 0 then x % 2 == 1 else BitOf(x / 2, j - 1)
  }

  /** Adding a multiple of 2^m leaves the bits below m unchanged. */
  lemma {:induction false} BitOfModulo(x: nat, y: nat, k: int, m: nat, j: nat)
    requires j < m && y == x + k * Pow2(m)
    ensures BitOf(y, j) == BitOf(x, j)
    decreases j
  {
    var t := k * Pow2(m - 1);
    assert k * Pow2(m) == 2 * t;
    if j > 0 {
      assert y / 2 == x / 2 + t;
      BitOfModulo(x / 2, y / 2, k, m - 1, j - 1);
    }
  }

  /** Reducing modulo 2^32 keeps the residue modulo 256. */
  lemma LowByteOfUint32(x: int)
    ensures ToUint32(x) % 256 == x % 256
  {
    ModOfMod(x);
  }

  lemma ModOfMod(x: int)
    ensures (x % 0x1_0000_0000) % 256 == x % 256
  {
    var q, r := x / 0x1_0000_0000, x % 0x1_0000_0000;
    var big := 0x100_0000 * q + r / 256;
    assert x == 256 * big + r % 256;
  }

  /** The low eight bits of ToUint32(x) are those of x mod 256. */
  lemma LowBits(x: int, j: nat)
    requires j < 8
    ensures BitOf(ToUint32(x), j) == BitOf(x % 256, j)
  {
    assert Pow2(8) == 256;
    var u := ToUint32(x);
    LowByteOfUint32(x);
    BitOfModulo(u % 256, u, u / 256, 8, j);
  }

  lemma {:induction false} BitOfZero(j: nat)
    ensures !BitOf(0, j)
  {
    if j > 0 {
      BitOfZero(j - 1);
    }
  }

  /** The only bit of 2^k is bit k. */
  lemma {:induction false} BitOfPow2(k: nat, j: nat)
    ensures BitOf(Pow2(k), j) == (j == k)
  {
    if j == 0 {
    } else if k == 0 {
      BitOfZero(j - 1);
    } else {
      BitOfPow2(k - 1, j - 1);
    }
  }

  /** `a | b` on non-negative integers below 2^31, where ToInt32 changes neither. */
  function Or(a: nat, b: nat): nat
    decreases a + b
  {
    if a == 0 then b
    else if b == 0 then a
    else 2 * Or(a / 2, b / 2) + (if a % 2 == 1 || b % 2 == 1 then 1 else 0)
  }

  /** Each bit of `a | b` is set iff it is set in a or in b. */
  lemma {:induction false} OrBits(a: nat, b: nat, j: nat)
    ensures BitOf(Or(a, b), j) == (BitOf(a, j) || BitOf(b, j))
    decreases j
  {
    BitOfZero(j);
    if a != 0 && b != 0 && j > 0 {
      var low := if a % 2 == 1 || b % 2 == 1 then 1 else 0;
      assert (2 * Or(a / 2, b / 2) + low) / 2 == Or(a / 2, b / 2);
      OrBits(a / 2, b / 2, j - 1);
    }
  }

  /** `|` of two values below 2^k stays below 2^k. */
  lemma {:induction false} OrBound(a: nat, b: nat, k: nat)
    requires a < Pow2(k) && b < Pow2(k)
    ensures Or(a, b) < Pow2(k)
    decreases k
  {
    if a != 0 && b != 0 {
      OrBound(a / 2, b / 2, k - 1);
    }
  }

  /** Exclusive or of the binary digits of two non-negative integers. */
  function BitXor(a: nat, b: nat): nat
    decreases a + b
  {
    if a == 0 then b
    else if b == 0 then a
    else 2 * BitXor(a / 2, b / 2) + (if a % 2 != b % 2 then 1 else 0)
  }

  /** Each bit of BitXor(a, b) is set iff exactly one of a and b has it. */
  lemma {:induction false} XorBits(a: nat, b: nat, j: nat)
    ensures BitOf(BitXor(a, b), j) == (BitOf(a, j) != BitOf(b, j))
    decreases j
  {
    BitOfZero(j);
    if a != 0 && b != 0 && j > 0 {
      var low := if a % 2 != b % 2 then 1 else 0;
      assert (2 * BitXor(a / 2, b / 2) + low) / 2 == BitXor(a / 2, b / 2);
      XorBits(a / 2, b / 2, j - 1);
    }
  }

  /** The xor of two values below 2^k stays below 2^k. */
  lemma {:induction false} XorBound(a: nat, b: nat, k: nat)
    requires a < Pow2(k) && b < Pow2(k)
    ensures BitXor(a, b) < Pow2(k)
    decreases k
  {
    if a != 0 && b != 0 {
      XorBound(a / 2, b / 2, k - 1);
    }
  }

  /** A uint32 survives the round trip through ToInt32 and back. */
  lemma Uint32OfInt32(z: int)
    requires 0 <= z < TwoTo32
    ensures ToUint32(ToInt32(z)) == z
  {
  }

  /** Powers of two multiply by adding exponents. */
  lemma {:induction false} Pow2Add(a: nat, b: nat)
    ensures Pow2(a + b) == Pow2(a) * Pow2(b)
    decreases a
  {
    if a > 0 {
      Pow2Add(a - 1, b);
    }
  }

  /** 2^32 as a power of two. */
  lemma Pow2Of32()
    ensures Pow2(32) == TwoTo32
  {
    assert Pow2(8) == 256;
    Pow2Add(8, 8);
    Pow2Add(16, 16);
  }

  /** `((x >>> s) & 1) === 1`: bit `s mod 32` of ToUint32(x). */
  function UShrBit(x: int, s: int): bool {
    BitOf(ToUint32(x), s % 32)
  }

  /** The ASCII text of a Dafny string literal as a JavaScript string. */
  function Ascii(s: string): (r: JsString)
    requires forall i :: 0 <= i < |s| ==> s[i] as int < 0x80
    ensures |r| == |s|
    ensures forall i :: 0 <= i < |s| ==> r[i] == s[i] as int
  {
    seq(|s|, i requires 0 <= i < |s| => s[i] as int)
  }
}

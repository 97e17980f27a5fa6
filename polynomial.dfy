/** `QRPolynomial`: coefficient vectors, highest degree first, over the
    encoder's log/antilog tables. Coefficients are JavaScript numbers;
    `undefined` and `NaN` met along the way are modelled as None. */
module Polynomial {
  import opened Js
  import opened Galois

  /** `x + y` on numbers that may be undefined or NaN. */
  function Plus(x: Option<int>, y: Option<int>): (r: Option<int>)
    ensures r.Some? <==> x.Some? && y.Some?
  {
    if x.Some? && y.Some? then Some(x.value + y.value) else None
  }

  /** `x - y` on numbers that may be undefined or NaN. */
  function Minus(x: Option<int>, y: Option<int>): (r: Option<int>)
    ensures r.Some? <==> x.Some? && y.Some?
  {
    if x.Some? && y.Some? then Some(x.value - y.value) else None
  }

  /** The number an operand of `^` stands for: undefined and NaN become 0. */
  function XorOperand(y: Option<int>): int {
    if y.Some? then y.value else 0
  }

  /** `x ^ y`: both operands go through ToInt32 and the 32 bits are xor-ed;
      an undefined or NaN operand counts as 0, so `x ^ undefined` is x as
      an int32. */
  function Xor(x: int, y: Option<int>): (r: int)
    ensures IsInt32(r)
    ensures forall j :: 0 <= j < 32 ==>
      BitOf(ToUint32(r), j) == (BitOf(ToUint32(x), j) != BitOf(ToUint32(XorOperand(y)), j))
    ensures y.None? ==> r == ToInt32(x)
  {
    var a, b := ToUint32(x), ToUint32(XorOperand(y));
    var bits := BitXor(a, b);
    Pow2Of32();
    XorBound(a, b, 32);
    Uint32OfInt32(bits);
    assert forall j :: 0 <= j < 32 ==> BitOf(bits, j) == (BitOf(a, j) != BitOf(b, j)) by {
      forall j | 0 <= j < 32 {
        XorBits(a, b, j);
      }
    }
    ToInt32(bits)
  }

  /** A term of `multiply`, `gexp(glog(x) + glog(y))` for byte coefficients
      x and y: the logs add without wrapping and the sum stays inside the
      512-entry table, so the term is the generator value at the sum of the
      exponents modulo 255 and is never undefined. */
  lemma ProductTerm(x: int, y: int)
    requires 1 <= x < 256 && 1 <= y < 256
    ensures var lx, ly := Glog(Some(x)).value.value, Glog(Some(y)).value.value;
      Gexp(Plus(Some(lx), Some(ly))) == Some(Key((lx + ly) % 255))
  {
    var lx, ly := Glog(Some(x)).value.value, Glog(Some(y)).value.value;
    ExpTableAt(lx + ly);
  }

  /** A term of `mod`, `gexp(glog(e[i]) + ratio)` with ratio the difference
      of the leading logs: a non-negative exponent sum reads the generator
      value at the sum modulo 255, and a negative one falls outside the
      table and reads undefined, which the following `^=` treats as 0. */
  lemma ScaledTerm(li: int, la: int, le: int)
    requires 0 <= li < 255 && 0 <= la < 255 && 0 <= le < 255
    ensures var s := li + (la - le);
      Gexp(Plus(Some(li), Minus(Some(la), Some(le)))) ==
        if s >= 0 then Some(Key(s % 255)) else None
  {
    var s := li + (la - le);
    if s >= 0 {
      ExpTableAt(s);
    }
  }

  /** `getAt(i)`: the coefficient, or undefined past either end. */
  function At(p: seq<int>, i: int): (r: Option<int>)
    ensures r.Some? <==> 0 <= i < |p|
  {
    if 0 <= i < |p| then Some(p[i]) else None
  }

  /** The number of leading `=== 0` coefficients. */
  function LeadingZeros(num: seq<int>): (z: nat)
    ensures z <= |num|
    ensures forall i :: 0 <= i < z ==> num[i] == 0
    ensures z < |num| ==> num[z] != 0
  {
    if num == [] || num[0] != 0 then 0 else 1 + LeadingZeros(num[1..])
  }

  /** The `QRPolynomial(num, shift)` constructor: drops every leading zero,
      then appends `shift` zero coefficients. */
  method NewPolynomial(num: seq<int>, shift: nat) returns (n: seq<int>)
    ensures |n| == |num| - LeadingZeros(num) + shift
    ensures n[..|num| - LeadingZeros(num)] == num[LeadingZeros(num)..]
    ensures forall i :: |num| - LeadingZeros(num) <= i < |n| ==> n[i] == 0
    ensures (exists i :: 0 <= i < |num| && num[i] != 0) ==> |n| > 0 && n[0] != 0
  {
    var offset := 0;
    while offset < |num| && num[offset] == 0
      invariant 0 <= offset <= |num|
      invariant forall i :: 0 <= i < offset ==> num[i] == 0
    {
      offset := offset + 1;
    }
    assert offset == LeadingZeros(num);
    var a := new int[|num| - offset + shift](_ => 0);
    for i := 0 to |num| - offset
      invariant forall j :: 0 <= j < i ==> a[j] == num[j + offset]
      invariant forall j :: i <= j < a.Length ==> a[j] == 0
    {
      a[i] := num[i + offset];
    }
    n := a[..];
    assert n[..|num| - offset] == num[offset..];
  }

  /** `multiply(e)`: accumulates `gexp(glog(a[i]) + glog(b[j]))` into entry
      i + j by xor, then normalises. `glog` throws on a coefficient below 1,
      so any zero coefficient makes the product throw (nothing skips it);
      two empty operands make `new Array(-1)` throw. */
  method Multiply(a: seq<int>, b: seq<int>) returns (r: Outcome<seq<int>>)
    ensures r.Throws? <==>
      || (|a| == 0 && |b| == 0)
      || (|b| > 0 && exists i :: 0 <= i < |a| && a[i] < 1)
      || (|a| > 0 && exists j :: 0 <= j < |b| && b[j] < 1)
    ensures r.Returns? ==> |r.value| <= |a| + |b| - 1
    ensures r.Returns? && |r.value| > 0 ==> r.value[0] != 0
  {
    if |a| + |b| - 1 < 0 {
      return Throws;
    }
    var num := seq(|a| + |b| - 1, _ => 0);
    for i := 0 to |a|
      invariant |num| == |a| + |b| - 1
      invariant |b| > 0 ==> forall k :: 0 <= k < i ==> a[k] >= 1
      invariant i > 0 ==> forall k :: 0 <= k < |b| ==> b[k] >= 1
    {
      for j := 0 to |b|
        invariant |num| == |a| + |b| - 1
        invariant forall k :: 0 <= k < j ==> b[k] >= 1
        invariant j > 0 ==> a[i] >= 1
      {
        var la := Glog(Some(a[i]));
        if la.Throws? {
          return Throws;
        }
        var lb := Glog(Some(b[j]));
        if lb.Throws? {
          return Throws;
        }
        num := num[i + j := Xor(num[i + j], Gexp(Plus(la.value, lb.value)))];
      }
    }
    var p := NewPolynomial(num, 0);
    return Returns(p);
  }

  /** What `mod` ends with: a remainder, a thrown `glog` error, or no answer
      within the given recursion depth. */
  datatype ModResult = Remainder(coeffs: seq<int>) | ModThrows | OutOfFuel

  /** `mod(e)`: while the dividend is at least as long as the divisor, xor in
      the divisor scaled by the ratio of leading logs and recurse on the
      normalised result. Nothing guarantees the leading term cancels with
      these tables, so the recursion depth is bounded by `fuel`. */
  method Mod(a: seq<int>, e: seq<int>, fuel: nat) returns (r: ModResult)
    ensures |a| < |e| ==> r == Remainder(a)
    ensures r.Remainder? ==> |r.coeffs| < |e|
    ensures |e| <= |a| && fuel > 0 && (exists i :: 0 <= i < |e| && e[i] < 1) ==> r == ModThrows
    ensures |e| <= |a| && fuel > 0 && |a| > 0 && a[0] < 1 ==> r == ModThrows
    decreases fuel
  {
    if |a| - |e| < 0 {
      return Remainder(a);
    }
    if fuel == 0 {
      return OutOfFuel;
    }
    var la := Glog(At(a, 0));
    if la.Throws? {
      return ModThrows;
    }
    var le := Glog(At(e, 0));
    if le.Throws? {
      return ModThrows;
    }
    var ratio := Minus(la.value, le.value);
    var num := a;
    for i := 0 to |e|
      invariant |num| == |a|
      invariant forall k :: 0 <= k < i ==> e[k] >= 1
    {
      var lg := Glog(Some(e[i]));
      if lg.Throws? {
        return ModThrows;
      }
      num := num[i := Xor(num[i], Gexp(Plus(lg.value, ratio)))];
    }
    var p := NewPolynomial(num, 0);
    r := Mod(p, e, fuel - 1);
  }
}

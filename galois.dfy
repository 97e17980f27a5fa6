/** The log/antilog tables of the QR encoder (`QRMath.glog`, `QRMath.gexp`).
    The generator runs on JavaScript int32 values and never masks the
    running power back to 8 bits, so past 2^7 the tables leave GF(256):
    the eighth power is 285 and the values later wrap around 32 bits. */
module Galois {
  import opened Js

  /** `p = (p << 1) ^ (p & 0x80 ? 0x1d : 0)` on the int32 bits of p. */
  function Step(p: bv32): bv32 {
    (p << 1) ^ (if p & 0x80 != 0 then 0x1d else 0)
  }

  /** The value of `p` at the start of iteration i of either table loop. */
  function Power(i: nat): bv32 {
    if i == 0 then 1 else Step(Power(i - 1))
  }

  /** The JavaScript number an int32 bit pattern denotes. */
  function Signed(b: bv32): int {
    if b < 0x8000_0000 then b as int else b as int - TwoTo32
  }

  /** The number stored for iteration i: `e[i] = p` and the key of `l[p] = i`. */
  function Key(i: nat): int {
    Signed(Power(i))
  }

  /** `QRMath.EXP`: 512 entries cycling through the first 255 powers. */
  function ExpTable(): (e: seq<int>)
    ensures |e| == 512
  {
    seq(512, i requires 0 <= i < 512 => Key(i % 255))
  }

  lemma ExpTableAt(i: nat)
    requires i < 512
    ensures ExpTable()[i] == Key(i % 255)
  {
  }

  /** The table repeats with period 255: every entry past the first 255
      equals the entry 255 places before it, so an exponent from 0 to 510
      reads the same value as that exponent modulo 255. */
  lemma ExpPeriodic(i: int)
    requires 0 <= i < 512 - 255
    ensures ExpTable()[i + 255] == ExpTable()[i]
    ensures ExpTable()[i + 255] == ExpTable()[(i + 255) % 255]
  {
    var k := if i < 255 then i else i - 255;
    assert i % 255 == k && (i + 255) % 255 == k;
    ExpTableAt(i);
    ExpTableAt(i + 255);
    ExpTableAt(k);
  }

  /** Builds `QRMath.EXP` as `gexp` does on first use. */
  method BuildExp() returns (table: seq<int>)
    ensures table == ExpTable()
  {
    var e := new int[512](_ => 0);
    FillPowers(e);
    FillCycle(e);
    table := e[..];
    ExpCycle(table);
  }

  /** The first loop: `e[i] = p` for the first 255 powers; the entries
      from 255 on are left as they were. */
  method FillPowers(e: array<int>)
    requires e.Length == 512
    modifies e
    ensures forall j :: 0 <= j < 255 ==> e[j] == Key(j)
    ensures forall j :: 255 <= j < 512 ==> e[j] == old(e[j])
  {
    var p: bv32 := 1;
    for i := 0 to 255
      invariant p == Power(i)
      invariant forall j :: 0 <= j < i ==> e[j] == Key(j)
      invariant forall j :: 255 <= j < 512 ==> e[j] == old(e[j])
    {
      e[i] := Signed(p);
      p := Step(p);
    }
  }

  /** The second loop: `e[i] = e[i - 255]` for the remaining entries. */
  method FillCycle(e: array<int>)
    requires e.Length == 512
    modifies e
    ensures forall j :: 0 <= j < 255 ==> e[j] == old(e[j])
    ensures forall j :: 255 <= j < 512 ==> e[j] == e[j - 255]
  {
    for i := 255 to 512
      invariant forall j :: 0 <= j < 255 ==> e[j] == old(e[j])
      invariant forall j :: 255 <= j < i ==> e[j] == e[j - 255]
    {
      e[i] := e[i - 255];
    }
  }

  /** A table of 512 entries that starts with the first 255 powers and
      repeats itself every 255 entries is `QRMath.EXP`. */
  lemma ExpCycle(t: seq<int>)
    requires |t| == 512
    requires forall i :: 0 <= i < 255 ==> t[i] == Key(i)
    requires forall i :: 255 <= i < 512 ==> t[i] == t[i - 255]
    ensures t == ExpTable()
  {
    forall i | 0 <= i < 512
      ensures t[i] == ExpTable()[i]
    {
      ExpTableAt(i);
      if 510 <= i {
        assert i % 255 == i - 510;
        assert t[i] == t[i - 255] == t[i - 510];
      } else if 255 <= i {
        assert i % 255 == i - 255;
      } else {
        assert i % 255 == i;
      }
    }
  }

  /** The log table after the writes of iterations i..254 have been applied to m. */
  function LogFrom(m: map<int, int>, i: nat): map<int, int>
    decreases 255 - i
  {
    if i >= 255 then m else LogFrom(m[Key(i) := i], i + 1)
  }

  /** `QRMath.LOG`: 256 zeros, then `l[p] = i` for every power; a sparse
      JavaScript array, so keys outside 0..255 are kept too. */
  function LogTable(): map<int, int> {
    LogFrom(ZeroFilled(256), 0)
  }

  /** n is an index of an array of length k; it gives the map comprehension
      of ZeroFilled a term to trigger on. */
  predicate IsIndex(n: int, k: nat) {
    0 <= n < k
  }

  /** `new Array(k).fill(0)` as a map from index to value. */
  function ZeroFilled(k: nat): (m: map<int, int>)
    ensures forall n :: n in m <==> 0 <= n < k
    ensures forall n :: n in m ==> m[n] == 0
  {
    map n | 0 <= n < k && IsIndex(n, k) :: 0
  }

  /** Builds `QRMath.LOG` as `glog` does on first use. */
  method BuildLog() returns (table: map<int, int>)
    ensures table == LogTable()
  {
    var l := ZeroFilled(256);
    var p: bv32 := 1;
    for i := 0 to 255
      invariant p == Power(i)
      invariant LogFrom(l, i) == LogTable()
    {
      l := l[Signed(p) := i];
      p := Step(p);
    }
    table := l;
  }

  /** What the log table holds after the writes of iterations before i. */
  ghost predicate LogShape(m: map<int, int>, i: nat)
    requires i <= 255
  {
    && (forall n :: 0 <= n < 256 ==> n in m)
    && (forall j :: 0 <= j < i ==> Key(j) in m && j <= m[Key(j)] < i)
    && (forall n :: n in m ==> (0 <= n < 256 && m[n] == 0) || (0 <= m[n] < i && Key(m[n]) == n))
  }

  lemma {:induction false} LogFromShape(m: map<int, int>, i: nat)
    requires i <= 255 && LogShape(m, i)
    ensures LogShape(LogFrom(m, i), 255)
    decreases 255 - i
  {
    if i < 255 {
      var m' := m[Key(i) := i];
      assert LogShape(m', i + 1) by {
        forall j | 0 <= j < i + 1
          ensures Key(j) in m' && j <= m'[Key(j)] < i + 1
        {
          if Key(j) != Key(i) {
            assert j < i;
          }
        }
      }
      LogFromShape(m', i + 1);
    }
  }

  /** Every byte value has a log-table entry; every entry is either an untouched
      zero or an exponent whose power is the key; and each power's entry is
      the latest exponent that produced it. */
  lemma LogTableShape()
    ensures LogShape(LogTable(), 255)
  {
    LogFromShape(ZeroFilled(256), 0);
  }

  /** `QRMath.glog(n)`: throws for n < 1, otherwise `LOG[n]`, which is
      `undefined` (None) for a key the table never received; an undefined
      or NaN argument (None) compares false with 1 and reads undefined. */
  function Glog(n: Option<int>): (r: Outcome<Option<int>>)
    ensures r.Throws? <==> (n.Some? && n.value < 1)
    ensures n.Some? && 1 <= n.value < 256 ==> r.Returns? && r.value.Some? && 0 <= r.value.value < 255
  {
    LogTableShape();
    match n
    case None => Returns(None)
    case Some(x) =>
      if x < 1 then Throws
      else if x in LogTable() then Returns(Some(LogTable()[x]))
      else Returns(None)
  }

  /** `QRMath.gexp(n)`: `EXP[n]`, undefined (None) outside 0..511 or for NaN. */
  function Gexp(n: Option<int>): (r: Option<int>)
    ensures r.Some? <==> (n.Some? && 0 <= n.value < 512)
  {
    if n.Some? && 0 <= n.value < 512 then Some(ExpTable()[n.value]) else None
  }

  lemma GexpOfExponent(l: nat)
    requires l < 255
    ensures Gexp(Some(l)) == Some(Key(l))
  {
    ExpTableAt(l);
  }

  /** The first eight entries are the powers of two; the ninth is 285,
      because nothing reduces the running value back to a byte. */
  lemma {:induction false} GexpLowPowers()
    ensures forall k :: 0 <= k < 8 ==> Gexp(Some(k)) == Some(Pow2(k))
    ensures Gexp(Some(8)) == Some(285)
  {
    forall k | 0 <= k < 8
      ensures Gexp(Some(k)) == Some(Pow2(k))
    {
      ExpTableAt(k);
      if k == 0 { assert Power(0) == 1; }
      else if k == 1 { assert Power(1) == 2; }
      else if k == 2 { assert Power(2) == 4; }
      else if k == 3 { assert Power(3) == 8; }
      else if k == 4 { assert Power(4) == 16; }
      else if k == 5 { assert Power(5) == 32; }
      else if k == 6 { assert Power(6) == 64; }
      else { assert Power(7) == 128; }
    }
    ExpTableAt(8);
    assert Power(8) == 285;
  }

  /** glog and gexp are inverse only on the powers: a byte n >= 1 either is a
      power, and then gexp(glog(n)) == n, or has log 0 (and gexp(0) == 1). */
  lemma {:induction false} GlogGexp(n: int)
    requires 1 <= n < 256
    ensures Glog(Some(n)).Returns? && Glog(Some(n)).value.Some?
    ensures var l := Glog(Some(n)).value.value;
      l == 0 || Gexp(Some(l)) == Some(n)
  {
    LogTableShape();
    var m := LogTable();
    assert n in m;
    var l := m[n];
    assert Glog(Some(n)) == Returns(Some(l));
    if l != 0 {
      assert 0 <= l < 255 && Key(l) == n;
      GexpOfExponent(l);
    }
  }
}

/** The deterministic helpers of the seed data: the djb2-style string hash
    with 32-bit wrap-around, the teacher and friend choices it drives, and
    `classNames`. */
module SeedData {
  import opened Js

  // ---------------------------------------------------------------------
  // hashString

  /** One iteration of the hash loop: `h = (h << 5) + h + c; h |= 0`.
      The shift and the `|=` both wrap to int32; together they compute
      33h + c modulo 2^32. */
  function Mix(h: int, c: CodeUnit): (r: int)
    requires IsInt32(h)
    ensures IsInt32(r) && r == ToInt32(33 * h + c)
  {
    var shifted := ToInt32(h * 32);
    assert ((shifted + h + c) - (33 * h + c)) % TwoTo32 == 0 by {
      var q := (h * 32 - shifted) / TwoTo32;
      assert (shifted + h + c) - (33 * h + c) == TwoTo32 * -q;
      ModShift(0, -q);
    }
    ToInt32Congruent(shifted + h + c, 33 * h + c);
    ToInt32(shifted + h + c)
  }

  /** The value of `h` after the loop has read the code units of s. */
  function Hash(s: JsString): (h: int)
    ensures IsInt32(h)
  {
    if s == [] then 5381 else Mix(Hash(s[..|s| - 1]), s[|s| - 1])
  }

  /** The same recurrence on unbounded integers: 5381 * 33^n + sum of c_i * 33^(n-1-i). */
  function Poly(s: JsString): int {
    if s == [] then 5381 else 33 * Poly(s[..|s| - 1]) + s[|s| - 1]
  }

  /** Scaling by 33 and adding c respects congruence modulo 2^32. */
  lemma ScaleCongruent(x: int, y: int, c: int)
    requires (x - y) % TwoTo32 == 0
    ensures ToInt32(33 * x + c) == ToInt32(33 * y + c)
  {
    var q := (x - y) / TwoTo32;
    assert x - y == TwoTo32 * q;
    assert (33 * x + c) - (33 * y + c) == TwoTo32 * (33 * q);
    ModShift(0, 33 * q);
    ToInt32Congruent(33 * x + c, 33 * y + c);
  }

  /** Wrapping after every step gives the wrapped unbounded hash: h is
      ToInt32 of the djb2 polynomial. */
  lemma {:induction false} HashIsWrappedPoly(s: JsString)
    ensures Hash(s) == ToInt32(Poly(s))
  {
    if s != [] {
      var p, c := s[..|s| - 1], s[|s| - 1];
      HashIsWrappedPoly(p);
      assert Hash(s) == ToInt32(33 * Hash(p) + c);
      assert Poly(s) == 33 * Poly(p) + c;
      ScaleCongruent(Poly(p), Hash(p), c);
    }
  }

  /** `Math.abs`. */
  function Abs(x: int): int {
    if x < 0 then -x else x
  }

  /** What `hashString(str)` returns: the absolute value of an int32, so a
      number from 0 to 2^31 (2^31 itself when h ends at -2^31). */
  function HashValue(s: JsString): (r: nat)
    ensures r <= TwoTo31
  {
    Abs(Hash(s))
  }

  /** `hashString` (lines 38-45). */
  method HashString(str: JsString) returns (r: int)
    ensures r == HashValue(str)
    ensures 0 <= r <= TwoTo31
    ensures str == [] ==> r == 5381
  {
    var h := 5381;
    for i := 0 to |str|
      invariant h == Hash(str[..i])
    {
      assert str[..i + 1][..i] == str[..i];
      h := ToInt32(ToInt32(h * 32) + h + str[i]);
    }
    assert str[..|str|] == str;
    r := Abs(h);
  }

  // ---------------------------------------------------------------------
  // Teacher and friends of a session

  /** `TEACHERS`. */
  function Teachers(): seq<JsString> {
    [Ascii("Nithyashree"), Ascii("Monia")]
  }

  /** `hashString(id) % TEACHERS.length`: the hash is never negative, so the
      index is 0 or 1 and the lookup never reads past the list. */
  function TeacherIndex(id: JsString): (k: int)
    ensures 0 <= k < |Teachers()|
  {
    HashValue(id) % |Teachers()|
  }

  /** `TEACHERS[hashString(id) % TEACHERS.length]`. */
  function Teacher(id: JsString): (t: JsString)
    ensures t in Teachers()
  {
    Teachers()[TeacherIndex(id)]
  }

  /** A friend; the emoji only decorates the view. */
  datatype Friend = Friend(id: JsString, name: JsString)

  /** `FRIENDS`. */
  function Friends(): seq<Friend> {
    [ Friend(Ascii("aanya"), Ascii("Aanya")), Friend(Ascii("kabir"), Ascii("Kabir")),
      Friend(Ascii("maya"), Ascii("Maya")), Friend(Ascii("zoya"), Ascii("Zoya")),
      Friend(Ascii("arjun"), Ascii("Arjun")), Friend(Ascii("ira"), Ascii("Ira")) ]
  }

  /** The filter test of line 65: `hashString(id + f.id) % 5 < 2`. */
  predicate Goes(id: JsString, f: Friend) {
    HashValue(id + f.id) % 5 < 2
  }

  /** `fs.filter((f) => hashString(id + f.id) % 5 < 2)`. */
  function Going(id: JsString, fs: seq<Friend>): (r: seq<Friend>)
    ensures |r| <= |fs|
    ensures forall f :: f in r <==> f in fs && Goes(id, f)
  {
    if fs == [] then [] else Going(id, fs[..|fs| - 1]) + (if Goes(id, fs[|fs| - 1]) then [fs[|fs| - 1]] else [])
  }

  /** The filter keeps list order: filtering a concatenation concatenates
      the filtered parts. */
  lemma {:induction false} GoingAppend(id: JsString, a: seq<Friend>, b: seq<Friend>)
    ensures Going(id, a + b) == Going(id, a) + Going(id, b)
    decreases |b|
  {
    if b != [] {
      var b' := b[..|b| - 1];
      assert (a + b)[..|a + b| - 1] == a + b';
      GoingAppend(id, a, b');
    } else {
      assert a + b == a;
    }
  }

  /** `.slice(0, 3)` of the filtered friends: the first three that go, in
      list order, or all of them if fewer go. */
  function Chosen(id: JsString): (r: seq<Friend>)
    ensures |r| <= 3
    ensures |r| == if |Going(id, Friends())| < 3 then |Going(id, Friends())| else 3
    ensures r == Going(id, Friends())[..|r|]
    ensures forall f :: f in r ==> f in Friends() && Goes(id, f)
  {
    var going := Going(id, Friends());
    if |going| <= 3 then going else going[..3]
  }

  /** `chosen.map((f) => f.id)`. */
  function ChosenIds(id: JsString): (r: seq<JsString>)
    ensures |r| == |Chosen(id)| && forall i :: 0 <= i < |r| ==> r[i] == Chosen(id)[i].id
  {
    seq(|Chosen(id)|, i requires 0 <= i < |Chosen(id)| => Chosen(id)[i].id)
  }

  /** x is the id of a friend in `FRIENDS` who passes the hash test. */
  predicate GoingFriendId(id: JsString, x: JsString) {
    exists f :: f in Friends() && Goes(id, f) && f.id == x
  }

  /** Read against `FRIENDS` itself: at most three ids, each the id of a
      friend who passes the hash test, and when fewer than three are listed
      no friend who passes was left out. */
  lemma ChosenIdsFriends(id: JsString)
    ensures |ChosenIds(id)| <= 3
    ensures forall x :: x in ChosenIds(id) ==> GoingFriendId(id, x)
    ensures |ChosenIds(id)| < 3 ==>
      forall f :: f in Friends() && Goes(id, f) ==> f.id in ChosenIds(id)
  {
    PrefixIds(id, Friends(), Chosen(id), ChosenIds(id));
  }

  /** The ids of a prefix of the friends in `fs` who pass the test, which
      is all of them when it is shorter than three. */
  lemma PrefixIds(id: JsString, fs: seq<Friend>, chosen: seq<Friend>, ids: seq<JsString>)
    requires |chosen| <= |Going(id, fs)| && chosen == Going(id, fs)[..|chosen|]
    requires |chosen| < 3 ==> |chosen| == |Going(id, fs)|
    requires |ids| == |chosen| && forall i :: 0 <= i < |ids| ==> ids[i] == chosen[i].id
    ensures forall i :: 0 <= i < |ids| ==> exists f :: f in fs && Goes(id, f) && f.id == ids[i]
    ensures |ids| < 3 ==> forall f :: f in fs && Goes(id, f) ==> f.id in ids
  {
    var going := Going(id, fs);
    forall i | 0 <= i < |ids|
      ensures exists f :: f in fs && Goes(id, f) && f.id == ids[i]
    {
      assert chosen[i] == going[i] && going[i] in going;
    }
    if |ids| < 3 {
      assert chosen == going;
      forall f | f in fs && Goes(id, f)
        ensures f.id in ids
      {
        var k :| 0 <= k < |chosen| && chosen[k] == f;
        assert ids[k] == f.id;
      }
    }
  }

  // ---------------------------------------------------------------------
  // classNames

  /** One argument of `classNames`: a string, `false` or `undefined`. */
  datatype ClassArg = Str(s: JsString) | False | Undefined

  /** `Boolean(x)`: only a non-empty string is truthy. */
  predicate Truthy(x: ClassArg) {
    x.Str? && |x.s| > 0
  }

  /** `xs.filter(Boolean)`: the truthy strings, in order. */
  function Kept(xs: seq<ClassArg>): (r: seq<JsString>)
    ensures |r| <= |xs|
    ensures forall i :: 0 <= i < |r| ==> |r[i]| > 0
  {
    if xs == [] then []
    else Kept(xs[..|xs| - 1]) + (if Truthy(xs[|xs| - 1]) then [xs[|xs| - 1].s] else [])
  }

  /** The code unit of " ". */
  const Space: CodeUnit := 0x20

  /** The total length of some strings. */
  function SumLengths(parts: seq<JsString>): nat {
    if parts == [] then 0 else SumLengths(parts[..|parts| - 1]) + |parts[|parts| - 1]|
  }

  /** `parts.join(" ")`: the parts in order with one space between each
      neighbouring pair, starting with the first part and ending with the
      last. */
  function Join(parts: seq<JsString>): (r: JsString)
    ensures parts == [] ==> r == []
    ensures parts != [] ==> |r| == SumLengths(parts) + |parts| - 1
    ensures parts != [] ==> |parts[0]| <= |r| && r[..|parts[0]|] == parts[0]
    ensures parts != [] ==> r[|r| - |parts[|parts| - 1]|..] == parts[|parts| - 1]
    ensures |parts| > 1 ==> r == Join(parts[..|parts| - 1]) + [Space] + parts[|parts| - 1]
  {
    if parts == [] then []
    else if |parts| == 1 then parts[0]
    else
      var init, last := parts[..|parts| - 1], parts[|parts| - 1];
      var j := Join(init);
      var r := j + [Space] + last;
      assert init[0] == parts[0];
      assert r[..|parts[0]|] == j[..|parts[0]|];
      assert r[|r| - |last|..] == last;
      r
  }

  /** `classNames(...xs)`: the truthy classes joined by single spaces,
      empty when there are none, otherwise starting with the first truthy
      class and ending with the last. */
  function ClassNames(xs: seq<ClassArg>): (r: JsString)
    ensures Kept(xs) == [] ==> r == []
    ensures Kept(xs) != [] ==> |r| == SumLengths(Kept(xs)) + |Kept(xs)| - 1
    ensures Kept(xs) != [] ==> |Kept(xs)[0]| <= |r| && r[..|Kept(xs)[0]|] == Kept(xs)[0]
    ensures Kept(xs) != [] ==> r[|r| - |Kept(xs)[|Kept(xs)| - 1]|..] == Kept(xs)[|Kept(xs)| - 1]
  {
    Join(Kept(xs))
  }

  /** The result is empty exactly when no argument is truthy. */
  lemma {:induction false} ClassNamesEmpty(xs: seq<ClassArg>)
    ensures ClassNames(xs) == [] <==> forall i :: 0 <= i < |xs| ==> !Truthy(xs[i])
    decreases |xs|
  {
    if xs != [] {
      var p := xs[..|xs| - 1];
      ClassNamesEmpty(p);
      KeptEmpty(p);
      KeptEmpty(xs);
      JoinEmpty(Kept(xs));
      JoinEmpty(Kept(p));
      assert forall i :: 0 <= i < |p| ==> p[i] == xs[i];
    }
  }

  /** No truthy argument leaves nothing to join. */
  lemma {:induction false} KeptEmpty(xs: seq<ClassArg>)
    ensures Kept(xs) == [] <==> forall i :: 0 <= i < |xs| ==> !Truthy(xs[i])
    decreases |xs|
  {
    if xs != [] {
      var p := xs[..|xs| - 1];
      KeptEmpty(p);
      assert forall i :: 0 <= i < |p| ==> p[i] == xs[i];
    }
  }

  /** Joining non-empty parts is empty only when there are no parts. */
  lemma JoinEmpty(parts: seq<JsString>)
    requires forall i :: 0 <= i < |parts| ==> |parts[i]| > 0
    ensures Join(parts) == [] <==> parts == []
  {
  }

  /** Appending a truthy class adds it after one space, or alone when
      nothing came before; a falsy argument changes nothing. */
  lemma ClassNamesAppend(xs: seq<ClassArg>, x: ClassArg)
    ensures ClassNames(xs + [x]) ==
      if !Truthy(x) then ClassNames(xs)
      else if Kept(xs) == [] then x.s
      else ClassNames(xs) + [Space] + x.s
  {
    assert (xs + [x])[..|xs|] == xs;
    var k := Kept(xs);
    if Truthy(x) {
      assert Kept(xs + [x]) == k + [x.s];
      var parts := k + [x.s];
      assert parts[..|parts| - 1] == k;
      if k != [] {
        assert Join(parts) == Join(k) + [Space] + x.s;
      }
    } else {
      assert Kept(xs + [x]) == k + [];
      assert k + [] == k;
    }
  }
}

/** The module matrix of `createQRCode`: a 25 x 25 grid of booleans, three
    finder patterns stamped into it, then the data bits laid out in the
    two-column zig-zag, skipping every module that is already dark. */
module Symbol {
  import opened Js
  import opened QrBits
  import opened Payload

  /** `moduleCount`. */
  const Size: int := 25

  /** The number of modules the zig-zag visits: 12 column pairs of 25 rows. */
  const Visits: int := 600

  /** A snapshot of the module matrix, row by row. */
  type Grid = seq<seq<bool>>

  predicate IsGrid(g: Grid) {
    |g| == Size && forall i :: 0 <= i < Size ==> |g[i]| == Size
  }

  /** The module matrix as a value. */
  function Snap(m: array2<bool>): (g: Grid)
    requires m.Length0 == Size && m.Length1 == Size
    reads m
    ensures IsGrid(g)
    ensures forall i, j :: 0 <= i < Size && 0 <= j < Size ==> g[i][j] == m[i, j]
  {
    seq(Size, i requires 0 <= i < Size reads m => seq(Size, j requires 0 <= j < Size reads m => m[i, j]))
  }

  // ---------------------------------------------------------------------
  // Finder patterns

  /** Whether module (r, c) of a 7 x 7 finder pattern is dark: the outer
      ring and the 3 x 3 centre. */
  predicate FinderDark(r: int, c: int) {
    (r == 0 || r == 6 || c == 0 || c == 6) || (2 <= r <= 4 && 2 <= c <= 4)
  }

  /** Whether (i, j) lies in the 7 x 7 box whose top-left module is (row, col). */
  predicate InBox(i: int, j: int, row: int, col: int) {
    row <= i <= row + 6 && col <= j <= col + 6
  }

  /** `placeFinder(row, col)`: visits the 9 x 9 box around the pattern,
      skips modules off the grid, and overwrites only the 7 x 7 pattern;
      the ring of separator modules around it is left as it was. */
  method PlaceFinder(m: array2<bool>, row: int, col: int)
    requires m.Length0 == Size && m.Length1 == Size
    modifies m
    ensures forall i, j :: 0 <= i < Size && 0 <= j < Size ==>
      m[i, j] == if InBox(i, j, row, col) then FinderDark(i - row, j - col) else old(m[i, j])
  {
    for r := -1 to 8
      invariant forall i, j :: 0 <= i < Size && 0 <= j < Size ==>
        m[i, j] == if InBox(i, j, row, col) && i - row < r then FinderDark(i - row, j - col) else old(m[i, j])
    {
      for c := -1 to 8
        invariant forall i, j :: 0 <= i < Size && 0 <= j < Size ==>
          m[i, j] == if InBox(i, j, row, col) && (i - row < r || (i - row == r && j - col < c))
            then FinderDark(i - row, j - col) else old(m[i, j])
      {
        var rr, cc := row + r, col + c;
        if rr < 0 || rr >= Size || cc < 0 || cc >= Size {
          continue;
        }
        var inside := 0 <= r <= 6 && 0 <= c <= 6;
        var black := (r == 0 || r == 6 || c == 0 || c == 6) || (2 <= r <= 4 && 2 <= c <= 4);
        m[rr, cc] := if inside then black else m[rr, cc];
      }
    }
  }

  /** The dark modules after the three `placeFinder` calls, at the top-left,
      top-right and bottom-left corners. */
  predicate StampedDark(i: int, j: int) {
    || (InBox(i, j, 0, 0) && FinderDark(i, j))
    || (InBox(i, j, 0, Size - 7) && FinderDark(i, j - (Size - 7)))
    || (InBox(i, j, Size - 7, 0) && FinderDark(i - (Size - 7), j))
  }

  /** The module matrix once the finders are stamped. */
  function Stamped(): (g: Grid)
    ensures IsGrid(g)
    ensures forall i, j :: 0 <= i < Size && 0 <= j < Size ==> g[i][j] == StampedDark(i, j)
  {
    seq(Size, i requires 0 <= i < Size => seq(Size, j requires 0 <= j < Size => StampedDark(i, j)))
  }

  // ---------------------------------------------------------------------
  // The zig-zag traversal

  /** The right-hand column of column pair p: 24, 22, ..., 8, then 5, 3, 1
      (column 6 is stepped over). */
  function PairCol(p: int): int {
    if p < 9 then 24 - 2 * p else 23 - 2 * p
  }

  /** The row of the v-th visit: upward in even pairs, downward in odd ones. */
  function Row(v: int): int {
    var p, s := v / 50, (v % 50) / 2;
    if p % 2 == 0 then 24 - s else s
  }

  /** The column of the v-th visit: right module first, then left. */
  function Col(v: int): int {
    PairCol(v / 50) - v % 2
  }

  /** The visit at which module (i, j) is reached; column 6 is never
      reached, which is written as Visits. */
  function Index(i: int, j: int): int {
    if j == 6 then Visits
    else
      var p := if j > 6 then (24 - j) / 2 else (23 - j) / 2;
      var c := PairCol(p) - j;
      var s := if p % 2 == 0 then 24 - i else i;
      50 * p + 2 * s + c
  }

  /** Every visit is to a module of the grid outside column 6, and Index
      gives the visit back. */
  lemma VisitIndex(v: int)
    requires 0 <= v < Visits
    ensures 0 <= Row(v) < Size && 0 <= Col(v) < Size && Col(v) != 6
    ensures Index(Row(v), Col(v)) == v
  {
    var p, w := v / 50, v % 50;
    var s, c := w / 2, w % 2;
    assert v == 50 * p + 2 * s + c;
    Decompose(p, s, c);
    var j := PairCol(p) - c;
    if p < 9 {
      assert j > 6 && 24 - j == 2 * p + c;
    } else {
      assert j < 6 && 23 - j == 2 * p + c;
    }
    DivMod2(2 * p + c, p, c);
  }

  /** Visit 50p + 2s + c is step s of column pair p, module c of the pair. */
  lemma Decompose(p: int, s: int, c: int)
    requires 0 <= p && 0 <= s < 25 && 0 <= c < 2
    ensures (50 * p + 2 * s + c) / 50 == p
    ensures ((50 * p + 2 * s + c) % 50) / 2 == s && (50 * p + 2 * s + c) % 2 == c
  {
    var w := 2 * s + c;
    DivMod50(50 * p + w, p, w);
    DivMod2(w, s, c);
    DivMod2(50 * p + w, 25 * p + s, c);
  }

  lemma DivMod50(v: int, q: int, r: int)
    requires 0 <= r < 50 && v == 50 * q + r
    ensures v / 50 == q && v % 50 == r
  {
  }

  lemma DivMod2(v: int, q: int, r: int)
    requires 0 <= r < 2 && v == 2 * q + r
    ensures v / 2 == q && v % 2 == r
  {
  }

  /** Every module outside column 6 is visited exactly once: its index is a
      visit, and the visit leads back to it. */
  lemma IndexVisit(i: int, j: int)
    requires 0 <= i < Size && 0 <= j < Size && j != 6
    ensures 0 <= Index(i, j) < Visits
    ensures Row(Index(i, j)) == i && Col(Index(i, j)) == j
  {
    var p := if j > 6 then (24 - j) / 2 else (23 - j) / 2;
    var c := PairCol(p) - j;
    var s := if p % 2 == 0 then 24 - i else i;
    Decompose(p, s, c);
  }

  /** Visit v finds module (Row(v), Col(v)) free: not dark in g. */
  predicate Free(g: Grid, v: int)
    requires IsGrid(g) && 0 <= v < Visits
  {
    VisitIndex(v);
    !g[Row(v)][Col(v)]
  }

  /** The number of free modules among the first v visits: the position in
      the data bit stream of the bit the v-th visit places. */
  function Rank(g: Grid, v: int): nat
    requires IsGrid(g) && 0 <= v <= Visits
  {
    if v == 0 then 0 else Rank(g, v - 1) + (if Free(g, v - 1) then 1 else 0)
  }

  /** Module (i, j) after the first v visits of the data placement over the
      matrix g: a visited free module holds the data bit of its rank. */
  function Cell(g: Grid, data: seq<Byte>, v: int, i: int, j: int): bool
    requires IsGrid(g) && 0 <= v <= Visits && 0 <= i < Size && 0 <= j < Size
  {
    var x := Index(i, j);
    if x < v && !g[i][j] then
      IndexVisit(i, j);
      DataBit(data, Rank(g, x))
    else g[i][j]
  }

  /** Visit v changes at most module (Row(v), Col(v)), and only if it is free. */
  lemma CellStep(g: Grid, data: seq<Byte>, v: int, i: int, j: int)
    requires IsGrid(g) && 0 <= v < Visits && 0 <= i < Size && 0 <= j < Size
    ensures Cell(g, data, v + 1, i, j) ==
        if i == Row(v) && j == Col(v) && Free(g, v) then DataBit(data, Rank(g, v)) else Cell(g, data, v, i, j)
  {
    VisitIndex(v);
    if j != 6 {
      IndexVisit(i, j);
    }
  }

  /** Before the first visit every module is as the matrix had it. */
  lemma CellStart(g: Grid, data: seq<Byte>, i: int, j: int)
    requires IsGrid(g) && 0 <= i < Size && 0 <= j < Size
    ensures Cell(g, data, 0, i, j) == g[i][j]
  {
    if j != 6 {
      IndexVisit(i, j);
    }
  }

  /** The module matrix holds what the first v visits leave in it. */
  ghost predicate Placed(m: array2<bool>, g: Grid, data: seq<Byte>, v: int)
    requires m.Length0 == Size && m.Length1 == Size && IsGrid(g) && 0 <= v <= Visits
    reads m
  {
    forall i, j :: 0 <= i < Size && 0 <= j < Size ==> m[i, j] == Cell(g, data, v, i, j)
  }

  /** The bit counters point at data bit Rank(g, v): byte byteIndex, bit bitIndex. */
  ghost predicate Counted(g: Grid, v: int, byteIndex: int, bitIndex: int)
    requires IsGrid(g) && 0 <= v <= Visits
  {
    0 <= bitIndex < 8 && 0 <= byteIndex && 8 * byteIndex + bitIndex == Rank(g, v)
  }

  /** Counters at byte b, bit k name data bit 8b + k. */
  lemma CounterBit(data: seq<Byte>, b: int, k: int)
    requires 0 <= b && 0 <= k < 8
    ensures DataBit(data, 8 * b + k) == (b < |data| && ByteBit(data[b], k))
  {
    assert (8 * b + k) / 8 == b && (8 * b + k) % 8 == k;
  }

  /** One pass of the `for (let c ...)` body: visit v reads module (row, cc);
      a module that is false takes the next data bit and advances the bit
      counters, any other module is skipped. */
  method Visit(m: array2<bool>, ghost g: Grid, data: seq<Byte>, ghost v: int, row: int, cc: int,
               byteIndex: int, bitIndex: int) returns (byteIndex': int, bitIndex': int)
    requires m.Length0 == Size && m.Length1 == Size && IsGrid(g) && 0 <= v < Visits
    requires row == Row(v) && cc == Col(v)
    requires Counted(g, v, byteIndex, bitIndex) && Placed(m, g, data, v)
    modifies m
    ensures Counted(g, v + 1, byteIndex', bitIndex') && Placed(m, g, data, v + 1)
  {
    VisitIndex(v);
    byteIndex', bitIndex' := byteIndex, bitIndex;
    if m[row, cc] != false {
      assert !Free(g, v);
      forall i, j | 0 <= i < Size && 0 <= j < Size
        ensures m[i, j] == Cell(g, data, v + 1, i, j)
      {
        CellStep(g, data, v, i, j);
      }
      return;
    }
    assert Free(g, v);
    var dark := false;
    if byteIndex < |data| {
      dark := ByteBit(data[byteIndex], bitIndex);
    }
    CounterBit(data, byteIndex, bitIndex);
    m[row, cc] := dark;
    forall i, j | 0 <= i < Size && 0 <= j < Size
      ensures m[i, j] == Cell(g, data, v + 1, i, j)
    {
      CellStep(g, data, v, i, j);
      if i != row || j != cc {
        assert m[i, j] == old(m[i, j]);
      }
    }
    bitIndex' := bitIndex + 1;
    if bitIndex' == 8 {
      bitIndex' := 0;
      byteIndex' := byteIndex + 1;
    }
  }

  /** The `for (let c = 0; c < 2; c++)` loop at step s of column pair p
      (visits v and v + 1): the right module of the row, then the left one. */
  method VisitRow(m: array2<bool>, ghost g: Grid, data: seq<Byte>, ghost p: int, ghost s: int, ghost v: int,
                  row: int, col: int, byteIndex0: int, bitIndex0: int) returns (byteIndex: int, bitIndex: int)
    requires m.Length0 == Size && m.Length1 == Size && IsGrid(g) && 0 <= p < 12 && 0 <= s < 25
    requires v == 50 * p + 2 * s
    requires row == (if p % 2 == 0 then 24 - s else s) && col == PairCol(p)
    requires Counted(g, v, byteIndex0, bitIndex0) && Placed(m, g, data, v)
    modifies m
    ensures Counted(g, v + 2, byteIndex, bitIndex) && Placed(m, g, data, v + 2)
  {
    byteIndex, bitIndex := byteIndex0, bitIndex0;
    for c := 0 to 2
      invariant Counted(g, v + c, byteIndex, bitIndex) && Placed(m, g, data, v + c)
    {
      var cc := col - c;
      VisitAt(p, s, c);
      byteIndex, bitIndex := Visit(m, g, data, v + c, row, cc, byteIndex, bitIndex);
    }
  }

  /** The row the zig-zag starts column pair p at: the bottom for even p. */
  function StartRow(p: int): int {
    if p % 2 == 0 then 24 else 0
  }

  /** `inc` while column pair p is walked: upward (-1) for even p. */
  function Direction(p: int): int {
    if p % 2 == 0 then -1 else 1
  }

  /** Consecutive column pairs are walked in opposite directions. */
  lemma NextPair(p: int)
    ensures StartRow(p + 1) == 24 - StartRow(p) && Direction(p + 1) == -Direction(p)
  {
    assert (p + 1) % 2 == 1 - p % 2;
  }

  /** One pass of the `while (true)` loop of lines 43-57: the zig-zag runs
      through column pair p (columns col and col - 1, visits v0 to v0 + 49)
      from one edge to the other, then turns round. */
  method PlacePair(m: array2<bool>, ghost g: Grid, data: seq<Byte>, ghost p: int, ghost v0: int, col: int,
                   row0: int, inc0: int, byteIndex0: int, bitIndex0: int)
    returns (row: int, inc: int, byteIndex: int, bitIndex: int)
    requires m.Length0 == Size && m.Length1 == Size && IsGrid(g) && 0 <= p < 12 && v0 == 50 * p
    requires col == PairCol(p)
    requires row0 == StartRow(p) && inc0 == Direction(p)
    requires Counted(g, v0, byteIndex0, bitIndex0) && Placed(m, g, data, v0)
    modifies m
    ensures row == StartRow(p + 1) && inc == Direction(p + 1)
    ensures Counted(g, v0 + 50, byteIndex, bitIndex) && Placed(m, g, data, v0 + 50)
  {
    row, inc, byteIndex, bitIndex := row0, inc0, byteIndex0, bitIndex0;
    NextPair(p);
    ghost var s := 0;
    ghost var v := v0;
    while true
      invariant 0 <= s <= 24 && v == v0 + 2 * s
      invariant row == (if p % 2 == 0 then 24 - s else s) && inc == Direction(p)
      invariant Counted(g, v, byteIndex, bitIndex) && Placed(m, g, data, v)
      decreases 24 - s
    {
      byteIndex, bitIndex := VisitRow(m, g, data, p, s, v, row, col, byteIndex, bitIndex);
      row := row + inc;
      if row < 0 || row >= Size {
        row := row - inc;
        inc := -inc;
        break;
      }
      s, v := s + 1, v + 2;
    }
  }

  /** Where visit 50p + 2s + c goes: row s from the edge the pair starts at,
      column PairCol(p) - c. */
  lemma VisitAt(p: int, s: int, c: int)
    requires 0 <= p < 12 && 0 <= s < 25 && 0 <= c < 2
    ensures Row(50 * p + 2 * s + c) == (if p % 2 == 0 then 24 - s else s)
    ensures Col(50 * p + 2 * s + c) == PairCol(p) - c
  {
    Decompose(p, s, c);
  }

  /** The data placement loop of `createQRCode` (lines 40-58): the zig-zag
      over column pairs, writing the next data bit into every module that
      is still false and skipping every module that is true. */
  method PlaceData(m: array2<bool>, data: seq<Byte>)
    requires m.Length0 == Size && m.Length1 == Size
    modifies m
    ensures forall i, j :: 0 <= i < Size && 0 <= j < Size ==> m[i, j] == Cell(old(Snap(m)), data, Visits, i, j)
  {
    ghost var g := Snap(m);
    forall i, j | 0 <= i < Size && 0 <= j < Size
      ensures m[i, j] == Cell(g, data, 0, i, j)
    {
      CellStart(g, data, i, j);
    }
    var inc := -1;
    var row := Size - 1;
    var bitIndex := 0;
    var byteIndex := 0;
    var col := Size - 1;
    ghost var p := 0;
    ghost var v := 0;
    while col > 0
      invariant 0 <= p <= 12 && v == 50 * p
      invariant col == (if p <= 9 then 24 - 2 * p else 23 - 2 * p)
      invariant row == StartRow(p) && inc == Direction(p)
      invariant Counted(g, v, byteIndex, bitIndex) && Placed(m, g, data, v)
      decreases col
    {
      if col == 6 {
        col := col - 1;
      }
      row, inc, byteIndex, bitIndex := PlacePair(m, g, data, p, v, col, row, inc, byteIndex, bitIndex);
      col := col - 2;
      p, v := p + 1, v + 50;
    }
    assert p == 12;
  }

  // ---------------------------------------------------------------------
  // Ranks: which data bit each visit places

  /** No more bits than visits. */
  lemma {:induction false} RankBound(g: Grid, v: int)
    requires IsGrid(g) && 0 <= v <= Visits
    ensures Rank(g, v) <= v
  {
    if v > 0 {
      RankBound(g, v - 1);
    }
  }

  /** A free visit takes a bit no later visit takes again: ranks of free
      visits strictly increase, so no data bit is placed twice. */
  lemma {:induction false} RankStrict(g: Grid, u: int, v: int)
    requires IsGrid(g) && 0 <= u < v <= Visits && Free(g, u)
    ensures Rank(g, u) < Rank(g, v)
  {
    if u < v - 1 {
      RankStrict(g, u, v - 1);
    }
  }

  /** Ranks never decrease along the traversal. */
  lemma {:induction false} RankMono(g: Grid, u: int, v: int)
    requires IsGrid(g) && 0 <= u <= v <= Visits
    ensures Rank(g, u) <= Rank(g, v)
  {
    if u < v {
      RankMono(g, u, v - 1);
    }
  }

  /** Every bit below Rank(g, v) is placed by one of the first v visits. */
  lemma {:induction false} RankOnto(g: Grid, v: int, k: int)
    requires IsGrid(g) && 0 <= v <= Visits && 0 <= k < Rank(g, v)
    ensures exists u :: 0 <= u < v && Free(g, u) && Rank(g, u) == k
  {
    if k < Rank(g, v - 1) {
      RankOnto(g, v - 1, k);
    } else {
      assert Free(g, v - 1) && Rank(g, v - 1) == k;
    }
  }

  /** Column pairs 4 to 8 (columns 16 down to 7) lie between the finders,
      so every one of their 250 visits finds a free module. */
  lemma MiddleFree(u: int)
    requires 200 <= u < 450
    ensures Free(Stamped(), u)
  {
    VisitIndex(u);
    var p, c := u / 50, u % 2;
    assert 4 <= p <= 8;
    assert 7 <= Col(u) <= 16;
    assert !StampedDark(Row(u), Col(u));
  }

  /** Before the traversal leaves column 7, at least 250 modules have taken a bit. */
  lemma {:induction false} MiddleRank(v: int)
    requires 200 <= v <= 450
    ensures Rank(Stamped(), v) >= v - 200
  {
    if v > 200 {
      MiddleRank(v - 1);
      MiddleFree(v - 1);
    }
  }

  /** All 176 data bits are placed: each is taken by exactly one free visit
      (exactly one by RankStrict). */
  lemma AllBitsPlaced(k: int)
    requires 0 <= k < 8 * DataCount
    ensures exists u :: 0 <= u < Visits && Free(Stamped(), u) && Rank(Stamped(), u) == k
  {
    MiddleRank(450);
    RankMono(Stamped(), 450, Visits);
    RankOnto(Stamped(), Visits, k);
  }

  // ---------------------------------------------------------------------
  // The symbol

  /** Module (i, j) of the matrix `createQRCode(text)` returns: the finder
      stamps, with every module the zig-zag finds false (light or unset)
      taking the data bit of its rank. */
  function SymbolModule(text: JsString, i: int, j: int): bool
    requires 0 <= i < Size && 0 <= j < Size
  {
    if j != 6 && !StampedDark(i, j) then
      IndexVisit(i, j);
      TextBit(text, Rank(Stamped(), Index(i, j)))
    else StampedDark(i, j)
  }

  /** The visit that places bit k holds it in the symbol. */
  lemma BitInSymbol(text: JsString, u: int)
    requires 0 <= u < Visits && Free(Stamped(), u)
    ensures 0 <= Row(u) < Size && 0 <= Col(u) < Size
    ensures SymbolModule(text, Row(u), Col(u)) == TextBit(text, Rank(Stamped(), u))
  {
    VisitIndex(u);
  }

  /** Placement never clears a dark module: every dark finder module is dark
      in the symbol. */
  lemma FinderDarkKept(text: JsString, i: int, j: int)
    requires 0 <= i < Size && 0 <= j < Size && StampedDark(i, j)
    ensures SymbolModule(text, i, j)
  {
  }

  /** Columns 0 to 6 come out exactly as stamped: column 6 is never visited,
      and by the time the zig-zag reaches column 5 the 176 data bits are
      spent, so the top-left and bottom-left finders and their separators
      keep their light modules. */
  lemma LeftColumnsKept(text: JsString, i: int, j: int)
    requires 0 <= i < Size && 0 <= j <= 6
    ensures SymbolModule(text, i, j) == StampedDark(i, j)
  {
    if j != 6 && !StampedDark(i, j) {
      IndexVisit(i, j);
      MiddleRank(450);
      RankMono(Stamped(), 450, Index(i, j));
    }
  }

  /** The top-right finder is not kept: its light module (1, 23) is the 47th
      visit and takes data bit 40, whatever its value. */
  lemma TopRightOverwritten(text: JsString)
    ensures !StampedDark(1, 23) && Index(1, 23) == 47
    ensures Rank(Stamped(), 47) == 40
    ensures SymbolModule(text, 1, 23) == TextBit(text, 40)
  {
    assert !FinderDark(1, 5);
    assert Index(1, 23) == 47 by {
      assert (24 - 23) / 2 == 0;
    }
    RankAt47();
  }

  /** The first 50 visits walk the two rightmost columns upward. */
  lemma RightPair(u: int)
    requires 0 <= u < 50
    ensures Row(u) == 24 - u / 2 && Col(u) == 24 - u % 2
  {
    DivMod50(u, 0, u);
  }

  /** A grid holding exactly the stamped finders. */
  predicate IsStamped(g: Grid) {
    IsGrid(g) && forall i, j :: 0 <= i < Size && 0 <= j < Size ==> g[i][j] == StampedDark(i, j)
  }

  /** Visit v counts one more bit exactly when its module is not dark. */
  lemma RankStep(g: Grid, v: int)
    requires IsStamped(g) && 0 <= v < Visits
    ensures 0 <= Row(v) < Size && 0 <= Col(v) < Size
    ensures Rank(g, v + 1) == Rank(g, v) + (if StampedDark(Row(v), Col(v)) then 0 else 1)
  {
    VisitIndex(v);
  }

  /** The first 36 visits climb the two rightmost columns from row 24 to
      row 7, all below the top-right finder, so each of them is free. */
  lemma {:induction false} RankBelowFinder(g: Grid, v: int)
    requires IsStamped(g) && 0 <= v <= 36
    ensures Rank(g, v) == v
  {
    if v > 0 {
      RankBelowFinder(g, v - 1);
      BelowFinderLight(v - 1);
      RankStep(g, v - 1);
    }
  }

  /** The first 36 visits are to rows 24 to 7 of the two rightmost columns,
      outside every finder. */
  lemma BelowFinderLight(u: int)
    requires 0 <= u < 36
    ensures !StampedDark(Row(u), Col(u))
  {
    RightPair(u);
    var r, c := Row(u), Col(u);
    assert 7 <= r && 23 <= c;
  }

  /** Visits v and v + 1 cross row r of the top-right finder: the dark
      module of its right border, then a module of column 23, which is
      dark in row 6 and light in rows 5 to 2. */
  lemma FinderRowStep(g: Grid, v: int, r: int)
    requires IsStamped(g) && 36 <= v < 46 && v % 2 == 0 && r == 24 - v / 2
    ensures Rank(g, v + 2) == Rank(g, v) + (if r == 6 then 0 else 1)
  {
    RightPair(v);
    RightPair(v + 1);
    RankStep(g, v);
    RankStep(g, v + 1);
  }

  /** Visit v, for even v from 36 to 46, starts row 24 - v/2 of the top-right
      finder: row 6 has no light module in columns 24 and 23, and each of
      rows 5 to 2 has one. */
  lemma {:induction false} RankInFinder(g: Grid, v: int)
    requires IsStamped(g) && 36 <= v <= 46 && v % 2 == 0
    ensures Rank(g, v) == if v == 36 then 36 else v / 2 + 17
  {
    if v == 36 {
      RankBelowFinder(g, 36);
    } else {
      RankInFinder(g, v - 2);
      FinderRowStep(g, v - 2, 24 - (v - 2) / 2);
    }
  }

  /** Module (1, 23) takes data bit 40: after the 36 free modules below the
      finder, only the four light modules of column 23 in rows 5 to 2 take
      a bit. */
  lemma RankAt47()
    ensures Rank(Stamped(), 47) == 40
  {
    var g := Stamped();
    RankInFinder(g, 46);
    RightPair(46);
    RankStep(g, 46);
  }

  /** Only the first 21 units of a text reach the symbol: texts of one
      length that agree on those give the same module everywhere. */
  lemma TailIgnoredSymbol(t1: JsString, t2: JsString, i: int, j: int)
    requires |t1| == |t2| >= 21 && t1[..21] == t2[..21]
    requires 0 <= i < Size && 0 <= j < Size
    ensures SymbolModule(t1, i, j) == SymbolModule(t2, i, j)
  {
    if j != 6 && !StampedDark(i, j) {
      IndexVisit(i, j);
      TailIgnoredBit(t1, t2, Rank(Stamped(), Index(i, j)));
    }
  }

  /** Two grids with the same modules are the same grid. */
  lemma SameGrid(g: Grid, h: Grid)
    requires IsGrid(g) && IsGrid(h)
    requires forall i, j :: 0 <= i < Size && 0 <= j < Size ==> g[i][j] == h[i][j]
    ensures g == h
  {
    forall i | 0 <= i < Size
      ensures g[i] == h[i]
    {
    }
  }

  /** Lines 37-39: a matrix of false modules with the three finders stamped in. */
  method StampFinders(m: array2<bool>, moduleCount: int)
    requires m.Length0 == Size && m.Length1 == Size && moduleCount == Size
    requires forall i, j :: 0 <= i < Size && 0 <= j < Size ==> !m[i, j]
    modifies m
    ensures Snap(m) == Stamped()
  {
    PlaceFinder(m, 0, 0);
    PlaceFinder(m, 0, moduleCount - 7);
    PlaceFinder(m, moduleCount - 7, 0);
    SameGrid(Snap(m), Stamped());
  }

  /** After the placement, the matrix holds the symbol. */
  lemma PlacedSymbol(text: JsString, data: seq<Byte>, i: int, j: int)
    requires forall k: nat :: DataBit(data, k) == TextBit(text, k)
    requires 0 <= i < Size && 0 <= j < Size
    ensures Cell(Stamped(), data, Visits, i, j) == SymbolModule(text, i, j)
  {
    if j != 6 {
      IndexVisit(i, j);
    }
  }

  /** `isDark(r, c)` = `!!modules[r][c]`: reading a row outside the matrix
      gives `undefined`, and indexing it throws; a column outside a row
      gives `undefined`, which is light. */
  function IsDark(modules: array2<bool>, r: int, c: int): (d: Outcome<bool>)
    reads modules
    ensures d.Throws? <==> !(0 <= r < modules.Length0)
    ensures d.Returns? ==> (d.value <==> 0 <= c < modules.Length1 && modules[r, c])
  {
    if !(0 <= r < modules.Length0) then Throws
    else if 0 <= c < modules.Length1 then Returns(modules[r, c])
    else Returns(false)
  }

  /** `createQRCode(text)`: the count and the matrix `isDark` reads. Every
      module is the symbol's, so isDark throws exactly for rows outside
      0..24 and otherwise answers with the symbol's module. */
  method CreateQRCode(text: JsString) returns (count: int, modules: array2<bool>)
    ensures count == Size && modules.Length0 == Size && modules.Length1 == Size
    ensures forall i, j :: 0 <= i < Size && 0 <= j < Size ==> modules[i, j] == SymbolModule(text, i, j)
    ensures forall r, c ::
      IsDark(modules, r, c) == if 0 <= r < Size then Returns(0 <= c < Size && SymbolModule(text, r, c)) else Throws
  {
    var data := EncodeData(text);
    var moduleCount := 25;
    modules := new bool[moduleCount, moduleCount]((_, _) => false);
    StampFinders(modules, moduleCount);
    PlaceData(modules, data);
    forall i, j | 0 <= i < Size && 0 <= j < Size
      ensures modules[i, j] == SymbolModule(text, i, j)
    {
      PlacedSymbol(text, data, i, j);
    }
    count := moduleCount;
  }
}

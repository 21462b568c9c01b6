/** One placement attempt: `canPlaceWord`, which decides whether a word fits
    at a start cell along a direction, and `placeWord`, which writes it and
    records its solution box. */
module Placement {

  import opened Options
  import opened Letters
  import opened Grids

  /** Offset between consecutive letters: `dRow` rows down, `dCol` columns right. */
  datatype Step = Step(dRow: int, dCol: int)

  /** The six directions a word may run in: right, down, up, down-right,
      down-left and up-right. */
  const Directions: seq<Step> := [Step(0, 1), Step(1, 0), Step(-1, 0), Step(1, 1), Step(1, -1), Step(-1, 1)]

  /** An index into `Directions`. */
  type DirIndex = k: int | 0 <= k < 6

  datatype Point = Point(x: int, y: int)

  /** A solution box: where a placed word starts and ends and the direction
      it runs in. `Blank` is the empty box an empty word leaves behind, with
      no start and no end. */
  datatype Span = Span(start: Point, end: Point, dir: Step) | Blank

  /** Cell of letter `i` of a word that starts at row `row`, column `col`. */
  function Pos(row: int, col: int, d: Step, i: int): Point {
    Point(col + i * d.dCol, row + i * d.dRow)
  }

  /** Every direction of the table moves by at most one row and one column,
      and never stands still. */
  lemma DirectionShape(d: Step)
    requires d in Directions
    ensures -1 <= d.dRow <= 1 && -1 <= d.dCol <= 1 && (d.dRow != 0 || d.dCol != 0)
  {
  }

  /** Letter `i` of the word may go where the attempt puts it: the cell is in
      the grid, and it is empty or already holds exactly that character. */
  predicate Fits(g: Grid, word: string, row: int, col: int, d: Step, i: int)
    requires Valid(g) && 0 <= i < |word|
  {
    var p := Pos(row, col, d, i);
    InBounds(g, p.x, p.y) && (Cell(g, p.x, p.y).None? || Cell(g, p.x, p.y) == Some(word[i]))
  }

  /** The attempt is feasible: every letter fits. */
  ghost predicate Feasible(g: Grid, word: string, row: int, col: int, d: Step)
    requires Valid(g)
  {
    forall i :: 0 <= i < |word| ==> Fits(g, word, row, col, d, i)
  }

  /** The loop of `canPlaceWord` from letter `i` on. It reads cells through
      `letter` and compares the stored value with the raw character `word[i]`,
      not with its upper-case form. */
  function CanPlaceFrom(g: Grid, word: string, row: int, col: int, d: Step, i: nat): (r: bool)
    requires Valid(g) && i <= |word|
    ensures r <==> forall j :: i <= j < |word| ==> Fits(g, word, row, col, d, j)
    decreases |word| - i
  {
    if i == |word| then true
    else
      var p := Pos(row, col, d, i);
      if p.y < 0 || p.y >= g.rows || p.x < 0 || p.x >= g.cols then
        assert !Fits(g, word, row, col, d, i);
        false
      else
        LetterInRange(g, p.x, p.y);
        if Letter(g, p.x, p.y).Some? && Letter(g, p.x, p.y).value != word[i] then
          assert !Fits(g, word, row, col, d, i);
          false
        else CanPlaceFrom(g, word, row, col, d, i + 1)
  }

  /** `canPlaceWord`: true exactly when the attempt is feasible. */
  function CanPlaceWord(g: Grid, word: string, row: int, col: int, d: Step): (r: bool)
    requires Valid(g)
    ensures r <==> Feasible(g, word, row, col, d)
  {
    CanPlaceFrom(g, word, row, col, d, 0)
  }

  /** An empty word fits anywhere, even at a start cell outside the grid. */
  lemma EmptyWordFeasible(g: Grid, row: int, col: int, d: Step)
    requires Valid(g)
    ensures CanPlaceWord(g, "", row, col, d)
  {
  }

  /** Whether a cell holding an upper-case letter can be crossed depends on
      the case of the word: a lower-case character never matches it. */
  lemma LowerCaseNeverCrosses(g: Grid, word: string, row: int, col: int, d: Step, i: int)
    requires Valid(g) && 0 <= i < |word| && 'a' <= word[i] <= 'z'
    requires var p := Pos(row, col, d, i); InBounds(g, p.x, p.y) && Cell(g, p.x, p.y) == Some(Upper(word[i]))
    ensures !CanPlaceWord(g, word, row, col, d)
  {
    assert !Fits(g, word, row, col, d, i);
  }

  /** Address of letter `j` of the word in the cell array. */
  function PathIndex(cols: int, row: int, col: int, d: Step, j: int): int {
    Index(cols, Pos(row, col, d, j).x, Pos(row, col, d, j).y)
  }

  /** Letters `lo` up to `hi` of the word all land inside the grid. */
  predicate PathInBounds(g: Grid, row: int, col: int, d: Step, lo: int, hi: int) {
    forall j :: lo <= j < hi ==> InBounds(g, Pos(row, col, d, j).x, Pos(row, col, d, j).y)
  }

  /** Address `k` is written by one of the letters `lo` up to `hi`. */
  ghost predicate OnPath(cols: int, row: int, col: int, d: Step, lo: int, hi: int, k: int) {
    exists j :: lo <= j < hi && PathIndex(cols, row, col, d, j) == k
  }

  lemma FeasibleInBounds(g: Grid, word: string, row: int, col: int, d: Step)
    requires Valid(g) && Feasible(g, word, row, col, d)
    ensures PathInBounds(g, row, col, d, 0, |word|)
  {
    forall j | 0 <= j < |word| ensures InBounds(g, Pos(row, col, d, j).x, Pos(row, col, d, j).y) {
      assert Fits(g, word, row, col, d, j);
    }
  }

  /** Distinct letters of a word land in distinct cells. */
  lemma PathDistinct(g: Grid, row: int, col: int, d: Step, i: int, j: int)
    requires d in Directions && i != j
    requires InBounds(g, Pos(row, col, d, i).x, Pos(row, col, d, i).y)
    requires InBounds(g, Pos(row, col, d, j).x, Pos(row, col, d, j).y)
    ensures PathIndex(g.cols, row, col, d, i) != PathIndex(g.cols, row, col, d, j)
  {
    var p, q := Pos(row, col, d, i), Pos(row, col, d, j);
    IndexInjective(g.cols, p.x, p.y, q.x, q.y);
    DirectionShape(d);
    if d.dCol != 0 {
      assert p.x - q.x == (i - j) * d.dCol;
    } else {
      assert p.y - q.y == (i - j) * d.dRow;
    }
  }

  /** The loop of `placeWord` from letter `i` on: `setLetter` of the
      upper-cased character at each letter's cell. */
  function PlaceFrom(g: Grid, word: string, row: int, col: int, d: Step, i: nat): (r: Grid)
    requires Valid(g) && d in Directions && i <= |word|
    requires PathInBounds(g, row, col, d, i, |word|)
    ensures Valid(r) && r.cols == g.cols && r.rows == g.rows
    ensures forall j :: i <= j < |word| ==>
              Cell(r, Pos(row, col, d, j).x, Pos(row, col, d, j).y) == Some(Upper(word[j]))
    ensures forall k :: 0 <= k < |g.cells| && !OnPath(g.cols, row, col, d, i, |word|, k) ==> r.cells[k] == g.cells[k]
    decreases |word| - i
  {
    if i == |word| then g
    else
      var p := Pos(row, col, d, i);
      var g1 := SetLetter(g, p.x, p.y, Upper(word[i]));
      var r := PlaceFrom(g1, word, row, col, d, i + 1);
      PlaceFromStep(g, g1, r, word, row, col, d, i);
      r
  }

  lemma PlaceFromStep(g: Grid, g1: Grid, r: Grid, word: string, row: int, col: int, d: Step, i: nat)
    requires Valid(g) && d in Directions && i < |word|
    requires PathInBounds(g, row, col, d, i, |word|)
    requires g1 == SetLetter(g, Pos(row, col, d, i).x, Pos(row, col, d, i).y, Upper(word[i]))
    requires Valid(r) && r.cols == g.cols && r.rows == g.rows
    requires forall j :: i + 1 <= j < |word| ==>
               Cell(r, Pos(row, col, d, j).x, Pos(row, col, d, j).y) == Some(Upper(word[j]))
    requires forall k :: 0 <= k < |g1.cells| && !OnPath(g.cols, row, col, d, i + 1, |word|, k) ==> r.cells[k] == g1.cells[k]
    ensures forall j :: i <= j < |word| ==>
              Cell(r, Pos(row, col, d, j).x, Pos(row, col, d, j).y) == Some(Upper(word[j]))
    ensures forall k :: 0 <= k < |g.cells| && !OnPath(g.cols, row, col, d, i, |word|, k) ==> r.cells[k] == g.cells[k]
  {
    var p := Pos(row, col, d, i);
    var ki := PathIndex(g.cols, row, col, d, i);
    IndexInRange(g, p.x, p.y);
    forall j | i + 1 <= j < |word| ensures PathIndex(g.cols, row, col, d, j) != ki {
      PathDistinct(g, row, col, d, i, j);
    }
    assert !OnPath(g.cols, row, col, d, i + 1, |word|, ki);
    assert Cell(r, p.x, p.y) == r.cells[ki];
    forall k | 0 <= k < |g.cells| && !OnPath(g.cols, row, col, d, i, |word|, k)
      ensures r.cells[k] == g.cells[k]
    {
      assert k != ki;
    }
  }

  /** `placeWord`: writes the word and returns the new grid with its
      solution box, start at the first letter, end at the last, and the
      direction as `[dirRow, dirCol]`. */
  function PlaceWord(g: Grid, word: string, row: int, col: int, d: Step): (r: (Grid, Span))
    requires Valid(g) && d in Directions && Feasible(g, word, row, col, d)
    ensures PathInBounds(g, row, col, d, 0, |word|)
    ensures Valid(r.0) && r.0.cols == g.cols && r.0.rows == g.rows
    ensures forall j :: 0 <= j < |word| ==>
              Cell(r.0, Pos(row, col, d, j).x, Pos(row, col, d, j).y) == Some(Upper(word[j]))
    ensures forall k :: 0 <= k < |g.cells| && !OnPath(g.cols, row, col, d, 0, |word|, k) ==> r.0.cells[k] == g.cells[k]
    ensures r.1.Blank? <==> |word| == 0
    ensures |word| > 0 ==> r.1.start == Point(col, row) && r.1.dir == d
    ensures |word| > 0 ==> r.1.end == Point(col + (|word| - 1) * d.dCol, row + (|word| - 1) * d.dRow)
  {
    FeasibleInBounds(g, word, row, col, d);
    var grid := PlaceFrom(g, word, row, col, d, 0);
    var span := if |word| == 0 then Blank else Span(Pos(row, col, d, 0), Pos(row, col, d, |word| - 1), d);
    (grid, span)
  }

  /** Reading the grid from the box's start along its direction for letter
      `i` finds the upper-case form of the word's letter `i`. */
  predicate ReadsAt(g: Grid, s: Span, w: string, i: int)
    requires Valid(g) && s.Span? && 0 <= i < |w|
  {
    var p := Pos(s.start.y, s.start.x, s.dir, i);
    InBounds(g, p.x, p.y) && Cell(g, p.x, p.y) == Some(Upper(w[i]))
  }

  /** The solution box `s` spells `w` in grid `g`: reading from the start
      along the direction for `|w|` steps gives the upper-cased word and ends
      at the box's end; an empty word has the blank box. */
  ghost predicate Spells(g: Grid, s: Span, w: string)
    requires Valid(g)
  {
    if |w| == 0 then s.Blank?
    else
      s.Span? && s.end == Pos(s.start.y, s.start.x, s.dir, |w| - 1) &&
      forall i :: 0 <= i < |w| ==> ReadsAt(g, s, w, i)
  }

  /** The solution box of a placement spells the placed word. */
  lemma PlaceWordSpells(g: Grid, word: string, row: int, col: int, d: Step)
    requires Valid(g) && d in Directions && Feasible(g, word, row, col, d)
    ensures Spells(PlaceWord(g, word, row, col, d).0, PlaceWord(g, word, row, col, d).1, word)
  {
    var (r, s) := PlaceWord(g, word, row, col, d);
    FeasibleInBounds(g, word, row, col, d);
    if |word| > 0 {
      assert s.start == Point(col, row);
      forall i | 0 <= i < |word| ensures ReadsAt(r, s, word, i) {
        assert Pos(s.start.y, s.start.x, s.dir, i) == Pos(row, col, d, i);
      }
    }
  }

  /** `after` keeps every letter `before` holds, on a grid of the same shape. */
  ghost predicate KeepsFilled(before: Grid, after: Grid) {
    Valid(before) && Valid(after) && after.cols == before.cols && after.rows == before.rows &&
    forall k :: 0 <= k < |before.cells| && before.cells[k].Some? ==> after.cells[k] == before.cells[k]
  }

  /** Every letter stored in the grid is already upper case. */
  ghost predicate AllUpper(g: Grid) {
    forall k :: 0 <= k < |g.cells| && g.cells[k].Some? ==> IsStable(g.cells[k].value)
  }

  lemma KeepsFilledTrans(a: Grid, b: Grid, c: Grid)
    requires KeepsFilled(a, b) && KeepsFilled(b, c)
    ensures KeepsFilled(a, c)
  {
  }

  /** A spelled word stays spelled as long as no stored letter changes. */
  lemma SpellsKept(g: Grid, g': Grid, s: Span, w: string)
    requires Valid(g) && Spells(g, s, w) && KeepsFilled(g, g')
    ensures Spells(g', s, w)
  {
    if |w| > 0 {
      forall i | 0 <= i < |w| ensures ReadsAt(g', s, w, i) {
        assert ReadsAt(g, s, w, i);
        var p := Pos(s.start.y, s.start.x, s.dir, i);
        IndexInRange(g, p.x, p.y);
      }
    }
  }

  /** A feasible placement never changes a letter already in the grid: a
      crossing needs the stored letter to equal the word's character, and
      stored letters are upper case, so writing the upper case of that
      character writes the same letter again. */
  lemma PlaceKeepsFilled(g: Grid, word: string, row: int, col: int, d: Step)
    requires Valid(g) && d in Directions && AllUpper(g) && Feasible(g, word, row, col, d)
    ensures KeepsFilled(g, PlaceWord(g, word, row, col, d).0)
    ensures AllUpper(PlaceWord(g, word, row, col, d).0)
  {
    var r := PlaceWord(g, word, row, col, d).0;
    FeasibleInBounds(g, word, row, col, d);
    forall k | 0 <= k < |g.cells| ensures
      (g.cells[k].Some? ==> r.cells[k] == g.cells[k]) &&
      (r.cells[k].Some? ==> IsStable(r.cells[k].value))
    {
      if OnPath(g.cols, row, col, d, 0, |word|, k) {
        var j :| 0 <= j < |word| && PathIndex(g.cols, row, col, d, j) == k;
        var p := Pos(row, col, d, j);
        assert Fits(g, word, row, col, d, j);
        assert Cell(g, p.x, p.y) == g.cells[k];
        assert r.cells[k] == Some(Upper(word[j]));
        UpperIdempotent(word[j]);
      }
    }
  }

}

/** `generateWordSearch`: the retry loop over the shuffled words, the drop
    pass and the fill pass, with every random draw supplied as an input.

    - The word list arrives already shuffled.
    - Each word comes with its 100 attempt choices: a start row, a start
      column and an index into the direction table. An attempt after the
      first feasible one is never looked at.
    - `draws(n)` is the letter position drawn for the `n`-th empty cell the
      fill pass meets. */
module Engine {

  import opened Options
  import opened Letters
  import opened Grids
  import opened Words
  import opened Placement

  /** Attempts per word before it is given up. */
  const MaxAttempts := 100

  /** The random draws of one attempt: `Math.floor(Math.random() * rows)`,
      the same for columns, and a direction index. */
  datatype Choice = Choice(row: int, col: int, dir: DirIndex)

  ghost predicate ChoiceFeasible(g: Grid, word: string, c: Choice)
    requires Valid(g)
  {
    Feasible(g, word, c.row, c.col, Directions[c.dir])
  }

  /** The `while (!placed && attempts < 100)` loop from attempt `a` on: the
      first feasible attempt is committed, nothing else is written. The
      result is the new grid and the solution box, or no box when every
      attempt failed. */
  function TryPlace(g: Grid, word: string, tries: seq<Choice>, a: nat): (r: (Grid, Option<Span>))
    requires Valid(g) && AllUpper(g) && |tries| == MaxAttempts && a <= MaxAttempts
    ensures r.1.None? <==> forall k :: a <= k < MaxAttempts ==> !ChoiceFeasible(g, word, tries[k])
    ensures r.1.None? ==> r.0 == g
    ensures KeepsFilled(g, r.0) && AllUpper(r.0)
    decreases MaxAttempts - a
  {
    if a == MaxAttempts then (g, None)
    else
      var c := tries[a];
      var d := Directions[c.dir];
      if CanPlaceWord(g, word, c.row, c.col, d) then
        PlaceKeepsFilled(g, word, c.row, c.col, d);
        assert a <= a < MaxAttempts && ChoiceFeasible(g, word, tries[a]);
        Commit(g, word, c)
      else
        assert !ChoiceFeasible(g, word, tries[a]);
        TryPlace(g, word, tries, a + 1)
  }

  /** When the retry loop places the word, what it commits is the first
      feasible attempt from `a` on. */
  lemma {:induction false} TryPlaceCommitsFirst(g: Grid, word: string, tries: seq<Choice>, a: nat)
    requires Valid(g) && AllUpper(g) && |tries| == MaxAttempts && a <= MaxAttempts
    requires TryPlace(g, word, tries, a).1.Some?
    ensures exists k :: (a <= k < MaxAttempts && ChoiceFeasible(g, word, tries[k]) &&
                         (forall j :: a <= j < k ==> !ChoiceFeasible(g, word, tries[j])) &&
                         TryPlace(g, word, tries, a) == Commit(g, word, tries[k]))
    decreases MaxAttempts - a
  {
    if !ChoiceFeasible(g, word, tries[a]) {
      TryPlaceCommitsFirst(g, word, tries, a + 1);
      var k :| a + 1 <= k < MaxAttempts && ChoiceFeasible(g, word, tries[k]) &&
               (forall j :: a + 1 <= j < k ==> !ChoiceFeasible(g, word, tries[j])) &&
               TryPlace(g, word, tries, a + 1) == Commit(g, word, tries[k]);
      assert forall j :: a <= j < k ==> !ChoiceFeasible(g, word, tries[j]);
    }
  }

  /** A box the retry loop records spells its word in the grid it returns. */
  lemma TryPlaceSpells(g: Grid, word: string, tries: seq<Choice>, a: nat)
    requires Valid(g) && AllUpper(g) && |tries| == MaxAttempts && a <= MaxAttempts
    requires TryPlace(g, word, tries, a).1.Some?
    ensures Spells(TryPlace(g, word, tries, a).0, TryPlace(g, word, tries, a).1.value, word)
  {
    TryPlaceCommitsFirst(g, word, tries, a);
    var k :| a <= k < MaxAttempts && ChoiceFeasible(g, word, tries[k]) &&
             TryPlace(g, word, tries, a) == Commit(g, word, tries[k]);
    var c := tries[k];
    PlaceWordSpells(g, word, c.row, c.col, Directions[c.dir]);
  }

  /** `placeWord` for a feasible attempt, with the box marking the word
      placed: it starts at the attempt's cell and runs `|word| - 1` steps in
      the attempt's direction. */
  function Commit(g: Grid, word: string, c: Choice): (r: (Grid, Option<Span>))
    requires Valid(g) && ChoiceFeasible(g, word, c)
    ensures Valid(r.0) && r.0.cols == g.cols && r.0.rows == g.rows
    ensures r.1.Some? && (r.1.value.Blank? <==> |word| == 0)
    ensures var d := Directions[c.dir];
            |word| > 0 ==>
              r.1.value == Span(Point(c.col, c.row), Point(c.col + (|word| - 1) * d.dCol, c.row + (|word| - 1) * d.dRow), d)
  {
    var (g', span) := PlaceWord(g, word, c.row, c.col, Directions[c.dir]);
    (g', Some(span))
  }

  /** Every word carries exactly `MaxAttempts` attempt choices. */
  predicate ChoicesFor(words: seq<string>, choices: seq<seq<Choice>>) {
    |choices| == |words| && forall i :: 0 <= i < |choices| ==> |choices[i]| == MaxAttempts
  }

  /** What the placement loop leaves behind: the grid, the solution boxes in
      commit order, and for each word whether it was placed. */
  datatype Outcome = Outcome(grid: Grid, spans: seq<Span>, placed: seq<bool>)

  /** The `for` loop over the normalised words: each word gets its retry
      loop on the grid the earlier words left, and one box is recorded per
      placed word. */
  function PlaceAll(g: Grid, words: seq<string>, choices: seq<seq<Choice>>): (r: Outcome)
    requires Valid(g) && AllUpper(g) && ChoicesFor(words, choices)
    ensures KeepsFilled(g, r.grid) && AllUpper(r.grid)
    ensures |r.placed| == |words|
    decreases |words|
  {
    if |words| == 0 then Outcome(g, [], [])
    else
      var (g1, box) := TryPlace(g, words[0], choices[0], 0);
      ChoicesForTail(words, choices);
      var rest := PlaceAll(g1, words[1..], choices[1..]);
      KeepsFilledTrans(g, g1, rest.grid);
      Outcome(rest.grid, (if box.Some? then [box.value] else []) + rest.spans, [box.Some?] + rest.placed)
  }

  lemma ChoicesForTail(words: seq<string>, choices: seq<seq<Choice>>)
    requires ChoicesFor(words, choices) && |words| > 0
    ensures ChoicesFor(words[1..], choices[1..])
  {
    forall i | 0 <= i < |choices[1..]| ensures |choices[1..][i]| == MaxAttempts {
      assert choices[1..][i] == choices[i + 1];
    }
  }

  /** After the placement loop the `k`-th box spells the `k`-th placed word
      in the grid the loop leaves. */
  lemma {:induction false} PlaceAllSpells(g: Grid, words: seq<string>, choices: seq<seq<Choice>>)
    requires Valid(g) && AllUpper(g) && ChoicesFor(words, choices)
    ensures var r := PlaceAll(g, words, choices);
            |Select(words, r.placed, true)| == |r.spans| &&
            forall k :: 0 <= k < |r.spans| ==> Spells(r.grid, r.spans[k], Select(words, r.placed, true)[k])
    decreases |words|
  {
    if |words| > 0 {
      var (g1, box) := TryPlace(g, words[0], choices[0], 0);
      ChoicesForTail(words, choices);
      var rest := PlaceAll(g1, words[1..], choices[1..]);
      PlaceAllSpells(g1, words[1..], choices[1..]);
      if box.Some? {
        TryPlaceSpells(g, words[0], choices[0], 0);
      }
      SelectSplits(words[1..], rest.placed);
      PlaceAllStep(g, g1, box, words, rest, PlaceAll(g, words, choices));
    }
  }

  lemma PlaceAllStep(g: Grid, g1: Grid, box: Option<Span>, words: seq<string>, rest: Outcome, r: Outcome)
    requires |words| > 0 && Valid(g) && KeepsFilled(g, g1) && (box.Some? ==> Spells(g1, box.value, words[0]))
    requires KeepsFilled(g1, rest.grid) && |rest.placed| == |words| - 1 && |rest.spans| == CountTrue(rest.placed)
    requires |Select(words[1..], rest.placed, true)| == |rest.spans|
    requires forall k :: 0 <= k < |rest.spans| ==> Spells(rest.grid, rest.spans[k], Select(words[1..], rest.placed, true)[k])
    requires r == Outcome(rest.grid, (if box.Some? then [box.value] else []) + rest.spans, [box.Some?] + rest.placed)
    ensures KeepsFilled(g, r.grid)
    ensures |r.placed| == |words|
    ensures |Select(words, r.placed, true)| == |r.spans|
    ensures forall k :: 0 <= k < |r.spans| ==> Spells(r.grid, r.spans[k], Select(words, r.placed, true)[k])
  {
    KeepsFilledTrans(g, g1, rest.grid);
    assert r.placed[1..] == rest.placed;
    var sel := Select(words, r.placed, true);
    var selRest := Select(words[1..], rest.placed, true);
    if box.Some? {
      assert sel == [words[0]] + selRest;
      SpellsKept(g1, rest.grid, box.value, words[0]);
      forall k | 0 <= k < |r.spans| ensures Spells(r.grid, r.spans[k], sel[k]) {
        if k > 0 {
          assert r.spans[k] == rest.spans[k - 1] && sel[k] == selRest[k - 1];
        }
      }
    } else {
      assert sel == selRest;
      assert r.spans == rest.spans;
    }
  }

  /** Number of empty cells in a stretch of the cell array. */
  function EmptyCount(cells: seq<Option<char>>): nat {
    if |cells| == 0 then 0 else (if cells[0].None? then 1 else 0) + EmptyCount(cells[1..])
  }

  lemma EmptyCountStep(cells: seq<Option<char>>, k: int, j: int)
    requires 0 <= k < j <= |cells|
    ensures EmptyCount(cells[k..j]) == (if cells[k].None? then 1 else 0) + EmptyCount(cells[k + 1..j])
  {
    assert cells[k..j][1..] == cells[k + 1..j];
  }

  /** `r` is what the fill pass leaves when started at address `k` with `n`
      draws already used: the addresses before `k` are untouched, a filled
      cell keeps its letter, and the empty cell at address `j` gets the draw
      numbered by how many empty cells came before it. */
  ghost predicate FilledFrom(g: Grid, r: Grid, k: nat, n: nat, draws: nat -> LetterDraw) {
    |r.cells| == |g.cells| && k <= |g.cells| &&
    (forall j :: 0 <= j < k ==> r.cells[j] == g.cells[j]) &&
    forall j :: k <= j < |g.cells| ==>
      r.cells[j] == if g.cells[j].Some? then g.cells[j] else Some(FillLetter(draws(n + EmptyCount(g.cells[k..j]))))
  }

  /** The fill pass from address `k` on, `n` draws already used: it visits
      rows top to bottom and columns left to right, which is address order,
      and gives each empty cell the letter of the next draw. */
  function FillFrom(g: Grid, k: nat, n: nat, draws: nat -> LetterDraw): (r: Grid)
    requires Valid(g) && k <= |g.cells|
    ensures Valid(r) && r.cols == g.cols && r.rows == g.rows
    ensures FilledFrom(g, r, k, n, draws)
    decreases |g.cells| - k
  {
    if k == |g.cells| then g
    else
      var (g1, n1) := FillCell(g, k, n, draws);
      var r := FillFrom(g1, k + 1, n1, draws);
      FillStep(g, g1, r, k, n, n1, draws);
      r
  }

  /** One turn of the fill loop, at row `k / cols` and column `k % cols`:
      when `letter` finds the cell empty, `setLetter` writes the letter of
      draw `n` there and one more draw is used; nothing else changes. */
  function FillCell(g: Grid, k: nat, n: nat, draws: nat -> LetterDraw): (r: (Grid, nat))
    requires Valid(g) && k < |g.cells|
    ensures Valid(r.0) && r.0.cols == g.cols && r.0.rows == g.rows
    ensures forall j :: 0 <= j < |g.cells| && j != k ==> r.0.cells[j] == g.cells[j]
    ensures r.0.cells[k] == if g.cells[k].Some? then g.cells[k] else Some(FillLetter(draws(n)))
    ensures r.1 == if g.cells[k].None? then n + 1 else n
  {
    FillAddress(g, k);
    var row, col := k / g.cols, k % g.cols;
    if Letter(g, col, row).None? then (SetLetter(g, col, row, FillLetter(draws(n))), n + 1)
    else (g, n)
  }

  /** The fill pass reads and writes the cell at row `k / cols`, column
      `k % cols` through `letter` and `setLetter`, which is address `k`. */
  lemma FillAddress(g: Grid, k: nat)
    requires Valid(g) && k < |g.cells|
    ensures g.cols > 0 && InBounds(g, k % g.cols, k / g.cols)
    ensures Index(g.cols, k % g.cols, k / g.cols) == k
    ensures Letter(g, k % g.cols, k / g.cols) == g.cells[k]
  {
    RowMajor(g, k);
    LetterInRange(g, k % g.cols, k / g.cols);
  }

  lemma FillStep(g: Grid, g1: Grid, r: Grid, k: nat, n: nat, n1: nat, draws: nat -> LetterDraw)
    requires k < |g.cells| && |g1.cells| == |g.cells|
    requires forall j :: 0 <= j < |g.cells| && j != k ==> g1.cells[j] == g.cells[j]
    requires g1.cells[k] == if g.cells[k].Some? then g.cells[k] else Some(FillLetter(draws(n)))
    requires n1 == if g.cells[k].None? then n + 1 else n
    requires FilledFrom(g1, r, k + 1, n1, draws)
    ensures FilledFrom(g, r, k, n, draws)
  {
    forall j | k <= j < |g.cells|
      ensures r.cells[j] == if g.cells[j].Some? then g.cells[j] else Some(FillLetter(draws(n + EmptyCount(g.cells[k..j]))))
    {
      if j == k {
        assert g.cells[k..j] == [];
      } else {
        FillStepAt(g, g1, r, k, n, n1, draws, j);
      }
    }
  }

  lemma FillStepAt(g: Grid, g1: Grid, r: Grid, k: nat, n: nat, n1: nat, draws: nat -> LetterDraw, j: nat)
    requires k < j < |g.cells| == |g1.cells| == |r.cells|
    requires forall t :: 0 <= t < |g.cells| && t != k ==> g1.cells[t] == g.cells[t]
    requires n1 == if g.cells[k].None? then n + 1 else n
    requires r.cells[j] == if g1.cells[j].Some? then g1.cells[j] else Some(FillLetter(draws(n1 + EmptyCount(g1.cells[k + 1..j]))))
    ensures r.cells[j] == if g.cells[j].Some? then g.cells[j] else Some(FillLetter(draws(n + EmptyCount(g.cells[k..j]))))
  {
    EmptyCountStep(g.cells, k, j);
    SliceAgree(g1.cells, g.cells, k + 1, j);
  }

  lemma SliceAgree<T>(a: seq<T>, b: seq<T>, lo: int, hi: int)
    requires 0 <= lo <= hi <= |a| == |b|
    requires forall t :: lo <= t < hi ==> a[t] == b[t]
    ensures a[lo..hi] == b[lo..hi]
  {
    forall t | 0 <= t < hi - lo ensures a[lo..hi][t] == b[lo..hi][t] {
      assert a[lo..hi][t] == a[lo + t] && b[lo..hi][t] == b[lo + t];
    }
  }

  /** The fill pass: afterwards no cell is empty, letters already placed are
      untouched, and every cell that was empty holds the filler letter of its
      draw, a letter from `A` to `Z`. */
  function FillPass(g: Grid, draws: nat -> LetterDraw): (r: Grid)
    requires Valid(g) && AllUpper(g)
    ensures Valid(r) && r.cols == g.cols && r.rows == g.rows
    ensures KeepsFilled(g, r) && AllUpper(r)
    ensures forall j :: 0 <= j < |r.cells| ==> r.cells[j].Some?
    ensures forall j :: 0 <= j < |g.cells| && g.cells[j].None? ==>
              r.cells[j] == Some(FillLetter(draws(EmptyCount(g.cells[..j])))) && 'A' <= r.cells[j].value <= 'Z'
  {
    var r := FillFrom(g, 0, 0, draws);
    assert FilledFrom(g, r, 0, 0, draws);
    assert forall j :: 0 <= j <= |g.cells| ==> g.cells[0..j] == g.cells[..j];
    r
  }

  /** A finished puzzle: dimensions, the surviving words in their shuffled
      spelling, all normalised words, the filled grid and the solution boxes. */
  datatype WordGrid = WordGrid(cols: nat, rows: nat, wordSet: seq<string>, wordsNoSpace: seq<string>,
                               grid: Grid, solutionBoxes: seq<Span>)

  /** The placement loop as `generateWordSearch` runs it on a fresh grid:
      a grid of the asked size holding only upper-case letters, one flag per
      word and one box per placed word. */
  function Placements(cols: nat, rows: nat, shuffled: seq<string>, choices: seq<seq<Choice>>): (r: Outcome)
    requires ChoicesFor(shuffled, choices)
    ensures Valid(r.grid) && r.grid.cols == cols && r.grid.rows == rows && AllUpper(r.grid)
    ensures |r.placed| == |shuffled|
    ensures |r.spans| == CountTrue(r.placed)
  {
    var g := EmptyGrid(cols, rows);
    var norm := RemoveSpaces(shuffled);
    var out := PlaceAll(g, norm, choices);
    PlaceAllSpells(g, norm, choices);
    SelectCount(norm, out.placed);
    out
  }

  /** `generateWordSearch` on an already shuffled word list. The engine never
      fails: words that find no room are dropped, so there is one solution box
      per surviving word, never more words than were asked for, and no empty
      cell. */
  function Generate(cols: nat, rows: nat, shuffled: seq<string>, choices: seq<seq<Choice>>,
                    draws: nat -> LetterDraw): (r: WordGrid)
    requires ChoicesFor(shuffled, choices)
    ensures Valid(r.grid) && r.grid.cols == cols && r.grid.rows == rows
    ensures |r.wordsNoSpace| == |shuffled|
    ensures forall i :: 0 <= i < |shuffled| ==> FirstSpaceRemoved(shuffled[i], r.wordsNoSpace[i])
    ensures |r.solutionBoxes| == |r.wordSet| <= |shuffled|
    ensures multiset(r.wordSet) <= multiset(shuffled)
    ensures forall k :: 0 <= k < |r.grid.cells| ==> r.grid.cells[k].Some?
  {
    var norm := RemoveSpaces(shuffled);
    var g := EmptyGrid(cols, rows);
    var out := PlaceAll(g, norm, choices);
    PlaceAllSpells(g, norm, choices);
    SelectCount(norm, out.placed);
    DropKeepsPlaced(shuffled, out.placed);
    SelectSplits(shuffled, out.placed);
    var kept := DropAll(shuffled, Select(shuffled, out.placed, false));
    WordGrid(cols, rows, kept, norm, FillPass(out.grid, draws), out.spans)
  }

}

/** What a finished puzzle promises its readers: every box spells its word,
    the counts agree, no cell is empty, and `letter` answers for every cell;
    plus the worked examples of the engine's behaviour. */
module Properties {

  import opened Options
  import opened Letters
  import opened Grids
  import opened Words
  import opened Placement
  import opened Engine

  /** Each normalised word is the word with its first space removed. */
  lemma RemoveSpacesIsFirstSpace(ws: seq<string>)
    ensures forall i :: 0 <= i < |ws| ==> RemoveSpaces(ws)[i] == RemoveFirstSpace(ws[i])
  {
    forall i | 0 <= i < |ws| ensures RemoveSpaces(ws)[i] == RemoveFirstSpace(ws[i]) {
      FirstSpaceRemovedUnique(ws[i], RemoveSpaces(ws)[i], RemoveFirstSpace(ws[i]));
    }
  }

  /** Every solution box reads back, in the filled grid, the upper-cased
      normalised form of the placed word it belongs to; the returned word
      list holds exactly the placed words, counted with multiplicity. */
  lemma GenerateReadBack(cols: nat, rows: nat, shuffled: seq<string>, choices: seq<seq<Choice>>,
                         draws: nat -> LetterDraw)
    requires ChoicesFor(shuffled, choices)
    ensures var r := Generate(cols, rows, shuffled, choices, draws);
            var placedWords := Select(shuffled, Placements(cols, rows, shuffled, choices).placed, true);
            multiset(r.wordSet) == multiset(placedWords) &&
            |r.solutionBoxes| == |placedWords| &&
            forall k :: 0 <= k < |r.solutionBoxes| ==>
              Spells(r.grid, r.solutionBoxes[k], RemoveFirstSpace(placedWords[k]))
  {
    var r := Generate(cols, rows, shuffled, choices, draws);
    var norm := RemoveSpaces(shuffled);
    var out := PlaceAll(EmptyGrid(cols, rows), norm, choices);
    assert out == Placements(cols, rows, shuffled, choices);
    PlaceAllSpells(EmptyGrid(cols, rows), norm, choices);
    var placedWords := Select(shuffled, out.placed, true);
    DropKeepsPlaced(shuffled, out.placed);
    SelectSplits(shuffled, out.placed);
    SelectRemoveSpaces(shuffled, out.placed, true);
    RemoveSpacesIsFirstSpace(placedWords);
    assert r.grid == FillPass(out.grid, draws);
    forall k | 0 <= k < |r.solutionBoxes|
      ensures Spells(r.grid, r.solutionBoxes[k], RemoveFirstSpace(placedWords[k]))
    {
      assert Select(norm, out.placed, true)[k] == RemoveFirstSpace(placedWords[k]);
      SpellsKept(out.grid, r.grid, out.spans[k], Select(norm, out.placed, true)[k]);
    }
  }

  /** With no repeated words the returned list is the placed words in
      shuffled order, and the `k`-th solution box spells the `k`-th returned
      word. */
  lemma GenerateDistinctReadBack(cols: nat, rows: nat, shuffled: seq<string>, choices: seq<seq<Choice>>,
                                 draws: nat -> LetterDraw)
    requires ChoicesFor(shuffled, choices) && Distinct(shuffled)
    ensures var r := Generate(cols, rows, shuffled, choices, draws);
            r.wordSet == Select(shuffled, Placements(cols, rows, shuffled, choices).placed, true) &&
            |r.solutionBoxes| == |r.wordSet| &&
            forall k :: 0 <= k < |r.wordSet| ==> Spells(r.grid, r.solutionBoxes[k], RemoveFirstSpace(r.wordSet[k]))
  {
    GenerateReadBack(cols, rows, shuffled, choices, draws);
    DropDistinctIsFilter(shuffled, Placements(cols, rows, shuffled, choices).placed);
  }

  /** `letter` answers with a letter for every coordinate pair up to one step
      past the right and bottom edges, negative ones included. */
  lemma GeneratedLetterDefined(cols: nat, rows: nat, shuffled: seq<string>, choices: seq<seq<Choice>>,
                               draws: nat -> LetterDraw, x: int, y: int)
    requires ChoicesFor(shuffled, choices) && cols > 0 && rows > 0 && x <= cols && y <= rows
    ensures Letter(Generate(cols, rows, shuffled, choices, draws).grid, x, y).Some?
  {
    var g := Generate(cols, rows, shuffled, choices, draws).grid;
    LetterInRange(g, x, y);
    var (cx, cy) := Clamp(cols, rows, x, y);
    IndexInRange(g, cx, cy);
  }

  /** A word longer than both dimensions fits in no direction. */
  lemma TooLongInfeasible(g: Grid, word: string, row: int, col: int, d: Step)
    requires Valid(g) && d in Directions && |word| > g.cols && |word| > g.rows
    ensures !Feasible(g, word, row, col, d)
  {
    if Feasible(g, word, row, col, d) {
      var n := |word|;
      assert Fits(g, word, row, col, d, 0) && Fits(g, word, row, col, d, n - 1);
      DirectionShape(d);
    }
  }

  /** Such a word is given up after its attempts, whatever they are. */
  lemma TooLongNeverPlaced(g: Grid, word: string, tries: seq<Choice>)
    requires Valid(g) && AllUpper(g) && |tries| == MaxAttempts && |word| > g.cols && |word| > g.rows
    ensures TryPlace(g, word, tries, 0) == (g, None)
  {
    forall k | 0 <= k < MaxAttempts ensures !ChoiceFeasible(g, word, tries[k]) {
      TooLongInfeasible(g, word, tries[k].row, tries[k].col, Directions[tries[k].dir]);
    }
  }

  /** Words without a space come out of `removeSpaces` unchanged. */
  lemma RemoveSpacesNoSpace(ws: seq<string>)
    requires forall i :: 0 <= i < |ws| ==> ' ' !in ws[i]
    ensures RemoveSpaces(ws) == ws
  {
    RemoveSpacesIsFirstSpace(ws);
  }

  /** A word still longer than one letter after its first space is removed,
      on a 1 x 1 grid: it is dropped, no box is recorded, and the single cell
      still gets a filler letter. */
  lemma OneCellGrid(w: string, choices: seq<seq<Choice>>, draws: nat -> LetterDraw)
    requires |RemoveFirstSpace(w)| >= 2 && ChoicesFor([w], choices)
    ensures var r := Generate(1, 1, [w], choices, draws);
            r.wordSet == [] && r.solutionBoxes == [] &&
            r.grid.cells == [Some(FillLetter(draws(0)))]
  {
    var g := EmptyGrid(1, 1);
    OneCellPlacement(w, choices);
    assert PlaceAll(g, RemoveSpaces([w]), choices) == Outcome(g, [], [false]);
    var r := Generate(1, 1, [w], choices, draws);
    OneCellDrop(w);
    assert r.wordSet == DropAll([w], Select([w], [false], false));
    OneCellFill(draws);
    assert r.grid == FillPass(g, draws);
  }

  /** A lone unplaced word is dropped from the word list. */
  lemma OneCellDrop(w: string)
    ensures DropAll([w], Select([w], [false], false)) == []
  {
    assert Select([w], [false], false) == [w];
    assert IndexOf([w], w) == 0;
    assert DropAll([w], [w]) == DropAll([], []);
  }

  /** The fill pass on an empty 1 x 1 grid gives its cell the first draw. */
  lemma OneCellFill(draws: nat -> LetterDraw)
    ensures FillPass(EmptyGrid(1, 1), draws).cells == [Some(FillLetter(draws(0)))]
  {
    var g := EmptyGrid(1, 1);
    var f := FillPass(g, draws);
    assert g.cells[..0] == [];
    assert f.cells == [f.cells[0]];
  }

  /** The placement loop on a 1 x 1 grid gives up on a word that is longer
      than one letter after normalisation. */
  lemma OneCellPlacement(w: string, choices: seq<seq<Choice>>)
    requires |RemoveFirstSpace(w)| >= 2 && ChoicesFor([w], choices)
    ensures Placements(1, 1, [w], choices) == Outcome(EmptyGrid(1, 1), [], [false])
  {
    var g := EmptyGrid(1, 1);
    var n := RemoveFirstSpace(w);
    RemoveSpacesIsFirstSpace([w]);
    assert RemoveSpaces([w]) == [n];
    TooLongNeverPlaced(g, n, choices[0]);
    PlaceAllOne(g, n, choices);
  }

  /** A spelled box can be read back through `letter`. */
  lemma SpellsLetters(g: Grid, s: Span, w: string)
    requires Valid(g) && Spells(g, s, w) && |w| > 0
    ensures forall i :: 0 <= i < |w| ==>
              Letter(g, Pos(s.start.y, s.start.x, s.dir, i).x, Pos(s.start.y, s.start.x, s.dir, i).y) == Some(Upper(w[i]))
  {
    forall i | 0 <= i < |w|
      ensures Letter(g, Pos(s.start.y, s.start.x, s.dir, i).x, Pos(s.start.y, s.start.x, s.dir, i).y) == Some(Upper(w[i]))
    {
      assert ReadsAt(g, s, w, i);
      var p := Pos(s.start.y, s.start.x, s.dir, i);
      LetterInRange(g, p.x, p.y);
    }
  }

  /** When the first attempt is feasible it is the one committed. */
  lemma FirstAttemptCommits(g: Grid, word: string, tries: seq<Choice>)
    requires Valid(g) && AllUpper(g) && |tries| == MaxAttempts && ChoiceFeasible(g, word, tries[0])
    ensures TryPlace(g, word, tries, 0) == Commit(g, word, tries[0])
  {
  }

  /** One turn of the placement loop. */
  lemma PlaceAllCons(g: Grid, words: seq<string>, choices: seq<seq<Choice>>)
    requires Valid(g) && AllUpper(g) && ChoicesFor(words, choices) && |words| > 0
    ensures ChoicesFor(words[1..], choices[1..])
    ensures var (g1, box) := TryPlace(g, words[0], choices[0], 0);
            var rest := PlaceAll(g1, words[1..], choices[1..]);
            PlaceAll(g, words, choices) ==
              Outcome(rest.grid, (if box.Some? then [box.value] else []) + rest.spans, [box.Some?] + rest.placed)
  {
    ChoicesForTail(words, choices);
  }

  lemma PlaceAllOne(g: Grid, w: string, choices: seq<seq<Choice>>)
    requires Valid(g) && AllUpper(g) && ChoicesFor([w], choices)
    ensures var (g1, box) := TryPlace(g, w, choices[0], 0);
            PlaceAll(g, [w], choices) == Outcome(g1, if box.Some? then [box.value] else [], [box.Some?])
  {
    PlaceAllCons(g, [w], choices);
    assert [w][1..] == [];
  }

  lemma PlaceAllTwo(g: Grid, w1: string, w2: string, choices: seq<seq<Choice>>)
    requires Valid(g) && AllUpper(g) && ChoicesFor([w1, w2], choices)
    ensures var t1 := TryPlace(g, w1, choices[0], 0);
            var t2 := TryPlace(t1.0, w2, choices[1], 0);
            PlaceAll(g, [w1, w2], choices) ==
              Outcome(t2.0, (if t1.1.Some? then [t1.1.value] else []) + (if t2.1.Some? then [t2.1.value] else []),
                      [t1.1.Some?, t2.1.Some?])
  {
    var ws := [w1, w2];
    PlaceAllCons(g, ws, choices);
    var t1 := TryPlace(g, w1, choices[0], 0);
    assert ws[1..] == [w2] && choices[1..][0] == choices[1];
    PlaceAllOne(t1.0, w2, choices[1..]);
  }

  /** A word no longer than the width, running right from the top-left
      corner of an empty grid, fits. */
  lemma RightFromCornerFits(cols: nat, rows: nat, w: string)
    requires 0 < |w| <= cols && rows > 0
    ensures Feasible(EmptyGrid(cols, rows), w, 0, 0, Directions[0])
  {
    var g := EmptyGrid(cols, rows);
    forall i | 0 <= i < |w| ensures Fits(g, w, 0, 0, Directions[0], i) {
      assert Pos(0, 0, Directions[0], i) == Point(i, 0);
      IndexInRange(g, i, 0);
    }
  }

  /** On an empty grid, a first attempt at the top-left corner running right
      commits the word there. */
  lemma FirstWordAtCorner(cols: nat, rows: nat, w: string, tries: seq<Choice>)
    requires 0 < |w| <= cols && rows >= 1
    requires |tries| == MaxAttempts && tries[0] == Choice(0, 0, 0)
    ensures var g := EmptyGrid(cols, rows);
            Feasible(g, w, 0, 0, Directions[0]) &&
            TryPlace(g, w, tries, 0) ==
              (PlaceWord(g, w, 0, 0, Directions[0]).0, Some(Span(Point(0, 0), Point(|w| - 1, 0), Step(0, 1))))
  {
    RightFromCornerFits(cols, rows, w);
    FirstAttemptCommits(EmptyGrid(cols, rows), w, tries);
  }

  lemma OneWordPlacement(cols: nat, rows: nat, w: string, choices: seq<seq<Choice>>)
    requires 0 < |w| <= cols && rows >= 1 && ' ' !in w
    requires ChoicesFor([w], choices) && choices[0][0] == Choice(0, 0, 0)
    ensures Placements(cols, rows, [w], choices).placed == [true]
    ensures Placements(cols, rows, [w], choices).spans == [Span(Point(0, 0), Point(|w| - 1, 0), Step(0, 1))]
  {
    RemoveSpacesNoSpace([w]);
    FirstWordAtCorner(cols, rows, w, choices[0]);
    PlaceAllOne(EmptyGrid(cols, rows), w, choices);
  }

  /** A word placed on its first attempt at the top-left corner, running
      right: it is returned, its box runs along the top row, and `letter`
      reads its upper-cased letters there. */
  lemma SingleWordFirstAttempt(cols: nat, rows: nat, w: string, choices: seq<seq<Choice>>, draws: nat -> LetterDraw)
    requires 0 < |w| <= cols && rows >= 1 && ' ' !in w
    requires ChoicesFor([w], choices) && choices[0][0] == Choice(0, 0, 0)
    ensures var r := Generate(cols, rows, [w], choices, draws);
            r.wordSet == [w] &&
            r.solutionBoxes == [Span(Point(0, 0), Point(|w| - 1, 0), Step(0, 1))] &&
            forall i :: 0 <= i < |w| ==> Letter(r.grid, i, 0) == Some(Upper(w[i]))
  {
    var ws := [w];
    OneWordPlacement(cols, rows, w, choices);
    GenerateDistinctReadBack(cols, rows, ws, choices, draws);
    assert Select(ws, [true], true) == ws;
    var r := Generate(cols, rows, ws, choices, draws);
    assert r.solutionBoxes == Placements(cols, rows, ws, choices).spans;
    assert RemoveFirstSpace(w) == w;
    SpellsLetters(r.grid, r.solutionBoxes[0], w);
    forall i | 0 <= i < |w| ensures Letter(r.grid, i, 0) == Some(Upper(w[i])) {
      assert Pos(0, 0, Step(0, 1), i) == Point(i, 0);
    }
  }

  /** With `w1` written right from the corner of an empty grid, `w2` fits
      running down from the same corner when its raw first character equals
      the stored, upper-cased first letter of `w1`. */
  lemma SecondCrossesFirst(g: Grid, g1: Grid, w1: string, w2: string)
    requires g == EmptyGrid(g.cols, g.rows) && 0 < |w1| <= g.cols && 0 < |w2| <= g.rows
    requires Upper(w1[0]) == w2[0]
    requires Feasible(g, w1, 0, 0, Directions[0])
    requires g1 == PlaceWord(g, w1, 0, 0, Directions[0]).0
    ensures Feasible(g1, w2, 0, 0, Directions[1])
  {
    var right, down := Directions[0], Directions[1];
    forall i | 0 <= i < |w2| ensures Fits(g1, w2, 0, 0, down, i) {
      assert Pos(0, 0, down, i) == Point(0, i);
      IndexInRange(g, 0, i);
      if i == 0 {
        assert Pos(0, 0, right, 0) == Point(0, 0);
      } else {
        forall j | 0 <= j < |w1| ensures PathIndex(g.cols, 0, 0, right, j) != Index(g.cols, 0, i) {
          assert Pos(0, 0, right, j) == Point(j, 0);
          IndexInjective(g.cols, j, 0, 0, i);
        }
        assert !OnPath(g.cols, 0, 0, right, 0, |w1|, Index(g.cols, 0, i));
      }
    }
  }

  lemma SecondAtCorner(g: Grid, g1: Grid, w1: string, w2: string, tries: seq<Choice>)
    requires g == EmptyGrid(g.cols, g.rows) && 0 < |w1| <= g.cols && 0 < |w2| <= g.rows
    requires Upper(w1[0]) == w2[0]
    requires |tries| == MaxAttempts && tries[0] == Choice(0, 0, 1)
    requires Feasible(g, w1, 0, 0, Directions[0])
    requires g1 == PlaceWord(g, w1, 0, 0, Directions[0]).0
    ensures Valid(g1) && AllUpper(g1)
    ensures TryPlace(g1, w2, tries, 0).1 == Some(Span(Point(0, 0), Point(0, |w2| - 1), Step(1, 0)))
  {
    PlaceKeepsFilled(g, w1, 0, 0, Directions[0]);
    SecondCrossesFirst(g, g1, w1, w2);
    DownFromCorner(g1, w2, tries);
  }

  /** A word that fits running down from the corner is committed there when
      that is its first attempt. */
  lemma DownFromCorner(g: Grid, w: string, tries: seq<Choice>)
    requires Valid(g) && AllUpper(g) && |w| > 0
    requires |tries| == MaxAttempts && tries[0] == Choice(0, 0, 1)
    requires Feasible(g, w, 0, 0, Directions[1])
    ensures TryPlace(g, w, tries, 0).1 == Some(Span(Point(0, 0), Point(0, |w| - 1), Step(1, 0)))
  {
    var c := tries[0];
    assert ChoiceFeasible(g, w, c);
    FirstAttemptCommits(g, w, tries);
    assert TryPlace(g, w, tries, 0) == Commit(g, w, c);
    CornerDownSpan(|w|, c);
  }

  /** The box formula of a committed attempt, for the attempt that starts at
      the corner and runs down. */
  lemma CornerDownSpan(n: int, c: Choice)
    requires c == Choice(0, 0, 1)
    ensures var d := Directions[c.dir];
            Span(Point(c.col, c.row), Point(c.col + (n - 1) * d.dCol, c.row + (n - 1) * d.dRow), d) ==
              Span(Point(0, 0), Point(0, n - 1), Step(1, 0))
  {
    assert Directions[1] == Step(1, 0);
  }

  lemma CrossingPlacement(cols: nat, rows: nat, w1: string, w2: string, choices: seq<seq<Choice>>)
    requires 0 < |w1| <= cols && 0 < |w2| <= rows && ' ' !in w1 && ' ' !in w2
    requires Upper(w1[0]) == w2[0]
    requires ChoicesFor([w1, w2], choices)
    requires choices[0][0] == Choice(0, 0, 0) && choices[1][0] == Choice(0, 0, 1)
    ensures Placements(cols, rows, [w1, w2], choices).placed == [true, true]
    ensures Placements(cols, rows, [w1, w2], choices).spans ==
              [Span(Point(0, 0), Point(|w1| - 1, 0), Step(0, 1)), Span(Point(0, 0), Point(0, |w2| - 1), Step(1, 0))]
  {
    var g := EmptyGrid(cols, rows);
    RemoveSpacesNoSpace([w1, w2]);
    FirstWordAtCorner(cols, rows, w1, choices[0]);
    var g1 := TryPlace(g, w1, choices[0], 0).0;
    SecondAtCorner(g, g1, w1, w2, choices[1]);
    PlaceAllTwo(g, w1, w2, choices);
  }

  /** Two words crossing at a shared first letter: the first runs right and
      the second runs down from the same corner; both are placed, returned
      in order, and read back from the shared grid. */
  lemma CrossingWords(cols: nat, rows: nat, w1: string, w2: string, choices: seq<seq<Choice>>, draws: nat -> LetterDraw)
    requires 0 < |w1| <= cols && 0 < |w2| <= rows && ' ' !in w1 && ' ' !in w2
    requires Upper(w1[0]) == w2[0]
    requires ChoicesFor([w1, w2], choices)
    requires choices[0][0] == Choice(0, 0, 0) && choices[1][0] == Choice(0, 0, 1)
    ensures var r := Generate(cols, rows, [w1, w2], choices, draws);
            r.wordSet == [w1, w2] &&
            r.solutionBoxes == [Span(Point(0, 0), Point(|w1| - 1, 0), Step(0, 1)), Span(Point(0, 0), Point(0, |w2| - 1), Step(1, 0))] &&
            Spells(r.grid, r.solutionBoxes[0], w1) && Spells(r.grid, r.solutionBoxes[1], w2)
  {
    var ws := [w1, w2];
    CrossingPlacement(cols, rows, w1, w2, choices);
    GenerateReadBack(cols, rows, ws, choices, draws);
    assert Select(ws, [true, true], true) == ws;
    assert Select(ws, [true, true], false) == [];
    var r := Generate(cols, rows, ws, choices, draws);
    assert r.wordSet == DropAll(ws, []);
    assert r.solutionBoxes == Placements(cols, rows, ws, choices).spans;
    assert RemoveFirstSpace(w1) == w1 && RemoveFirstSpace(w2) == w2;
  }

  /** With `w1` written right from the corner, a second word whose first
      character is the same lower-case letter never fits at that corner. */
  lemma SecondNeverFits(g: Grid, g1: Grid, w1: string, w2: string, tries: seq<Choice>)
    requires g == EmptyGrid(g.cols, g.rows) && 0 < |w1| && 0 < |w2|
    requires w1[0] == w2[0] && 'a' <= w2[0] <= 'z'
    requires |tries| == MaxAttempts
    requires forall k :: 0 <= k < MaxAttempts ==> tries[k].row == 0 && tries[k].col == 0
    requires Feasible(g, w1, 0, 0, Directions[0])
    requires g1 == PlaceWord(g, w1, 0, 0, Directions[0]).0
    ensures Valid(g1) && AllUpper(g1)
    ensures TryPlace(g1, w2, tries, 0).1.None?
  {
    PlaceKeepsFilled(g, w1, 0, 0, Directions[0]);
    assert Cell(g1, 0, 0) == Some(Upper(w2[0])) by {
      assert Pos(0, 0, Directions[0], 0) == Point(0, 0);
    }
    forall k | 0 <= k < MaxAttempts ensures !ChoiceFeasible(g1, w2, tries[k]) {
      var c := tries[k];
      assert Pos(c.row, c.col, Directions[c.dir], 0) == Point(0, 0);
      LowerCaseNeverCrosses(g1, w2, 0, 0, Directions[c.dir], 0);
    }
  }

  lemma LowerCasePlacement(cols: nat, rows: nat, w1: string, w2: string, choices: seq<seq<Choice>>)
    requires 0 < |w1| <= cols && rows >= 1 && 0 < |w2| && ' ' !in w1 && ' ' !in w2
    requires w1[0] == w2[0] && 'a' <= w2[0] <= 'z'
    requires ChoicesFor([w1, w2], choices)
    requires choices[0][0] == Choice(0, 0, 0)
    requires forall k :: 0 <= k < MaxAttempts ==> choices[1][k].row == 0 && choices[1][k].col == 0
    ensures Placements(cols, rows, [w1, w2], choices).placed == [true, false]
  {
    var g := EmptyGrid(cols, rows);
    RemoveSpacesNoSpace([w1, w2]);
    FirstWordAtCorner(cols, rows, w1, choices[0]);
    var g1 := TryPlace(g, w1, choices[0], 0).0;
    SecondNeverFits(g, g1, w1, w2, choices[1]);
    PlaceAllTwo(g, w1, w2, choices);
  }

  /** The same crossing with lower-case words fails: the corner holds the
      upper-cased letter and the second word compares it with its raw
      lower-case character. When every attempt for the second word starts at
      that corner, it is dropped. */
  lemma LowerCaseCannotCross(cols: nat, rows: nat, w1: string, w2: string, choices: seq<seq<Choice>>,
                             draws: nat -> LetterDraw)
    requires 0 < |w1| <= cols && rows >= 1 && 0 < |w2| && ' ' !in w1 && ' ' !in w2
    requires w1[0] == w2[0] && 'a' <= w2[0] <= 'z'
    requires ChoicesFor([w1, w2], choices)
    requires choices[0][0] == Choice(0, 0, 0)
    requires forall k :: 0 <= k < MaxAttempts ==> choices[1][k].row == 0 && choices[1][k].col == 0
    ensures var r := Generate(cols, rows, [w1, w2], choices, draws);
            r.wordSet == [w1] && |r.solutionBoxes| == 1
  {
    var ws := [w1, w2];
    LowerCasePlacement(cols, rows, w1, w2, choices);
    GenerateReadBack(cols, rows, ws, choices, draws);
    assert Select(ws, [true, false], true) == [w1];
    var r := Generate(cols, rows, ws, choices, draws);
    assert multiset(r.wordSet) == multiset{w1};
    SingletonMultiset(r.wordSet, w1);
  }

  /** A list whose multiset is a single element is that one-element list. */
  lemma SingletonMultiset<T>(s: seq<T>, x: T)
    requires multiset(s) == multiset{x}
    ensures s == [x]
  {
    assert |s| == |multiset(s)| == 1;
    assert s[0] in multiset(s);
  }

}

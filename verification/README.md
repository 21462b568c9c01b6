# Word-search grid generation engine, in Dafny

This project models the grid generation engine of a word-search puzzle
generator: the `WordGrid` class of `public/wordgrid.js`. Given a number of
columns, a number of rows and a word list, `generateWordSearch` does five
things:

1. It shuffles the words.
2. It strips a space from each word (`removeSpaces`).
3. It tries to place every word up to 100 times. Each attempt has a random
   start cell and one of six directions. `canPlaceWord` filters the attempt
   and `placeWord` commits it.
4. It drops the words that found no room from `wordSet`.
5. It fills every cell still empty with a random letter.

The grid is read back through `setLetter`, `clamp` and `letter`.

Every random draw becomes an input of the model, so each step is a pure
function:

- **Shuffle:** the word list arrives already shuffled.
- **Attempts:** each word comes with exactly 100 attempt choices (`Engine.Choice`: row, column, direction index).
- **Fill letters:** the fill pass reads its letters from an oracle, `draws: nat -> LetterDraw`. Draw `n` is used for the `n`-th empty cell in row-major order.

The grid is a flat `seq<Option<char>>` of `cols * rows` cells. Cell `(x, y)`
lives at address `y * cols + x`, and `None` stands for an empty cell
(`null`).

Modules, one file each:

| module | file | models |
|---|---|---|
| `Options` | `options.dfy` | `Option`: present or absent |
| `Letters` | `letters.dfy` | upper-casing and the filler letters |
| `Grids` | `grid.dfy` | the cell array, `setLetter`, `clamp`, `letter` |
| `Words` | `words.dfy` | `removeSpaces`, and the drop pass with `indexOf` and `splice` |
| `Placement` | `placement.dfy` | the direction table, `canPlaceWord`, `placeWord` |
| `Engine` | `engine.dfy` | the retry loop, the placement loop, the fill pass, `generateWordSearch` |
| `Properties` | `properties.dfy` | read-back of the finished puzzle, and concrete placement scenarios |

The model follows the code as written, including these details:

- **Spaces:** `word.replace(" ", "")` has a string pattern, so it removes only the first space (`Words.RemoveFirstSpace`).
- **Crossing check:** `canPlaceWord` compares a stored letter with the raw `word[i]`. `a`..`z` are always stored upper-cased, so an ASCII lower-case letter can never cross an existing word (`Placement.LowerCaseNeverCrosses`, `Properties.LowerCaseCannotCross`).
- **Filler letters:** `sampleRandomLetter` (public/wordgrid.js:136-139) excludes `Z`, but only the unused `generateGrid` calls it; the fill pass (line 114) draws from all 26 letters `A`..`Z`.
- **`clamp`:**
  - Despite its name, `clamp` moves a coordinate at or past the edge back by one only.
  - So `letter` stays in range only for coordinates up to the dimension (`Grids.ClampInRange`).
  - At `x == cols + 1` it reads the first cell of the next row (`Grids.LetterPastEdgeWraps`).
  - The engine itself only reads in-range cells.
- **Drop pass:** it removes each dropped word by `indexOf` + `splice`, which removes the first equal string.
  - With duplicate words, the surviving order can differ from the order of the placed words (`Words.DropReordersDuplicates`).
  - The surviving multiset and count are still exact (`Words.DropKeepsPlaced`).
  - For distinct words, the result is exactly the placed words in order (`Words.DropDistinctIsFilter`).
- **Empty word:** it is always feasible and records a box with no start or end (`Placement.Span.Blank`).

## Model

| member | source | states |
|---|---|---|
| Letters.Upper | public/wordgrid.js:63 | `toUpperCase` on one character maps `a`..`z` to the matching `A`..`Z` and leaves every other character alone; no lower-case letter comes out |
| Letters.UpperIdempotent | public/wordgrid.js:49-63 | a letter `placeWord` stores is unchanged by upper-casing again, which is why a stored letter can match a later raw character |
| Letters.FillLetter | public/wordgrid.js:114 | `String.fromCharCode(65 + k)` for a draw `k` in 0..25 is the `k`-th capital letter, so `Z` is reachable |
| Grids.EmptyGrid | public/wordgrid.js:31 | the fresh grid has `cols * rows` cells, all empty |
| Grids.SetLetter | public/wordgrid.js:120-122 | writing `(x, y)` makes the cell read back as the letter and leaves every other address unchanged |
| Grids.RowMajorOrder | public/wordgrid.js:111-113 | a later address lies in a later row, or in the same row further right, so walking addresses in order is the row-then-column loop order |
| Grids.IndexInjective | public/wordgrid.js:120-131 | the row-major address `y * cols + x` names two in-column cells alike exactly when they are the same cell |
| Grids.RowMajor | public/wordgrid.js:111-121 | every address of the array is the address of the in-range cell `(k % cols, k / cols)` |
| Grids.Clamp | public/wordgrid.js:124-126 | `clamp` keeps an in-range coordinate, sends a negative one to 0 and one at or past the edge to one less; so one at most the dimension lands in range and one beyond it stays outside |
| Grids.Letter | public/wordgrid.js:128-131 | `letter` reads the stored cell for an in-range coordinate and never yields a letter the grid does not hold |
| Grids.ClampInRange | public/wordgrid.js:124-126 | `clamp` keeps in-range coordinates, and lands inside the grid exactly when both coordinates are at most the dimension |
| Grids.LetterInRange | public/wordgrid.js:124-131 | `letter` reads the clamped cell; in range it reads the cell itself, at `x == cols` it reads the last column, and at a negative `x` or `y` it reads the first column or row |
| Grids.LetterPastEdgeWraps | public/wordgrid.js:124-131 | at column `cols + 1`, `letter` reads the first cell of the next row |
| Words.RemoveFirstSpace | public/wordgrid.js:148 | the result is the word with its first space cut out (or the word itself when it has none), one character shorter exactly when a space was present |
| Words.RemoveFirstSpaceKeepsOthers | public/wordgrid.js:148 | removing the space changes the word's characters only by that one space |
| Words.FirstSpaceRemovedUnique | public/wordgrid.js:148 | the first-space relation determines its result, so any two results agree |
| Words.RemoveSpaces | public/wordgrid.js:145-152 | `removeSpaces` keeps the list's length and order, each entry being its word with the first space removed |
| Words.SelectRemoveSpaces | public/wordgrid.js:145-152 | normalising and then picking the placed words gives the same list as picking and then normalising |
| Words.SelectSplits | public/wordgrid.js:100-101 | the placed and the unplaced words together are the word list, and there are as many placed words as `true` flags |
| Words.Select | public/wordgrid.js:100-101 | picking the placed (or the unplaced) words never yields more words than the list |
| Words.IndexOf | public/wordgrid.js:106 | `indexOf` returns -1 exactly when the word is absent, and otherwise the first position holding it |
| Words.RemoveFirst | public/wordgrid.js:106-108 | the `indexOf` + `splice` step removes the first occurrence of the word and nothing else, or does nothing when the word is absent |
| Words.DropAll | public/wordgrid.js:105-109 | dropping the unplaced words removes exactly their multiset and shortens the list by their count |
| Words.DropKeepsPlaced | public/wordgrid.js:100-109 | after the drop pass the surviving words are, as a multiset, the placed words, and there are as many as were placed |
| Words.DropAllDistinct | public/wordgrid.js:105-109 | on a list without duplicates the drop pass is the order-preserving filter of the dropped words |
| Words.DropDistinctIsFilter | public/wordgrid.js:100-109 | with distinct words the final `wordSet` is exactly the placed words in shuffled order |
| Words.DropReordersDuplicates | public/wordgrid.js:100-109 | for `A, B, A` with the second `A` unplaced, the drop removes the first `A` and leaves `B, A`, while the placed words in order are `A, B` |
| Placement.DirectionShape | public/wordgrid.js:33-40 | each of the six directions moves at most one row and one column per letter and never stands still |
| Placement.CanPlaceFrom | public/wordgrid.js:43-54 | the loop of `canPlaceWord` from letter `i` on succeeds exactly when every remaining letter fits |
| Placement.CanPlaceWord | public/wordgrid.js:42-55 | `canPlaceWord` is true exactly when every letter lands inside the grid on an empty cell or on a cell holding that raw letter |
| Placement.EmptyWordFeasible | public/wordgrid.js:42-55 | an empty word can be placed anywhere |
| Placement.LowerCaseNeverCrosses | public/wordgrid.js:46-63 | a word whose lower-case letter would land on that letter's stored capital cannot be placed there |
| Placement.FeasibleInBounds | public/wordgrid.js:46-48 | a feasible attempt keeps every letter inside the grid |
| Placement.PathDistinct | public/wordgrid.js:60-63 | two different letters of one word land on different cells |
| Placement.PlaceFrom | public/wordgrid.js:60-73 | the write loop of `placeWord` from letter `i` on puts each remaining letter, upper-cased, on its cell and changes no cell off the path |
| Placement.PlaceWord | public/wordgrid.js:57-76 | `placeWord` writes every letter upper-cased along the path, changes nothing else, and records a box from `(col, row)` to `(col, row) + (len - 1) * (dirCol, dirRow)` in the attempt's direction, or an empty box for an empty word |
| Placement.PlaceWordSpells | public/wordgrid.js:57-76 | reading the recorded box from its start along its direction spells the upper-cased word |
| Placement.SpellsKept | public/wordgrid.js:46-63 | a box that spells its word still does after any change that keeps filled cells |
| Placement.PlaceKeepsFilled | public/wordgrid.js:46-63 | a feasible placement never changes a filled cell, and the grid keeps holding only upper-case letters |
| Engine.Commit | public/wordgrid.js:92-94 | a committed attempt records a box starting at the attempt's cell and running `len - 1` steps in its direction, a blank box exactly for an empty word, and the grid keeps its size |
| Engine.TryPlace | public/wordgrid.js:84-98 | the retry loop places the word exactly when one of its attempts is feasible; when none is, the grid is untouched; a placement keeps every filled cell |
| Engine.TryPlaceCommitsFirst | public/wordgrid.js:87-98 | a placed word is committed at its first feasible attempt, every earlier attempt being infeasible |
| Engine.TryPlaceSpells | public/wordgrid.js:87-98 | the box the retry loop records spells the word in the grid it leaves |
| Engine.PlaceAll | public/wordgrid.js:79-102 | the placement loop over all words keeps every filled cell, stores only upper-case letters, and decides placed or not for each word |
| Engine.PlaceAllSpells | public/wordgrid.js:75-102 | after the placement loop there is one box per placed word, in commit order, and each spells its word in the final grid |
| Engine.Placements | public/wordgrid.js:28-102 | the placement loop on a fresh grid yields a grid of the asked size holding only upper-case letters, one placed flag per word, and one box per placed word |
| Engine.FillCell | public/wordgrid.js:113-114 | one step of the fill pass gives an empty cell the next draw's letter, uses up one draw, and leaves a filled cell and every other cell as they were |
| Engine.FillFrom | public/wordgrid.js:111-117 | the fill pass from address `k` on leaves earlier cells and filled cells alone and gives each empty cell the letter of the draw numbered by the empty cells before it |
| Engine.FillAddress | public/wordgrid.js:111-113 | the fill loop's `letter(col, row)` for address `k` reads exactly cell `k` |
| Engine.FillPass | public/wordgrid.js:111-117 | after the fill pass no cell is empty, placed letters are unchanged, and each formerly empty cell holds a capital letter from its draw |
| Engine.Generate | public/wordgrid.js:23-118 | `generateWordSearch` always yields a full grid of the asked size, one normalised word per input word, one box per surviving word, and never more surviving words than input words |
| Properties.RemoveSpacesNoSpace | public/wordgrid.js:145-152 | words without spaces come through normalisation unchanged |
| Properties.GenerateReadBack | public/wordgrid.js:57-117 | the surviving words are the placed words, and the `k`-th box spells the `k`-th placed word (normalised, upper-cased) in the filled grid |
| Properties.GenerateDistinctReadBack | public/wordgrid.js:57-117 | with distinct words, `wordSet` is exactly the placed words in order, and box `k` spells `wordSet[k]` |
| Properties.GeneratedLetterDefined | public/wordgrid.js:111-131 | after generation `letter(x, y)` yields a letter for every coordinate no greater than the dimensions, negative ones included |
| Properties.SpellsLetters | public/wordgrid.js:128-131 | a box that spells its word can be read with `letter` along the box, one upper-cased letter per step |
| Properties.TooLongInfeasible | public/wordgrid.js:42-55 | a word longer than both the width and the height fits nowhere |
| Properties.TooLongNeverPlaced | public/wordgrid.js:87-101 | such a word is never placed and leaves the grid untouched |
| Properties.RightFromCornerFits | public/wordgrid.js:42-55 | on an empty grid a word no longer than the width fits rightwards from the top-left corner |
| Properties.FirstWordAtCorner | public/wordgrid.js:84-95 | a first attempt there commits the word with a box from `(0, 0)` to `(len - 1, 0)` |
| Properties.OneWordPlacement | public/wordgrid.js:79-102 | a single word whose first attempt is that corner is placed with that box |
| Properties.SingleWordFirstAttempt | public/wordgrid.js:23-131 | for that word the finished puzzle keeps it, records that box, and `letter(i, 0)` reads its upper-cased letters |
| Properties.SecondCrossesFirst | public/wordgrid.js:42-63 | a second word whose raw first character is the stored capital of the first word's first letter fits downwards from the shared corner |
| Properties.SecondAtCorner | public/wordgrid.js:42-95 | that second word's first attempt commits it with a box from `(0, 0)` to `(0, len - 1)` |
| Properties.DownFromCorner | public/wordgrid.js:84-95 | a word that fits downwards from the corner is committed there, with a box from `(0, 0)` to `(0, len - 1)`, when that is its first attempt |
| Properties.CrossingPlacement | public/wordgrid.js:79-102 | two words crossing at the corner are both placed, with their boxes in commit order |
| Properties.CrossingWords | public/wordgrid.js:23-118 | the finished puzzle keeps both crossing words (equal words included), records their two boxes in order, and each box spells its word |
| Properties.SecondNeverFits | public/wordgrid.js:84-101 | a second word whose first letter is lower case and would land on the first word's stored capital fails every corner attempt |
| Properties.LowerCasePlacement | public/wordgrid.js:79-102 | in that situation the first word is placed and the second is not |
| Properties.LowerCaseCannotCross | public/wordgrid.js:79-109 | the finished puzzle then keeps only the first word and one box, also when the two words are equal |
| Properties.OneCellGrid | public/wordgrid.js:23-118 | on a one-cell grid a word still longer than one letter after its first space is removed is dropped, no box is recorded, and the cell holds the first draw's letter |

## Left out

- Shuffle (public/wordgrid.js:25): `sort(() => Math.random() - 0.5)` is taken as an input permutation. Its statistical quality is not modelled.
- Random draws (public/wordgrid.js:88-90, 114): the draws become inputs.
  - Attempt rows and columns may be any integers. That is a superset of what `Math.floor(Math.random() * rows)` gives.
  - The filler oracle gives one draw per empty cell.
- Letters.Upper: models `toUpperCase` (public/wordgrid.js:63) for the ASCII letters only and keeps every other character as it is. JavaScript also upper-cases other letters: it stores 'è' as 'È', and 'ß' as the two-letter string "SS". The model stores 'è' unchanged. So in the model a later raw 'è' can cross that cell, where the source refuses it (public/wordgrid.js:49), and a later 'È' is refused there, where the source accepts it.
- Characters (public/wordgrid.js:43, 49, 60, 63): a Dafny string is a sequence of Unicode scalar values, but `word.length` and `word[i]` count UTF-16 code units. A character outside the Basic Multilingual Plane takes two cells and two loop turns in the source and one in the model. That changes whether a word fits and where its box ends.
- `generateGrid` and `sampleRandomLetter` (public/wordgrid.js:13-21, 136-139) are not modelled. Nothing calls them.
- The constructor and `generateWordGrid` (public/wordgrid.js:2-11, 141-143) only forward to `generateWordSearch`. `Engine.Generate` stands for them.
- In-place mutation (public/wordgrid.js:25, 27, 108) is not modelled: the sort of the caller's array, `wordSet` aliasing it, and the `splice`. The model returns the word list as a value.
- The `solutionBox` field that `placeWord` reuses (public/wordgrid.js:58) is not modelled. Only the pushed boxes are kept.
- Grids.SetLetter: requires an in-range cell. Every caller in the engine writes only such cells. An out-of-range write in JavaScript would grow the array or add a property, and that is not modelled.
- Fill-pass loops: the fill pass is modelled as one walk over addresses `0 .. cols*rows - 1`, not as nested row and column loops. `Grids.RowMajor` and `Engine.FillAddress` show the two visit the same cells, and `Grids.RowMajorOrder` shows that increasing addresses go row by row and left to right within a row, the order of the nested loops.
- Words.Select: its contract only bounds the length. What it keeps is stated by `Words.SelectSplits`, `Words.SelectMembers` and `Words.FilterOutSelect`.
- Engine.Placements: its contract states the grid's size and letters and the counts of flags and boxes, not which words are placed. That is stated by `Engine.PlaceAll`, `Engine.PlaceAllSpells` and `Engine.TryPlace`.
- Rendering, the page layout, the HTTP handlers and the server are not part of this model. They are drawing, floating point and I/O.
- Post-build immutability of the grid is not stated separately. The model's values are immutable.

/** The word-list side of the engine: `removeSpaces`, which normalises the
    words before placement, and the drop pass, which deletes the words that
    could not be placed from the shuffled list with `indexOf` and `splice`. */
module Words {

  /** `r` is `w` with its first space deleted, or `w` itself when it has no
      space; later spaces stay. */
  ghost predicate FirstSpaceRemoved(w: string, r: string) {
    if ' ' in w then
      exists i :: 0 <= i < |w| && w[i] == ' ' && ' ' !in w[..i] && r == w[..i] + w[i + 1..]
    else
      r == w
  }

  /** `word.replace(" ", "")`: a string pattern, so only the first space
      goes, found as `indexOf` finds it. */
  function RemoveFirstSpace(w: string): (r: string)
    ensures FirstSpaceRemoved(w, r)
    ensures |r| == if ' ' in w then |w| - 1 else |w|
  {
    var i := IndexOf(w, ' ');
    if i == -1 then w
    else
      var r := w[..i] + w[i + 1..];
      assert 0 <= i < |w| && w[i] == ' ' && ' ' !in w[..i];
      assert |r| == |w| - 1;
      r
  }

  /** Removing the first space keeps every other character, later spaces
      included: exactly one space is gone. */
  lemma RemoveFirstSpaceKeepsOthers(w: string)
    requires ' ' in w
    ensures multiset(RemoveFirstSpace(w)) + multiset{' '} == multiset(w)
  {
    var r := RemoveFirstSpace(w);
    assert FirstSpaceRemoved(w, r);
    var i :| 0 <= i < |w| && w[i] == ' ' && ' ' !in w[..i] && r == w[..i] + w[i + 1..];
    MultisetAround(w, i);
  }

  /** The multiset of a sequence, split around position `i`. */
  lemma MultisetAround<T>(s: seq<T>, i: int)
    requires 0 <= i < |s|
    ensures multiset(s) == multiset(s[..i]) + multiset{s[i]} + multiset(s[i + 1..])
  {
    assert s == s[..i] + [s[i]] + s[i + 1..];
  }

  /** `removeSpaces`: the list of normalised words, one per input word, in
      the same order. */
  function RemoveSpaces(words: seq<string>): (r: seq<string>)
    ensures |r| == |words|
    ensures forall i :: 0 <= i < |words| ==> FirstSpaceRemoved(words[i], r[i])
    ensures forall i :: 0 <= i < |words| ==> |r[i]| == if ' ' in words[i] then |words[i]| - 1 else |words[i]|
  {
    seq(|words|, i requires 0 <= i < |words| => RemoveFirstSpace(words[i]))
  }

  /** Normalising the selected words is selecting among the normalised words. */
  lemma {:induction false} SelectRemoveSpaces(ws: seq<string>, flags: seq<bool>, b: bool)
    requires |flags| == |ws|
    ensures Select(RemoveSpaces(ws), flags, b) == RemoveSpaces(Select(ws, flags, b))
  {
    if |ws| > 0 {
      var rest := Select(ws[1..], flags[1..], b);
      SelectRemoveSpaces(ws[1..], flags[1..], b);
      RemoveSpacesTail(ws);
      if flags[0] == b {
        assert Select(ws, flags, b) == [ws[0]] + rest;
        RemoveSpacesCons(ws[0], rest);
      } else {
        assert Select(ws, flags, b) == rest;
      }
    }
  }

  lemma RemoveSpacesTail(ws: seq<string>)
    requires |ws| > 0
    ensures RemoveSpaces(ws)[0] == RemoveFirstSpace(ws[0])
    ensures RemoveSpaces(ws)[1..] == RemoveSpaces(ws[1..])
  {
  }

  lemma RemoveSpacesCons(w: string, ws: seq<string>)
    ensures RemoveSpaces([w] + ws) == [RemoveFirstSpace(w)] + RemoveSpaces(ws)
  {
  }

  /** The first space in a word decides the result: nothing determines it but
      the word itself. */
  lemma FirstSpaceRemovedUnique(w: string, r1: string, r2: string)
    requires FirstSpaceRemoved(w, r1) && FirstSpaceRemoved(w, r2)
    ensures r1 == r2
  {
    if ' ' in w {
      var i :| 0 <= i < |w| && w[i] == ' ' && ' ' !in w[..i] && r1 == w[..i] + w[i + 1..];
      var j :| 0 <= j < |w| && w[j] == ' ' && ' ' !in w[..j] && r2 == w[..j] + w[j + 1..];
    }
  }

  /** The elements of `ws` whose flag is `b`, in their order in `ws`. */
  function Select<T(==)>(ws: seq<T>, flags: seq<bool>, b: bool): (r: seq<T>)
    requires |flags| == |ws|
    ensures |r| <= |ws|
  {
    if |ws| == 0 then []
    else (if flags[0] == b then [ws[0]] else []) + Select(ws[1..], flags[1..], b)
  }

  /** Number of `true` flags. */
  function CountTrue(flags: seq<bool>): nat {
    if |flags| == 0 then 0 else (if flags[0] then 1 else 0) + CountTrue(flags[1..])
  }

  /** The two selections split the list: together they hold every element
      once, and the kept part has one element per `true` flag. */
  lemma SelectSplits<T>(ws: seq<T>, flags: seq<bool>)
    requires |flags| == |ws|
    ensures multiset(Select(ws, flags, true)) + multiset(Select(ws, flags, false)) == multiset(ws)
    ensures |Select(ws, flags, true)| == CountTrue(flags)
    ensures |Select(ws, flags, true)| + |Select(ws, flags, false)| == |ws|
  {
    SelectPartition(ws, flags);
    SelectCount(ws, flags);
    assert |multiset(Select(ws, flags, true))| + |multiset(Select(ws, flags, false))| == |multiset(ws)|;
  }

  lemma {:induction false} SelectPartition<T>(ws: seq<T>, flags: seq<bool>)
    requires |flags| == |ws|
    ensures multiset(Select(ws, flags, true)) + multiset(Select(ws, flags, false)) == multiset(ws)
  {
    if |ws| > 0 {
      SelectPartition(ws[1..], flags[1..]);
      SelectHead(ws, flags, true);
      SelectHead(ws, flags, false);
      MultisetCons(ws);
      PartitionStep(ws[0], flags[0],
                    multiset(Select(ws[1..], flags[1..], true)), multiset(Select(ws[1..], flags[1..], false)),
                    multiset(ws[1..]), multiset(ws),
                    multiset(Select(ws, flags, true)), multiset(Select(ws, flags, false)));
    }
  }

  /** A non-empty list, as a multiset, is its head plus its tail. */
  lemma MultisetCons<T>(s: seq<T>)
    requires |s| > 0
    ensures multiset(s) == multiset{s[0]} + multiset(s[1..])
  {
    assert s == [s[0]] + s[1..];
  }

  /** Adding one element to one side of a split of `t + f`. */
  lemma PartitionStep<T>(x: T, side: bool, t: multiset<T>, f: multiset<T>, rest: multiset<T>, all: multiset<T>,
                         st: multiset<T>, sf: multiset<T>)
    requires t + f == rest && all == multiset{x} + rest
    requires st == (if side then multiset{x} else multiset{}) + t
    requires sf == (if !side then multiset{x} else multiset{}) + f
    ensures st + sf == all
  {
  }

  /** Picking from a non-empty list, as a multiset: the head if its flag
      matches, plus what is picked from the tail. */
  lemma SelectHead<T>(ws: seq<T>, flags: seq<bool>, b: bool)
    requires |flags| == |ws| > 0
    ensures multiset(Select(ws, flags, b)) ==
              (if flags[0] == b then multiset{ws[0]} else multiset{}) + multiset(Select(ws[1..], flags[1..], b))
  {
    var h: seq<T> := if flags[0] == b then [ws[0]] else [];
    assert Select(ws, flags, b) == h + Select(ws[1..], flags[1..], b);
  }

  lemma {:induction false} SelectCount<T>(ws: seq<T>, flags: seq<bool>)
    requires |flags| == |ws|
    ensures |Select(ws, flags, true)| == CountTrue(flags)
  {
    if |ws| > 0 {
      SelectCount(ws[1..], flags[1..]);
    }
  }

  /** `Array.prototype.indexOf`: the position of the first element equal to
      `w`, or -1. */
  function IndexOf<T(==)>(list: seq<T>, w: T): (r: int)
    ensures r == -1 <==> w !in list
    ensures r != -1 ==> 0 <= r < |list| && list[r] == w && w !in list[..r]
  {
    if |list| == 0 then -1
    else if list[0] == w then 0
    else
      var k := IndexOf(list[1..], w);
      if k == -1 then -1
      else
        assert list[..k + 1] == [list[0]] + list[1..][..k];
        k + 1
  }

  /** One round of the drop pass: `indexOf` then `splice(ind, 1)` when found. */
  function RemoveFirst<T(==)>(list: seq<T>, w: T): (r: seq<T>)
    ensures w !in list ==> r == list
    ensures w in list ==> |r| == |list| - 1 && multiset(r) == multiset(list) - multiset{w}
    ensures w in list ==> exists i :: 0 <= i < |list| && list[i] == w && w !in list[..i] && r == list[..i] + list[i + 1..]
  {
    var ind := IndexOf(list, w);
    if ind >= 0 then
      assert list == list[..ind] + [w] + list[ind + 1..];
      list[..ind] + list[ind + 1..]
    else list
  }

  /** The drop pass: remove one occurrence, the first, of each unplaced word,
      in the order the unplaced words were collected. */
  function DropAll<T(==)>(list: seq<T>, unplaced: seq<T>): (r: seq<T>)
    requires multiset(unplaced) <= multiset(list)
    ensures |r| == |list| - |unplaced|
    ensures multiset(r) == multiset(list) - multiset(unplaced)
  {
    if |unplaced| == 0 then list
    else
      DropStep(list, unplaced);
      DropAll(RemoveFirst(list, unplaced[0]), unplaced[1..])
  }

  /** One round of the drop pass keeps the remaining unplaced words
      removable and what is left to remove the same. */
  lemma DropStep<T>(list: seq<T>, unplaced: seq<T>)
    requires |unplaced| > 0 && multiset(unplaced) <= multiset(list)
    ensures var list' := RemoveFirst(list, unplaced[0]);
            multiset(unplaced[1..]) <= multiset(list') &&
            |list'| - |unplaced[1..]| == |list| - |unplaced| &&
            multiset(list') - multiset(unplaced[1..]) == multiset(list) - multiset(unplaced)
  {
    var u := unplaced[0];
    assert unplaced == [u] + unplaced[1..];
    assert u in multiset(list);
  }

  /** The drop pass keeps exactly the placed words, counted with their
      multiplicity: the number of survivors is the number of `true` flags. */
  lemma {:induction false} DropKeepsPlaced<T>(ws: seq<T>, flags: seq<bool>)
    requires |flags| == |ws|
    ensures multiset(Select(ws, flags, false)) <= multiset(ws)
    ensures multiset(DropAll(ws, Select(ws, flags, false))) == multiset(Select(ws, flags, true))
    ensures |DropAll(ws, Select(ws, flags, false))| == CountTrue(flags)
  {
    SelectSplits(ws, flags);
  }

  predicate Distinct<T(==)>(ws: seq<T>) {
    forall i, j :: 0 <= i < j < |ws| ==> ws[i] != ws[j]
  }

  /** The elements of `ws` that are not in `s`, in order. */
  function FilterOut<T(==)>(ws: seq<T>, s: set<T>): (r: seq<T>) {
    if |ws| == 0 then [] else (if ws[0] in s then [] else [ws[0]]) + FilterOut(ws[1..], s)
  }

  lemma {:induction false} FilterOutMembers<T>(ws: seq<T>, s: set<T>)
    ensures forall x :: x in FilterOut(ws, s) <==> x in ws && x !in s
  {
    if |ws| > 0 {
      FilterOutMembers(ws[1..], s);
      assert ws == [ws[0]] + ws[1..];
    }
  }

  lemma {:induction false} FilterOutDistinct<T>(ws: seq<T>, s: set<T>)
    requires Distinct(ws)
    ensures Distinct(FilterOut(ws, s))
  {
    if |ws| > 0 {
      FilterOutDistinct(ws[1..], s);
      FilterOutMembers(ws[1..], s);
      var rest := FilterOut(ws[1..], s);
      assert ws[0] !in ws[1..] by {
        forall j | 0 <= j < |ws[1..]| ensures ws[1..][j] != ws[0] {
          assert ws[1..][j] == ws[j + 1];
        }
      }
      if ws[0] !in s {
        var r := [ws[0]] + rest;
        forall i, j | 0 <= i < j < |r| ensures r[i] != r[j] {
          if i == 0 {
            assert r[j] == rest[j - 1];
            assert rest[j - 1] in rest;
          } else {
            assert r[i] == rest[i - 1] && r[j] == rest[j - 1];
          }
        }
      }
    }
  }

  lemma {:induction false} FilterOutUnion<T>(ws: seq<T>, s: set<T>, t: set<T>)
    ensures FilterOut(FilterOut(ws, s), t) == FilterOut(ws, s + t)
  {
    if |ws| > 0 {
      FilterOutUnion(ws[1..], s, t);
      var head := if ws[0] in s then [] else [ws[0]];
      var inner := FilterOut(ws[1..], s);
      assert FilterOut(ws, s) == head + inner;
      if ws[0] !in s {
        assert (head + inner)[1..] == inner;
      } else {
        assert head + inner == inner;
      }
    }
  }

  lemma {:induction false} FilterOutAppend<T>(a: seq<T>, b: seq<T>, s: set<T>)
    ensures FilterOut(a + b, s) == FilterOut(a, s) + FilterOut(b, s)
  {
    if |a| > 0 {
      FilterOutAppend(a[1..], b, s);
      assert (a + b)[1..] == a[1..] + b;
    } else {
      assert a + b == b;
    }
  }

  /** In a list without repetitions, removing the first occurrence of a word
      removes every occurrence of it. */
  lemma {:induction false} RemoveFirstDistinct<T>(list: seq<T>, w: T)
    requires Distinct(list)
    ensures RemoveFirst(list, w) == FilterOut(list, {w})
  {
    if w !in list {
      FilterOutNone(list, {w});
    } else {
      var i := IndexOf(list, w);
      DistinctNotAfter(list, i);
      FilterOutAround(list, i, {w});
    }
  }

  lemma {:induction false} DistinctNotAfter<T>(list: seq<T>, i: int)
    requires Distinct(list) && 0 <= i < |list|
    ensures list[i] !in list[i + 1..]
  {
    var after := list[i + 1..];
    forall j | 0 <= j < |after| ensures after[j] != list[i] {
      assert after[j] == list[i + 1 + j];
    }
  }

  /** Filtering out a word that occurs only at position `i` cuts out position `i`. */
  lemma {:induction false} FilterOutAround<T>(list: seq<T>, i: int, s: set<T>)
    requires 0 <= i < |list| && s == {list[i]}
    requires list[i] !in list[..i] && list[i] !in list[i + 1..]
    ensures FilterOut(list, s) == list[..i] + list[i + 1..]
  {
    var before, mid, after := list[..i], [list[i]], list[i + 1..];
    assert list == (before + mid) + after;
    FilterOutNone(before, s);
    FilterOutNone(after, s);
    assert FilterOut(mid, s) == [] by {
      assert mid[1..] == [];
    }
    FilterOutAppend(before, mid, s);
    assert FilterOut(before + mid, s) == before;
    FilterOutAppend(before + mid, after, s);
  }

  lemma {:induction false} FilterOutNone<T>(ws: seq<T>, s: set<T>)
    requires forall x :: x in ws ==> x !in s
    ensures FilterOut(ws, s) == ws
  {
    if |ws| > 0 {
      FilterOutNone(ws[1..], s);
      assert ws[0] in ws;
      assert ws == [ws[0]] + ws[1..];
    }
  }

  /** The set of elements of a sequence. */
  function Elems<T>(xs: seq<T>): set<T> {
    set x | x in xs
  }

  lemma ElemsCons<T>(xs: seq<T>)
    requires |xs| > 0
    ensures Elems(xs) == {xs[0]} + Elems(xs[1..])
  {
    assert xs == [xs[0]] + xs[1..];
  }

  lemma {:induction false} DropAllDistinct<T>(list: seq<T>, unplaced: seq<T>)
    requires Distinct(list)
    requires multiset(unplaced) <= multiset(list)
    ensures DropAll(list, unplaced) == FilterOut(list, Elems(unplaced))
  {
    if |unplaced| == 0 {
      assert Elems(unplaced) == {};
      FilterOutNone(list, {});
    } else {
      var u, rest := unplaced[0], unplaced[1..];
      assert unplaced == [u] + rest;
      assert u in multiset(list);
      var list' := RemoveFirst(list, u);
      assert multiset(rest) <= multiset(list');
      RemoveFirstDistinct(list, u);
      FilterOutDistinct(list, {u});
      calc {
        DropAll(list, unplaced);
        DropAll(list', rest);
        { DropAllDistinct(list', rest); }
        FilterOut(FilterOut(list, {u}), Elems(rest));
        { FilterOutUnion(list, {u}, Elems(rest)); }
        FilterOut(list, {u} + Elems(rest));
        { ElemsCons(unplaced); }
        FilterOut(list, Elems(unplaced));
      }
    }
  }

  /** Filtering out the words whose flag is false keeps exactly the words
      whose flag is true, provided membership in the filter set tells the
      flags apart. */
  lemma {:induction false} FilterOutSelect<T>(ws: seq<T>, flags: seq<bool>, s: set<T>)
    requires |flags| == |ws|
    requires forall i :: 0 <= i < |ws| ==> (ws[i] in s <==> !flags[i])
    ensures FilterOut(ws, s) == Select(ws, flags, true)
  {
    if |ws| > 0 {
      forall i | 0 <= i < |ws[1..]| ensures ws[1..][i] in s <==> !flags[1..][i] {
        assert ws[1..][i] == ws[i + 1] && flags[1..][i] == flags[i + 1];
      }
      FilterOutSelect(ws[1..], flags[1..], s);
    }
  }

  lemma {:induction false} SelectMembers<T>(ws: seq<T>, flags: seq<bool>, b: bool)
    requires |flags| == |ws|
    ensures forall x :: x in Select(ws, flags, b) ==> exists i :: 0 <= i < |ws| && ws[i] == x && flags[i] == b
    ensures forall i :: 0 <= i < |ws| && flags[i] == b ==> ws[i] in Select(ws, flags, b)
  {
    if |ws| > 0 {
      SelectMembers(ws[1..], flags[1..], b);
      forall x | x in Select(ws, flags, b)
        ensures exists i :: 0 <= i < |ws| && ws[i] == x && flags[i] == b
      {
        if !(flags[0] == b && x == ws[0]) {
          assert x in Select(ws[1..], flags[1..], b);
          var i :| 0 <= i < |ws[1..]| && ws[1..][i] == x && flags[1..][i] == b;
          assert ws[i + 1] == x && flags[i + 1] == b;
        }
      }
      forall i | 0 <= i < |ws| && flags[i] == b ensures ws[i] in Select(ws, flags, b) {
        if i > 0 {
          assert ws[1..][i - 1] == ws[i] && flags[1..][i - 1] == b;
        }
      }
    }
  }

  /** With no repeated words, the drop pass is the order-preserving filter
      of the placed words. */
  lemma {:induction false} DropDistinctIsFilter<T>(ws: seq<T>, flags: seq<bool>)
    requires |flags| == |ws| && Distinct(ws)
    ensures multiset(Select(ws, flags, false)) <= multiset(ws)
    ensures DropAll(ws, Select(ws, flags, false)) == Select(ws, flags, true)
  {
    SelectSplits(ws, flags);
    var unplaced := Select(ws, flags, false);
    DropAllDistinct(ws, unplaced);
    SelectMembers(ws, flags, false);
    forall i | 0 <= i < |ws| ensures ws[i] in Elems(unplaced) <==> !flags[i] {
      if ws[i] in unplaced {
        var j :| 0 <= j < |ws| && ws[j] == ws[i] && flags[j] == false;
        assert i == j;
      }
    }
    FilterOutSelect(ws, flags, Elems(unplaced));
  }

  /** With a repeated word the drop pass can reorder the survivors: in
      ["A", "B", "A"] the first "A" is placed and the second is not, yet
      `indexOf` deletes the first. */
  lemma DropReordersDuplicates()
    ensures DropAll(["A", "B", "A"], Select(["A", "B", "A"], [true, true, false], false)) == ["B", "A"]
    ensures Select(["A", "B", "A"], [true, true, false], true) == ["A", "B"]
  {
    DuplicateUnplaced();
    DuplicateDrop();
  }

  lemma DuplicateUnplaced()
    ensures Select(["A", "B", "A"], [true, true, false], false) == ["A"]
  {
  }

  lemma DuplicateDrop()
    ensures DropAll(["A", "B", "A"], ["A"]) == ["B", "A"]
  {
  }

}

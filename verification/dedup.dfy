/** Removal of repeated `p1` keys from one archive's columns. `x` is the key
    column as it was before any deletion; `cols` are the columns deleted from.
    `AsWritten` follows the source's loop: it visits the repeated keys in
    ascending order and, for each, deletes every occurrence but the first,
    with positions computed against the untouched `x` but applied to the
    columns as already shrunk by earlier rounds. `KeepFirst` is the
    documented intent: keep exactly the first occurrence of every key. */
module Dedup {
  import opened Text
  import opened Results

  /** numpy refusing to delete a position past the end of an array. */
  datatype DedupError = IndexOutOfBounds

  /** `s` without the positions in `z`, the rest in their original order. */
  function Delete<T>(s: seq<T>, z: set<int>): (r: seq<T>)
    ensures |r| <= |s|
  {
    if |s| == 0 then []
    else Delete(s[..|s| - 1], z) + (if |s| - 1 in z then [] else [s[|s| - 1]])
  }

  /** The positions below `n` that are not in `z`, ascending. */
  function Kept(n: nat, z: set<int>): (r: seq<nat>)
    ensures forall k :: 0 <= k < |r| ==> r[k] < n && r[k] !in z
    ensures forall k, l :: 0 <= k < l < |r| ==> r[k] < r[l]
    ensures forall j :: 0 <= j < n && j !in z ==> j in r
  {
    if n == 0 then [] else Kept(n - 1, z) + (if n - 1 in z then [] else [n - 1])
  }

  /** Deleting keeps exactly the rows at the `Kept` positions, in order:
      every surviving row is an original row, untouched. */
  lemma {:induction false} DeleteIsKept<T>(s: seq<T>, z: set<int>)
    ensures |Delete(s, z)| == |Kept(|s|, z)|
    ensures forall k :: 0 <= k < |Delete(s, z)| ==> Delete(s, z)[k] == s[Kept(|s|, z)[k]]
  {
    if |s| > 0 {
      var n := |s|;
      var t := s[..n - 1];
      DeleteIsKept(t, z);
      var d, d', k, k' := Delete(s, z), Delete(t, z), Kept(n, z), Kept(n - 1, z);
      if n - 1 in z {
        assert d == d' && k == k';
        forall i | 0 <= i < |d|
          ensures d[i] == s[k[i]]
        {
          assert d'[i] == t[k'[i]];
        }
      } else {
        assert d == d' + [s[n - 1]] && k == k' + [n - 1];
        forall i | 0 <= i < |d|
          ensures d[i] == s[k[i]]
        {
          if i < |d'| {
            assert d'[i] == t[k'[i]];
          }
        }
      }
    }
  }

  /** Columns of equal length stay of equal length after the same deletion. */
  lemma DeleteSameLength<T, U>(s: seq<T>, t: seq<U>, z: set<int>)
    requires |s| == |t|
    ensures |Delete(s, z)| == |Delete(t, z)|
  {
    DeleteIsKept(s, z);
    DeleteIsKept(t, z);
  }

  /** Only the positions below `|s|` matter to a deletion. */
  lemma {:induction false} DeleteAgrees<T>(s: seq<T>, z: set<int>, z': set<int>)
    requires forall j :: 0 <= j < |s| ==> (j in z <==> j in z')
    ensures Delete(s, z) == Delete(s, z')
  {
    if |s| > 0 {
      DeleteAgrees(s[..|s| - 1], z, z');
    }
  }

  lemma {:induction false} DeleteNothing<T>(s: seq<T>, z: set<int>)
    requires forall j :: 0 <= j < |s| ==> j !in z
    ensures Delete(s, z) == s
  {
    if |s| > 0 {
      DeleteNothing(s[..|s| - 1], z);
    }
  }

  /** The same deletion applied to every column. */
  function DeleteEach<T>(cols: seq<seq<T>>, z: set<int>): (r: seq<seq<T>>)
    ensures |r| == |cols|
    ensures forall i :: 0 <= i < |cols| ==> r[i] == Delete(cols[i], z)
  {
    seq(|cols|, i requires 0 <= i < |cols| => Delete(cols[i], z))
  }

  /** Every position of `v` in `x` except the first. */
  function Later(x: seq<string>, v: string): set<int> {
    set j | 0 <= j < |x| && x[j] == v && v in x[..j]
  }

  /** Every position whose key already occurred earlier. */
  function AllLater(x: seq<string>): set<int> {
    set j | 0 <= j < |x| && x[j] in x[..j]
  }

  /** The keys that occur more than once, each once, in the order of their
      second occurrence. */
  function Repeated(x: seq<string>): seq<string> {
    if |x| == 0 then []
    else
      var p, v := Repeated(x[..|x| - 1]), x[|x| - 1];
      if v in x[..|x| - 1] && v !in p then p + [v] else p
  }

  /** `Repeated` lists, without repetition, exactly the keys that occur more
      than once. */
  lemma {:induction false} RepeatedSpec(x: seq<string>)
    ensures NoDuplicates(Repeated(x))
    ensures forall v :: v in Repeated(x) <==> multiset(x)[v] > 1
  {
    if |x| > 0 {
      var t, v := x[..|x| - 1], x[|x| - 1];
      RepeatedSpec(t);
      assert x == t + [v];
      assert multiset(x) == multiset(t) + multiset{v};
    }
  }

  /** The repeated keys in ascending order, as numpy's unique-with-counts
      lists them. */
  function Duplicates(x: seq<string>): (r: seq<string>)
    ensures StrictlySorted(r)
    ensures forall v :: v in r <==> multiset(x)[v] > 1
  {
    RepeatedSpec(x);
    Sort(Repeated(x))
  }

  /** Every position in `z` addresses a row of an `n`-row column. */
  predicate Fits(z: set<int>, n: int) {
    forall j :: j in z ==> 0 <= j < n
  }

  /** The source's loop over the repeated keys `dups`. Positions are taken
      from the original keys `x`; the deletion fails like numpy's when a
      position is past the end of a column already shortened. */
  function DeleteLoop<T>(x: seq<string>, dups: seq<string>, cols: seq<seq<T>>): (r: Result<seq<seq<T>>, DedupError>)
    ensures r.Success? ==> |r.value| == |cols| && forall i :: 0 <= i < |cols| ==> |r.value[i]| <= |cols[i]|
    ensures |dups| == 0 ==> r == Success(cols)
  {
    if |dups| == 0 then Success(cols)
    else
      var z := Later(x, dups[0]);
      if forall i | 0 <= i < |cols| :: Fits(z, |cols[i]|) then DeleteLoop(x, dups[1..], DeleteEach(cols, z))
      else Failure(IndexOutOfBounds)
  }

  /** Each round deletes one position set from every column, so a loop
      that completes leaves as many columns as it was given, all of one
      length if they started so. */
  lemma {:induction false} DeleteLoopKeepsShape<T>(x: seq<string>, dups: seq<string>, cols: seq<seq<T>>)
    requires forall i, j :: 0 <= i < j < |cols| ==> |cols[i]| == |cols[j]|
    ensures DeleteLoop(x, dups, cols).Success? ==>
      var r := DeleteLoop(x, dups, cols).value;
      |r| == |cols| && forall i, j :: 0 <= i < j < |r| ==> |r[i]| == |r[j]|
  {
    if |dups| > 0 {
      var z := Later(x, dups[0]);
      var next := DeleteEach(cols, z);
      forall i, j | 0 <= i < j < |next|
        ensures |next[i]| == |next[j]|
      {
        DeleteSameLength(cols[i], cols[j], z);
      }
      DeleteLoopKeepsShape(x, dups[1..], next);
    }
  }

  /** The deduplication as the source performs it. It never adds a row,
      and when no key repeats it changes nothing. */
  function AsWritten<T>(x: seq<string>, cols: seq<seq<T>>): (r: Result<seq<seq<T>>, DedupError>)
    ensures r.Success? ==> |r.value| == |cols| && forall i :: 0 <= i < |cols| ==> |r.value[i]| <= |cols[i]|
    ensures (forall v :: multiset(x)[v] <= 1) ==> r == Success(cols)
  {
    var dups := Duplicates(x);
    assert (forall v :: multiset(x)[v] <= 1) ==> |dups| == 0 by {
      if |dups| > 0 {
        assert dups[0] in dups;
      }
    }
    DeleteLoop(x, dups, cols)
  }

  /** The deduplication as documented: every row whose key occurred in an
      earlier row is dropped from every column. */
  function KeepFirst<T>(x: seq<string>, cols: seq<seq<T>>): (r: seq<seq<T>>)
    requires forall i :: 0 <= i < |cols| ==> |cols[i]| == |x|
    ensures |r| == |cols|
    ensures forall i, j :: 0 <= i < j < |r| ==> |r[i]| == |r[j]|
  {
    var r := DeleteEach(cols, AllLater(x));
    assert forall i, j :: 0 <= i < j < |r| ==> |r[i]| == |r[j]| by {
      forall i, j | 0 <= i < j < |r|
        ensures |r[i]| == |r[j]|
      {
        DeleteSameLength(cols[i], cols[j], AllLater(x));
      }
    }
    r
  }

  /** Reference definition of first-occurrence deduplication of a key
      sequence. */
  function Distinct(x: seq<string>): (r: seq<string>)
    ensures NoDuplicates(r)
    ensures forall v :: v in r <==> v in x
  {
    if |x| == 0 then []
    else
      var p, v := Distinct(x[..|x| - 1]), x[|x| - 1];
      assert x == x[..|x| - 1] + [v];
      if v in x[..|x| - 1] then p else p + [v]
  }

  lemma AllLaterPrefix(x: seq<string>)
    requires |x| > 0
    ensures forall j :: 0 <= j < |x| - 1 ==> (j in AllLater(x) <==> j in AllLater(x[..|x| - 1]))
  {
    forall j | 0 <= j < |x| - 1
      ensures j in AllLater(x) <==> j in AllLater(x[..|x| - 1])
    {
      assert x[..|x| - 1][..j] == x[..j];
    }
  }

  /** Applied to the key column itself, `KeepFirst` leaves each key once, at
      its first occurrence: the key column becomes `Distinct(x)`. */
  lemma {:induction false} KeepFirstKeys(x: seq<string>)
    ensures Delete(x, AllLater(x)) == Distinct(x)
  {
    if |x| > 0 {
      var t := x[..|x| - 1];
      AllLaterPrefix(x);
      DeleteAgrees(t, AllLater(x), AllLater(t));
      KeepFirstKeys(t);
    }
  }

  /** A position whose key already occurred holds a key that occurs more
      than once. */
  lemma LaterIsRepeated(x: seq<string>, j: int)
    requires 0 <= j < |x| && x[j] in x[..j]
    ensures multiset(x)[x[j]] > 1
  {
    assert x == x[..j] + [x[j]] + x[j + 1..];
    assert multiset(x[..j])[x[j]] >= 1;
  }

  /** With at most one repeated key, the source's loop does what the
      documentation says. */
  lemma {:induction false} AgreeWhenOneKeyRepeats<T>(x: seq<string>, cols: seq<seq<T>>)
    requires forall i :: 0 <= i < |cols| ==> |cols[i]| == |x|
    requires forall v, w :: multiset(x)[v] > 1 && multiset(x)[w] > 1 ==> v == w
    ensures AsWritten(x, cols) == Success(KeepFirst(x, cols))
  {
    var dups := Duplicates(x);
    if |dups| == 0 {
      assert AllLater(x) == {} by {
        forall j | j in AllLater(x)
          ensures false
        {
          LaterIsRepeated(x, j);
        }
      }
      forall i | 0 <= i < |cols|
        ensures Delete(cols[i], AllLater(x)) == cols[i]
      {
        DeleteNothing(cols[i], AllLater(x));
      }
      assert DeleteEach(cols, AllLater(x)) == cols;
    } else {
      var v := dups[0];
      assert multiset(x)[v] > 1;
      if |dups| > 1 {
        assert multiset(x)[dups[1]] > 1;
        LexIrreflexive(v);
        assert false;
      }
      var z := Later(x, v);
      assert AllLater(x) == z by {
        forall j | j in AllLater(x)
          ensures j in z
        {
          LaterIsRepeated(x, j);
        }
      }
      assert forall i | 0 <= i < |cols| :: Fits(z, |cols[i]|);
      assert dups[1..] == [];
      assert DeleteLoop(x, dups, cols) == DeleteLoop(x, [], DeleteEach(cols, z));
    }
  }

  lemma RepeatedSnoc(x: seq<string>, v: string)
    ensures Repeated(x + [v]) == if v in x && v !in Repeated(x) then Repeated(x) + [v] else Repeated(x)
  {
    assert (x + [v])[..|x|] == x;
  }

  lemma DeleteKeeps<T>(s: seq<T>, e: T, z: set<int>)
    requires |s| !in z
    ensures Delete(s + [e], z) == Delete(s, z) + [e]
  {
    assert (s + [e])[..|s|] == s;
  }

  lemma DeleteDrops<T>(s: seq<T>, e: T, z: set<int>)
    requires |s| in z
    ensures Delete(s + [e], z) == Delete(s, z)
  {
    assert (s + [e])[..|s|] == s;
  }

  lemma RepeatedPrefixes()
    ensures Repeated(["a"]) == []
    ensures Repeated(["a", "b"]) == []
    ensures Repeated(["a", "a"]) == ["a"]
  {
    RepeatedSnoc([], "a");
    assert [] + ["a"] == ["a"];
    RepeatedSnoc(["a"], "b");
    assert ["a"] + ["b"] == ["a", "b"];
    RepeatedSnoc(["a"], "a");
    assert ["a"] + ["a"] == ["a", "a"];
  }

  lemma RepeatedInterleaved()
    ensures Repeated(["a", "b", "a", "b", "c"]) == ["a", "b"]
  {
    RepeatedPrefixes();
    RepeatedSnoc(["a", "b"], "a");
    assert ["a", "b"] + ["a"] == ["a", "b", "a"];
    RepeatedSnoc(["a", "b", "a"], "b");
    assert ["a", "b", "a"] + ["b"] == ["a", "b", "a", "b"];
    RepeatedSnoc(["a", "b", "a", "b"], "c");
    assert ["a", "b", "a", "b"] + ["c"] == ["a", "b", "a", "b", "c"];
  }

  lemma RepeatedAdjacent()
    ensures Repeated(["a", "a", "b", "b"]) == ["a", "b"]
  {
    RepeatedPrefixes();
    RepeatedSnoc(["a", "a"], "b");
    assert ["a", "a"] + ["b"] == ["a", "a", "b"];
    RepeatedSnoc(["a", "a", "b"], "b");
    assert ["a", "a", "b"] + ["b"] == ["a", "a", "b", "b"];
  }

  lemma SortTwo()
    ensures Sort(["a", "b"]) == ["a", "b"]
  {
    assert LexLess("a", "b");
    assert ["a", "b"][1..] == ["b"];
    assert Sort(["b"]) == ["b"] by {
      assert ["b"][1..] == [];
    }
  }

  lemma DeleteFirstRound<T>(a: T, b: T)
    ensures Delete([a, b, a, b], {2}) == [a, b, b]
  {
    var z := {2};
    DeleteKeeps([], a, z);
    assert Delete([a], z) == [a] by { assert [] + [a] == [a]; }
    DeleteKeeps([a], b, z);
    assert Delete([a, b], z) == [a, b] by { assert [a] + [b] == [a, b]; }
    DeleteDrops([a, b], a, z);
    assert Delete([a, b, a], z) == [a, b] by { assert [a, b] + [a] == [a, b, a]; }
    DeleteKeeps([a, b, a], b, z);
    assert [a, b, a] + [b] == [a, b, a, b] && [a, b] + [b] == [a, b, b];
  }

  lemma DeleteFirstRoundLast<T>(a: T, b: T, c: T)
    ensures Delete([a, b, a, b, c], {2}) == [a, b, b, c]
  {
    DeleteFirstRound(a, b);
    DeleteKeeps([a, b, a, b], c, {2});
    assert [a, b, a, b] + [c] == [a, b, a, b, c];
    assert [a, b, b] + [c] == [a, b, b, c];
  }

  lemma DeleteFirstRoundAdjacent<T>(a: T, b: T)
    ensures Delete([a, a, b, b], {1}) == [a, b, b]
  {
    var z := {1};
    DeleteKeeps([], a, z);
    assert Delete([a], z) == [a] by { assert [] + [a] == [a]; }
    DeleteDrops([a], a, z);
    assert Delete([a, a], z) == [a] by { assert [a] + [a] == [a, a]; }
    DeleteKeeps([a, a], b, z);
    assert Delete([a, a, b], z) == [a, b] by { assert [a, a] + [b] == [a, a, b] && [a] + [b] == [a, b]; }
    DeleteKeeps([a, a, b], b, z);
    assert [a, a, b] + [b] == [a, a, b, b] && [a, b] + [b] == [a, b, b];
  }

  lemma DeleteSecondRound<T>(a: T, b: T, c: T)
    ensures Delete([a, b, b, c], {3}) == [a, b, b]
  {
    var z := {3};
    DeleteKeeps([], a, z);
    assert Delete([a], z) == [a] by { assert [] + [a] == [a]; }
    DeleteKeeps([a], b, z);
    assert Delete([a, b], z) == [a, b] by { assert [a] + [b] == [a, b]; }
    DeleteKeeps([a, b], b, z);
    assert Delete([a, b, b], z) == [a, b, b] by { assert [a, b] + [b] == [a, b, b]; }
    DeleteDrops([a, b, b], c, z);
    assert [a, b, b] + [c] == [a, b, b, c];
  }

  lemma DeleteBothRounds<T>(a: T, b: T, c: T)
    ensures Delete([a, b, a, b, c], {2, 3}) == [a, b, c]
  {
    var z := {2, 3};
    DeleteKeeps([], a, z);
    assert Delete([a], z) == [a] by { assert [] + [a] == [a]; }
    DeleteKeeps([a], b, z);
    assert Delete([a, b], z) == [a, b] by { assert [a] + [b] == [a, b]; }
    DeleteDrops([a, b], a, z);
    assert Delete([a, b, a], z) == [a, b] by { assert [a, b] + [a] == [a, b, a]; }
    DeleteDrops([a, b, a], b, z);
    assert Delete([a, b, a, b], z) == [a, b] by { assert [a, b, a] + [b] == [a, b, a, b]; }
    DeleteKeeps([a, b, a, b], c, z);
    assert [a, b, a, b] + [c] == [a, b, a, b, c] && [a, b] + [c] == [a, b, c];
  }

  lemma LaterInterleaved()
    ensures Later(["a", "b", "a", "b", "c"], "a") == {2}
    ensures Later(["a", "b", "a", "b", "c"], "b") == {3}
    ensures AllLater(["a", "b", "a", "b", "c"]) == {2, 3}
  {
    var x := ["a", "b", "a", "b", "c"];
    assert x[..1] == ["a"] && x[..2] == ["a", "b"] && x[..3] == ["a", "b", "a"] && x[..4] == ["a", "b", "a", "b"];
  }

  lemma LaterAdjacent()
    ensures Later(["a", "a", "b", "b"], "a") == {1}
    ensures Later(["a", "a", "b", "b"], "b") == {3}
  {
    var x := ["a", "a", "b", "b"];
    assert x[..1] == ["a"] && x[..2] == ["a", "a"] && x[..3] == ["a", "a", "b"];
  }

  /** Two repeated keys interleaved: the second round deletes a position
      computed before the first round shifted the rows, so the last key `c`
      is lost and the repeated `b` is kept. */
  lemma StaleIndexDeletesWrongRow()
    ensures AsWritten(["a", "b", "a", "b", "c"], [["a", "b", "a", "b", "c"]]) == Success([["a", "b", "b"]])
    ensures KeepFirst(["a", "b", "a", "b", "c"], [["a", "b", "a", "b", "c"]]) == [["a", "b", "c"]]
  {
    var x := ["a", "b", "a", "b", "c"];
    RepeatedInterleaved();
    SortTwo();
    LaterInterleaved();
    DeleteFirstRoundLast("a", "b", "c");
    DeleteSecondRound("a", "b", "c");
    DeleteBothRounds("a", "b", "c");
    var first := ["a", "b", "b", "c"];
    assert ["a", "b"][1..] == ["b"] && ["b"][1..] == [];
    assert DeleteEach([x], {2}) == [first];
    assert DeleteEach([first], {3}) == [["a", "b", "b"]];
    assert DeleteEach([x], {2, 3}) == [["a", "b", "c"]];
    assert Duplicates(x) == ["a", "b"];
    assert DeleteLoop(x, ["b"], [first]) == DeleteLoop(x, [], [["a", "b", "b"]]);
    assert DeleteLoop(x, ["a", "b"], [x]) == DeleteLoop(x, ["b"], [first]);
  }

  /** Two adjacent repeated keys: the second round asks for a position past
      the end of the already shortened columns, and numpy raises. */
  lemma StaleIndexOutOfBounds()
    ensures AsWritten(["a", "a", "b", "b"], [["a", "a", "b", "b"]]).Failure?
  {
    var x := ["a", "a", "b", "b"];
    RepeatedAdjacent();
    SortTwo();
    LaterAdjacent();
    DeleteFirstRoundAdjacent("a", "b");
    var first := ["a", "b", "b"];
    assert ["a", "b"][1..] == ["b"];
    assert DeleteEach([x], {1}) == [first];
    assert !Fits({3}, |first|);
    assert Duplicates(x) == ["a", "b"];
    assert ["b"][0] == "b" && [first][0] == first;
    assert !(forall i | 0 <= i < |[first]| :: Fits(Later(x, "b"), |[first][i]|));
    assert DeleteLoop(x, ["b"], [first]).Failure?;
    assert DeleteLoop(x, ["a", "b"], [x]) == DeleteLoop(x, ["b"], [first]);
  }
}

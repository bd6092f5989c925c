/** A region's column set and the combined data set, shaped like the
    source's dictionaries: one sequence of typed values per column name, the
    64 schema columns and the synthetic `region` column. */
module Frames {
  import opened Text
  import opened Schema
  import opened Coercion

  type Column = seq<Value>

  /** Column name to column. */
  type Frame = map<string, Column>

  /** The 65 keys of a complete column set. */
  const Names: set<string> := KeySet(ColumnNames)

  /** The names of a list as a set; `KeySetMembers` states its members. */
  function KeySet(names: seq<string>): set<string> {
    if |names| == 0 then {} else {names[0]} + KeySet(names[1..])
  }

  lemma {:induction false} KeySetMembers(names: seq<string>)
    ensures forall k :: k in KeySet(names) <==> k in names
  {
    if |names| > 0 {
      KeySetMembers(names[1..]);
      assert names == [names[0]] + names[1..];
    }
  }

  lemma NamesAreColumnNames()
    ensures forall k :: k in Names <==> k in ColumnNames
  {
    KeySetMembers(ColumnNames);
  }

  /** The region column is present and every column has as many entries
      as it: the frame is a table. */
  predicate Uniform(f: Frame) {
    RegionColumn in f && forall k | k in f :: |f[k]| == |f[RegionColumn]|
  }

  /** All 65 columns present, all of the same length. */
  predicate WellFormed(f: Frame) {
    f.Keys == Names && Uniform(f)
  }

  /** The number of records of a table. */
  function Rows(f: Frame): nat
    requires Uniform(f)
  {
    |f[RegionColumn]|
  }

  /** The accumulator the combined data set starts from: every column
      present and empty. */
  function Empty(): (f: Frame)
    ensures WellFormed(f) && Rows(f) == 0
  {
    NamesAreColumnNames();
    assert RegionColumn in Names by {
      assert ColumnNames[|Headers|] == RegionColumn;
    }
    map k | k in Names :: []
  }

  /** Appends `f` to `acc` key by key, as the source's loop over the keys of
      a region's column set does. */
  function Append(acc: Frame, f: Frame): (r: Frame)
    requires Uniform(acc) && Uniform(f) && f.Keys == acc.Keys
    ensures r.Keys == acc.Keys && Uniform(r)
    ensures Rows(r) == Rows(acc) + Rows(f)
    ensures forall k | k in r :: r[k] == acc[k] + f[k]
  {
    map k | k in acc :: acc[k] + f[k]
  }

  /** Every frame of `fs` is a table with exactly the columns `keys`. */
  predicate AllShaped(fs: seq<Frame>, keys: set<string>) {
    forall i :: 0 <= i < |fs| ==> fs[i].Keys == keys && Uniform(fs[i])
  }

  lemma AllShapedCons(f: Frame, fs: seq<Frame>, keys: set<string>)
    requires f.Keys == keys && Uniform(f) && AllShaped(fs, keys)
    ensures AllShaped([f] + fs, keys)
  {
    assert forall i :: 0 < i <= |fs| ==> ([f] + fs)[i] == fs[i - 1];
  }

  /** Appends the frames `fs` to `acc`, first to last. */
  function ConcatFrom(acc: Frame, fs: seq<Frame>): (r: Frame)
    requires Uniform(acc) && AllShaped(fs, acc.Keys)
    ensures r.Keys == acc.Keys && Uniform(r)
  {
    if |fs| == 0 then acc else ConcatFrom(Append(acc, fs[0]), fs[1..])
  }

  /** Column `k` of every frame, first to last. */
  function ColumnOf(fs: seq<Frame>, k: string): seq<Column>
    requires forall i :: 0 <= i < |fs| ==> k in fs[i]
  {
    seq(|fs|, i requires 0 <= i < |fs| => fs[i][k])
  }

  function RowCounts(fs: seq<Frame>): seq<nat>
    requires forall i :: 0 <= i < |fs| ==> Uniform(fs[i])
  {
    seq(|fs|, i requires 0 <= i < |fs| => Rows(fs[i]))
  }

  /** Appending tables with the accumulator's columns gives, in every
      column, the accumulator's column followed by the frames' columns in
      order. */
  lemma {:induction false} ConcatFromColumns(acc: Frame, fs: seq<Frame>, k: string)
    requires Uniform(acc) && AllShaped(fs, acc.Keys) && k in acc
    ensures ConcatFrom(acc, fs)[k] == acc[k] + Flatten(ColumnOf(fs, k))
  {
    if |fs| > 0 {
      var next := Append(acc, fs[0]);
      assert AllShaped(fs[1..], next.Keys);
      ConcatFromColumns(next, fs[1..], k);
      var cols := ColumnOf(fs, k);
      assert cols[1..] == ColumnOf(fs[1..], k);
      assert next[k] == acc[k] + cols[0];
      assert Flatten(cols) == cols[0] + Flatten(cols[1..]);
    }
  }

  /** ... and as many records as all of them together. */
  lemma {:induction false} ConcatFromRows(acc: Frame, fs: seq<Frame>)
    requires Uniform(acc) && AllShaped(fs, acc.Keys)
    ensures Rows(ConcatFrom(acc, fs)) == Rows(acc) + Sum(RowCounts(fs))
  {
    if |fs| > 0 {
      var next := Append(acc, fs[0]);
      assert AllShaped(fs[1..], next.Keys);
      ConcatFromRows(next, fs[1..]);
      assert RowCounts(fs)[1..] == RowCounts(fs[1..]);
    }
  }

  /** Appending tables to the empty accumulator gives, in every column, the
      tables' columns one after another, and as many records as they
      together. */
  lemma ConcatFromEmpty(fs: seq<Frame>)
    requires AllShaped(fs, Names)
    ensures forall k :: k in Names ==> ConcatFrom(Empty(), fs)[k] == Flatten(ColumnOf(fs, k))
    ensures Rows(ConcatFrom(Empty(), fs)) == Sum(RowCounts(fs))
  {
    var e := Empty();
    forall k | k in Names
      ensures ConcatFrom(e, fs)[k] == Flatten(ColumnOf(fs, k))
    {
      ConcatFromColumns(e, fs, k);
      assert e[k] == [];
    }
    ConcatFromRows(e, fs);
  }

  /** The frame pairing each name with the column at the same position. */
  function Tabulate(names: seq<string>, cols: seq<Column>): (f: Frame)
    requires |names| == |cols|
    ensures f.Keys == set k | k in names
  {
    if |names| == 0 then map[]
    else Tabulate(names[..|names| - 1], cols[..|cols| - 1])[names[|names| - 1] := cols[|cols| - 1]]
  }

  /** With distinct names, every name finds its own column. */
  lemma {:induction false} TabulateLookup(names: seq<string>, cols: seq<Column>, i: nat)
    requires |names| == |cols| && NoDuplicates(names) && i < |names|
    ensures names[i] in Tabulate(names, cols) && Tabulate(names, cols)[names[i]] == cols[i]
  {
    var n := |names| - 1;
    var rest := Tabulate(names[..n], cols[..n]);
    assert Tabulate(names, cols) == rest[names[n] := cols[n]];
    if i < n {
      assert names[i] != names[n];
      assert NoDuplicates(names[..n]);
      assert names[..n][i] == names[i] && cols[..n][i] == cols[i];
      TabulateLookup(names[..n], cols[..n], i);
    }
  }

  /** Turns 64 columns in header order into a column set for `code`, adding
      the `region` column that repeats the code once per record. */
  function ToFrame(t: seq<Column>, code: string): (f: Frame)
    requires |t| == |Headers|
  {
    HeadersWellFormed();
    Tabulate(ColumnNames, t + [seq(if |t| == 0 then 0 else |t[0]|, r => Str(code))])
  }

  /** A column set built from 64 columns of one length is a table with the
      65 columns, holding the given columns under their headers and the
      region code in every record of `region`. */
  lemma ToFrameSpec(t: seq<Column>, code: string)
    requires |t| == |Headers|
    requires forall i :: 0 <= i < |t| ==> |t[i]| == |t[0]|
    ensures WellFormed(ToFrame(t, code)) && Rows(ToFrame(t, code)) == |t[0]|
    ensures forall i :: 0 <= i < |Headers| ==> ToFrame(t, code)[Headers[i]] == t[i]
    ensures forall r :: 0 <= r < Rows(ToFrame(t, code)) ==> ToFrame(t, code)[RegionColumn][r] == Str(code)
  {
    HeadersWellFormed();
    var cols := t + [seq(|t[0]|, r => Str(code))];
    var f := ToFrame(t, code);
    assert f == Tabulate(ColumnNames, cols);
    assert f.Keys == Names by {
      NamesAreColumnNames();
    }
    forall i | 0 <= i < |ColumnNames|
      ensures ColumnNames[i] in f && f[ColumnNames[i]] == cols[i]
    {
      TabulateLookup(ColumnNames, cols, i);
    }
    assert ColumnNames[|Headers|] == RegionColumn;
    forall k | k in f
      ensures |f[k]| == |t[0]|
    {
      var i :| 0 <= i < |ColumnNames| && ColumnNames[i] == k;
    }
    forall i | 0 <= i < |Headers|
      ensures f[Headers[i]] == t[i]
    {
      assert ColumnNames[i] == Headers[i];
    }
  }
}

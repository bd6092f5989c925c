/** Turning the downloaded archives into one region's column set. Every
    archive holds one semicolon-separated CSV member per region. Each record
    of the member is coerced field by field, and the deduplication loop runs
    over the coerced columns as the source writes it. The tables of all
    archives are then appended in archive order, followed by a `region`
    column. The same construction with the documented deduplication (keep
    the first record of every record number) is `RegionFrameIntended`; the
    two agree when no archive repeats more than one record number. */
module Parser {
  import opened Text
  import opened Results
  import opened Schema
  import opened Coercion
  import opened Dedup
  import opened Frames

  /** One CSV record, already split at the semicolons. */
  type Row = seq<string>

  /** A downloaded archive: member file name to the records of that member,
      in file order. */
  datatype Archive = Archive(members: map<string, seq<Row>>)

  /** Why no column set could be produced for a region: the code is not in
      the region table (reported and answered with nothing); or, all of
      which raise, an archive lacks the region's member, a record has fewer
      fields than there are columns, or the deduplication loop deletes past
      the end of a column it has already shortened. */
  datatype RegionError =
    | UnknownRegion
    | MissingMember(archive: nat)
    | ShortRecord(archive: nat, record: nat)
    | StaleIndex(archive: nat)

  /** The name of the region's CSV member inside every archive. */
  function MemberName(code: string): (name: string)
    requires IsCode(code)
    ensures |name| == 6 && name[2..] == ".csv"
  {
    MemberNamesWellFormed();
    Members[code] + ".csv"
  }

  /** Every record has at least one field per column. */
  predicate Long(rows: seq<Row>) {
    forall r :: 0 <= r < |rows| ==> |rows[r]| >= |Headers|
  }

  /** The first record with fewer fields than there are columns, if any. */
  function FirstShort(rows: seq<Row>): (r: Option<nat>)
    ensures r.None? <==> forall i :: 0 <= i < |rows| ==> |rows[i]| >= |Headers|
    ensures r.Some? ==> r.value < |rows| && |rows[r.value]| < |Headers|
    ensures r.Some? ==> forall i :: 0 <= i < r.value ==> |rows[i]| >= |Headers|
  {
    if |rows| == 0 then None
    else if |rows[0]| < |Headers| then Some(0)
    else match FirstShort(rows[1..])
      case None => None
      case Some(i) => Some(i + 1)
  }

  /** The 64 typed columns of a member's records; fields past the 64th are
      ignored. */
  function CoerceRows(rows: seq<Row>): (t: seq<Column>)
    requires Long(rows)
    ensures |t| == |Headers|
    ensures forall c :: 0 <= c < |t| ==> |t[c]| == |rows|
  {
    SchemaWidth();
    seq(|Headers|, c requires 0 <= c < |Headers| =>
      seq(|rows|, r requires 0 <= r < |rows| => Coerce(rows[r][c], DataTypes[c])))
  }

  /** Every coerced field holds a value of its column's kind. */
  lemma CoerceRowsTyped(rows: seq<Row>)
    requires Long(rows)
    ensures forall c, r :: 0 <= c < |Headers| && 0 <= r < |rows| ==>
      HasKind(CoerceRows(rows)[c][r], KindOf(DataTypes[c]))
  {
    SchemaWidth();
    forall c, r | 0 <= c < |Headers| && 0 <= r < |rows|
      ensures HasKind(CoerceRows(rows)[c][r], KindOf(DataTypes[c]))
    {
      assert CoerceRows(rows)[c][r] == Coerce(rows[r][c], DataTypes[c]);
    }
  }

  /** The texts of a string column; a non-string entry reads as "". */
  function Keys(col: Column): (x: seq<string>)
    ensures |x| == |col|
  {
    seq(|col|, i requires 0 <= i < |col| => if col[i].Str? then col[i].text else "")
  }

  /** The record numbers of a member's records, as stored: the first 12
      characters of the first field. */
  lemma KeysAreRecordNumbers(rows: seq<Row>)
    requires Long(rows)
    ensures forall r :: 0 <= r < |rows| ==>
      var k := Keys(CoerceRows(rows)[0])[r];
      k <= rows[r][0] && (|rows[r][0]| <= 12 ==> k == rows[r][0])
  {
    DataTypesAligned();
    SchemaWidth();
    forall r | 0 <= r < |rows|
      ensures var k := Keys(CoerceRows(rows)[0])[r];
        k <= rows[r][0] && (|rows[r][0]| <= 12 ==> k == rows[r][0])
    {
      var v := Coerce(rows[r][0], DataTypes[0]);
      assert CoerceRows(rows)[0][r] == v;
      assert v.Str?;
    }
  }

  /** One archive's table as the source computes it: the coerced columns,
      then the deduplication loop as written, which can fail. */
  function ArchiveTable(rows: seq<Row>): (r: Result<seq<Column>, DedupError>)
    requires Long(rows)
    ensures r.Success? ==> |r.value| == |Headers| && |r.value[0]| <= |rows|
    ensures r.Success? ==> forall c :: 0 <= c < |Headers| ==> |r.value[c]| == |r.value[0]|
  {
    SchemaWidth();
    var cols := CoerceRows(rows);
    DeleteLoopKeepsShape(Keys(cols[0]), Duplicates(Keys(cols[0])), cols);
    AsWritten(Keys(cols[0]), cols)
  }

  /** One archive's table as documented: the coerced columns with every
      record whose record number occurred in an earlier record removed. */
  function IntendedTable(rows: seq<Row>): (t: seq<Column>)
    requires Long(rows)
    ensures |t| == |Headers|
    ensures forall c :: 0 <= c < |t| ==> |t[c]| == |t[0]|
  {
    var cols := CoerceRows(rows);
    KeepFirst(Keys(cols[0]), cols)
  }

  /** Which records the documented table keeps: the first record of every
      record number, in file order. */
  function KeptRecords(rows: seq<Row>): seq<nat>
    requires Long(rows)
  {
    var cols := CoerceRows(rows);
    Kept(|rows|, AllLater(Keys(cols[0])))
  }

  /** The documented table holds the member's record numbers without
      repeats, one per kept record. */
  lemma IntendedTableKeys(rows: seq<Row>)
    requires Long(rows)
    ensures var t, keys := IntendedTable(rows), Keys(CoerceRows(rows)[0]);
      Keys(t[0]) == Distinct(keys) && |t[0]| == |KeptRecords(rows)|
  {
    SchemaWidth();
    var cols := CoerceRows(rows);
    var keys := Keys(cols[0]);
    var z := AllLater(keys);
    var t := IntendedTable(rows);
    assert t[0] == Delete(cols[0], z);
    DeleteIsKept(cols[0], z);
    DeleteIsKept(keys, z);
    KeepFirstKeys(keys);
  }

  /** ... and those records are, in file order, exactly the first record of
      every record number, every entry the coerced field of its record. */
  lemma IntendedTableRecords(rows: seq<Row>)
    requires Long(rows)
    ensures var t, keys, ks := IntendedTable(rows), Keys(CoerceRows(rows)[0]), KeptRecords(rows);
      && |t[0]| == |ks|
      && (forall k :: 0 <= k < |ks| ==> ks[k] < |rows| && keys[ks[k]] !in keys[..ks[k]])
      && (forall k, l :: 0 <= k < l < |ks| ==> ks[k] < ks[l])
      && (forall c, k :: 0 <= c < |Headers| && 0 <= k < |ks| ==> t[c][k] == Coerce(rows[ks[k]][c], DataTypes[c]))
  {
    SchemaWidth();
    var cols := CoerceRows(rows);
    var keys := Keys(cols[0]);
    var z := AllLater(keys);
    var t := IntendedTable(rows);
    var ks := KeptRecords(rows);
    assert t[0] == Delete(cols[0], z);
    DeleteIsKept(cols[0], z);
    forall c, k | 0 <= c < |Headers| && 0 <= k < |ks|
      ensures t[c][k] == Coerce(rows[ks[k]][c], DataTypes[c])
    {
      assert t[c] == Delete(cols[c], z);
      DeleteIsKept(cols[c], z);
    }
  }

  /** The documented table has as many records as there are distinct
      record numbers. */
  lemma IntendedTableSize(rows: seq<Row>)
    requires Long(rows)
    ensures |IntendedTable(rows)[0]| == |Distinct(Keys(CoerceRows(rows)[0]))|
  {
    IntendedTableKeys(rows);
  }

  /** At most one record number repeats among `rows`. */
  ghost predicate OneRepeatAtMost(rows: seq<Row>)
    requires Long(rows)
  {
    var keys := Keys(CoerceRows(rows)[0]);
    forall v, w :: multiset(keys)[v] > 1 && multiset(keys)[w] > 1 ==> v == w
  }

  /** When at most one record number repeats within a member, the loop as
      written removes the same records as documented. */
  lemma ArchiveTableAgrees(rows: seq<Row>)
    requires Long(rows) && OneRepeatAtMost(rows)
    ensures ArchiveTable(rows) == Success(IntendedTable(rows))
  {
    var cols := CoerceRows(rows);
    AgreeWhenOneKeyRepeats(Keys(cols[0]), cols);
  }

  /** An archive whose member `name` can be read: it exists and no record
      is short. */
  predicate Readable(a: Archive, name: string) {
    name in a.members && Long(a.members[name])
  }

  /** The records of the archive's member `name`, or why they cannot be
      read: the member is missing, or a record is short. */
  function MemberRecords(a: Archive, index: nat, name: string): (r: Result<seq<Row>, RegionError>)
    ensures r.Success? <==> Readable(a, name)
    ensures r.Success? ==> r.value == a.members[name]
    ensures r.Failure? ==> r.error == MissingMember(index) || (r.error.ShortRecord? && r.error.archive == index)
  {
    if name !in a.members then Failure(MissingMember(index))
    else match FirstShort(a.members[name])
      case Some(i) => Failure(ShortRecord(index, i))
      case None => Success(a.members[name])
  }

  /** An archive the source gets through: its member can be read and the
      deduplication loop completes on it. */
  predicate Parses(a: Archive, name: string) {
    Readable(a, name) && ArchiveTable(a.members[name]).Success?
  }

  /** One archive read as the source reads it: open the member, coerce its
      records, run the deduplication loop. The first of these to raise
      gives the failure. */
  function ReadArchive(a: Archive, index: nat, name: string): (r: Result<seq<Column>, RegionError>)
    ensures r.Success? <==> Parses(a, name)
    ensures r.Success? ==> Readable(a, name) && r.value == ArchiveTable(a.members[name]).value
    ensures r.Failure? ==>
      || r.error == MissingMember(index)
      || (r.error.ShortRecord? && r.error.archive == index)
      || r.error == StaleIndex(index)
  {
    match MemberRecords(a, index, name)
    case Failure(e) => Failure(e)
    case Success(rows) =>
      match ArchiveTable(rows)
      case Failure(_) => Failure(StaleIndex(index))
      case Success(t) => Success(t)
  }

  /** A sequence of tables of 64 columns each, every table's columns of one
      length. */
  predicate Tables(ts: seq<seq<Column>>) {
    forall a :: 0 <= a < |ts| ==> |ts[a]| == |Headers| && forall c :: 0 <= c < |Headers| ==> |ts[a][c]| == |ts[a][0]|
  }

  /** The table of every archive, in archive order, or the failure of the
      first archive that raises. */
  function ArchiveTables(name: string, archives: seq<Archive>): (r: Result<seq<seq<Column>>, RegionError>)
    ensures r.Success? ==> |r.value| == |archives| && Tables(r.value)
    ensures r.Failure? ==> !r.error.UnknownRegion?
  {
    if |archives| == 0 then Success([])
    else
      var n := |archives| - 1;
      match ArchiveTables(name, archives[..n])
      case Failure(e) => Failure(e)
      case Success(ts) =>
        match ReadArchive(archives[n], n, name)
        case Failure(e) => Failure(e)
        case Success(t) =>
          assert forall a :: 0 <= a < n ==> (ts + [t])[a] == ts[a];
          Success(ts + [t])
  }

  /** The archives give tables exactly when every one of them is read
      without failure. */
  lemma {:induction false} ArchiveTablesSucceed(name: string, archives: seq<Archive>)
    ensures ArchiveTables(name, archives).Success? <==>
      forall a :: 0 <= a < |archives| ==> ReadArchive(archives[a], a, name).Success?
  {
    if |archives| > 0 {
      var n := |archives| - 1;
      var prefix := archives[..n];
      ArchiveTablesSucceed(name, prefix);
      assert forall a :: 0 <= a < n ==> prefix[a] == archives[a];
      var ok := ArchiveTables(name, archives).Success?;
      assert ok <==> ArchiveTables(name, prefix).Success? && ReadArchive(archives[n], n, name).Success?;
      if ok {
        var last := ReadArchive(archives[n], n, name).Success?;
        assert last;
        forall a | 0 <= a < |archives|
          ensures ReadArchive(archives[a], a, name).Success?
        {
          if a < n {
            assert ReadArchive(prefix[a], a, name).Success?;
          } else {
            assert a == n;
          }
        }
      } else if ArchiveTables(name, prefix).Failure? {
        var b :| 0 <= b < n && !ReadArchive(prefix[b], b, name).Success?;
        assert !ReadArchive(archives[b], b, name).Success?;
      }
    }
  }

  /** ... and then table `a` is what reading archive `a` gives. */
  lemma {:induction false} ArchiveTablesValues(name: string, archives: seq<Archive>)
    requires ArchiveTables(name, archives).Success?
    ensures forall a :: 0 <= a < |archives| ==>
      ReadArchive(archives[a], a, name) == Success(ArchiveTables(name, archives).value[a])
  {
    if |archives| > 0 {
      var n := |archives| - 1;
      var prefix := archives[..n];
      var ts := ArchiveTables(name, prefix).value;
      var last := ReadArchive(archives[n], n, name);
      ArchiveTablesValues(name, prefix);
      var all := ArchiveTables(name, archives).value;
      assert all == ts + [last.value];
      forall a | 0 <= a < |archives|
        ensures ReadArchive(archives[a], a, name) == Success(all[a])
      {
        if a < n {
          assert prefix[a] == archives[a] && all[a] == ts[a];
        } else {
          assert a == n;
        }
      }
    }
  }

  /** A failure is the failure of the first archive that does not parse,
      every archive before it having parsed. */
  lemma {:induction false} ArchiveTablesFirstFailure(name: string, archives: seq<Archive>)
    requires ArchiveTables(name, archives).Failure?
    ensures exists a :: (0 <= a < |archives|
      && (forall b :: 0 <= b < a ==> ReadArchive(archives[b], b, name).Success?)
      && ReadArchive(archives[a], a, name) == Failure(ArchiveTables(name, archives).error))
  {
    var n := |archives| - 1;
    var prefix := archives[..n];
    assert forall b :: 0 <= b < n ==> prefix[b] == archives[b];
    if ArchiveTables(name, prefix).Failure? {
      ArchiveTablesFirstFailure(name, prefix);
      var a :| 0 <= a < n
        && (forall b :: 0 <= b < a ==> ReadArchive(prefix[b], b, name).Success?)
        && ReadArchive(prefix[a], a, name) == Failure(ArchiveTables(name, prefix).error);
      assert ReadArchive(archives[a], a, name) == Failure(ArchiveTables(name, archives).error);
    } else {
      ArchiveTablesSucceed(name, prefix);
      assert ReadArchive(archives[n], n, name) == Failure(ArchiveTables(name, archives).error);
    }
  }

  /** A failure among the first archives is the failure of all of them. */
  lemma {:induction false} ArchiveTablesPrefix(name: string, archives: seq<Archive>, k: nat)
    requires k <= |archives|
    requires ArchiveTables(name, archives[..k]).Failure?
    ensures ArchiveTables(name, archives) == ArchiveTables(name, archives[..k])
  {
    if k < |archives| {
      var n := |archives| - 1;
      assert archives[..n][..k] == archives[..k];
      ArchiveTablesPrefix(name, archives[..n], k);
      assert archives[..|archives|] == archives;
    } else {
      assert archives[..k] == archives;
    }
  }

  /** The columns of all tables appended table after table. */
  function Join(ts: seq<seq<Column>>): (t: seq<Column>)
    requires Tables(ts)
    ensures |t| == |Headers|
  {
    seq(|Headers|, c requires 0 <= c < |Headers| => Flatten(seq(|ts|, a requires 0 <= a < |ts| => ts[a][c])))
  }

  /** The number of records of each table. */
  function TableSizes(ts: seq<seq<Column>>): seq<nat>
    requires Tables(ts)
  {
    seq(|ts|, a requires 0 <= a < |ts| => |ts[a][0]|)
  }

  /** Every joined column has as many records as all tables together. */
  lemma JoinSizes(ts: seq<seq<Column>>)
    requires Tables(ts)
    ensures forall c :: 0 <= c < |Headers| ==> |Join(ts)[c]| == Sum(TableSizes(ts))
  {
    forall c | 0 <= c < |Headers|
      ensures |Join(ts)[c]| == Sum(TableSizes(ts))
    {
      var parts := seq(|ts|, a requires 0 <= a < |ts| => ts[a][c]);
      FlattenLength(parts);
      assert seq(|parts|, i requires 0 <= i < |parts| => |parts[i]|) == TableSizes(ts);
    }
  }

  /** Appending one more table appends its columns. */
  lemma JoinSnoc(ts: seq<seq<Column>>, t: seq<Column>)
    requires Tables(ts + [t]) && |t| == |Headers|
    ensures Tables(ts)
    ensures forall c :: 0 <= c < |Headers| ==> Join(ts + [t])[c] == Join(ts)[c] + t[c]
  {
    assert forall a :: 0 <= a < |ts| ==> (ts + [t])[a] == ts[a];
    forall c | 0 <= c < |Headers|
      ensures Join(ts + [t])[c] == Join(ts)[c] + t[c]
    {
      var parts := seq(|ts|, a requires 0 <= a < |ts| => ts[a][c]);
      assert seq(|ts + [t]|, a requires 0 <= a < |ts + [t]| => (ts + [t])[a][c]) == parts + [t[c]];
      FlattenSnoc(parts, t[c]);
    }
  }

  /** A region's column set from its archives' tables: the tables appended
      in archive order, with no deduplication across archives, then the
      `region` column holding the code in every record. */
  function Assemble(code: string, ts: seq<seq<Column>>): (f: Frame)
    requires Tables(ts)
    ensures WellFormed(f) && Rows(f) == Sum(TableSizes(ts))
    ensures forall c :: 0 <= c < |Headers| ==> Headers[c] in f && f[Headers[c]] == Join(ts)[c]
    ensures forall r :: 0 <= r < Rows(f) ==> f[RegionColumn][r] == Str(code)
  {
    JoinSizes(ts);
    SchemaWidth();
    ToFrameSpec(Join(ts), code);
    NamesAreColumnNames();
    assert forall c :: 0 <= c < |Headers| ==> ColumnNames[c] == Headers[c];
    ToFrame(Join(ts), code)
  }

  /** The region's column set, as the source computes it. */
  function RegionFrame(code: string, archives: seq<Archive>): (r: Result<Frame, RegionError>)
    ensures r.Failure? && r.error == UnknownRegion <==> !IsCode(code)
    ensures r.Success? ==> WellFormed(r.value)
  {
    if !IsCode(code) then Failure(UnknownRegion)
    else match ArchiveTables(MemberName(code), archives)
      case Failure(e) => Failure(e)
      case Success(ts) => Success(Assemble(code, ts))
  }

  /** A region's column set is produced exactly for a known code whose
      archives all parse; it is then the archives' tables, each the loop's
      result on the archive's member, assembled in archive order. */
  lemma RegionFrameSpec(code: string, archives: seq<Archive>)
    ensures RegionFrame(code, archives).Success? <==>
      IsCode(code) && forall a :: 0 <= a < |archives| ==> Parses(archives[a], MemberName(code))
    ensures RegionFrame(code, archives).Success? ==>
      var name := MemberName(code);
      var ts := ArchiveTables(name, archives).value;
      && |ts| == |archives|
      && (forall a :: 0 <= a < |archives| ==>
            Readable(archives[a], name) && ts[a] == ArchiveTable(archives[a].members[name]).value)
      && RegionFrame(code, archives).value == Assemble(code, ts)
  {
    if IsCode(code) {
      var name := MemberName(code);
      ArchiveTablesSucceed(name, archives);
      assert (forall a :: 0 <= a < |archives| ==> ReadArchive(archives[a], a, name).Success?) <==>
        (forall a :: 0 <= a < |archives| ==> Parses(archives[a], name));
      if ArchiveTables(name, archives).Success? {
        ArchiveTablesValues(name, archives);
      }
    }
  }

  /** For a known code, a failure is the failure of the first archive that
      does not parse: its missing member, its first short record, or the
      loop's stale deletion. */
  lemma RegionFrameFailure(code: string, archives: seq<Archive>)
    requires IsCode(code) && RegionFrame(code, archives).Failure?
    ensures exists a :: (0 <= a < |archives|
      && (forall b :: 0 <= b < a ==> Parses(archives[b], MemberName(code)))
      && ReadArchive(archives[a], a, MemberName(code)) == Failure(RegionFrame(code, archives).error))
  {
    var name := MemberName(code);
    ArchiveTablesFirstFailure(name, archives);
  }

  predicate AllLong(ms: seq<seq<Row>>) {
    forall a :: 0 <= a < |ms| ==> Long(ms[a])
  }

  /** The member records of every archive in order, or the first archive's
      failure. */
  function ArchiveRecords(name: string, archives: seq<Archive>): (r: Result<seq<seq<Row>>, RegionError>)
    ensures r.Success? ==> |r.value| == |archives| && AllLong(r.value)
    ensures r.Failure? ==> !r.error.UnknownRegion? && !r.error.StaleIndex?
  {
    if |archives| == 0 then Success([])
    else
      var n := |archives| - 1;
      match ArchiveRecords(name, archives[..n])
      case Failure(e) => Failure(e)
      case Success(ms) =>
        match MemberRecords(archives[n], n, name)
        case Failure(e) => Failure(e)
        case Success(m) => Success(ms + [m])
  }

  /** The archives give records exactly when every one of them is
      readable. */
  lemma {:induction false} ArchiveRecordsSucceed(name: string, archives: seq<Archive>)
    ensures ArchiveRecords(name, archives).Success? <==> forall a :: 0 <= a < |archives| ==> Readable(archives[a], name)
  {
    if |archives| > 0 {
      var n := |archives| - 1;
      var prefix := archives[..n];
      ArchiveRecordsSucceed(name, prefix);
      assert forall a :: 0 <= a < n ==> prefix[a] == archives[a];
    }
  }

  /** ... and then the records of archive `a` are its member's records. */
  lemma {:induction false} ArchiveRecordsValues(name: string, archives: seq<Archive>)
    requires ArchiveRecords(name, archives).Success?
    ensures forall a :: 0 <= a < |archives| ==>
      name in archives[a].members && ArchiveRecords(name, archives).value[a] == archives[a].members[name]
  {
    if |archives| > 0 {
      var n := |archives| - 1;
      var prefix := archives[..n];
      var ms := ArchiveRecords(name, prefix).value;
      var last := MemberRecords(archives[n], n, name);
      ArchiveRecordsValues(name, prefix);
      assert ArchiveRecords(name, archives).value == ms + [last.value];
      assert forall a :: 0 <= a < n ==> prefix[a] == archives[a];
    }
  }

  /** The documented table of every archive's records. */
  function IntendedTables(ms: seq<seq<Row>>): (ts: seq<seq<Column>>)
    requires AllLong(ms)
    ensures |ts| == |ms| && Tables(ts)
  {
    seq(|ms|, a requires 0 <= a < |ms| => IntendedTable(ms[a]))
  }

  /** The region's column set as documented: each archive's records with
      repeated record numbers dropped, assembled in archive order. */
  function RegionFrameIntended(code: string, archives: seq<Archive>): (r: Result<Frame, RegionError>)
    ensures r.Failure? && r.error == UnknownRegion <==> !IsCode(code)
    ensures r.Success? ==> WellFormed(r.value)
  {
    if !IsCode(code) then Failure(UnknownRegion)
    else match ArchiveRecords(MemberName(code), archives)
      case Failure(e) => Failure(e)
      case Success(ms) => Success(Assemble(code, IntendedTables(ms)))
  }

  /** The documented column set exists exactly for a known code whose
      archives are all readable, and is then the documented tables of the
      archives' members assembled in archive order. */
  lemma RegionFrameIntendedSpec(code: string, archives: seq<Archive>)
    ensures RegionFrameIntended(code, archives).Success? <==>
      IsCode(code) && forall a :: 0 <= a < |archives| ==> Readable(archives[a], MemberName(code))
    ensures RegionFrameIntended(code, archives).Success? ==>
      var name := MemberName(code);
      var ms := ArchiveRecords(name, archives).value;
      && (forall a :: 0 <= a < |archives| ==> name in archives[a].members && ms[a] == archives[a].members[name])
      && RegionFrameIntended(code, archives).value == Assemble(code, IntendedTables(ms))
  {
    if IsCode(code) {
      var name := MemberName(code);
      ArchiveRecordsSucceed(name, archives);
      if ArchiveRecords(name, archives).Success? {
        ArchiveRecordsValues(name, archives);
      }
    }
  }

  /** Every readable member repeats at most one record number. */
  ghost predicate FewRepeats(archives: seq<Archive>, name: string) {
    forall a :: 0 <= a < |archives| ==> Readable(archives[a], name) ==> OneRepeatAtMost(archives[a].members[name])
  }

  /** Archive by archive, the loop as written fails nowhere and gives the
      documented tables when no member repeats more than one record
      number. */
  lemma {:induction false} ArchiveTablesAgree(name: string, archives: seq<Archive>)
    requires FewRepeats(archives, name)
    ensures ArchiveTables(name, archives) ==
      match ArchiveRecords(name, archives)
      case Failure(e) => Failure(e)
      case Success(ms) => Success(IntendedTables(ms))
  {
    if |archives| > 0 {
      var n := |archives| - 1;
      var prefix := archives[..n];
      assert forall a :: 0 <= a < n ==> prefix[a] == archives[a];
      ArchiveTablesAgree(name, prefix);
      if ArchiveRecords(name, prefix).Success? {
        var ms := ArchiveRecords(name, prefix).value;
        var m := MemberRecords(archives[n], n, name);
        if m.Success? {
          ArchiveTableAgrees(m.value);
          assert ReadArchive(archives[n], n, name) == Success(IntendedTable(m.value));
          IntendedTablesSnoc(ms, m.value);
        }
      }
    }
  }

  lemma IntendedTablesSnoc(ms: seq<seq<Row>>, m: seq<Row>)
    requires AllLong(ms) && Long(m)
    ensures AllLong(ms + [m])
    ensures IntendedTables(ms + [m]) == IntendedTables(ms) + [IntendedTable(m)]
  {
    assert forall a :: 0 <= a < |ms| ==> (ms + [m])[a] == ms[a];
    var ts := IntendedTables(ms + [m]);
    assert forall a :: 0 <= a < |ms| ==> ts[a] == IntendedTable(ms[a]);
  }

  /** When no archive's member repeats more than one record number, the
      source's column set is the documented one, failures included. */
  lemma RegionFrameAgrees(code: string, archives: seq<Archive>)
    requires IsCode(code) ==> FewRepeats(archives, MemberName(code))
    ensures RegionFrame(code, archives) == RegionFrameIntended(code, archives)
  {
    if IsCode(code) {
      ArchiveTablesAgree(MemberName(code), archives);
    }
  }

  /** The source's `parse_region_data`: one pass over the archives, each
      member read, coerced and deduplicated, its table appended to 64
      growing columns. */
  method ParseRegionData(code: string, archives: seq<Archive>) returns (r: Result<Frame, RegionError>)
    ensures r == RegionFrame(code, archives)
    ensures r.Failure? && r.error == UnknownRegion <==> !IsCode(code)
    ensures r.Success? ==> WellFormed(r.value)
  {
    if !IsCode(code) {
      return Failure(UnknownRegion);
    }
    SchemaWidth();
    var name := MemberName(code);
    var cols: seq<Column> := seq(|Headers|, c => []);
    ghost var ts: seq<seq<Column>> := [];
    var k := 0;
    while k < |archives|
      invariant 0 <= k <= |archives|
      invariant ArchiveTables(name, archives[..k]) == Success(ts)
      invariant cols == Join(ts)
    {
      var m := MemberRecords(archives[k], k, name);
      if m.Failure? {
        ReadFailure(code, archives, k, ts);
        return Failure(m.error);
      }
      var t := ArchiveTable(m.value);
      if t.Failure? {
        ReadFailure(code, archives, k, ts);
        return Failure(StaleIndex(k));
      }
      ReadStep(name, archives, k, ts);
      cols := seq(|Headers|, c requires 0 <= c < |Headers| => cols[c] + t.value[c]);
      ts := ts + [t.value];
      k := k + 1;
    }
    assert archives[..k] == archives;
    r := Success(ToFrame(cols, code));
  }

  /** Reading one more archive that parses appends its table to every
      column. */
  lemma ReadStep(name: string, archives: seq<Archive>, k: nat, ts: seq<seq<Column>>)
    requires k < |archives| && ArchiveTables(name, archives[..k]) == Success(ts)
    requires ReadArchive(archives[k], k, name).Success?
    ensures var t := ReadArchive(archives[k], k, name).value;
      && ArchiveTables(name, archives[..k + 1]) == Success(ts + [t])
      && forall c :: 0 <= c < |Headers| ==> Join(ts + [t])[c] == Join(ts)[c] + t[c]
  {
    var t := ReadArchive(archives[k], k, name).value;
    assert archives[..k + 1][..k] == archives[..k];
    assert ArchiveTables(name, archives[..k + 1]) == Success(ts + [t]);
    JoinSnoc(ts, t);
  }

  /** An archive that does not parse, after ones that do, is the region's
      failure. */
  lemma ReadFailure(code: string, archives: seq<Archive>, k: nat, ts: seq<seq<Column>>)
    requires IsCode(code) && k < |archives|
    requires ArchiveTables(MemberName(code), archives[..k]) == Success(ts)
    requires ReadArchive(archives[k], k, MemberName(code)).Failure?
    ensures RegionFrame(code, archives) == Failure(ReadArchive(archives[k], k, MemberName(code)).error)
  {
    var name := MemberName(code);
    assert archives[..k + 1][..k] == archives[..k];
    assert ArchiveTables(name, archives[..k + 1]) == Failure(ReadArchive(archives[k], k, name).error);
    ArchiveTablesPrefix(name, archives, k + 1);
  }
}

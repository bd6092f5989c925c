/** The fixed tables of the downloader: the 64 CSV column names, the numpy
    dtype declared for each of them, and the region table mapping each
    three-letter region code to the two-digit name of its CSV member inside
    every archive. The column tables are written in four pieces, one per
    source line, which keeps indexing into them cheap for the verifier. */
module Schema {
  import opened Text
  import opened Results

  const HeaderLine1: seq<string> :=
    ["p1", "p36", "p37", "p2a", "weekday(p2a)", "p2b", "p6", "p7", "p8", "p9", "p10", "p11", "p12", "p13a"]
  const HeaderLine2: seq<string> :=
    ["p13b", "p13c", "p14", "p15", "p16", "p17", "p18", "p19", "p20", "p21", "p22", "p23", "p24", "p27", "p28"]
  const HeaderLine3: seq<string> :=
    ["p34", "p35", "p39", "p44", "p45a", "p47", "p48a", "p49", "p50a", "p50b", "p51", "p52", "p53", "p55a"]
  const HeaderLine4: seq<string> :=
    ["p57", "p58", "a", "b", "d", "e", "f", "g", "h", "i", "j", "k", "l", "n", "o", "p", "q", "r", "s", "t", "p5a"]

  /** Column names, in CSV field order (the CSV files carry no header row). */
  const Headers: seq<string> := HeaderLine1 + HeaderLine2 + HeaderLine3 + HeaderLine4

  /** The numpy dtype declared for each column, parallel to `Headers`. */
  const DataTypes: seq<string> :=
    ["U12", "i1", "i4", "M8[D]", "i1", "U4", "i1", "i1", "i1", "i1", "i1", "i1", "i2", "i2", "i2", "i2", "i8"] +
    ["i1", "i1", "i1", "i1", "i1", "i1", "i1", "i1", "i1", "i1", "i1", "i1", "i2", "i1", "i1", "i1", "i1", "U2"] +
    ["i1", "i1", "i1", "i1", "i1", "i1", "i8", "i1", "i1", "i1", "f8", "f8", "f8", "f8", "f8", "f8", "U32", "U32"] +
    ["U32", "U32", "U32", "U32", "U32", "U32", "U32", "U32", "U32", "U32", "i1"]

  /** The region codes in table order, which is also the order in which a
      request for "all regions" visits them. */
  const Codes: seq<string> :=
    ["PHA", "STC", "JHC", "PLK", "ULK", "HKK", "JHM", "MSK", "OLK", "ZLK", "VYS", "PAK", "LBK", "KVK"]

  /** Region code to the two-digit name of its CSV member. */
  const Members: map<string, string> := map[
    "PHA" := "00", "STC" := "01", "JHC" := "02", "PLK" := "03", "ULK" := "04", "HKK" := "05", "JHM" := "06",
    "MSK" := "07", "OLK" := "14", "ZLK" := "15", "VYS" := "16", "PAK" := "17", "LBK" := "18", "KVK" := "19"]

  /** The synthetic column added after the schema columns. */
  const RegionColumn: string := "region"

  /** Every key of a region's column set: the schema columns, then `region`. */
  const ColumnNames: seq<string> := Headers + [RegionColumn]

  predicate IsCode(code: string) {
    code in Members
  }

  /** What a column holds once coerced: a string of at most `width`
      characters (no bound when the dtype spells none), an integer, a
      calendar day or a floating-point number. */
  datatype Kind = Text(width: Option<nat>) | Integer | Date | Float

  /** The declared width of a fixed-width string dtype such as "U12". */
  function TextWidth(dtype: string): Option<nat> {
    if |dtype| > 1 && dtype[0] == 'U' && AllDigits(dtype[1..]) then Some(NatOf(dtype[1..])) else None
  }

  /** The kind of a dtype, decided by the same letter tests as the type
      branch of the coercion: 'M' first, then 'f', then 'U'; anything else
      is an integer slot. */
  function KindOf(dtype: string): Kind {
    if 'M' in dtype then Date
    else if 'f' in dtype then Float
    else if 'U' in dtype then Text(TextWidth(dtype))
    else Integer
  }

  /** A dtype carries exactly one of the four class letters the coercion
      tests for. */
  predicate SingleClass(dtype: string) {
    var u, i, m, f := 'U' in dtype, 'i' in dtype, 'M' in dtype, 'f' in dtype;
    (u && !i && !m && !f) || (!u && i && !m && !f) || (!u && !i && m && !f) || (!u && !i && !m && f)
  }

  lemma HeaderLine1Distinct()
    ensures NoDuplicates(HeaderLine1)
  {
    assert forall i :: 0 <= i < |HeaderLine1| ==> HeaderLine1[i] !in HeaderLine1[..i];
    NoDuplicatesFromPrefixes(HeaderLine1);
  }

  lemma HeaderLine2Distinct()
    ensures NoDuplicates(HeaderLine2)
  {
    assert forall i :: 0 <= i < |HeaderLine2| ==> HeaderLine2[i] !in HeaderLine2[..i];
    NoDuplicatesFromPrefixes(HeaderLine2);
  }

  lemma HeaderLine3Distinct()
    ensures NoDuplicates(HeaderLine3)
  {
    assert forall i :: 0 <= i < |HeaderLine3| ==> HeaderLine3[i] !in HeaderLine3[..i];
    NoDuplicatesFromPrefixes(HeaderLine3);
  }

  lemma HeaderLine4Distinct()
    ensures NoDuplicates(HeaderLine4)
  {
    assert forall i :: 0 <= i < |HeaderLine4| ==> HeaderLine4[i] !in HeaderLine4[..i];
    NoDuplicatesFromPrefixes(HeaderLine4);
  }

  lemma HeaderLines12Disjoint()
    ensures Disjoint(HeaderLine1, HeaderLine2)
  {
  }

  lemma HeaderLines13Disjoint()
    ensures Disjoint(HeaderLine1, HeaderLine3)
  {
  }

  lemma HeaderLines14Disjoint()
    ensures Disjoint(HeaderLine1, HeaderLine4)
  {
  }

  lemma HeaderLines23Disjoint()
    ensures Disjoint(HeaderLine2, HeaderLine3)
  {
  }

  lemma HeaderLines24Disjoint()
    ensures Disjoint(HeaderLine2, HeaderLine4)
  {
  }

  lemma HeaderLines34Disjoint()
    ensures Disjoint(HeaderLine3, HeaderLine4)
  {
  }

  lemma RegionColumnIsNew()
    ensures Disjoint(HeaderLine1, [RegionColumn]) && Disjoint(HeaderLine2, [RegionColumn])
    ensures Disjoint(HeaderLine3, [RegionColumn]) && Disjoint(HeaderLine4, [RegionColumn])
  {
  }

  /** 64 schema columns, one data type each, and the region column after
      them. */
  lemma SchemaWidth()
    ensures |Headers| == |DataTypes| == 64 && |ColumnNames| == 65
    ensures ColumnNames[64] == RegionColumn
  {
  }

  /** The two column tables have one entry per column, and the 65 column
      names (the 64 headers and `region`) are pairwise distinct. */
  lemma HeadersWellFormed()
    ensures |Headers| == |DataTypes| == 64
    ensures NoDuplicates(Headers)
    ensures NoDuplicates(ColumnNames)
  {
    var l1, l2, l3, l4 := HeaderLine1, HeaderLine2, HeaderLine3, HeaderLine4;
    HeaderLine1Distinct();
    HeaderLine2Distinct();
    HeaderLine3Distinct();
    HeaderLine4Distinct();
    HeaderLines12Disjoint();
    HeaderLines13Disjoint();
    HeaderLines14Disjoint();
    HeaderLines23Disjoint();
    HeaderLines24Disjoint();
    HeaderLines34Disjoint();
    RegionColumnIsNew();
    NoDuplicatesAppend(l1, l2);
    DisjointAppend(l1, l2, l3);
    NoDuplicatesAppend(l1 + l2, l3);
    DisjointAppend(l1, l2, l4);
    DisjointAppend(l1 + l2, l3, l4);
    NoDuplicatesAppend(l1 + l2 + l3, l4);
    DisjointAppend(l1, l2, [RegionColumn]);
    DisjointAppend(l1 + l2, l3, [RegionColumn]);
    DisjointAppend(l1 + l2 + l3, l4, [RegionColumn]);
    assert NoDuplicates([RegionColumn]);
    NoDuplicatesAppend(Headers, [RegionColumn]);
  }

  lemma DataTypesSingleClass()
    ensures forall i :: 0 <= i < |DataTypes| ==> SingleClass(DataTypes[i])
  {
  }

  lemma DateColumns()
    ensures Headers[3] == "p2a"
    ensures forall i :: 0 <= i < |DataTypes| ==> (KindOf(DataTypes[i]).Date? <==> i == 3)
  {
  }

  lemma FloatColumns()
    ensures Headers[45..51] == ["a", "b", "d", "e", "f", "g"]
    ensures forall i :: 0 <= i < |DataTypes| ==> (KindOf(DataTypes[i]).Float? <==> 45 <= i < 51)
  {
  }

  /** Every declared dtype names exactly one class, and the classes line up
      with the column names: `p1` is a 12-character string, `p2a` is the only
      date column, and `a`, `b`, `d`, `e`, `f`, `g` are the float columns. */
  lemma DataTypesAligned()
    ensures forall i :: 0 <= i < |DataTypes| ==> SingleClass(DataTypes[i])
    ensures Headers[0] == "p1" && KindOf(DataTypes[0]) == Text(Some(12))
    ensures Headers[3] == "p2a"
    ensures forall i :: 0 <= i < |DataTypes| ==> (KindOf(DataTypes[i]).Date? <==> i == 3)
    ensures Headers[45..51] == ["a", "b", "d", "e", "f", "g"]
    ensures forall i :: 0 <= i < |DataTypes| ==> (KindOf(DataTypes[i]).Float? <==> 45 <= i < 51)
  {
    DataTypesSingleClass();
    DateColumns();
    FloatColumns();
    assert DataTypes[0] == "U12" && DataTypes[0][1..] == "12";
    assert "12"[..1] == "1" && "1"[..0] == "";
    assert NatOf("12") == 12;
  }

  lemma CodesMatchTable()
    ensures |Codes| == 14 && NoDuplicates(Codes)
    ensures forall c :: c in Codes <==> IsCode(c)
  {
  }

  lemma MemberNamesWellFormed()
    ensures forall c :: IsCode(c) ==> |c| == 3
    ensures forall c :: IsCode(c) ==> |Members[c]| == 2 && AllDigits(Members[c])
  {
  }

  lemma MemberNamesDistinct()
    ensures forall c, d :: IsCode(c) && IsCode(d) && c != d ==> Members[c] != Members[d]
  {
  }

  /** The region table has 14 distinct three-letter codes, listed in `Codes`
      in table order, and maps them to pairwise distinct two-digit names. */
  lemma RegionsWellFormed()
    ensures |Codes| == 14 && NoDuplicates(Codes)
    ensures forall c :: c in Codes <==> IsCode(c)
    ensures forall c :: IsCode(c) ==> |c| == 3
    ensures forall c :: IsCode(c) ==> |Members[c]| == 2 && AllDigits(Members[c])
    ensures forall c, d :: IsCode(c) && IsCode(d) && c != d ==> Members[c] != Members[d]
  {
    CodesMatchTable();
    MemberNamesWellFormed();
    MemberNamesDistinct();
  }
}

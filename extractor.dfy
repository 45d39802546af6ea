/** WQDataExtractor.py: selecting the rows of one area's combined archive file
    by sampling point and date window, and deriving the limit-of-detection
    qualified result. */
module Extractor {
  import opened Tables
  import opened Strings

  const NotationColumn: string := "sample.samplingPoint.notation"
  const DateColumn: string := "sample.sampleDateTime"
  const ResultColumn: string := "result"
  const QualifierColumn: string := "resultQualifier.notation"
  const QualifiedColumn: string := "resultQualified"
  /** The rows per chunk when the file is read in pieces. */
  const ChunkSize: nat := 10000
  const SelectedDataName: string := "selected_data.csv"
  /** The cursor field that holds a selected point's notation. */
  const NotationField: nat := 5

  // ---------------------------------------------------------------------------
  // The two row filters of data_filter (lines 47 and 49)

  /** isin(locs): a missing cell matches a missing entry of locs. */
  predicate AtLocation(r: Row, locs: seq<Cell>) {
    Get(r, NotationColumn) in locs
  }

  function AtLocations(locs: seq<Cell>): Row -> bool {
    r => AtLocation(r, locs)
  }

  /** start < date < end on str; a cell that is not text (NaN) compares false both ways. */
  predicate InWindow(r: Row, start: string, end: string) {
    var c := Get(r, DateColumn);
    c.Text? && LexLess(start, c.s) && LexLess(c.s, end)
  }

  function Within(start: string, end: string): Row -> bool {
    r => InWindow(r, start, end)
  }

  /** df.loc[df[notation].isin(locs)]: a missing column is a KeyError. */
  function LocationFilter(t: Table, locs: seq<Cell>): (r: Result<Table>)
    ensures r.Err? <==> NotationColumn !in t.columns
    ensures r.Err? ==> r.error == KeyError(NotationColumn)
    ensures r.Ok? ==> r.value.columns == t.columns && |r.value.rows| <= |t.rows|
  {
    if NotationColumn !in t.columns then Err(KeyError(NotationColumn))
    else Ok(Table(t.columns, Filter(t.rows, AtLocations(locs))))
  }

  /** df[(df[date] > start) & (df[date] < end)]: a missing column is a KeyError. */
  function DateFilter(t: Table, start: string, end: string): (r: Result<Table>)
    ensures r.Err? <==> DateColumn !in t.columns
    ensures r.Err? ==> r.error == KeyError(DateColumn)
    ensures r.Ok? ==> r.value.columns == t.columns && |r.value.rows| <= |t.rows|
  {
    if DateColumn !in t.columns then Err(KeyError(DateColumn))
    else Ok(Table(t.columns, Filter(t.rows, Within(start, end))))
  }

  /** What data_filter computes before it discards it: the location filter, then the date filter. */
  function DataFilter(t: Table, locs: seq<Cell>, start: string, end: string): Result<Table> {
    match LocationFilter(t, locs)
    case Err(e) => Err(e)
    case Ok(l) => DateFilter(l, start, end)
  }

  /** The filter fails exactly when one of its two columns is missing, the
      location column being looked up first. */
  lemma DataFilterErrors(t: Table, locs: seq<Cell>, start: string, end: string)
    ensures DataFilter(t, locs, start, end).Err? <==> NotationColumn !in t.columns || DateColumn !in t.columns
    ensures NotationColumn !in t.columns ==> DataFilter(t, locs, start, end) == Err(KeyError(NotationColumn))
    ensures NotationColumn in t.columns && DateColumn !in t.columns ==>
              DataFilter(t, locs, start, end) == Err(KeyError(DateColumn))
  {
  }

  /** A row is kept exactly when it is in the input, at a selected location,
      and strictly inside the date window; the columns are unchanged. */
  lemma DataFilterMembers(t: Table, locs: seq<Cell>, start: string, end: string, r: Row)
    requires DataFilter(t, locs, start, end).Ok?
    ensures DataFilter(t, locs, start, end).value.columns == t.columns
    ensures r in DataFilter(t, locs, start, end).value.rows <==>
              r in t.rows && AtLocation(r, locs) && InWindow(r, start, end)
  {
    var l := Filter(t.rows, AtLocations(locs));
    FilterMembers(t.rows, AtLocations(locs), r);
    FilterMembers(l, Within(start, end), r);
  }

  /** The kept rows are an order-preserving subsequence of the input rows. */
  lemma DataFilterSubsequence(t: Table, locs: seq<Cell>, start: string, end: string)
    requires DataFilter(t, locs, start, end).Ok?
    ensures IsSubsequence(DataFilter(t, locs, start, end).value.rows, t.rows)
  {
    var p, q := AtLocations(locs), Within(start, end);
    var both := (r: Row) => p(r) && q(r);
    FilterFilter(t.rows, p, q, both);
    FilterIsSubsequence(t.rows, both);
  }

  /** Filtering an already filtered table changes nothing. */
  lemma DataFilterIdempotent(t: Table, locs: seq<Cell>, start: string, end: string)
    requires DataFilter(t, locs, start, end).Ok?
    ensures DataFilter(DataFilter(t, locs, start, end).value, locs, start, end) == DataFilter(t, locs, start, end)
  {
    var p, q := AtLocations(locs), Within(start, end);
    var both := (r: Row) => p(r) && q(r);
    var f := Filter(Filter(t.rows, p), q);
    FilterFilter(t.rows, p, q, both);
    FilterFilter(f, p, q, both);
    FilterFilter(t.rows, both, both, both);
    FilterIdempotent(t.rows, both);
  }

  // ---------------------------------------------------------------------------
  // The chunked path taken after a MemoryError (lines 141-150)

  /** read_csv(chunksize=size): consecutive pieces of at most size rows; a file
      without rows gives one empty piece. */
  function Chunks(rows: seq<Row>, size: nat): (cs: seq<seq<Row>>)
    requires size > 0
    ensures cs != []
    ensures forall i :: 0 <= i < |cs| ==> |cs[i]| <= size
    decreases |rows|
  {
    if |rows| <= size then [rows] else [rows[..size]] + Chunks(rows[size..], size)
  }

  lemma {:induction false} ChunksFlatten(rows: seq<Row>, size: nat)
    requires size > 0
    ensures Flatten(Chunks(rows, size)) == rows
    decreases |rows|
  {
    if |rows| > size {
      ChunksFlatten(rows[size..], size);
      assert rows == rows[..size] + rows[size..];
    }
  }

  function ChunkTables(columns: seq<string>, cs: seq<seq<Row>>): seq<Table> {
    seq(|cs|, i requires 0 <= i < |cs| => Table(columns, cs[i]))
  }

  /** The first comprehension: the location filter on every chunk, in order. */
  function LocateEach(chunks: seq<Table>, locs: seq<Cell>): Result<seq<Table>> {
    if chunks == [] then Ok([])
    else
      match LocationFilter(chunks[0], locs)
      case Err(e) => Err(e)
      case Ok(c) =>
        match LocateEach(chunks[1..], locs)
        case Err(e) => Err(e)
        case Ok(rest) => Ok([c] + rest)
  }

  /** The second comprehension: the date filter on every chunk, in order. */
  function WindowEach(chunks: seq<Table>, start: string, end: string): Result<seq<Table>> {
    if chunks == [] then Ok([])
    else
      match DateFilter(chunks[0], start, end)
      case Err(e) => Err(e)
      case Ok(c) =>
        match WindowEach(chunks[1..], start, end)
        case Err(e) => Err(e)
        case Ok(rest) => Ok([c] + rest)
  }

  function RowsOf(ts: seq<Table>): seq<seq<Row>> {
    seq(|ts|, i requires 0 <= i < |ts| => ts[i].rows)
  }

  /** pd.concat of chunks that share their columns. */
  function ConcatChunks(ts: seq<Table>, columns: seq<string>, source: string): Result<Table> {
    if ts == [] then Err(NothingToConcatenate(source)) else Ok(Table(columns, Flatten(RowsOf(ts))))
  }

  function ChunkedFilter(t: Table, locs: seq<Cell>, start: string, end: string, source: string): Result<Table> {
    var chunks := ChunkTables(t.columns, Chunks(t.rows, ChunkSize));
    match LocateEach(chunks, locs)
    case Err(e) => Err(e)
    case Ok(located) =>
      match WindowEach(located, start, end)
      case Err(e) => Err(e)
      case Ok(windowed) => ConcatChunks(windowed, t.columns, source)
  }

  function FilterEach(cs: seq<seq<Row>>, p: Row -> bool): seq<seq<Row>> {
    seq(|cs|, i requires 0 <= i < |cs| => Filter(cs[i], p))
  }

  lemma {:induction false} FlattenFilter(cs: seq<seq<Row>>, p: Row -> bool)
    ensures Flatten(FilterEach(cs, p)) == Filter(Flatten(cs), p)
  {
    if cs != [] {
      FlattenFilter(cs[1..], p);
      FilterConcat(cs[0], Flatten(cs[1..]), p);
      assert FilterEach(cs, p)[1..] == FilterEach(cs[1..], p);
    }
  }

  lemma {:induction false} LocateEachSpec(columns: seq<string>, cs: seq<seq<Row>>, locs: seq<Cell>)
    ensures cs != [] && NotationColumn !in columns ==> LocateEach(ChunkTables(columns, cs), locs) == Err(KeyError(NotationColumn))
    ensures NotationColumn in columns ==>
              LocateEach(ChunkTables(columns, cs), locs) == Ok(ChunkTables(columns, FilterEach(cs, AtLocations(locs))))
  {
    if cs != [] {
      var ts := ChunkTables(columns, cs);
      assert ts[0] == Table(columns, cs[0]);
      assert ts[1..] == ChunkTables(columns, cs[1..]);
      LocateEachSpec(columns, cs[1..], locs);
      if NotationColumn in columns {
        var f := ChunkTables(columns, FilterEach(cs, AtLocations(locs)));
        assert LocationFilter(ts[0], locs) == Ok(f[0]);
        assert f[1..] == ChunkTables(columns, FilterEach(cs[1..], AtLocations(locs)));
        assert f == [f[0]] + f[1..];
      }
    }
  }

  lemma {:induction false} WindowEachSpec(columns: seq<string>, cs: seq<seq<Row>>, start: string, end: string)
    ensures cs != [] && DateColumn !in columns ==> WindowEach(ChunkTables(columns, cs), start, end) == Err(KeyError(DateColumn))
    ensures DateColumn in columns ==>
              WindowEach(ChunkTables(columns, cs), start, end) == Ok(ChunkTables(columns, FilterEach(cs, Within(start, end))))
  {
    if cs != [] {
      var ts := ChunkTables(columns, cs);
      assert ts[0] == Table(columns, cs[0]);
      assert ts[1..] == ChunkTables(columns, cs[1..]);
      WindowEachSpec(columns, cs[1..], start, end);
      if DateColumn in columns {
        var f := ChunkTables(columns, FilterEach(cs, Within(start, end)));
        assert DateFilter(ts[0], start, end) == Ok(f[0]);
        assert f[1..] == ChunkTables(columns, FilterEach(cs[1..], Within(start, end)));
        assert f == [f[0]] + f[1..];
      }
    }
  }

  /** Filtering chunk by chunk and concatenating gives exactly what filtering
      the whole table gives, errors included. */
  lemma ChunkedAgrees(t: Table, locs: seq<Cell>, start: string, end: string, source: string)
    ensures ChunkedFilter(t, locs, start, end, source) == DataFilter(t, locs, start, end)
  {
    var cs := Chunks(t.rows, ChunkSize);
    var p, q := AtLocations(locs), Within(start, end);
    LocateEachSpec(t.columns, cs, locs);
    if NotationColumn in t.columns {
      var ls := FilterEach(cs, p);
      WindowEachSpec(t.columns, ls, start, end);
      if DateColumn in t.columns {
        var ws := FilterEach(ls, q);
        assert RowsOf(ChunkTables(t.columns, ws)) == ws;
        FlattenFilter(ls, q);
        FlattenFilter(cs, p);
        ChunksFlatten(t.rows, ChunkSize);
      }
    }
  }

  // ---------------------------------------------------------------------------
  // The area notation and the archive file (lines 118-125)

  /** str.find(c): the first index of c, or -1. */
  function Find(s: string, c: char): (i: int)
    ensures -1 <= i < |s|
    ensures i >= 0 ==> s[i] == c && c !in s[..i]
    ensures i == -1 <==> c !in s
  {
    if s == [] then -1
    else if s[0] == c then 0
    else
      var j := Find(s[1..], c);
      assert s == [s[0]] + s[1..];
      if j == -1 then -1
      else
        assert s[..j + 1] == [s[0]] + s[1..][..j];
        j + 1
  }

  /** One bound of a Python slice: a negative bound counts from the end; the result is clamped to [0, n]. */
  function SliceBound(i: int, n: nat): (b: nat)
    ensures b <= n
  {
    if i < 0 then (if i + n < 0 then 0 else i + n) else if i > n then n else i
  }

  /** Python's s[a:b]. */
  function PySlice(s: string, a: int, b: int): string {
    var lo, hi := SliceBound(a, |s|), SliceBound(b, |s|);
    if lo >= hi then [] else s[lo..hi]
  }

  /** eaArea[find("(") + 1 : find(")")]. */
  function AreaNotation(eaArea: string): string {
    PySlice(eaArea, Find(eaArea, '(') + 1, Find(eaArea, ')'))
  }

  /** Find returns the first occurrence, wherever it is. */
  lemma FindAt(s: string, c: char, i: nat)
    requires i < |s| && s[i] == c
    requires forall k :: 0 <= k < i ==> s[k] != c
    ensures Find(s, c) == i
  {
  }

  /** With "(" before ")", the notation is exactly the text strictly between the first of each. */
  lemma AreaNotationBetween(eaArea: string, i: nat, j: nat)
    requires i < j < |eaArea| && eaArea[i] == '(' && eaArea[j] == ')'
    requires forall k :: 0 <= k < i ==> eaArea[k] != '('
    requires forall k :: 0 <= k < j ==> eaArea[k] != ')'
    ensures AreaNotation(eaArea) == eaArea[i + 1..j]
  {
    FindAt(eaArea, '(', i);
    FindAt(eaArea, ')', j);
  }

  /** The user interface's "Label (CODE)" form gives back CODE. */
  lemma AreaNotationOfLabel(areaLabel: string, code: string)
    requires '(' !in areaLabel && ')' !in areaLabel && ')' !in code
    ensures AreaNotation(areaLabel + " (" + code + ")") == code
  {
    var s := areaLabel + " (" + code + ")";
    var i, j := |areaLabel| + 1, |areaLabel| + 2 + |code|;
    forall k | 0 <= k < j ensures s[k] != ')' {
      if k < |areaLabel| {
        assert s[k] == areaLabel[k];
      } else if k > i {
        assert s[k] == code[k - i - 1];
      }
    }
    forall k | 0 <= k < i ensures s[k] != '(' {
      if k < |areaLabel| {
        assert s[k] == areaLabel[k];
      }
    }
    AreaNotationBetween(s, i, j);
    assert s[i + 1..j] == code;
  }

  /** Without a closing ")", the end bound -1 drops the last character:
      "Label (CODE" gives "COD". */
  lemma AreaNotationUnclosed(areaLabel: string, code: string)
    requires '(' !in areaLabel && ')' !in areaLabel && ')' !in code && code != []
    ensures AreaNotation(areaLabel + " (" + code) == code[..|code| - 1]
  {
    var s := areaLabel + " (" + code;
    var i := |areaLabel| + 1;
    forall k | 0 <= k < i ensures s[k] != '(' {
      if k < |areaLabel| {
        assert s[k] == areaLabel[k];
      }
    }
    FindAt(s, '(', i);
    assert ')' !in s by {
      forall k | 0 <= k < |s| ensures s[k] != ')' {
        if k < |areaLabel| {
          assert s[k] == areaLabel[k];
        } else if k > i {
          assert s[k] == code[k - i - 1];
        }
      }
    }
    assert s[i + 1..|s| - 1] == code[..|code| - 1];
  }

  /** A bare name without parentheses loses its last character: both finds
      give -1, so the slice is [0:-1]. */
  lemma AreaNotationBare(eaArea: string)
    requires '(' !in eaArea && ')' !in eaArea && eaArea != []
    ensures AreaNotation(eaArea) == eaArea[..|eaArea| - 1]
  {
  }

  /** The archive file for an area: wqArchive + "\\" + "alldata_" + notation + ".csv". */
  function ArchivePath(wqArchive: string, notation: string): (p: string)
    ensures |p| == |wqArchive| + |notation| + 13
    ensures p[..|wqArchive|] == wqArchive && p[|wqArchive|] == '\\'
    ensures p[|wqArchive| + 1..] == "alldata_" + notation + ".csv"
  {
    wqArchive + "\\" + "alldata_" + notation + ".csv"
  }

  /** Different notations name different archive files. */
  lemma ArchivePathInjective(wqArchive: string, n1: string, n2: string)
    requires ArchivePath(wqArchive, n1) == ArchivePath(wqArchive, n2)
    ensures n1 == n2
  {
    var p := ArchivePath(wqArchive, n1);
    assert n1 == p[|wqArchive| + 9..|p| - 4];
  }

  // ---------------------------------------------------------------------------
  // The date bounds: str(datetime.strptime(text, "%d/%m/%Y")) (lines 73-74)

  predicate NonZeroDigit(c: char) {
    '1' <= c <= '9'
  }

  /** A day the %d directive accepts: 3[01] | [12]\d | 0[1-9] | [1-9] | " "[1-9]. */
  predicate DayToken(t: string) {
    || (|t| == 2 && t[0] == '3' && (t[1] == '0' || t[1] == '1'))
    || (|t| == 2 && (t[0] == '1' || t[0] == '2') && IsDigit(t[1]))
    || (|t| == 2 && t[0] == '0' && NonZeroDigit(t[1]))
    || (|t| == 1 && NonZeroDigit(t[0]))
    || (|t| == 2 && t[0] == ' ' && NonZeroDigit(t[1]))
  }

  /** A month the %m directive accepts: 1[0-2] | 0[1-9] | [1-9]. */
  predicate MonthToken(t: string) {
    || (|t| == 2 && t[0] == '1' && '0' <= t[1] <= '2')
    || (|t| == 2 && t[0] == '0' && NonZeroDigit(t[1]))
    || (|t| == 1 && NonZeroDigit(t[0]))
  }

  /** The number a day or month token denotes (a leading space is ignored). */
  function TokenValue(t: string): nat
    requires DayToken(t) || MonthToken(t)
  {
    if t[0] == ' ' then DigitValue(t[1]) else DigitsValue(t)
  }

  predicate Leap(y: nat) {
    y % 4 == 0 && (y % 100 != 0 || y % 400 == 0)
  }

  function DaysInMonth(y: nat, m: nat): nat
    requires 1 <= m <= 12
  {
    if m == 2 then (if Leap(y) then 29 else 28)
    else if m == 4 || m == 6 || m == 9 || m == 11 then 30
    else 31
  }

  /** What the date constructor accepts: years from 1 and days within the month. */
  predicate ValidDate(y: nat, m: nat, d: nat) {
    1 <= y <= 9999 && 1 <= m <= 12 && 1 <= d <= DaysInMonth(y, m)
  }

  /** "MM-DD". */
  function MonthDay(m: nat, d: nat): string {
    Fixed(m, 2) + ("-" + Fixed(d, 2))
  }

  /** "YYYY-MM-DD": the date part of str(datetime) and of the archive's sample timestamps. */
  function DatePart(y: nat, m: nat, d: nat): string {
    Fixed(y, 4) + ("-" + MonthDay(m, d))
  }

  const Midnight: string := " 00:00:00"

  /** str(datetime(y, m, d)): "YYYY-MM-DD 00:00:00". */
  function Iso(y: nat, m: nat, d: nat): string {
    DatePart(y, m, d) + Midnight
  }

  /** Chronological order of dates. */
  predicate Before(y1: nat, m1: nat, d1: nat, y2: nat, m2: nat, d2: nat) {
    y1 < y2 || (y1 == y2 && (m1 < m2 || (m1 == m2 && d1 < d2)))
  }

  /** Parses text as day "/" month "/" four-digit year with nothing after, and
      renders it; None where strptime or the calendar refuses it. */
  function ReformatDate(text: string): (r: Option<string>)
    ensures r.Some? ==> exists y, m, d :: ValidDate(y, m, d) && r.value == Iso(y, m, d)
  {
    var i := Find(text, '/');
    if i < 0 then None
    else
      var rest := text[i + 1..];
      var j := Find(rest, '/');
      if j < 0 then None
      else
        DateFields(text[..i], rest[..j], rest[j + 1..])
  }

  /** The day, month and year fields read as %d, %m and %Y, and the calendar check. */
  function DateFields(dt: string, mt: string, yt: string): (r: Option<string>)
    ensures r.Some? ==> exists y, m, d :: ValidDate(y, m, d) && r.value == Iso(y, m, d)
  {
    if DayToken(dt) && MonthToken(mt) && |yt| == 4 && AllDigits(yt) &&
       ValidDate(DigitsValue(yt), TokenValue(mt), TokenValue(dt))
    then Some(Iso(DigitsValue(yt), TokenValue(mt), TokenValue(dt)))
    else None
  }

  /** The text splits at its first two slashes into day, month and year. */
  lemma ReformatFields(dt: string, mt: string, yt: string)
    requires '/' !in dt && '/' !in mt
    ensures ReformatDate(dt + "/" + mt + "/" + yt) == DateFields(dt, mt, yt)
  {
    SplitAtSlash(mt, yt);
    assert dt + "/" + mt + "/" + yt == dt + "/" + (mt + "/" + yt);
    SplitAtSlash(dt, mt + "/" + yt);
  }

  lemma SplitAtSlash(a: string, b: string)
    requires '/' !in a
    ensures Find(a + "/" + b, '/') == |a|
    ensures (a + "/" + b)[..|a|] == a && (a + "/" + b)[|a| + 1..] == b
  {
    var s := a + "/" + b;
    forall k | 0 <= k < |a| ensures s[k] != '/' {
      assert s[k] == a[k];
    }
    FindAt(s, '/', |a|);
  }

  lemma DigitsHaveNoSlash(s: string)
    requires AllDigits(s)
    ensures '/' !in s
  {
  }

  lemma Pow10Widths()
    ensures Pow10(1) == 10 && Pow10(2) == 100 && Pow10(4) == 10000
  {
  }

  /** A two-digit day field is accepted exactly for 01 to 31. */
  lemma TwoDigitDay(d: nat)
    requires d < 100
    ensures DayToken(Fixed(d, 2)) <==> 1 <= d <= 31
    ensures DayToken(Fixed(d, 2)) ==> TokenValue(Fixed(d, 2)) == d
  {
    assert Fixed(d, 2) == [DigitChar(d / 10), DigitChar(d % 10)];
    Pow10Widths();
    FixedValue(d, 2);
  }

  /** A two-digit month field is accepted exactly for 01 to 12. */
  lemma TwoDigitMonth(m: nat)
    requires m < 100
    ensures MonthToken(Fixed(m, 2)) <==> 1 <= m <= 12
    ensures MonthToken(Fixed(m, 2)) ==> TokenValue(Fixed(m, 2)) == m
  {
    assert Fixed(m, 2) == [DigitChar(m / 10), DigitChar(m % 10)];
    Pow10Widths();
    FixedValue(m, 2);
  }

  /** "DD/MM/YYYY" is accepted exactly when it names a date of the calendar,
      and then becomes "YYYY-MM-DD 00:00:00". */
  lemma ReformatTwoDigits(y: nat, m: nat, d: nat)
    requires y < 10000 && m < 100 && d < 100
    ensures ReformatDate(Fixed(d, 2) + "/" + Fixed(m, 2) + "/" + Fixed(y, 4)) ==
            if ValidDate(y, m, d) then Some(Iso(y, m, d)) else None
  {
    DigitsHaveNoSlash(Fixed(d, 2));
    DigitsHaveNoSlash(Fixed(m, 2));
    ReformatFields(Fixed(d, 2), Fixed(m, 2), Fixed(y, 4));
    TwoDigitDay(d);
    TwoDigitMonth(m);
    Pow10Widths();
    FixedValue(y, 4);
  }

  /** The format also takes one-digit day and month fields: "1/2/2019" is 1 February 2019. */
  lemma ReformatOneDigit(y: nat, m: nat, d: nat)
    requires y < 10000 && 1 <= m <= 9 && 1 <= d <= 9
    ensures ReformatDate([DigitChar(d)] + "/" + [DigitChar(m)] + "/" + Fixed(y, 4)) ==
            if ValidDate(y, m, d) then Some(Iso(y, m, d)) else None
  {
    OneDigitField(d);
    OneDigitField(m);
    ReformatFields([DigitChar(d)], [DigitChar(m)], Fixed(y, 4));
    Pow10Widths();
    FixedValue(y, 4);
  }

  lemma OneDigitField(n: nat)
    requires 1 <= n <= 9
    ensures DayToken([DigitChar(n)]) && MonthToken([DigitChar(n)]) && TokenValue([DigitChar(n)]) == n
    ensures '/' !in [DigitChar(n)]
  {
    var t := [DigitChar(n)];
    assert t[..0] == [];
    assert DigitsValue(t) == DigitsValue(t[..0]) * 10 + DigitValue(t[0]);
  }

  /** The year-first order "YYYY/MM/DD" is refused. */
  lemma ReformatRejectsYearFirst(y: nat, m: nat, d: nat)
    ensures ReformatDate(Fixed(y, 4) + "/" + Fixed(m, 2) + "/" + Fixed(d, 2)) == None
  {
    DigitsHaveNoSlash(Fixed(y, 4));
    DigitsHaveNoSlash(Fixed(m, 2));
    ReformatFields(Fixed(y, 4), Fixed(m, 2), Fixed(d, 2));
  }

  /** Fixed-width fields followed by anything compare field first. */
  lemma FieldOrder(a1: nat, a2: nat, w: nat, x1: string, x2: string)
    requires a1 < Pow10(w) && a2 < Pow10(w)
    ensures LexLess(Fixed(a1, w) + x1, Fixed(a2, w) + x2) <==> a1 < a2 || (a1 == a2 && LexLess(x1, x2))
  {
    LexLessConcat(Fixed(a1, w), Fixed(a2, w), x1, x2);
    FixedLexLess(a1, a2, w);
    FixedValue(a1, w);
    FixedValue(a2, w);
  }

  lemma DashOrder(x1: string, x2: string)
    ensures LexLess("-" + x1, "-" + x2) <==> LexLess(x1, x2)
  {
    LexLessConcat("-", "-", x1, x2);
    LexLessIrreflexive("-");
  }

  lemma MonthDayOrder(m1: nat, d1: nat, m2: nat, d2: nat)
    requires m1 < 100 && d1 < 100 && m2 < 100 && d2 < 100
    ensures LexLess(MonthDay(m1, d1), MonthDay(m2, d2)) <==> m1 < m2 || (m1 == m2 && d1 < d2)
  {
    Pow10Widths();
    FieldOrder(m1, m2, 2, "-" + Fixed(d1, 2), "-" + Fixed(d2, 2));
    DashOrder(Fixed(d1, 2), Fixed(d2, 2));
    FixedLexLess(d1, d2, 2);
  }

  /** "YYYY-MM-DD" strings compare as the dates they name. */
  lemma DatePartOrder(y1: nat, m1: nat, d1: nat, y2: nat, m2: nat, d2: nat)
    requires ValidDate(y1, m1, d1) && ValidDate(y2, m2, d2)
    ensures LexLess(DatePart(y1, m1, d1), DatePart(y2, m2, d2)) <==> Before(y1, m1, d1, y2, m2, d2)
    ensures DatePart(y1, m1, d1) == DatePart(y2, m2, d2) <==> y1 == y2 && m1 == m2 && d1 == d2
  {
    Pow10Widths();
    FieldOrder(y1, y2, 4, "-" + MonthDay(m1, d1), "-" + MonthDay(m2, d2));
    DashOrder(MonthDay(m1, d1), MonthDay(m2, d2));
    MonthDayOrder(m1, d1, m2, d2);
    FieldOrder(y2, y1, 4, "-" + MonthDay(m2, d2), "-" + MonthDay(m1, d1));
    DashOrder(MonthDay(m2, d2), MonthDay(m1, d1));
    MonthDayOrder(m2, d2, m1, d1);
    LexLessIrreflexive(DatePart(y1, m1, d1));
  }

  /** Rendered dates compare as strings exactly as the dates compare. */
  lemma IsoOrder(y1: nat, m1: nat, d1: nat, y2: nat, m2: nat, d2: nat)
    requires ValidDate(y1, m1, d1) && ValidDate(y2, m2, d2)
    ensures LexLess(Iso(y1, m1, d1), Iso(y2, m2, d2)) <==> Before(y1, m1, d1, y2, m2, d2)
  {
    DatePartOrder(y1, m1, d1, y2, m2, d2);
    LexLessConcat(DatePart(y1, m1, d1), DatePart(y2, m2, d2), Midnight, Midnight);
    LexLessIrreflexive(Midnight);
  }

  /** Against archive timestamps "YYYY-MM-DDThh:mm:ss", the exclusive string
      bounds keep a sample exactly when its day is on or after the start day
      and before the end day: " " sorts before "T", so samples of the start
      day come after its bound and samples of the end day come after theirs. */
  lemma SampleInWindow(ys: nat, ms: nat, ds: nat, ye: nat, me: nat, de: nat,
                       y: nat, m: nat, d: nat, time: string)
    requires ValidDate(ys, ms, ds) && ValidDate(ye, me, de) && ValidDate(y, m, d)
    ensures var sample := DatePart(y, m, d) + ("T" + time);
            LexLess(Iso(ys, ms, ds), sample) && LexLess(sample, Iso(ye, me, de)) <==>
            !Before(y, m, d, ys, ms, ds) && Before(y, m, d, ye, me, de)
  {
    var sample := DatePart(y, m, d) + ("T" + time);
    LexLessConcat(DatePart(ys, ms, ds), DatePart(y, m, d), Midnight, "T" + time);
    LexLessConcat(DatePart(y, m, d), DatePart(ye, me, de), "T" + time, Midnight);
    assert LexLess(Midnight, "T" + time) && !LexLess("T" + time, Midnight);
    DatePartOrder(ys, ms, ds, y, m, d);
    DatePartOrder(y, m, d, ye, me, de);
  }

  // ---------------------------------------------------------------------------
  // The limit-of-detection rule (line 157)

  /** Halving for a numeric or missing cell (NaN / 2 is NaN). */
  function Half(c: Cell): Cell
    requires !c.Text?
  {
    if c.Num? then Num(c.x / 2.0) else Missing
  }

  predicate BelowDetection(r: Row) {
    Get(r, QualifierColumn) == Text("<")
  }

  function QualifyRow(r: Row): Row
    requires !Get(r, ResultColumn).Text?
  {
    r[QualifiedColumn := if BelowDetection(r) then Half(Get(r, ResultColumn)) else Get(r, ResultColumn)]
  }

  function AddColumn(columns: seq<string>, c: string): seq<string> {
    if c in columns then columns else columns + [c]
  }

  predicate HasTextResult(t: Table) {
    exists k :: 0 <= k < |t.rows| && Get(t.rows[k], ResultColumn).Text?
  }

  /** df["resultQualified"] = np.where(df[qualifier] == "<", df["result"] / 2, df["result"]). */
  function Qualify(t: Table): (r: Result<Table>)
    ensures r.Err? <==> QualifierColumn !in t.columns || ResultColumn !in t.columns || HasTextResult(t)
    ensures QualifierColumn !in t.columns ==> r == Err(KeyError(QualifierColumn))
    ensures QualifierColumn in t.columns && ResultColumn !in t.columns ==> r == Err(KeyError(ResultColumn))
  {
    if QualifierColumn !in t.columns then Err(KeyError(QualifierColumn))
    else if ResultColumn !in t.columns then Err(KeyError(ResultColumn))
    else if HasTextResult(t) then Err(TextDivision)
    else Ok(Table(AddColumn(t.columns, QualifiedColumn),
                  seq(|t.rows|, k requires 0 <= k < |t.rows| => QualifyRow(t.rows[k]))))
  }

  /** Row by row: the qualified result is half the result where the qualifier
      is "<" and the result itself otherwise; every other cell is unchanged,
      and the new column comes last unless it already existed. */
  lemma QualifiedValues(t: Table, k: nat)
    requires Qualify(t).Ok? && k < |t.rows|
    ensures var q := Qualify(t).value;
            var res := Get(t.rows[k], ResultColumn);
            |q.rows| == |t.rows| &&
            q.columns == (if QualifiedColumn in t.columns then t.columns else t.columns + [QualifiedColumn]) &&
            (Get(t.rows[k], QualifierColumn) == Text("<") ==>
               (res.Num? ==> Get(q.rows[k], QualifiedColumn) == Num(res.x / 2.0)) &&
               (res.Missing? ==> Get(q.rows[k], QualifiedColumn) == Missing)) &&
            (Get(t.rows[k], QualifierColumn) != Text("<") ==> Get(q.rows[k], QualifiedColumn) == res) &&
            forall c :: c != QualifiedColumn ==> Get(q.rows[k], c) == Get(t.rows[k], c)
  {
  }

  /** The rule reads only result and qualifier, so applying it again changes nothing. */
  lemma QualifyIdempotent(t: Table)
    requires Qualify(t).Ok?
    ensures Qualify(Qualify(t).value) == Qualify(t)
  {
    var q := Qualify(t).value;
    assert !HasTextResult(q) by {
      forall k | 0 <= k < |q.rows| ensures !Get(q.rows[k], ResultColumn).Text? {
        assert Get(q.rows[k], ResultColumn) == Get(t.rows[k], ResultColumn);
      }
    }
    forall k | 0 <= k < |q.rows| ensures QualifyRow(q.rows[k]) == q.rows[k] {
      assert Get(q.rows[k], ResultColumn) == Get(t.rows[k], ResultColumn);
      assert Get(q.rows[k], QualifierColumn) == Get(t.rows[k], QualifierColumn);
    }
    assert QualifiedColumn in q.columns;
    assert seq(|q.rows|, k requires 0 <= k < |q.rows| => QualifyRow(q.rows[k])) == q.rows;
  }

  // ---------------------------------------------------------------------------
  // The script

  /** The selected sampling points: field 5 of every cursor row (lines 92-108). */
  method CollectLocations(cursor: seq<seq<Cell>>) returns (r: Result<seq<Cell>>)
    ensures r.Err? <==> exists k :: 0 <= k < |cursor| && |cursor[k]| <= NotationField
    ensures r.Err? ==> exists k :: 0 <= k < |cursor| && r.error == CursorIndexError(k) &&
                                   |cursor[k]| <= NotationField &&
                                   forall j :: 0 <= j < k ==> |cursor[j]| > NotationField
    ensures r.Ok? ==> |r.value| == |cursor| && forall k :: 0 <= k < |cursor| ==> r.value[k] == cursor[k][NotationField]
  {
    var locs: seq<Cell> := [];
    for k := 0 to |cursor|
      invariant |locs| == k
      invariant forall j :: 0 <= j < k ==> |cursor[j]| > NotationField && locs[j] == cursor[j][NotationField]
    {
      var row := cursor[k];
      if |row| <= NotationField {
        return Err(CursorIndexError(k));
      }
      locs := locs + [row[NotationField]];
    }
    return Ok(locs);
  }

  /** What the script writes: the output path and the table. */
  datatype Export = Export(path: string, table: Table)

  /** Lines 118-161 with data_filter returning its result: read the area's
      archive file, filter it whole or (after a MemoryError) in chunks, apply
      the limit-of-detection rule and export. */
  function Extract(archive: map<string, Table>, wqArchive: string, eaArea: string, outDir: string,
                   start: string, end: string, locs: seq<Cell>, memoryError: bool): Result<Export>
  {
    var datafile := ArchivePath(wqArchive, AreaNotation(eaArea));
    if datafile !in archive then Err(FileNotFound(datafile))
    else
      var t := archive[datafile];
      var filtered := if memoryError then ChunkedFilter(t, locs, start, end, datafile) else DataFilter(t, locs, start, end);
      match filtered
      case Err(e) => Err(e)
      case Ok(f) =>
        match Qualify(f)
        case Err(e) => Err(e)
        case Ok(q) => Ok(Export(Join(outDir, SelectedDataName), q))
  }

  /** Lines 118-161 as written: data_filter returns None, so outside the
      MemoryError path line 157 subscripts None. */
  function ExtractAsWritten(archive: map<string, Table>, wqArchive: string, eaArea: string, outDir: string,
                            start: string, end: string, locs: seq<Cell>, memoryError: bool): Result<Export>
  {
    var datafile := ArchivePath(wqArchive, AreaNotation(eaArea));
    if datafile !in archive then Err(FileNotFound(datafile))
    else if memoryError then Extract(archive, wqArchive, eaArea, outDir, start, end, locs, true)
    else
      match DataFilter(archive[datafile], locs, start, end)
      case Err(e) => Err(e)
      case Ok(_) => Err(NoneSubscript)
  }

  /** As written, the ordinary path never exports anything. */
  lemma AsWrittenNeverExports(archive: map<string, Table>, wqArchive: string, eaArea: string, outDir: string,
                              start: string, end: string, locs: seq<Cell>)
    ensures ExtractAsWritten(archive, wqArchive, eaArea, outDir, start, end, locs, false).Err?
  {
  }

  /** Wherever the corrected script exports a table, the script as written
      raises instead. */
  lemma AsWrittenLosesExport(archive: map<string, Table>, wqArchive: string, eaArea: string, outDir: string,
                             start: string, end: string, locs: seq<Cell>)
    requires Extract(archive, wqArchive, eaArea, outDir, start, end, locs, false).Ok?
    ensures ExtractAsWritten(archive, wqArchive, eaArea, outDir, start, end, locs, false) == Err(NoneSubscript)
  {
  }

  /** And the corrected script does export: an archive file holding one
      sample at a selected point inside the window yields that sample. */
  lemma ExtractExportsSample(wqArchive: string, areaLabel: string, code: string, outDir: string,
                             start: string, end: string, locs: seq<Cell>, row: Row)
    requires '(' !in areaLabel && ')' !in areaLabel && ')' !in code
    requires AtLocation(row, locs) && InWindow(row, start, end) && !Get(row, ResultColumn).Text?
    ensures var t := Table([NotationColumn, DateColumn, ResultColumn, QualifierColumn], [row]);
            var archive := map[ArchivePath(wqArchive, code) := t];
            var e := Extract(archive, wqArchive, areaLabel + " (" + code + ")", outDir, start, end, locs, false);
            e.Ok? && e.value.path == Join(outDir, SelectedDataName) && |e.value.table.rows| == 1
  {
    AreaNotationOfLabel(areaLabel, code);
    assert Filter([row], AtLocations(locs)) == [row];
    assert Filter([row], Within(start, end)) == [row];
    var t := Table([NotationColumn, DateColumn, ResultColumn, QualifierColumn], [row]);
    assert !HasTextResult(t);
  }

  /** Whether or not memory runs out, the corrected script exports the same table. */
  lemma ExtractIgnoresMemoryError(archive: map<string, Table>, wqArchive: string, eaArea: string, outDir: string,
                                  start: string, end: string, locs: seq<Cell>)
    ensures Extract(archive, wqArchive, eaArea, outDir, start, end, locs, true) ==
            Extract(archive, wqArchive, eaArea, outDir, start, end, locs, false)
  {
    var datafile := ArchivePath(wqArchive, AreaNotation(eaArea));
    if datafile in archive {
      ChunkedAgrees(archive[datafile], locs, start, end, datafile);
    }
  }

  /** As written, only the MemoryError path exports, and it exports what the
      corrected script exports from the whole table. */
  lemma AsWrittenChunkedExports(archive: map<string, Table>, wqArchive: string, eaArea: string, outDir: string,
                                start: string, end: string, locs: seq<Cell>)
    ensures ExtractAsWritten(archive, wqArchive, eaArea, outDir, start, end, locs, true) ==
            Extract(archive, wqArchive, eaArea, outDir, start, end, locs, false)
  {
    ExtractIgnoresMemoryError(archive, wqArchive, eaArea, outDir, start, end, locs);
  }

  /** The script end to end as written (lines 73-161): both dates, the
      selected points, then the extraction, whose ordinary path raises
      TypeError at line 157. */
  method Run(startText: string, endText: string, cursor: seq<seq<Cell>>, archive: map<string, Table>,
             wqArchive: string, eaArea: string, outDir: string, memoryError: bool)
    returns (r: Result<Export>)
    ensures ReformatDate(startText).None? ==> r == Err(DateFormatError(startText))
    ensures ReformatDate(startText).Some? && ReformatDate(endText).None? ==> r == Err(DateFormatError(endText))
    ensures ReformatDate(startText).Some? && ReformatDate(endText).Some? ==>
              if exists k :: 0 <= k < |cursor| && |cursor[k]| <= NotationField then
                exists k :: 0 <= k < |cursor| && r == Err(CursorIndexError(k)) && |cursor[k]| <= NotationField &&
                            forall j :: 0 <= j < k ==> |cursor[j]| > NotationField
              else r == ExtractAsWritten(archive, wqArchive, eaArea, outDir, ReformatDate(startText).value,
                                ReformatDate(endText).value, SelectedPoints(cursor), memoryError)
  {
    var start := ReformatDate(startText);
    if start.None? {
      return Err(DateFormatError(startText));
    }
    var end := ReformatDate(endText);
    if end.None? {
      return Err(DateFormatError(endText));
    }
    var locs := CollectLocations(cursor);
    if locs.Err? {
      return Err(locs.error);
    }
    assert locs.value == SelectedPoints(cursor);
    r := ExtractAsWritten(archive, wqArchive, eaArea, outDir, start.value, end.value, locs.value, memoryError);
  }

  /** Field 5 of every cursor row, for a cursor whose rows all have one. */
  function SelectedPoints(cursor: seq<seq<Cell>>): seq<Cell>
    requires forall k :: 0 <= k < |cursor| ==> |cursor[k]| > NotationField
  {
    seq(|cursor|, k requires 0 <= k < |cursor| => cursor[k][NotationField])
  }
}

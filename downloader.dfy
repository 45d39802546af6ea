/** CSVDownloader.py: the incremental year x area download driver over an
    output directory, and the per-area concatenator that runs after it. */
module Downloader {
  import opened Tables
  import opened Strings

  /** The catalogue's aggregate "Regional" pseudo-area. */
  const Regional: string := "R"
  const FirstYear: nat := 2000
  const CsvExtension: string := ".csv"
  /** The header pandas gives the index column that to_csv wrote with an empty name. */
  const IndexColumn: string := "Unnamed: 0"
  const AreasDirName: string := "areas"

  // ---------------------------------------------------------------------------
  // HTTP status check and the area catalogue

  /** http_status_checker: only status 200 passes; every other status raises
      a connection error that carries the status. */
  function CheckStatus(status: int): (r: Result<()>)
    ensures r.Ok? <==> status == 200
    ensures r.Err? ==> r.error == ConnectionError(status)
  {
    if status != 200 then Err(ConnectionError(status)) else Ok(())
  }

  /** One row of the area catalogue: a label (missing when the cell is empty) and a notation. */
  datatype AreaEntry = AreaEntry(areaLabel: Option<string>, notation: string)

  function NotationColumn(catalogue: seq<AreaEntry>): seq<string> {
    seq(|catalogue|, i requires 0 <= i < |catalogue| => catalogue[i].notation)
  }

  /** The position of the first occurrence of x. */
  function FirstIndex(list: seq<string>, x: string): (i: nat)
    requires x in list
    ensures i < |list| && list[i] == x && x !in list[..i]
  {
    if list[0] == x then 0
    else
      var i := FirstIndex(list[1..], x);
      assert list[..i + 1] == [list[0]] + list[1..][..i];
      i + 1
  }

  /** list.remove(x): drops the first occurrence of x, and fails when there is none. */
  function RemoveFirst(list: seq<string>, x: string): (r: Result<seq<string>>)
    ensures r.Err? <==> x !in list
    ensures r.Err? ==> r.error == RemoveMissing(x)
    ensures r.Ok? ==> multiset(r.value) == multiset(list) - multiset{x}
    ensures r.Ok? ==> var i := FirstIndex(list, x); r.value == list[..i] + list[i + 1..]
  {
    if x !in list then Err(RemoveMissing(x))
    else
      var i := FirstIndex(list, x);
      assert list == list[..i] + [x] + list[i + 1..];
      Ok(list[..i] + list[i + 1..])
  }

  /** The areas the driver iterates: the notation column with "R" removed once. */
  function AreaList(catalogue: seq<AreaEntry>): Result<seq<string>> {
    RemoveFirst(NotationColumn(catalogue), Regional)
  }

  /** The aggregate area is excluded exactly when the catalogue lists it once;
      a second "R" row would survive the single removal. */
  lemma RegionalExcluded(catalogue: seq<AreaEntry>)
    requires AreaList(catalogue).Ok?
    ensures Regional in AreaList(catalogue).value <==> multiset(NotationColumn(catalogue))[Regional] >= 2
  {
    var r := AreaList(catalogue).value;
    assert Regional in r <==> multiset(r)[Regional] > 0;
  }

  predicate UsableLabel(l: Option<string>) {
    l.Some? && l.value != "nan"
  }

  predicate Labels(e: AreaEntry, area: string) {
    e.notation == area && UsableLabel(e.areaLabel)
  }

  /** The label printed for an area: the first non-NaN label of a row with that
      notation (CSVDownloader.py takes element [0] and raises if there is none). */
  function AreaLabel(catalogue: seq<AreaEntry>, area: string): (r: Option<string>)
    ensures r.None? <==> forall i :: 0 <= i < |catalogue| ==> !Labels(catalogue[i], area)
    ensures r.Some? ==> exists i :: 0 <= i < |catalogue| && Labels(catalogue[i], area) &&
                                   catalogue[i].areaLabel == r &&
                                   forall j :: 0 <= j < i ==> !Labels(catalogue[j], area)
  {
    if catalogue == [] then None
    else if Labels(catalogue[0], area) then catalogue[0].areaLabel
    else
      var r := AreaLabel(catalogue[1..], area);
      assert forall i :: 1 <= i < |catalogue| ==> catalogue[i] == catalogue[1..][i - 1];
      if r.Some? then
        var i :| 0 <= i < |catalogue[1..]| && Labels(catalogue[1..][i], area) &&
                 catalogue[1..][i].areaLabel == r &&
                 forall j :: 0 <= j < i ==> !Labels(catalogue[1..][j], area);
        assert Labels(catalogue[i + 1], area);
        r
      else r
  }

  // ---------------------------------------------------------------------------
  // Names and addresses

  /** The slice file of one (year, area) pair: str(year) + "_" + area + ".csv". */
  function SliceFileName(year: nat, area: string): string {
    NatToString(year) + "_" + area + CsvExtension
  }

  function SlicePath(outDir: string, year: nat, area: string): string {
    Join(outDir, SliceFileName(year, area))
  }

  /** The request target of one (year, area) pair. */
  function Url(root: string, year: nat, area: string): string {
    root + "/batch/measurement?area=" + area + "&year=" + NatToString(year)
  }

  /** Two digit strings that are each followed by the same kind of non-digit
      at the start of one string are the same string. */
  lemma DigitPrefix(d1: string, d2: string, r1: string, r2: string)
    requires AllDigits(d1) && AllDigits(d2)
    requires r1 != [] && r2 != [] && !IsDigit(r1[0]) && !IsDigit(r2[0])
    requires d1 + r1 == d2 + r2
    ensures d1 == d2 && r1 == r2
  {
    var s := d1 + r1;
    assert d1 == s[..|d1|] && d2 == s[..|d2|];
    assert r1 == s[|d1|..] && r2 == s[|d2|..];
  }

  /** Digit strings that end two equal strings, each just after the same
      non-digit, are the same. */
  lemma DigitSuffix(r1: string, r2: string, d1: string, d2: string)
    requires AllDigits(d1) && AllDigits(d2)
    requires r1 != [] && r2 != [] && !IsDigit(r1[|r1| - 1]) && !IsDigit(r2[|r2| - 1])
    requires r1 + d1 == r2 + d2
    ensures d1 == d2 && r1 == r2
  {
    var s := r1 + d1;
    assert d1 == s[|r1|..] && d2 == s[|r2|..];
    assert r1 == s[..|r1|] && r2 == s[..|r2|];
  }

  /** Distinct (year, area) pairs get distinct slice files. */
  lemma SliceFileNameInjective(y1: nat, a1: string, y2: nat, a2: string)
    requires SliceFileName(y1, a1) == SliceFileName(y2, a2)
    ensures y1 == y2 && a1 == a2
  {
    var r1, r2 := "_" + a1 + CsvExtension, "_" + a2 + CsvExtension;
    assert SliceFileName(y1, a1) == NatToString(y1) + r1;
    assert SliceFileName(y2, a2) == NatToString(y2) + r2;
    DigitPrefix(NatToString(y1), NatToString(y2), r1, r2);
    NatToStringInjective(y1, y2);
    assert a1 == r1[1..|r1| - 4] && a2 == r2[1..|r2| - 4];
  }

  /** Distinct (year, area) pairs request distinct URLs, whatever the area strings hold. */
  lemma UrlInjective(root: string, y1: nat, a1: string, y2: nat, a2: string)
    requires Url(root, y1, a1) == Url(root, y2, a2)
    ensures y1 == y2 && a1 == a2
  {
    var p := root + "/batch/measurement?area=";
    var r1, r2 := p + a1 + "&year=", p + a2 + "&year=";
    assert Url(root, y1, a1) == r1 + NatToString(y1);
    assert Url(root, y2, a2) == r2 + NatToString(y2);
    DigitSuffix(r1, r2, NatToString(y1), NatToString(y2));
    NatToStringInjective(y1, y2);
    assert a1 == r1[|p|..|r1| - 6] && a2 == r2[|p|..|r2| - 6];
  }

  // ---------------------------------------------------------------------------
  // The year x area grid, in the order the two nested loops visit it

  datatype Pair = Pair(year: nat, area: string)

  function YearPairs(year: nat, areas: seq<string>): seq<Pair> {
    seq(|areas|, i requires 0 <= i < |areas| => Pair(year, areas[i]))
  }

  /** range(from, to) x areas, year by year, and area by area within a year. */
  function Grid(from: nat, to: int, areas: seq<string>): seq<Pair>
    decreases to - from
  {
    if to <= from then [] else Grid(from, to - 1, areas) + YearPairs(to - 1, areas)
  }

  lemma {:induction false} GridLength(from: nat, to: int, areas: seq<string>)
    requires from <= to
    ensures |Grid(from, to, areas)| == (to - from) * |areas|
  {
    if to > from {
      GridLength(from, to - 1, areas);
      assert (to - from) * |areas| == (to - 1 - from) * |areas| + |areas|;
    }
  }

  /** Visiting order: the pair for year y and the j-th area stands at position
      (y - from) * |areas| + j, so years ascend and areas keep list order. */
  lemma {:induction false} GridAt(from: nat, to: int, areas: seq<string>, y: int, j: int)
    requires from <= y < to && 0 <= j < |areas|
    ensures (y - from) * |areas| + j < |Grid(from, to, areas)|
    ensures Grid(from, to, areas)[(y - from) * |areas| + j] == Pair(y, areas[j])
  {
    var n := |areas|;
    GridLength(from, to - 1, areas);
    GridLength(from, to, areas);
    if y < to - 1 {
      GridAt(from, to - 1, areas, y, j);
    } else {
      assert (y - from) * n == |Grid(from, to - 1, areas)|;
    }
  }

  lemma {:induction false} GridYears(from: nat, to: int, areas: seq<string>)
    ensures forall p :: p in Grid(from, to, areas) ==> from <= p.year < to && p.area in areas
  {
    if to > from {
      GridYears(from, to - 1, areas);
    }
  }

  predicate Distinct<T(==)>(s: seq<T>) {
    forall i, j :: 0 <= i < j < |s| ==> s[i] != s[j]
  }

  /** With no area listed twice, no pair is visited twice. */
  lemma {:induction false} GridDistinct(from: nat, to: int, areas: seq<string>)
    requires Distinct(areas)
    ensures Distinct(Grid(from, to, areas))
  {
    if to > from {
      var g, y := Grid(from, to - 1, areas), YearPairs(to - 1, areas);
      GridDistinct(from, to - 1, areas);
      GridYears(from, to - 1, areas);
      var s := g + y;
      forall i, j | 0 <= i < j < |s| ensures s[i] != s[j] {
        if j >= |g| && i < |g| {
          assert s[i] in g;
          assert s[j] == y[j - |g|];
        } else if i >= |g| {
          assert s[i] == y[i - |g|] && s[j] == y[j - |g|];
        }
      }
    }
  }

  function SliceNames(pairs: seq<Pair>): seq<string> {
    seq(|pairs|, i requires 0 <= i < |pairs| => SliceFileName(pairs[i].year, pairs[i].area))
  }

  /** With no area listed twice, the slice files of the grid are pairwise distinct. */
  lemma GridSliceNamesDistinct(from: nat, to: int, areas: seq<string>)
    requires Distinct(areas)
    ensures Distinct(SliceNames(Grid(from, to, areas)))
  {
    var g := Grid(from, to, areas);
    GridDistinct(from, to, areas);
    forall i, j | 0 <= i < j < |g| ensures SliceNames(g)[i] != SliceNames(g)[j] {
      if SliceNames(g)[i] == SliceNames(g)[j] {
        SliceFileNameInjective(g[i].year, g[i].area, g[j].year, g[j].area);
      }
    }
  }

  // ---------------------------------------------------------------------------
  // The output directory as data, and the download loop as a fold over the grid

  /** A directory: its entry names in listing order, and the table each file holds. */
  datatype Dir = Dir(names: seq<string>, files: map<string, Table>)

  ghost predicate Listed(d: Dir) {
    Distinct(d.names) && forall n :: n in d.names <==> n in d.files
  }

  /** Writes (or overwrites) one file; a new file is listed after the existing ones. */
  function WriteFile(d: Dir, name: string, t: Table): (r: Dir)
    ensures Listed(d) ==> Listed(r)
  {
    Dir(if name in d.files then d.names else d.names + [name], d.files[name := t])
  }

  /** What a slice file holds once df.to_csv(file) has written it with its
      index and pandas has read it back: a leading "Unnamed: 0" column
      numbering the rows. */
  function WithIndex(t: Table): (r: Table)
    ensures r.columns == [IndexColumn] + t.columns && |r.rows| == |t.rows|
    ensures forall k :: 0 <= k < |t.rows| ==> Get(r.rows[k], IndexColumn) == Num(k as real)
    ensures forall k, c :: 0 <= k < |t.rows| && c != IndexColumn ==> Get(r.rows[k], c) == Get(t.rows[k], c)
  {
    Table([IndexColumn] + t.columns,
          seq(|t.rows|, k requires 0 <= k < |t.rows| => t.rows[k][IndexColumn := Num(k as real)]))
  }

  /** What one GET returns: the status, and the body as a table (None when
      pandas cannot parse it). */
  datatype Response = Response(status: int, body: Option<Table>)

  /** The archive: its base URL, and the answer it gives to each request target. */
  datatype Archive = Archive(root: string, fetch: string -> Response)

  datatype RunState = RunState(dir: Dir, requested: seq<string>, failure: Option<Error>)

  /** One iteration of the inner loop (lines 144-188); after a failure nothing more happens. */
  function Step(st: RunState, src: Archive, catalogue: seq<AreaEntry>, p: Pair): RunState {
    if st.failure.Some? then st
    else if AreaLabel(catalogue, p.area).None? then st.(failure := Some(LabelNotFound(p.area)))
    else
      var name := SliceFileName(p.year, p.area);
      if name in st.dir.files then st
      else
        var url := Url(src.root, p.year, p.area);
        var response := src.fetch(url);
        var asked := st.(requested := st.requested + [url]);
        match CheckStatus(response.status)
        case Err(e) => asked.(failure := Some(e))
        case Ok(_) =>
          match response.body
          case None => asked.(failure := Some(ParseError))
          case Some(t) => asked.(dir := WriteFile(st.dir, name, WithIndex(t)))
  }

  /** The pairs processed in order, starting from st. */
  function Process(st: RunState, src: Archive, catalogue: seq<AreaEntry>, pairs: seq<Pair>): RunState {
    if pairs == [] then st
    else Step(Process(st, src, catalogue, pairs[..|pairs| - 1]), src, catalogue, pairs[|pairs| - 1])
  }

  /** Skip rule: a pair whose file already exists makes no request and changes nothing. */
  lemma StepSkipsExisting(st: RunState, src: Archive, catalogue: seq<AreaEntry>, p: Pair)
    requires st.failure.None? && AreaLabel(catalogue, p.area).Some?
    requires SliceFileName(p.year, p.area) in st.dir.files
    ensures Step(st, src, catalogue, p) == st
  {
  }

  /** A missing file is requested once; it is written only when the status is
      200 and the body parses, and then it holds the body with its index column. */
  lemma StepFetchesMissing(st: RunState, src: Archive, catalogue: seq<AreaEntry>, p: Pair)
    requires st.failure.None? && AreaLabel(catalogue, p.area).Some?
    requires SliceFileName(p.year, p.area) !in st.dir.files
    ensures var r := Step(st, src, catalogue, p);
            var response := src.fetch(Url(src.root, p.year, p.area));
            && r.requested == st.requested + [Url(src.root, p.year, p.area)]
            && (response.status != 200 ==> r.failure == Some(ConnectionError(response.status)) && r.dir == st.dir)
            && (response.status == 200 && response.body.None? ==> r.failure == Some(ParseError) && r.dir == st.dir)
            && (response.status == 200 && response.body.Some? ==>
                  r.failure.None? &&
                  r.dir.files == st.dir.files[SliceFileName(p.year, p.area) := WithIndex(response.body.value)])
  {
  }

  lemma {:induction false} ProcessFailureSticks(st: RunState, src: Archive, catalogue: seq<AreaEntry>, pairs: seq<Pair>)
    requires st.failure.Some?
    ensures Process(st, src, catalogue, pairs) == st
  {
    if pairs != [] {
      ProcessFailureSticks(st, src, catalogue, pairs[..|pairs| - 1]);
    }
  }

  /** Running a + b is running a, then b from where a stopped. */
  lemma {:induction false} ProcessSplit(st: RunState, src: Archive, catalogue: seq<AreaEntry>, a: seq<Pair>, b: seq<Pair>)
    ensures Process(st, src, catalogue, a + b) == Process(Process(st, src, catalogue, a), src, catalogue, b)
  {
    if b == [] {
      assert a + b == a;
    } else {
      ProcessSplit(st, src, catalogue, a, b[..|b| - 1]);
      assert (a + b)[..|a + b| - 1] == a + b[..|b| - 1];
    }
  }

  /** Fail-fast: once a prefix of the grid has failed, the pairs after it are never processed. */
  lemma FailFast(st: RunState, src: Archive, catalogue: seq<AreaEntry>, prefix: seq<Pair>, pairs: seq<Pair>)
    requires prefix <= pairs
    requires Process(st, src, catalogue, prefix).failure.Some?
    ensures Process(st, src, catalogue, pairs) == Process(st, src, catalogue, prefix)
  {
    assert pairs == prefix + pairs[|prefix|..];
    ProcessSplit(st, src, catalogue, prefix, pairs[|prefix|..]);
    ProcessFailureSticks(Process(st, src, catalogue, prefix), src, catalogue, pairs[|prefix|..]);
  }

  /** Files that existed before the run are never touched, whether it completes or aborts. */
  lemma {:induction false} ProcessKeepsExisting(st: RunState, src: Archive, catalogue: seq<AreaEntry>, pairs: seq<Pair>)
    ensures forall n :: n in st.dir.files ==>
              n in Process(st, src, catalogue, pairs).dir.files &&
              Process(st, src, catalogue, pairs).dir.files[n] == st.dir.files[n]
  {
    if pairs != [] {
      ProcessKeepsExisting(st, src, catalogue, pairs[..|pairs| - 1]);
    }
  }

  /** The request for p answered 200 with a body that parsed, and t is that body with its index column. */
  predicate FetchedAs(src: Archive, p: Pair, t: Table) {
    var response := src.fetch(Url(src.root, p.year, p.area));
    response.status == 200 && response.body.Some? && t == WithIndex(response.body.value)
  }

  /** A step adds at most its own pair's file, and only from a 200 response with a parseable body. */
  lemma StepWrites(st: RunState, src: Archive, catalogue: seq<AreaEntry>, p: Pair)
    ensures var r := Step(st, src, catalogue, p);
            forall n :: n in r.dir.files && n !in st.dir.files ==>
              n == SliceFileName(p.year, p.area) && FetchedAs(src, p, r.dir.files[n])
    ensures forall n :: n in st.dir.files ==>
              n in Step(st, src, catalogue, p).dir.files && Step(st, src, catalogue, p).dir.files[n] == st.dir.files[n]
  {
  }

  /** n is the slice file of one of the pairs, and t what that pair's request returned. */
  ghost predicate SliceOf(src: Archive, pairs: seq<Pair>, n: string, t: Table) {
    exists p :: p in pairs && n == SliceFileName(p.year, p.area) && FetchedAs(src, p, t)
  }

  lemma SliceOfExtend(src: Archive, pairs: seq<Pair>, p: Pair, n: string, t: Table)
    requires SliceOf(src, pairs, n, t)
    ensures SliceOf(src, pairs + [p], n, t)
  {
    var q :| q in pairs && n == SliceFileName(q.year, q.area) && FetchedAs(src, q, t);
    assert q in pairs + [p];
  }

  /** Every file the run adds is the slice file of a visited pair whose request
      returned 200 with a parseable body, and it holds that body with its index. */
  lemma {:induction false} ProcessWritesOnlyFetched(st: RunState, src: Archive, catalogue: seq<AreaEntry>, pairs: seq<Pair>)
    ensures var r := Process(st, src, catalogue, pairs);
            forall n :: n in r.dir.files && n !in st.dir.files ==> SliceOf(src, pairs, n, r.dir.files[n])
  {
    if pairs != [] {
      var init := pairs[..|pairs| - 1];
      var last := pairs[|pairs| - 1];
      assert pairs == init + [last];
      ProcessWritesOnlyFetched(st, src, catalogue, init);
      StepWritesOnlyFetched(st.dir.files, Process(st, src, catalogue, init), src, catalogue, init, last);
    }
  }

  /** One more step keeps every added file the slice file of a visited, fetched pair. */
  lemma StepWritesOnlyFetched(before: map<string, Table>, mid: RunState, src: Archive, catalogue: seq<AreaEntry>,
                              done: seq<Pair>, p: Pair)
    requires forall n :: n in mid.dir.files && n !in before ==> SliceOf(src, done, n, mid.dir.files[n])
    ensures var r := Step(mid, src, catalogue, p);
            forall n :: n in r.dir.files && n !in before ==> SliceOf(src, done + [p], n, r.dir.files[n])
  {
    var r := Step(mid, src, catalogue, p);
    StepWrites(mid, src, catalogue, p);
    forall n | n in r.dir.files && n !in before
      ensures SliceOf(src, done + [p], n, r.dir.files[n])
    {
      if n in mid.dir.files {
        SliceOfExtend(src, done, p, n, mid.dir.files[n]);
      } else {
        assert p in done + [p];
      }
    }
  }

  /** A run that did not fail leaves every visited pair's file present, and
      exactly those files besides the ones that were there before. */
  lemma {:induction false} ProcessCompletes(st: RunState, src: Archive, catalogue: seq<AreaEntry>, pairs: seq<Pair>)
    requires st.failure.None?
    requires Process(st, src, catalogue, pairs).failure.None?
    ensures forall n :: n in Process(st, src, catalogue, pairs).dir.files <==> n in st.dir.files || n in SliceNames(pairs)
  {
    if pairs != [] {
      var init := pairs[..|pairs| - 1];
      var last := pairs[|pairs| - 1];
      var mid := Process(st, src, catalogue, init);
      StepKeys(mid, src, catalogue, last);
      ProcessCompletes(st, src, catalogue, init);
      assert SliceNames(pairs) == SliceNames(init) + [SliceFileName(last.year, last.area)];
    }
  }

  /** A step that leaves no failure behind leaves its pair's file present and adds no other. */
  lemma StepKeys(st: RunState, src: Archive, catalogue: seq<AreaEntry>, p: Pair)
    requires Step(st, src, catalogue, p).failure.None?
    ensures st.failure.None?
    ensures forall n :: n in Step(st, src, catalogue, p).dir.files <==> n in st.dir.files || n == SliceFileName(p.year, p.area)
  {
  }

  function Urls(src: Archive, pairs: seq<Pair>): seq<string> {
    seq(|pairs|, i requires 0 <= i < |pairs| => Url(src.root, pairs[i].year, pairs[i].area))
  }

  /** The pairs whose slice file is not among files, in visiting order. */
  function MissingPairs(pairs: seq<Pair>, files: map<string, Table>): seq<Pair> {
    if pairs == [] then []
    else
      var last := pairs[|pairs| - 1];
      MissingPairs(pairs[..|pairs| - 1], files) +
        (if SliceFileName(last.year, last.area) in files then [] else [last])
  }

  /** A step that leaves no failure behind requests its pair's URL exactly
      when the pair's file is missing. */
  lemma StepRequests(st: RunState, src: Archive, catalogue: seq<AreaEntry>, p: Pair)
    requires Step(st, src, catalogue, p).failure.None?
    ensures st.failure.None?
    ensures Step(st, src, catalogue, p).requested ==
            st.requested + (if SliceFileName(p.year, p.area) in st.dir.files then [] else [Url(src.root, p.year, p.area)])
  {
  }

  /** With distinct slice files, the last pair's file is not among the earlier ones. */
  lemma DistinctLast(pairs: seq<Pair>)
    requires pairs != [] && Distinct(SliceNames(pairs))
    ensures var init := pairs[..|pairs| - 1];
            var last := pairs[|pairs| - 1];
            Distinct(SliceNames(init)) && SliceFileName(last.year, last.area) !in SliceNames(init)
  {
    var names := SliceNames(pairs);
    assert SliceNames(pairs[..|pairs| - 1]) == names[..|pairs| - 1];
    assert names[|pairs| - 1] == SliceFileName(pairs[|pairs| - 1].year, pairs[|pairs| - 1].area);
    assert forall i :: 0 <= i < |pairs| - 1 ==> names[i] != names[|pairs| - 1];
  }

  /** When no two visited pairs share a slice file and the run completes, the
      requests made are exactly those of the pairs whose file was missing at
      the start, in visiting order; so their number is the number of missing pairs. */
  lemma {:induction false} ProcessRequestsMissing(st: RunState, src: Archive, catalogue: seq<AreaEntry>, pairs: seq<Pair>)
    requires st.failure.None?
    requires Distinct(SliceNames(pairs))
    requires Process(st, src, catalogue, pairs).failure.None?
    ensures Process(st, src, catalogue, pairs).requested ==
            st.requested + Urls(src, MissingPairs(pairs, st.dir.files))
  {
    if pairs == [] {
      assert Urls(src, []) == [];
    } else {
      var init := pairs[..|pairs| - 1];
      var last := pairs[|pairs| - 1];
      var mid := Process(st, src, catalogue, init);
      assert Process(st, src, catalogue, pairs) == Step(mid, src, catalogue, last);
      StepRequests(mid, src, catalogue, last);
      DistinctLast(pairs);
      ProcessRequestsMissing(st, src, catalogue, init);
      ProcessCompletes(st, src, catalogue, init);
      assert SliceFileName(last.year, last.area) in mid.dir.files <==> SliceFileName(last.year, last.area) in st.dir.files;
      MissingSnoc(src, pairs, st.dir.files);
    }
  }

  /** The requests of the missing pairs, one pair more. */
  lemma MissingSnoc(src: Archive, pairs: seq<Pair>, files: map<string, Table>)
    requires pairs != []
    ensures var init, last := pairs[..|pairs| - 1], pairs[|pairs| - 1];
            Urls(src, MissingPairs(pairs, files)) ==
            Urls(src, MissingPairs(init, files)) +
            (if SliceFileName(last.year, last.area) in files then [] else [Url(src.root, last.year, last.area)])
  {
    var init, last := pairs[..|pairs| - 1], pairs[|pairs| - 1];
    var f := MissingPairs(init, files);
    var g := if SliceFileName(last.year, last.area) in files then [] else [last];
    assert MissingPairs(pairs, files) == f + g;
    assert Urls(src, f + g) == Urls(src, f) + Urls(src, g);
  }

  // ---------------------------------------------------------------------------
  // Concatenation of the selected files (pd.concat(..., sort=True))

  /** A row widened to the union columns; a column the file lacks becomes NaN. */
  function Pad(r: Row, columns: seq<string>): Row {
    map c | c in columns :: Get(r, c)
  }

  function AllColumns(tables: seq<Table>): seq<string> {
    if tables == [] then [] else tables[0].columns + AllColumns(tables[1..])
  }

  function PadAll(rows: seq<Row>, columns: seq<string>): seq<Row> {
    seq(|rows|, k requires 0 <= k < |rows| => Pad(rows[k], columns))
  }

  function StackRows(tables: seq<Table>, columns: seq<string>): seq<Row> {
    if tables == [] then [] else PadAll(tables[0].rows, columns) + StackRows(tables[1..], columns)
  }

  /** The number of rows in tables[..i]. */
  function Offset(tables: seq<Table>, i: nat): nat
    requires i <= |tables|
  {
    if i == 0 then 0 else |tables[0].rows| + Offset(tables[1..], i - 1)
  }

  function Concat(tables: seq<Table>, area: string): (r: Result<Table>)
    ensures r.Err? <==> tables == []
    ensures r.Err? ==> r.error == NothingToConcatenate(area)
  {
    if tables == [] then Err(NothingToConcatenate(area))
    else
      var columns := SortedUnion(AllColumns(tables));
      Ok(Table(columns, StackRows(tables, columns)))
  }

  lemma {:induction false} AllColumnsMembers(tables: seq<Table>)
    ensures forall c :: c in AllColumns(tables) <==> exists i :: 0 <= i < |tables| && c in tables[i].columns
  {
    if tables != [] {
      AllColumnsMembers(tables[1..]);
      forall c ensures c in AllColumns(tables) <==> exists i :: 0 <= i < |tables| && c in tables[i].columns {
        if c in AllColumns(tables[1..]) {
          var i :| 0 <= i < |tables[1..]| && c in tables[1..][i].columns;
          assert c in tables[i + 1].columns;
        }
        if exists i :: 0 <= i < |tables| && c in tables[i].columns {
          var i :| 0 <= i < |tables| && c in tables[i].columns;
          if i > 0 {
            assert c in tables[1..][i - 1].columns;
          }
        }
      }
    }
  }

  /** The combined columns are the union of the files' columns, matched by
      name, each once, in ascending order. */
  lemma ConcatColumns(tables: seq<Table>, area: string)
    requires tables != []
    ensures var t := Concat(tables, area).value;
            StrictlySorted(t.columns) &&
            forall c :: c in t.columns <==> exists i :: 0 <= i < |tables| && c in tables[i].columns
  {
    AllColumnsMembers(tables);
  }

  /** The row count of the combined table is the sum of the inputs' row counts. */
  lemma {:induction false} StackLength(tables: seq<Table>, columns: seq<string>)
    ensures |StackRows(tables, columns)| == Offset(tables, |tables|)
  {
    if tables != [] {
      StackLength(tables[1..], columns);
    }
  }

  /** Row k of file i lands at position Offset(i) + k, widened to the union
      columns: files keep their order and each file keeps its row order. */
  lemma {:induction false} StackAt(tables: seq<Table>, columns: seq<string>, i: nat, k: nat)
    requires i < |tables| && k < |tables[i].rows|
    ensures Offset(tables, i) + k < |StackRows(tables, columns)|
    ensures StackRows(tables, columns)[Offset(tables, i) + k] == Pad(tables[i].rows[k], columns)
  {
    StackLength(tables, columns);
    if i > 0 {
      StackAt(tables[1..], columns, i - 1, k);
      StackLength(tables[1..], columns);
    }
  }

  /** A combined row agrees with its source row on every union column. */
  lemma ConcatRowAt(tables: seq<Table>, area: string, i: nat, k: nat)
    requires i < |tables| && k < |tables[i].rows|
    ensures var t := Concat(tables, area).value;
            |t.rows| == Offset(tables, |tables|) &&
            Offset(tables, i) + k < |t.rows| &&
            t.rows[Offset(tables, i) + k].Keys == (set c | c in t.columns) &&
            forall c :: c in t.columns ==> Get(t.rows[Offset(tables, i) + k], c) == Get(tables[i].rows[k], c)
  {
    var columns := SortedUnion(AllColumns(tables));
    StackLength(tables, columns);
    StackAt(tables, columns, i, k);
  }

  /** The index column that to_csv added to every slice file ends up among the
      combined columns, and each combined row carries its row number within its file. */
  lemma SliceIndexFlows(tables: seq<Table>, area: string, i: nat, k: nat)
    requires i < |tables| && k < |tables[i].rows|
    requires exists t :: tables[i] == WithIndex(t)
    ensures var c := Concat(tables, area).value;
            IndexColumn in c.columns && Offset(tables, i) + k < |c.rows| && Get(c.rows[Offset(tables, i) + k], IndexColumn) == Num(k as real)
  {
    var t :| tables[i] == WithIndex(t);
    ConcatColumns(tables, area);
    assert IndexColumn in tables[i].columns;
    ConcatRowAt(tables, area, i, k);
  }

  // ---------------------------------------------------------------------------
  // The per-area concatenation loop (lines 238-265)

  /** The combined file name line 261 builds: "\a" in the literal is U+0007, and
      since no separator follows "areas", the file is an entry of the output
      directory named "areas" U+0007 "lldata_" + area + ".csv". */
  function CombinedEntryAsWritten(area: string): string {
    AreasDirName + "\U{7}lldata_" + area + CsvExtension
  }

  function CombinedPathAsWritten(outDir: string, area: string): string {
    Join(outDir, AreasDirName) + "\U{7}lldata_" + area + CsvExtension
  }

  /** The path the code writes is an entry of the output directory itself, not of "areas". */
  lemma CombinedPathIsOutputEntry(outDir: string, area: string)
    ensures CombinedPathAsWritten(outDir, area) == Join(outDir, CombinedEntryAsWritten(area))
  {
  }

  /** The combined file name intended: "alldata_" + area + ".csv". */
  function CombinedName(area: string): string {
    "alldata_" + area + CsvExtension
  }

  /** The combined file the comments and the extraction script expect: that name inside "areas". */
  function CombinedPath(outDir: string, area: string): string {
    Join(Join(outDir, AreasDirName), CombinedName(area))
  }

  lemma CombinedNameInjective(a1: string, a2: string)
    requires CombinedName(a1) == CombinedName(a2)
    ensures a1 == a2
  {
    var n := CombinedName(a1);
    assert a1 == n[8..|n| - 4];
  }

  /** glob('*' + area + '.csv') over the directory listing. */
  function Selected(d: Dir, area: string): seq<string> {
    Glob(d.names, area + CsvExtension)
  }

  /** The tables the listed names hold (a listed name always has a file in a
      well-formed directory; one without would read as an empty table). */
  function Contents(d: Dir, names: seq<string>): seq<Table> {
    seq(|names|, i requires 0 <= i < |names| => if names[i] in d.files then d.files[names[i]] else Table([], []))
  }

  /** The concatenation of the files selected for an area. */
  function CombineArea(d: Dir, area: string): Result<Table> {
    Concat(Contents(d, Selected(d, area)), area)
  }

  /** The output directory (the working directory the loop globs and writes
      in), the files of "areas", and the error that ended the loop, if any. */
  datatype CombineState = CombineState(dir: Dir, areaFiles: map<string, Table>, failure: Option<Error>)

  /** Every slice file of an area is selected for it. */
  lemma SliceSelected(year: nat, area: string)
    ensures GlobMatch(SliceFileName(year, area), area + CsvExtension)
  {
    var name := SliceFileName(year, area);
    assert name == NatToString(year) + "_" + (area + CsvExtension);
    assert EndsWith(name, area + CsvExtension);
    FoldEndsWith(name, area + CsvExtension);
  }

  /** The match is a plain suffix test: the slice file of area "NA" is also
      selected for area "A". */
  lemma SuffixOverMatch()
    ensures GlobMatch(SliceFileName(2000, "NA"), "A" + CsvExtension)
  {
    assert SliceFileName(2000, "NA") == NatToString(2000) + "_N" + ("A" + CsvExtension);
    assert EndsWith(SliceFileName(2000, "NA"), "A" + CsvExtension);
    FoldEndsWith(SliceFileName(2000, "NA"), "A" + CsvExtension);
  }

  /** The platform the scripts run on (Windows, whose separator is the
      backslash) refuses to create a file whose name holds a character from
      U+0001 to U+001F; opening one for writing raises OSError. */
  predicate ControlFree(name: string) {
    forall k :: 0 <= k < |name| ==> !('\U{1}' <= name[k] <= '\U{1f}')
  }

  /** The name line 261 builds holds U+0007, so the platform refuses it. */
  lemma AsWrittenNameRefused(area: string)
    ensures !ControlFree(CombinedEntryAsWritten(area))
  {
    assert CombinedEntryAsWritten(area)[5] == '\U{7}';
  }

  /** One iteration of the loop as written (lines 240-265): look up the label,
      glob and concatenate, then to_csv under line 261's name, an entry of the
      output directory, which the platform creates only if it allows the name.
      After a failure nothing more happens. */
  function CombineStep(st: CombineState, catalogue: seq<AreaEntry>, area: string): CombineState {
    if st.failure.Some? then st
    else if AreaLabel(catalogue, area).None? then st.(failure := Some(LabelNotFound(area)))
    else
      match CombineArea(st.dir, area)
      case Err(e) => st.(failure := Some(e))
      case Ok(t) =>
        var entry := CombinedEntryAsWritten(area);
        if ControlFree(entry) then st.(dir := WriteFile(st.dir, entry, t))
        else st.(failure := Some(InvalidName(entry)))
  }

  function CombineProcess(st: CombineState, catalogue: seq<AreaEntry>, areas: seq<string>): CombineState {
    if areas == [] then st
    else CombineStep(CombineProcess(st, catalogue, areas[..|areas| - 1]), catalogue, areas[|areas| - 1])
  }

  /** The error the first area raises as written: no label, nothing to
      concatenate, or else the refused file name. */
  function CombineError(d: Dir, catalogue: seq<AreaEntry>, area: string): Error {
    if AreaLabel(catalogue, area).None? then LabelNotFound(area)
    else if Selected(d, area) == [] then NothingToConcatenate(area)
    else InvalidName(CombinedEntryAsWritten(area))
  }

  /** As written, every iteration that starts without error raises, and
      writes nothing: the combine stage never produces a file. */
  lemma CombineStepFails(st: CombineState, catalogue: seq<AreaEntry>, area: string)
    requires st.failure.None?
    ensures var r := CombineStep(st, catalogue, area);
            r.dir == st.dir && r.areaFiles == st.areaFiles && r.failure == Some(CombineError(st.dir, catalogue, area))
  {
    AsWrittenNameRefused(area);
  }

  /** As written, the loop ends at its first area with that area's error and
      changes neither the output directory nor "areas"; with no areas, or
      after an earlier failure, it does nothing. */
  lemma {:induction false} CombineEndsAtFirst(st: CombineState, catalogue: seq<AreaEntry>, areas: seq<string>)
    ensures var r := CombineProcess(st, catalogue, areas);
            r.dir == st.dir && r.areaFiles == st.areaFiles &&
            r.failure == if st.failure.Some? || areas == [] then st.failure else Some(CombineError(st.dir, catalogue, areas[0]))
  {
    if areas != [] {
      var front := areas[..|areas| - 1];
      CombineEndsAtFirst(st, catalogue, front);
      var mid := CombineProcess(st, catalogue, front);
      if mid.failure.None? {
        assert front == [];
        CombineStepFails(mid, catalogue, areas[|areas| - 1]);
      } else if front != [] {
        assert front[0] == areas[0];
      }
    }
  }

  /** The corrected loop: one iteration writes the concatenation as
      "alldata_" + area + ".csv" inside "areas", where the extraction script
      looks for it. After a failure nothing more happens. */
  function IntendedCombineStep(st: CombineState, catalogue: seq<AreaEntry>, area: string): CombineState {
    if st.failure.Some? then st
    else if AreaLabel(catalogue, area).None? then st.(failure := Some(LabelNotFound(area)))
    else
      match CombineArea(st.dir, area)
      case Err(e) => st.(failure := Some(e))
      case Ok(t) => st.(areaFiles := st.areaFiles[CombinedName(area) := t])
  }

  function IntendedCombineProcess(st: CombineState, catalogue: seq<AreaEntry>, areas: seq<string>): CombineState {
    if areas == [] then st
    else IntendedCombineStep(IntendedCombineProcess(st, catalogue, areas[..|areas| - 1]), catalogue, areas[|areas| - 1])
  }

  /** The table written for an area is the concatenation of exactly the listed
      entries whose name ends with area + ".csv" (ignoring ASCII case, skipping
      names that start with "."), in listing order; nothing else changes. */
  lemma IntendedStepWrites(st: CombineState, catalogue: seq<AreaEntry>, area: string)
    requires st.failure.None? && AreaLabel(catalogue, area).Some?
    ensures forall n :: n in Selected(st.dir, area) <==> n in st.dir.names && GlobMatch(n, area + CsvExtension)
    ensures var r := IntendedCombineStep(st, catalogue, area);
            var tables := Contents(st.dir, Selected(st.dir, area));
            r.dir == st.dir &&
            (Selected(st.dir, area) == [] ==> r.failure == Some(NothingToConcatenate(area)) && r.areaFiles == st.areaFiles) &&
            (Selected(st.dir, area) != [] ==>
               r.failure.None? && r.areaFiles == st.areaFiles[CombinedName(area) := Concat(tables, area).value])
  {
    GlobSelects(st.dir.names, area + CsvExtension);
  }

  /** The combined file names of the areas, in loop order. */
  function CombinedNames(areas: seq<string>): seq<string> {
    seq(|areas|, i requires 0 <= i < |areas| => CombinedName(areas[i]))
  }

  /** The loop never changes the output directory, so every area is combined
      from the same listing, and a failure ends it for good. */
  lemma {:induction false} IntendedKeepsDir(st: CombineState, catalogue: seq<AreaEntry>, areas: seq<string>)
    ensures IntendedCombineProcess(st, catalogue, areas).dir == st.dir
    ensures st.failure.Some? ==> IntendedCombineProcess(st, catalogue, areas) == st
  {
    if areas != [] {
      IntendedKeepsDir(st, catalogue, areas[..|areas| - 1]);
    }
  }

  /** A step that ends without failure wrote the area's concatenation and nothing else. */
  lemma IntendedStepOk(st: CombineState, catalogue: seq<AreaEntry>, area: string)
    requires IntendedCombineStep(st, catalogue, area).failure.None?
    ensures st.failure.None? && CombineArea(st.dir, area).Ok?
    ensures IntendedCombineStep(st, catalogue, area).dir == st.dir
    ensures IntendedCombineStep(st, catalogue, area).areaFiles == st.areaFiles[CombinedName(area) := CombineArea(st.dir, area).value]
  {
  }

  /** The files of "areas" hold, under the area's combined name, the
      concatenation of that area's files of d. */
  ghost predicate HoldsCombined(areaFiles: map<string, Table>, d: Dir, area: string) {
    CombineArea(d, area).Ok? && CombinedName(area) in areaFiles && areaFiles[CombinedName(area)] == CombineArea(d, area).value
  }

  /** Writing another area's combined file keeps an area's combined file. */
  lemma HoldsAfterWrite(areaFiles: map<string, Table>, d: Dir, area: string, written: string, t: Table)
    requires HoldsCombined(areaFiles, d, area) && area != written
    ensures HoldsCombined(areaFiles[CombinedName(written) := t], d, area)
  {
    if CombinedName(area) == CombinedName(written) {
      CombinedNameInjective(area, written);
    }
  }

  /** A completed loop leaves, for every area, the concatenation of that area's
      files of the output directory under the area's combined name. */
  lemma {:induction false} IntendedContents(st: CombineState, catalogue: seq<AreaEntry>, areas: seq<string>)
    requires IntendedCombineProcess(st, catalogue, areas).failure.None?
    ensures forall i :: 0 <= i < |areas| ==> HoldsCombined(IntendedCombineProcess(st, catalogue, areas).areaFiles, st.dir, areas[i])
  {
    if areas != [] {
      var front, last := areas[..|areas| - 1], areas[|areas| - 1];
      var mid := IntendedCombineProcess(st, catalogue, front);
      assert IntendedCombineProcess(st, catalogue, areas) == IntendedCombineStep(mid, catalogue, last);
      IntendedStepOk(mid, catalogue, last);
      IntendedKeepsDir(st, catalogue, front);
      IntendedContents(st, catalogue, front);
      var t := CombineArea(st.dir, last).value;
      var files := mid.areaFiles[CombinedName(last) := t];
      assert IntendedCombineProcess(st, catalogue, areas).areaFiles == files;
      forall i | 0 <= i < |areas| ensures HoldsCombined(files, st.dir, areas[i]) {
        if areas[i] != last {
          assert areas[i] == front[i];
          HoldsAfterWrite(mid.areaFiles, st.dir, areas[i], last, t);
        }
      }
    }
  }

  /** The loop, completed or not, changes no file of "areas" other than the
      combined files of its areas. */
  lemma {:induction false} IntendedKeepsOthers(st: CombineState, catalogue: seq<AreaEntry>, areas: seq<string>)
    ensures forall n :: n in st.areaFiles && n !in CombinedNames(areas) ==>
              n in IntendedCombineProcess(st, catalogue, areas).areaFiles &&
              IntendedCombineProcess(st, catalogue, areas).areaFiles[n] == st.areaFiles[n]
  {
    if areas != [] {
      var front := areas[..|areas| - 1];
      IntendedKeepsOthers(st, catalogue, front);
      assert CombinedNames(areas) == CombinedNames(front) + [CombinedName(areas[|areas| - 1])];
    }
  }

  // ---------------------------------------------------------------------------
  // The output directory as the script changes it

  class OutputDir {
    var present: bool
    var names: seq<string>
    var files: map<string, Table>
    var subdirs: set<string>
    /** The files of the "areas" subdirectory, by name. */
    var areaFiles: map<string, Table>

    ghost predicate Valid()
      reads this
    {
      Listed(Dir(names, files)) && (!present ==> names == [] && subdirs == {})
    }

    function State(): Dir
      reads this
    {
      Dir(names, files)
    }

    constructor (present: bool, names: seq<string>, files: map<string, Table>, subdirs: set<string>, areaFiles: map<string, Table>)
      requires Listed(Dir(names, files)) && (!present ==> names == [] && subdirs == {})
      ensures Valid()
      ensures this.present == present && this.names == names && this.files == files && this.subdirs == subdirs
      ensures this.areaFiles == areaFiles
    {
      this.present, this.names, this.files, this.subdirs := present, names, files, subdirs;
      this.areaFiles := areaFiles;
    }

    /** create_directory(output_dir): "already exists" is caught and changes nothing. */
    method CreateDirectory()
      requires Valid()
      modifies this
      ensures Valid() && present
      ensures names == old(names) && files == old(files) && subdirs == old(subdirs) && areaFiles == old(areaFiles)
    {
      if !present {
        present := true;
      }
    }

    /** create_directory(areas_dir): mkdir fails (and the failure is caught)
        when a directory or a file of that name exists. */
    method CreateSubdirectory(name: string)
      requires Valid() && present
      modifies this
      ensures Valid() && present && names == old(names) && files == old(files) && areaFiles == old(areaFiles)
      ensures subdirs == if name in old(files) then old(subdirs) else old(subdirs) + {name}
    {
      if name !in subdirs && name !in files {
        subdirs := subdirs + {name};
      }
    }

    /** One pass of the inner loop body (lines 146-188) for one (year, area) pair. */
    method Visit(src: Archive, catalogue: seq<AreaEntry>, year: nat, area: string, requested: seq<string>)
      returns (requested': seq<string>, failure: Option<Error>)
      requires Valid() && present
      modifies this
      ensures Valid() && present && subdirs == old(subdirs) && areaFiles == old(areaFiles)
      ensures Step(RunState(old(State()), requested, None), src, catalogue, Pair(year, area))
              == RunState(State(), requested', failure)
    {
      requested', failure := requested, None;
      if AreaLabel(catalogue, area).None? {
        failure := Some(LabelNotFound(area));
        return;
      }
      var file := SliceFileName(year, area);
      if file in files {
        return;
      }
      var url := Url(src.root, year, area);
      var response := src.fetch(url);
      requested' := requested' + [url];
      var check := CheckStatus(response.status);
      if check.Err? {
        failure := Some(check.error);
        return;
      }
      if response.body.None? {
        failure := Some(ParseError);
        return;
      }
      names := names + [file];
      files := files[file := WithIndex(response.body.value)];
    }

    /** The inner loop (lines 144-188): every area in turn for one year. */
    method DownloadYear(src: Archive, catalogue: seq<AreaEntry>, areas: seq<string>, year: nat, requested: seq<string>)
      returns (requested': seq<string>, failure: Option<Error>)
      requires Valid() && present
      modifies this
      ensures Valid() && present && subdirs == old(subdirs) && areaFiles == old(areaFiles)
      ensures Process(RunState(old(State()), requested, None), src, catalogue, YearPairs(year, areas))
              == RunState(State(), requested', failure)
    {
      ghost var init := RunState(State(), requested, None);
      requested', failure := requested, None;
      for j := 0 to |areas|
        invariant Valid() && present && subdirs == old(subdirs) && areaFiles == old(areaFiles) && failure.None?
        invariant Process(init, src, catalogue, YearPairs(year, areas[..j])) == RunState(State(), requested', None)
      {
        ghost var p := Pair(year, areas[j]);
        assert YearPairs(year, areas[..j + 1]) == YearPairs(year, areas[..j]) + [p];
        ProcessSnoc(init, src, catalogue, YearPairs(year, areas[..j]), p);
        requested', failure := Visit(src, catalogue, year, areas[j], requested');
        if failure.Some? {
          assert YearPairs(year, areas[..j + 1]) <= YearPairs(year, areas);
          FailFast(init, src, catalogue, YearPairs(year, areas[..j + 1]), YearPairs(year, areas));
          return;
        }
      }
      assert areas[..|areas|] == areas;
    }

    /** The outer loop (lines 139-188): the years from 2000 to the current one. An uncaught error ends it. */
    method Download(src: Archive, catalogue: seq<AreaEntry>, areas: seq<string>, currentYear: int)
      returns (requested: seq<string>, failure: Option<Error>)
      requires Valid() && present
      modifies this
      ensures Valid() && present && subdirs == old(subdirs) && areaFiles == old(areaFiles)
      ensures var st := Process(RunState(old(State()), [], None), src, catalogue, Grid(FirstYear, currentYear + 1, areas));
              State() == st.dir && requested == st.requested && failure == st.failure
    {
      ghost var init := RunState(State(), [], None);
      requested, failure := [], None;
      if currentYear < FirstYear {
        return;
      }
      assert Grid(FirstYear, FirstYear, areas) == [];
      for year := FirstYear to currentYear + 1
        invariant Valid() && present && subdirs == old(subdirs) && areaFiles == old(areaFiles) && failure.None?
        invariant Process(init, src, catalogue, Grid(FirstYear, year, areas)) == RunState(State(), requested, None)
      {
        GridStep(init, src, catalogue, areas, year, currentYear + 1);
        requested, failure := DownloadYear(src, catalogue, areas, year, requested);
        if failure.Some? {
          return;
        }
      }
    }

    /** One pass of the per-area loop body (lines 240-265), writing the combined
        file under the name line 261 builds. */
    method CombineOne(catalogue: seq<AreaEntry>, area: string) returns (failure: Option<Error>)
      requires Valid() && present
      modifies this
      ensures Valid() && present && subdirs == old(subdirs)
      ensures CombineStep(CombineState(old(State()), old(areaFiles), None), catalogue, area) == CombineState(State(), areaFiles, failure)
    {
      failure := None;
      if AreaLabel(catalogue, area).None? {
        failure := Some(LabelNotFound(area));
        return;
      }
      var combined := CombineArea(State(), area);
      if combined.Err? {
        failure := Some(combined.error);
        return;
      }
      var entry := CombinedEntryAsWritten(area);
      if !ControlFree(entry) {
        failure := Some(InvalidName(entry));
        return;
      }
      if entry !in files {
        names := names + [entry];
      }
      files := files[entry := combined.value];
      assert State() == WriteFile(old(State()), entry, combined.value);
    }

    /** The per-area loop (lines 238-265). An uncaught error ends it. */
    method Combine(catalogue: seq<AreaEntry>, areas: seq<string>) returns (failure: Option<Error>)
      requires Valid() && present
      modifies this
      ensures Valid() && present && subdirs == old(subdirs)
      ensures CombineProcess(CombineState(old(State()), old(areaFiles), None), catalogue, areas) == CombineState(State(), areaFiles, failure)
    {
      ghost var init := CombineState(State(), areaFiles, None);
      failure := None;
      for i := 0 to |areas|
        invariant Valid() && present && subdirs == old(subdirs) && failure.None?
        invariant CombineProcess(init, catalogue, areas[..i]) == CombineState(State(), areaFiles, None)
      {
        CombineSnoc(init, catalogue, areas, i);
        failure := CombineOne(catalogue, areas[i]);
        if failure.Some? {
          CombineFailureSticks(init, catalogue, areas, i + 1);
          return;
        }
      }
      assert areas[..|areas|] == areas;
    }

    /** The whole script: derive the area list, create the output directory,
        download, create "areas", and combine; each stage runs only if the one
        before it finished. */
    method Run(src: Archive, catalogue: seq<AreaEntry>, currentYear: int)
      returns (requested: seq<string>, failure: Option<Error>)
      requires Valid()
      modifies this
      ensures Valid()
      ensures var areas := AreaList(catalogue);
              if areas.Err? then
                failure == Some(areas.error) && requested == [] && State() == old(State()) && present == old(present) &&
                subdirs == old(subdirs) && areaFiles == old(areaFiles)
              else
                var dl := Process(RunState(old(State()), [], None), src, catalogue, Grid(FirstYear, currentYear + 1, areas.value));
                present && requested == dl.requested &&
                if dl.failure.Some? then
                  failure == dl.failure && State() == dl.dir && areaFiles == old(areaFiles) && subdirs == old(subdirs)
                else
                  var c := CombineProcess(CombineState(dl.dir, old(areaFiles), None), catalogue, areas.value);
                  failure == c.failure && State() == c.dir && areaFiles == c.areaFiles &&
                  subdirs == (if AreasDirName in dl.dir.files then old(subdirs) else old(subdirs) + {AreasDirName})
    {
      var areas := AreaList(catalogue);
      if areas.Err? {
        return [], Some(areas.error);
      }
      CreateDirectory();
      requested, failure := Download(src, catalogue, areas.value, currentYear);
      if failure.Some? {
        return;
      }
      CreateSubdirectory(AreasDirName);
      failure := Combine(catalogue, areas.value);
    }
  }

  lemma ProcessSnoc(st: RunState, src: Archive, catalogue: seq<AreaEntry>, done: seq<Pair>, p: Pair)
    ensures Process(st, src, catalogue, done + [p]) == Step(Process(st, src, catalogue, done), src, catalogue, p)
  {
    assert (done + [p])[..|done + [p]| - 1] == done;
  }

  /** One more year of the grid is that year's pairs run after the earlier
      years; if they fail, the later years change nothing. */
  lemma GridStep(st: RunState, src: Archive, catalogue: seq<AreaEntry>, areas: seq<string>, year: nat, to: int)
    requires FirstYear <= year < to
    ensures Process(st, src, catalogue, Grid(FirstYear, year + 1, areas)) ==
            Process(Process(st, src, catalogue, Grid(FirstYear, year, areas)), src, catalogue, YearPairs(year, areas))
    ensures Process(st, src, catalogue, Grid(FirstYear, year + 1, areas)).failure.Some? ==>
              Process(st, src, catalogue, Grid(FirstYear, to, areas)) == Process(st, src, catalogue, Grid(FirstYear, year + 1, areas))
  {
    var done, next := Grid(FirstYear, year, areas), Grid(FirstYear, year + 1, areas);
    assert next == done + YearPairs(year, areas);
    ProcessSplit(st, src, catalogue, done, YearPairs(year, areas));
    if Process(st, src, catalogue, next).failure.Some? {
      GridFails(st, src, catalogue, areas, year + 1, to);
    }
  }

  /** A failure within the first years of the grid ends the whole grid. */
  lemma GridFails(st: RunState, src: Archive, catalogue: seq<AreaEntry>, areas: seq<string>, mid: int, to: int)
    requires FirstYear <= mid <= to
    requires Process(st, src, catalogue, Grid(FirstYear, mid, areas)).failure.Some?
    ensures Process(st, src, catalogue, Grid(FirstYear, to, areas)) == Process(st, src, catalogue, Grid(FirstYear, mid, areas))
  {
    GridPrefix(FirstYear, mid, to, areas);
    FailFast(st, src, catalogue, Grid(FirstYear, mid, areas), Grid(FirstYear, to, areas));
  }

  /** Earlier years form a prefix of the grid, one year's pairs included. */
  lemma {:induction false} GridPrefix(from: nat, mid: int, to: int, areas: seq<string>)
    requires from <= mid <= to
    ensures Grid(from, mid, areas) <= Grid(from, to, areas)
  {
    if mid < to {
      GridPrefix(from, mid, to - 1, areas);
    }
  }

  lemma CombineSnoc(init: CombineState, catalogue: seq<AreaEntry>, areas: seq<string>, i: nat)
    requires i < |areas|
    ensures CombineProcess(init, catalogue, areas[..i + 1]) ==
            CombineStep(CombineProcess(init, catalogue, areas[..i]), catalogue, areas[i])
  {
    assert areas[..i + 1][..i] == areas[..i];
  }

  lemma {:induction false} CombineFailureSticks(init: CombineState, catalogue: seq<AreaEntry>, areas: seq<string>, i: nat)
    requires i <= |areas|
    requires CombineProcess(init, catalogue, areas[..i]).failure.Some?
    ensures CombineProcess(init, catalogue, areas) == CombineProcess(init, catalogue, areas[..i])
    decreases |areas|
  {
    if i < |areas| {
      var front := areas[..|areas| - 1];
      assert front[..i] == areas[..i];
      CombineFailureSticks(init, catalogue, front, i);
      assert CombineProcess(init, catalogue, areas) ==
             CombineStep(CombineProcess(init, catalogue, front), catalogue, areas[|areas| - 1]);
    } else {
      assert areas[..i] == areas;
    }
  }
}

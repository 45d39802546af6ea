/** CSVtoSHP.py: turning each area's combined CSV file into a point shapefile
    holding one feature per distinct sampling location. */
module Shapes {
  import opened Tables
  import opened Strings

  const CsvExtension: string := ".csv"
  const EastingColumn: string := "sample.samplingPoint.easting"
  const NorthingColumn: string := "sample.samplingPoint.northing"
  const PointNotationColumn: string := "sample.samplingPoint.notation"
  const PointLabelColumn: string := "sample.samplingPoint.label"
  /** The columns read from each CSV file (lines 141-144). */
  const UseCols: seq<string> := [EastingColumn, NorthingColumn, PointNotationColumn, PointLabelColumn]
  const MergedName: string := "england_wq_locs"

  // ---------------------------------------------------------------------------
  // The output base name (lines 67-73)

  /** The last index of c in s, or -1. */
  function LastIndex(s: string, c: char): (i: int)
    ensures -1 <= i < |s|
    ensures i >= 0 ==> s[i] == c && c !in s[i + 1..]
    ensures i == -1 <==> c !in s
  {
    if s == [] then -1
    else if s[|s| - 1] == c then |s| - 1
    else
      assert s == s[..|s| - 1] + [s[|s| - 1]];
      var j := LastIndex(s[..|s| - 1], c);
      if j >= 0 then assert s[j + 1..] == s[..|s| - 1][j + 1..] + [s[|s| - 1]]; j else j
  }

  predicate AllDots(s: string) {
    forall k :: 0 <= k < |s| ==> s[k] == '.'
  }

  /** os.path.splitext(name)[1] on Windows for a name without separators: from
      the last "." on, unless only dots come before it. */
  function Extension(name: string): string {
    var dot := LastIndex(name, '.');
    if dot < 0 || AllDots(name[..dot]) then [] else name[dot..]
  }

  /** os.path.splitext(name)[0]. */
  function Stem(name: string): (r: string)
    ensures r + Extension(name) == name
  {
    var dot := LastIndex(name, '.');
    if dot < 0 || AllDots(name[..dot]) then name else name[..dot]
  }

  /** For every name the "*.csv" pattern selects, the extension is its last
      four characters, ".csv" up to ASCII case. */
  lemma GlobbedExtension(name: string)
    requires GlobMatch(name, CsvExtension)
    ensures |name| > 4 && Extension(name) == name[|name| - 4..] && Fold(Extension(name)) == CsvExtension
  {
    var n := |name|;
    var f := Fold(name);
    assert Fold(CsvExtension) == CsvExtension;
    assert f[n - 4..] == CsvExtension;
    assert f[n - 4] == '.' && f[n - 3] == 'c' && f[n - 2] == 's' && f[n - 1] == 'v';
    assert name[n - 4] == '.';
    assert name[n - 3] != '.' && name[n - 2] != '.' && name[n - 1] != '.';
    assert n > 4;
    FindLastDot(name, n - 4);
    assert !AllDots(name[..n - 4]) by {
      assert name[..n - 4][0] == name[0];
    }
    assert Fold(name[n - 4..]) == f[n - 4..];
  }

  lemma FindLastDot(s: string, i: nat)
    requires i < |s| && s[i] == '.'
    requires forall k :: i < k < |s| ==> s[k] != '.'
    ensures LastIndex(s, '.') == i
  {
  }

  /** str.rstrip(chars): drops trailing characters that occur in chars. */
  function RStrip(s: string, chars: string): (r: string)
    ensures r <= s
    ensures r == [] || r[|r| - 1] !in chars
    ensures forall k :: |r| <= k < |s| ==> s[k] in chars
  {
    if s != [] && s[|s| - 1] in chars then RStrip(s[..|s| - 1], chars) else s
  }

  /** str.replace("-", "_"). */
  function ReplaceHyphens(s: string): (r: string)
    ensures |r| == |s| && '-' !in r
    ensures forall k :: 0 <= k < |s| && s[k] != '-' ==> r[k] == s[k]
    ensures forall k :: 0 <= k < |s| && s[k] == '-' ==> r[k] == '_'
  {
    seq(|s|, k requires 0 <= k < |s| => if s[k] == '-' then '_' else s[k])
  }

  /** Replacing twice is replacing once, and only hyphens change. */
  lemma ReplaceHyphensIdempotent(s: string)
    ensures ReplaceHyphens(ReplaceHyphens(s)) == ReplaceHyphens(s)
    ensures forall k :: 0 <= k < |s| && s[k] == '-' ==> ReplaceHyphens(s)[k] == '_'
  {
  }

  /** Lines 70-73 as written: the extension is used as a set of characters to strip. */
  function OutputBaseAsWritten(name: string): string {
    ReplaceHyphens(RStrip(name, Extension(name)))
  }

  /** The extension removed as a suffix, as the comment on line 69 intends. */
  function OutputBase(name: string): string {
    ReplaceHyphens(Stem(name))
  }

  /** Stripping goes through a tail made only of characters of the set. */
  lemma {:induction false} RStripThrough(s: string, t: string, chars: string)
    requires forall k :: 0 <= k < |t| ==> t[k] in chars
    ensures RStrip(s + t, chars) == RStrip(s, chars)
    decreases |t|
  {
    if t == [] {
      assert s + t == s;
    } else {
      assert (s + t)[..|s + t| - 1] == s + t[..|t| - 1];
      RStripThrough(s, t[..|t| - 1], chars);
    }
  }

  /** A file "stem.csv" whose stem has no dot and does not start with one. */
  lemma CsvName(stem: string)
    requires stem != [] && '.' !in stem
    ensures Stem(stem + CsvExtension) == stem && Extension(stem + CsvExtension) == CsvExtension
  {
    var name := stem + CsvExtension;
    FindLastDot(name, |stem|);
    assert name[..|stem|] == stem && name[|stem|..] == CsvExtension;
    assert !AllDots(stem) by {
      assert stem[0] in stem;
    }
  }

  /** As written, the extension is removed and then the stem loses every trailing
      character that occurs in the extension. */
  lemma AsWrittenStripsStem(name: string)
    ensures OutputBaseAsWritten(name) == ReplaceHyphens(RStrip(Stem(name), Extension(name)))
  {
    RStripThrough(Stem(name), Extension(name), Extension(name));
  }

  /** As written, characters of ".csv" at the end of the stem are lost too:
      "x_ABCs.csv" becomes "x_ABC" (the strip is case-sensitive). */
  lemma AsWrittenEatsStem(stem: string, t: string)
    requires stem + t != [] && '.' !in stem + t
    requires forall k :: 0 <= k < |t| ==> t[k] in CsvExtension
    requires stem == [] || stem[|stem| - 1] !in CsvExtension
    ensures OutputBaseAsWritten(stem + t + CsvExtension) == ReplaceHyphens(stem)
    ensures OutputBase(stem + t + CsvExtension) == ReplaceHyphens(stem + t)
  {
    CsvName(stem + t);
    AsWrittenStripsStem(stem + t + CsvExtension);
    RStripThrough(stem, t, CsvExtension);
  }

  /** So two files share one output name as written, though not once
      corrected: "abc.csv" and "ab.csv" both become "ab". */
  lemma AsWrittenCollides(stem: string, t: string)
    requires stem != [] && t != [] && '.' !in stem + t
    requires forall k :: 0 <= k < |t| ==> t[k] in CsvExtension
    requires stem[|stem| - 1] !in CsvExtension
    ensures OutputBaseAsWritten(stem + t + CsvExtension) == OutputBaseAsWritten(stem + CsvExtension)
    ensures OutputBase(stem + t + CsvExtension) != OutputBase(stem + CsvExtension)
  {
    AsWrittenEatsStem(stem, t);
    AsWrittenEatsStem(stem, []);
    assert stem + [] == stem;
  }

  /** Where the stem does not end in a character of the extension, both
      readings agree: this is the common case the script was written for. */
  lemma AsWrittenAgrees(name: string)
    requires var stem := Stem(name); stem == [] || stem[|stem| - 1] !in Extension(name)
    ensures OutputBaseAsWritten(name) == OutputBase(name)
  {
    AsWrittenStripsStem(name);
  }

  /** Stripping stops at a character outside the set: what lies before it is kept. */
  lemma {:induction false} RStripAppend(x: string, b: string, chars: string)
    requires x != [] && x[|x| - 1] !in chars
    ensures RStrip(x + b, chars) == x + RStrip(b, chars)
    decreases |b|
  {
    if b == [] {
      assert x + b == x;
    } else if b[|b| - 1] in chars {
      assert (x + b)[..|x + b| - 1] == x + b[..|b| - 1];
      RStripAppend(x, b[..|b| - 1], chars);
    }
  }

  /** A hyphen and an underscore at the same place give the same replaced name. */
  lemma HyphenOrUnderscore(a: string, t: string)
    ensures ReplaceHyphens(a + "-" + t) == ReplaceHyphens(a + "_" + t)
  {
    var r1, r2 := a + "-" + t, a + "_" + t;
    forall k | 0 <= k < |r1| ensures ReplaceHyphens(r1)[k] == ReplaceHyphens(r2)[k] {
    }
  }

  /** Stripping ".csv" characters stops at the hyphen or the underscore. */
  lemma HyphenStrip(a: string, b: string)
    ensures ReplaceHyphens(RStrip(a + "-" + b, CsvExtension)) == ReplaceHyphens(RStrip(a + "_" + b, CsvExtension))
  {
    RStripAppend(a + "-", b, CsvExtension);
    RStripAppend(a + "_", b, CsvExtension);
    HyphenOrUnderscore(a, RStrip(b, CsvExtension));
  }

  /** Hyphens and underscores share an output name, both as written and
      corrected: "a-b.csv" and "a_b.csv". */
  lemma HyphenCollides(a: string, b: string)
    requires '.' !in a + b
    ensures OutputBaseAsWritten(a + "-" + b + CsvExtension) == OutputBaseAsWritten(a + "_" + b + CsvExtension)
    ensures OutputBase(a + "-" + b + CsvExtension) == OutputBase(a + "_" + b + CsvExtension)
  {
    var s1, s2 := a + "-" + b, a + "_" + b;
    assert '.' !in s1 && '.' !in s2 by {
      assert forall k :: 0 <= k < |s1| ==> s1[k] == '-' || s1[k] in a + b;
      assert forall k :: 0 <= k < |s2| ==> s2[k] == '_' || s2[k] in a + b;
    }
    CsvName(s1);
    CsvName(s2);
    HyphenOrUnderscore(a, b);
    AsWrittenStripsStem(s1 + CsvExtension);
    AsWrittenStripsStem(s2 + CsvExtension);
    HyphenStrip(a, b);
  }

  // ---------------------------------------------------------------------------
  // Output paths (lines 79-84)

  /** area_shp: shpDir + "\\" + basename + ".shp". */
  function ShpPath(shpDir: string, base: string): (p: string)
    ensures |p| == |shpDir| + |base| + 5
    ensures p[..|shpDir|] == shpDir && p[|shpDir|] == '\\' && p[|shpDir| + 1..] == base + ".shp"
  {
    shpDir + "\\" + base + ".shp"
  }

  /** area_locs: shpDir + "\\" + basename + "_locs.shp". */
  function LocsPath(shpDir: string, base: string): (p: string)
    ensures p == ShpPath(shpDir, base + "_locs")
  {
    shpDir + "\\" + base + "_locs.shp"
  }

  /** monitoring_locs: the same for every file. */
  function MergedPath(shpDir: string): (p: string)
    ensures p == ShpPath(shpDir, MergedName)
  {
    shpDir + "\\" + "england_wq_locs.shp"
  }

  /** Different base names give different shapefiles. */
  lemma ShpPathInjective(shpDir: string, b1: string, b2: string)
    requires ShpPath(shpDir, b1) == ShpPath(shpDir, b2)
    ensures b1 == b2
  {
    var p := ShpPath(shpDir, b1);
    assert b1 == p[|shpDir| + 1..|p| - 4];
  }

  /** Line 205 names monitoring_locs, which only the loop body binds: with no
      CSV file the merge raises NameError. */
  function MergeTarget(shpDir: string, selected: seq<string>): (r: Result<string>)
    ensures r.Err? <==> selected == []
    ensures r.Err? ==> r.error == NameError("monitoring_locs")
    ensures r.Ok? ==> r.value == ShpPath(shpDir, MergedName)
  {
    if selected == [] then Err(NameError("monitoring_locs")) else Ok(MergedPath(shpDir))
  }

  // ---------------------------------------------------------------------------
  // Reading the point columns and dropping duplicate locations (lines 141-152)

  function Restrict(r: Row, cols: seq<string>): Row {
    map c | c in r && c in cols :: r[c]
  }

  /** read_csv(usecols=UseCols): every named column must exist; the columns keep file order. */
  function ReadPointColumns(t: Table): (r: Result<Table>)
    ensures r.Err? <==> exists c :: c in UseCols && c !in t.columns
    ensures r.Err? ==> r.error == UsecolsMismatch
    ensures r.Ok? ==> (forall c :: c in r.value.columns <==> c in UseCols) && |r.value.rows| == |t.rows|
    ensures r.Ok? ==> forall k, c :: 0 <= k < |t.rows| && c in UseCols ==> Get(r.value.rows[k], c) == Get(t.rows[k], c)
  {
    if exists c :: c in UseCols && c !in t.columns then Err(UsecolsMismatch)
    else
      FilterMembersAll(t.columns);
      Ok(Table(Filter(t.columns, (c: string) => c in UseCols),
               seq(|t.rows|, k requires 0 <= k < |t.rows| => Restrict(t.rows[k], UseCols))))
  }

  lemma FilterMembersAll(columns: seq<string>)
    ensures forall c :: c in Filter(columns, (c: string) => c in UseCols) <==> c in columns && c in UseCols
  {
    forall c ensures c in Filter(columns, (c: string) => c in UseCols) <==> c in columns && c in UseCols {
      FilterMembers(columns, (c: string) => c in UseCols, c);
    }
  }

  /** The location of a row: its easting and northing cells. */
  datatype Coordinates = Coordinates(easting: Cell, northing: Cell)

  function Key(r: Row): Coordinates {
    Coordinates(Get(r, EastingColumn), Get(r, NorthingColumn))
  }

  function Keys(rows: seq<Row>): set<Coordinates> {
    if rows == [] then {} else {Key(rows[0])} + Keys(rows[1..])
  }

  /** The first row with the given location, if any. */
  function FirstWithKey(rows: seq<Row>, k: Coordinates): (r: Option<Row>)
    ensures r.Some? <==> k in Keys(rows)
  {
    if rows == [] then None else if Key(rows[0]) == k then Some(rows[0]) else FirstWithKey(rows[1..], k)
  }

  /** drop_duplicates on the coordinates with keep="first", scanning with the
      locations already kept. */
  function Dedup(rows: seq<Row>, seen: set<Coordinates>): (r: seq<Row>)
    ensures |r| <= |rows|
  {
    if rows == [] then []
    else if Key(rows[0]) in seen then Dedup(rows[1..], seen)
    else [rows[0]] + Dedup(rows[1..], seen + {Key(rows[0])})
  }

  function DropDuplicates(rows: seq<Row>): seq<Row> {
    Dedup(rows, {})
  }

  lemma {:induction false} DedupSubsequence(rows: seq<Row>, seen: set<Coordinates>)
    ensures IsSubsequence(Dedup(rows, seen), rows)
  {
    if rows != [] {
      if Key(rows[0]) in seen {
        DedupSubsequence(rows[1..], seen);
        SubsequenceExtend(Dedup(rows[1..], seen), rows[1..], rows[0]);
        assert [rows[0]] + rows[1..] == rows;
      } else {
        DedupSubsequence(rows[1..], seen + {Key(rows[0])});
        var r := Dedup(rows, seen);
        assert r[0] == rows[0] && r[1..] == Dedup(rows[1..], seen + {Key(rows[0])});
      }
    }
  }

  /** The kept locations are exactly the input's, minus those already seen,
      and each is kept once, as the first row that has it. */
  lemma {:induction false} DedupKeys(rows: seq<Row>, seen: set<Coordinates>)
    ensures Keys(Dedup(rows, seen)) == Keys(rows) - seen
    ensures forall i :: 0 <= i < |Dedup(rows, seen)| ==> Key(Dedup(rows, seen)[i]) !in seen
    ensures forall i, j :: 0 <= i < j < |Dedup(rows, seen)| ==> Key(Dedup(rows, seen)[i]) != Key(Dedup(rows, seen)[j])
    ensures forall i :: 0 <= i < |Dedup(rows, seen)| ==>
              FirstWithKey(rows, Key(Dedup(rows, seen)[i])) == Some(Dedup(rows, seen)[i])
  {
    if rows != [] {
      var h := rows[0];
      if Key(h) in seen {
        DedupKeys(rows[1..], seen);
      } else {
        var seen' := seen + {Key(h)};
        DedupKeys(rows[1..], seen');
        var tail := Dedup(rows[1..], seen');
        var r := Dedup(rows, seen);
        assert r == [h] + tail;
        assert Keys(r) == {Key(h)} + Keys(tail);
        forall i | 0 < i < |r| ensures Key(r[i]) != Key(h) && Key(r[i]) !in seen {
          assert r[i] == tail[i - 1];
        }
        forall i, j | 0 <= i < j < |r| ensures Key(r[i]) != Key(r[j]) {
          assert r[j] == tail[j - 1];
          if i > 0 {
            assert r[i] == tail[i - 1];
          }
        }
        forall i | 0 <= i < |r| ensures FirstWithKey(rows, Key(r[i])) == Some(r[i]) {
          if i > 0 {
            assert r[i] == tail[i - 1];
          }
        }
      }
    }
  }

  /** drop_duplicates keeps an order-preserving subsequence with no two rows
      at one location, misses no location of the input, and keeps for each
      location its first row. */
  lemma DropDuplicatesSpec(rows: seq<Row>)
    ensures IsSubsequence(DropDuplicates(rows), rows)
    ensures Keys(DropDuplicates(rows)) == Keys(rows)
    ensures forall i, j :: 0 <= i < j < |DropDuplicates(rows)| ==> Key(DropDuplicates(rows)[i]) != Key(DropDuplicates(rows)[j])
    ensures forall i :: 0 <= i < |DropDuplicates(rows)| ==>
              FirstWithKey(rows, Key(DropDuplicates(rows)[i])) == Some(DropDuplicates(rows)[i])
  {
    DedupSubsequence(rows, {});
    DedupKeys(rows, {});
  }

  // ---------------------------------------------------------------------------
  // Features (lines 163-183)

  /** One point feature: its geometry and its four attributes. */
  datatype Feature = Feature(x: Cell, y: Cell, easting: Cell, northing: Cell, notation: Cell, pointLabel: Cell)

  /** The feature built from one row: the point at (easting, northing), with
      the coordinates, notation and label copied as attributes. */
  function FeatureOf(r: Row): Feature {
    var e, n := Get(r, EastingColumn), Get(r, NorthingColumn);
    Feature(e, n, e, n, Get(r, PointNotationColumn), Get(r, PointLabelColumn))
  }

  function Features(rows: seq<Row>): seq<Feature> {
    seq(|rows|, k requires 0 <= k < |rows| => FeatureOf(rows[k]))
  }

  /** One feature per row, in order, each positioned at its row's coordinates. */
  lemma FeaturesSpec(rows: seq<Row>)
    ensures |Features(rows)| == |rows|
    ensures forall k :: 0 <= k < |rows| ==>
              Features(rows)[k].x == Features(rows)[k].easting == Get(rows[k], EastingColumn) &&
              Features(rows)[k].y == Features(rows)[k].northing == Get(rows[k], NorthingColumn) &&
              Features(rows)[k].notation == Get(rows[k], PointNotationColumn) &&
              Features(rows)[k].pointLabel == Get(rows[k], PointLabelColumn)
  {
  }

  /** Distinct rows of a de-duplicated table give features at distinct points. */
  lemma FeaturesDistinctPoints(rows: seq<Row>)
    ensures var fs := Features(DropDuplicates(rows));
            forall i, j :: 0 <= i < j < |fs| ==> (fs[i].x, fs[i].y) != (fs[j].x, fs[j].y)
  {
    DropDuplicatesSpec(rows);
  }

  lemma FeaturesConcat(a: seq<Row>, b: seq<Row>)
    ensures Features(a + b) == Features(a) + Features(b)
  {
  }

  // ---------------------------------------------------------------------------
  // The per-file loop as a fold over the layers (lines 61-190)

  /** How a file's layer is named: as line 70 does it (rstrip), or by the
      stem, as the comment on line 69 intends. */
  datatype Naming = AsWritten | Corrected

  function LayerBase(naming: Naming, name: string): string {
    match naming
    case AsWritten => OutputBaseAsWritten(name)
    case Corrected => OutputBase(name)
  }

  datatype ConvState = ConvState(layers: map<string, seq<Feature>>, failure: Option<Error>)

  /** The features a CSV file becomes, or the error reading it raises. */
  function FileFeatures(csvDir: string, files: map<string, Table>, name: string): Result<seq<Feature>> {
    if name !in files then Err(FileNotFound(Join(csvDir, name)))
    else
      match ReadPointColumns(files[name])
      case Err(e) => Err(e)
      case Ok(t) => Ok(Features(DropDuplicates(t.rows)))
  }

  /** One file: recreate its shapefile empty, then read the file and insert its
      features. A read error leaves the new, empty shapefile behind. */
  function ConvertStep(st: ConvState, naming: Naming, csvDir: string, shpDir: string, files: map<string, Table>, name: string): ConvState {
    if st.failure.Some? then st
    else
      var path := ShpPath(shpDir, LayerBase(naming, name));
      var emptied := st.layers[path := []];
      match FileFeatures(csvDir, files, name)
      case Err(e) => ConvState(emptied, Some(e))
      case Ok(fs) => ConvState(emptied[path := fs], None)
  }

  function ConvertProcess(st: ConvState, naming: Naming, csvDir: string, shpDir: string, files: map<string, Table>, names: seq<string>): ConvState {
    if names == [] then st
    else ConvertStep(ConvertProcess(st, naming, csvDir, shpDir, files, names[..|names| - 1]), naming, csvDir, shpDir, files, names[|names| - 1])
  }

  /** A shapefile is rebuilt from scratch: what it holds after its file is
      converted does not depend on what it held before, and no other layer changes. */
  lemma ConvertStepRebuilds(st: ConvState, naming: Naming, csvDir: string, shpDir: string, files: map<string, Table>, name: string)
    requires st.failure.None?
    ensures var path := ShpPath(shpDir, LayerBase(naming, name));
            var r := ConvertStep(st, naming, csvDir, shpDir, files, name);
            var f := FileFeatures(csvDir, files, name);
            path in r.layers &&
            r.layers[path] == (if f.Ok? then f.value else []) &&
            r.failure == (if f.Ok? then None else Some(f.error)) &&
            forall p :: p != path ==> (p in r.layers <==> p in st.layers) && (p in st.layers ==> r.layers[p] == st.layers[p])
  {
  }

  lemma {:induction false} ConvertFailureSticks(st: ConvState, naming: Naming, csvDir: string, shpDir: string, files: map<string, Table>, names: seq<string>)
    requires st.failure.Some?
    ensures ConvertProcess(st, naming, csvDir, shpDir, files, names) == st
  {
    if names != [] {
      ConvertFailureSticks(st, naming, csvDir, shpDir, files, names[..|names| - 1]);
    }
  }

  lemma ConvertSnoc(st: ConvState, naming: Naming, csvDir: string, shpDir: string, files: map<string, Table>, names: seq<string>, i: nat)
    requires i < |names|
    ensures ConvertProcess(st, naming, csvDir, shpDir, files, names[..i + 1]) ==
            ConvertStep(ConvertProcess(st, naming, csvDir, shpDir, files, names[..i]), naming, csvDir, shpDir, files, names[i])
  {
    assert names[..i + 1][..i] == names[..i];
  }

  /** After a run without error, the layer of a file whose output name no
      later file shares holds exactly that file's features. */
  lemma {:induction false} ConvertFinalLayer(st: ConvState, naming: Naming, csvDir: string, shpDir: string, files: map<string, Table>,
                                             names: seq<string>, i: nat)
    requires i < |names|
    requires ConvertProcess(st, naming, csvDir, shpDir, files, names).failure.None?
    requires forall j :: i < j < |names| ==> LayerBase(naming, names[j]) != LayerBase(naming, names[i])
    ensures FileFeatures(csvDir, files, names[i]).Ok?
    ensures var path := ShpPath(shpDir, LayerBase(naming, names[i]));
            var final := ConvertProcess(st, naming, csvDir, shpDir, files, names);
            path in final.layers && final.layers[path] == FileFeatures(csvDir, files, names[i]).value
  {
    var upto, rest := names[..i + 1], names[i + 1..];
    assert names == upto + rest;
    ConvertSplit(st, naming, csvDir, shpDir, files, upto, rest);
    var mid := ConvertProcess(st, naming, csvDir, shpDir, files, upto);
    ProcessPrefixOk(st, naming, csvDir, shpDir, files, upto, rest);
    ConvertSnoc(st, naming, csvDir, shpDir, files, names, i);
    StepFillsLayer(ConvertProcess(st, naming, csvDir, shpDir, files, names[..i]), naming, csvDir, shpDir, files, names[i]);
    var path := ShpPath(shpDir, LayerBase(naming, names[i]));
    forall j | 0 <= j < |rest| ensures ShpPath(shpDir, LayerBase(naming, rest[j])) != path {
      assert rest[j] == names[i + 1 + j];
      if ShpPath(shpDir, LayerBase(naming, rest[j])) == path {
        ShpPathInjective(shpDir, LayerBase(naming, rest[j]), LayerBase(naming, names[i]));
      }
    }
    ProcessKeepsLayer(mid, naming, csvDir, shpDir, files, rest, path);
  }

  /** Two files converted in turn. */
  lemma ConvertTwo(st: ConvState, naming: Naming, csvDir: string, shpDir: string, files: map<string, Table>,
                   first: string, second: string)
    ensures ConvertProcess(st, naming, csvDir, shpDir, files, [first, second]) ==
            ConvertStep(ConvertStep(st, naming, csvDir, shpDir, files, first), naming, csvDir, shpDir, files, second)
  {
    var names := [first, second];
    assert names[..|names| - 1] == [first] && names[|names| - 1] == second;
    assert [first][..0] == [];
    assert ConvertProcess(st, naming, csvDir, shpDir, files, [first]) ==
           ConvertStep(ConvertProcess(st, naming, csvDir, shpDir, files, []), naming, csvDir, shpDir, files, first);
  }

  /** As written, converting "abc.csv" and then "ab.csv" leaves one layer "ab"
      holding only ab.csv's features; abc.csv's features are lost, and no
      layer named after abc.csv is created or changed. */
  lemma AsWrittenLosesLayer(st: ConvState, csvDir: string, shpDir: string, files: map<string, Table>, stem: string, t: string)
    requires st.failure.None?
    requires stem != [] && t != [] && '.' !in stem + t
    requires forall k :: 0 <= k < |t| ==> t[k] in CsvExtension
    requires stem[|stem| - 1] !in CsvExtension
    requires FileFeatures(csvDir, files, stem + t + CsvExtension).Ok? && FileFeatures(csvDir, files, stem + CsvExtension).Ok?
    ensures var first, second := stem + t + CsvExtension, stem + CsvExtension;
            var final := ConvertProcess(st, AsWritten, csvDir, shpDir, files, [first, second]);
            var shared, own := ShpPath(shpDir, OutputBaseAsWritten(first)), ShpPath(shpDir, OutputBase(first));
            final.failure.None? && shared in final.layers &&
            final.layers[shared] == FileFeatures(csvDir, files, second).value &&
            (own in final.layers <==> own in st.layers) && (own in st.layers ==> final.layers[own] == st.layers[own])
  {
    var first, second := stem + t + CsvExtension, stem + CsvExtension;
    AsWrittenCollides(stem, t);
    AsWrittenEatsStem(stem, t);
    ConvertTwo(st, AsWritten, csvDir, shpDir, files, first, second);
    var shared, own := ShpPath(shpDir, OutputBaseAsWritten(first)), ShpPath(shpDir, OutputBase(first));
    if own == shared {
      ShpPathInjective(shpDir, OutputBase(first), OutputBaseAsWritten(first));
    }
  }

  /** Named by the stem, the same two files keep a layer each. */
  lemma CorrectedKeepsBothLayers(st: ConvState, csvDir: string, shpDir: string, files: map<string, Table>, stem: string, t: string)
    requires st.failure.None?
    requires stem != [] && t != [] && '.' !in stem + t
    requires forall k :: 0 <= k < |t| ==> t[k] in CsvExtension
    requires stem[|stem| - 1] !in CsvExtension
    requires FileFeatures(csvDir, files, stem + t + CsvExtension).Ok? && FileFeatures(csvDir, files, stem + CsvExtension).Ok?
    ensures var first, second := stem + t + CsvExtension, stem + CsvExtension;
            var final := ConvertProcess(st, Corrected, csvDir, shpDir, files, [first, second]);
            var p1, p2 := ShpPath(shpDir, OutputBase(first)), ShpPath(shpDir, OutputBase(second));
            p1 != p2 && p1 in final.layers && p2 in final.layers &&
            final.layers[p1] == FileFeatures(csvDir, files, first).value &&
            final.layers[p2] == FileFeatures(csvDir, files, second).value
  {
    var first, second := stem + t + CsvExtension, stem + CsvExtension;
    AsWrittenCollides(stem, t);
    ConvertTwo(st, Corrected, csvDir, shpDir, files, first, second);
    var names := [first, second];
    ConvertFinalLayer(st, Corrected, csvDir, shpDir, files, names, 0);
    ConvertFinalLayer(st, Corrected, csvDir, shpDir, files, names, 1);
    if ShpPath(shpDir, OutputBase(first)) == ShpPath(shpDir, OutputBase(second)) {
      ShpPathInjective(shpDir, OutputBase(first), OutputBase(second));
    }
  }

  /** Files whose layer is another one leave a layer as it is, error or not. */
  lemma {:induction false} ProcessKeepsLayer(st: ConvState, naming: Naming, csvDir: string, shpDir: string, files: map<string, Table>,
                                             names: seq<string>, p: string)
    requires p in st.layers
    requires forall j :: 0 <= j < |names| ==> ShpPath(shpDir, LayerBase(naming, names[j])) != p
    ensures p in ConvertProcess(st, naming, csvDir, shpDir, files, names).layers
    ensures ConvertProcess(st, naming, csvDir, shpDir, files, names).layers[p] == st.layers[p]
  {
    if names != [] {
      var front, last := names[..|names| - 1], names[|names| - 1];
      assert forall j :: 0 <= j < |front| ==> front[j] == names[j];
      ProcessKeepsLayer(st, naming, csvDir, shpDir, files, front, p);
      StepKeepsLayer(ConvertProcess(st, naming, csvDir, shpDir, files, front), naming, csvDir, shpDir, files, last, p);
    }
  }

  /** A run that ends without error had no error after any prefix. */
  lemma {:induction false} ProcessPrefixOk(st: ConvState, naming: Naming, csvDir: string, shpDir: string, files: map<string, Table>,
                                           a: seq<string>, b: seq<string>)
    requires ConvertProcess(ConvertProcess(st, naming, csvDir, shpDir, files, a), naming, csvDir, shpDir, files, b).failure.None?
    ensures ConvertProcess(st, naming, csvDir, shpDir, files, a).failure.None?
  {
    if b != [] {
      var mid := ConvertProcess(st, naming, csvDir, shpDir, files, a);
      StepSucceeded(ConvertProcess(mid, naming, csvDir, shpDir, files, b[..|b| - 1]), naming, csvDir, shpDir, files, b[|b| - 1]);
      ProcessPrefixOk(st, naming, csvDir, shpDir, files, a, b[..|b| - 1]);
    }
  }

  /** A step ends without error only if the run before it did. */
  lemma StepSucceeded(st: ConvState, naming: Naming, csvDir: string, shpDir: string, files: map<string, Table>, name: string)
    requires ConvertStep(st, naming, csvDir, shpDir, files, name).failure.None?
    ensures st.failure.None? && FileFeatures(csvDir, files, name).Ok?
  {
  }

  /** A step that ends without error leaves its file's features in its layer. */
  lemma StepFillsLayer(st: ConvState, naming: Naming, csvDir: string, shpDir: string, files: map<string, Table>, name: string)
    requires ConvertStep(st, naming, csvDir, shpDir, files, name).failure.None?
    ensures FileFeatures(csvDir, files, name).Ok?
    ensures var path := ShpPath(shpDir, LayerBase(naming, name));
            path in ConvertStep(st, naming, csvDir, shpDir, files, name).layers &&
            ConvertStep(st, naming, csvDir, shpDir, files, name).layers[path] == FileFeatures(csvDir, files, name).value
  {
  }

  lemma StepKeepsLayer(st: ConvState, naming: Naming, csvDir: string, shpDir: string, files: map<string, Table>, name: string, p: string)
    requires p != ShpPath(shpDir, LayerBase(naming, name)) && p in st.layers
    ensures p in ConvertStep(st, naming, csvDir, shpDir, files, name).layers
    ensures ConvertStep(st, naming, csvDir, shpDir, files, name).layers[p] == st.layers[p]
  {
  }

  // ---------------------------------------------------------------------------
  // The shapefile workspace

  /** The shapefiles of the output directory, each a sequence of point features. */
  class ShapeWorkspace {
    var layers: map<string, seq<Feature>>

    constructor (existing: map<string, seq<Feature>>)
      ensures layers == existing
    {
      layers := existing;
    }

    /** Lines 99-103: delete the shapefile if it exists, then create it empty. */
    method Rebuild(path: string)
      modifies this
      ensures layers == old(layers)[path := []]
    {
      if path in layers {
        layers := map p | p in layers && p != path :: layers[p];
      }
      layers := layers[path := []];
    }

    /** Lines 157-183: one new feature per row, appended in row order. */
    method InsertRows(path: string, rows: seq<Row>)
      requires path in layers
      modifies this
      ensures layers == old(layers)[path := old(layers)[path] + Features(rows)]
    {
      assert old(layers)[path] + Features(rows[..0]) == old(layers)[path];
      for i := 0 to |rows|
        invariant layers == old(layers)[path := old(layers)[path] + Features(rows[..i])]
      {
        var feature := FeatureOf(rows[i]);
        assert Features(rows[..i + 1]) == Features(rows[..i]) + [feature];
        assert layers[path] + [feature] == old(layers)[path] + Features(rows[..i + 1]);
        layers := layers[path := layers[path] + [feature]];
      }
      assert rows[..|rows|] == rows;
    }

    /** The body of the per-file loop (lines 64-190). */
    method ConvertFile(csvDir: string, shpDir: string, files: map<string, Table>, name: string)
      returns (failure: Option<Error>)
      modifies this
      ensures ConvertStep(ConvState(old(layers), None), AsWritten, csvDir, shpDir, files, name) == ConvState(layers, failure)
    {
      var path := ShpPath(shpDir, OutputBaseAsWritten(name));
      Rebuild(path);
      if name !in files {
        return Some(FileNotFound(Join(csvDir, name)));
      }
      var df := ReadPointColumns(files[name]);
      if df.Err? {
        return Some(df.error);
      }
      var rows := DropDuplicates(df.value.rows);
      assert FileFeatures(csvDir, files, name) == Ok(Features(rows));
      assert [] + Features(rows) == Features(rows);
      InsertRows(path, rows);
      return None;
    }

    /** Lines 43-190: every listed "*.csv" file in listing order. An uncaught error ends the loop. */
    method ConvertAll(csvDir: string, shpDir: string, listing: seq<string>, files: map<string, Table>)
      returns (selected: seq<string>, failure: Option<Error>)
      modifies this
      ensures selected == Glob(listing, CsvExtension)
      ensures ConvertProcess(ConvState(old(layers), None), AsWritten, csvDir, shpDir, files, selected) == ConvState(layers, failure)
    {
      selected := Glob(listing, CsvExtension);
      ghost var init := ConvState(layers, None);
      failure := None;
      assert selected[..0] == [];
      for i := 0 to |selected|
        invariant failure.None?
        invariant ConvertProcess(init, AsWritten, csvDir, shpDir, files, selected[..i]) == ConvState(layers, None)
      {
        ConvertSnoc(init, AsWritten, csvDir, shpDir, files, selected, i);
        failure := ConvertFile(csvDir, shpDir, files, selected[i]);
        if failure.Some? {
          assert selected == selected[..i + 1] + selected[i + 1..];
          ConvertSplit(init, AsWritten, csvDir, shpDir, files, selected[..i + 1], selected[i + 1..]);
          ConvertFailureSticks(ConvState(layers, failure), AsWritten, csvDir, shpDir, files, selected[i + 1..]);
          return;
        }
      }
      assert selected[..|selected|] == selected;
    }
  }

  lemma {:induction false} ConvertSplit(st: ConvState, naming: Naming, csvDir: string, shpDir: string, files: map<string, Table>, a: seq<string>, b: seq<string>)
    ensures ConvertProcess(st, naming, csvDir, shpDir, files, a + b) ==
            ConvertProcess(ConvertProcess(st, naming, csvDir, shpDir, files, a), naming, csvDir, shpDir, files, b)
  {
    if b == [] {
      assert a + b == a;
    } else {
      ConvertSplit(st, naming, csvDir, shpDir, files, a, b[..|b| - 1]);
      assert (a + b)[..|a + b| - 1] == a + b[..|b| - 1];
    }
  }
}

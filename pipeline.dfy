/** How the scripts meet: the extraction script reads, from the archive
    directory it is given, the combined files the download script writes into
    its "areas" subdirectory. */
module Pipeline {
  import opened Tables
  import opened Strings
  import D = Downloader
  import E = Extractor

  /** The archive directory the extraction script is pointed at: "areas" inside
      the download script's output directory. */
  function AreasDir(outDir: string): string {
    Join(outDir, D.AreasDirName)
  }

  /** The intended combined file of an area is the very file the extraction
      script opens for that area. */
  lemma CombinedMatchesArchive(outDir: string, area: string)
    ensures D.CombinedPath(outDir, area) == E.ArchivePath(AreasDir(outDir), area)
  {
    var a := AreasDir(outDir);
    assert a[|a| - 1] == 's';
    assert D.CombinedName(area) == "alldata_" + area + ".csv";
  }

  /** The combined file as written is never a file the extraction script opens,
      whatever the two areas: where one has U+0007 the other has a backslash. */
  lemma AsWrittenMissesArchive(outDir: string, area: string, other: string)
    ensures D.CombinedPathAsWritten(outDir, area) != E.ArchivePath(AreasDir(outDir), other)
  {
    var a := AreasDir(outDir);
    var w := D.CombinedPathAsWritten(outDir, area);
    assert w == a + ("\U{7}lldata_" + area + D.CsvExtension);
    assert w[|a|] == '\U{7}';
  }

  /** The archive directory holds (at least) the files of "areas", under their paths. */
  ghost predicate Mounted(archive: map<string, Table>, outDir: string, areaFiles: map<string, Table>) {
    forall n :: n in areaFiles ==>
      Join(AreasDir(outDir), n) in archive && archive[Join(AreasDir(outDir), n)] == areaFiles[n]
  }

  /** In the corrected pipeline (the combine loop writing the names the
      extraction script expects, and data_filter returning its result): after
      a completed combine loop, extracting an area the catalogue labels as
      "Label (CODE)" finds its combined file and works on the concatenation of
      that area's downloaded slices, and on nothing else. */
  lemma ExtractReadsCombined(st: D.CombineState, catalogue: seq<D.AreaEntry>, areas: seq<string>, i: nat,
                             archive: map<string, Table>, outDir: string, areaLabel: string,
                             resultDir: string, start: string, end: string, locs: seq<Cell>, memoryError: bool)
    requires D.IntendedCombineProcess(st, catalogue, areas).failure.None?
    requires i < |areas|
    requires Mounted(archive, outDir, D.IntendedCombineProcess(st, catalogue, areas).areaFiles)
    requires '(' !in areaLabel && ')' !in areaLabel && ')' !in areas[i]
    ensures var eaArea := areaLabel + " (" + areas[i] + ")";
            var path := E.ArchivePath(AreasDir(outDir), areas[i]);
            D.CombineArea(st.dir, areas[i]).Ok? &&
            E.Extract(archive, AreasDir(outDir), eaArea, resultDir, start, end, locs, memoryError) ==
            E.Extract(map[path := D.CombineArea(st.dir, areas[i]).value], AreasDir(outDir), eaArea, resultDir, start, end, locs, memoryError)
  {
    var c := D.IntendedCombineProcess(st, catalogue, areas);
    D.IntendedContents(st, catalogue, areas);
    var name := D.CombinedName(areas[i]);
    assert name in c.areaFiles;
    CombinedMatchesArchive(outDir, areas[i]);
    E.AreaNotationOfLabel(areaLabel, areas[i]);
    var path := E.ArchivePath(AreasDir(outDir), areas[i]);
    assert path == Join(AreasDir(outDir), name);
    assert path in archive && archive[path] == D.CombineArea(st.dir, areas[i]).value;
  }

  /** The files the download script would leave, as written, even on a
      platform that accepted line 261's name: entries of the output directory. */
  function AsWrittenArchive(outDir: string, areas: seq<string>): set<string> {
    set a | a in areas :: D.CombinedPathAsWritten(outDir, a)
  }

  /** So even there, an archive directory holding only those files gives the
      extraction script nothing to open, for any area. */
  lemma AsWrittenArchiveNotFound(archive: map<string, Table>, outDir: string, areas: seq<string>, eaArea: string,
                                 resultDir: string, start: string, end: string, locs: seq<Cell>, memoryError: bool)
    requires archive.Keys <= AsWrittenArchive(outDir, areas)
    ensures var path := E.ArchivePath(AreasDir(outDir), E.AreaNotation(eaArea));
            E.ExtractAsWritten(archive, AreasDir(outDir), eaArea, resultDir, start, end, locs, memoryError) == Err(FileNotFound(path))
  {
    var path := E.ArchivePath(AreasDir(outDir), E.AreaNotation(eaArea));
    forall a | a in areas ensures D.CombinedPathAsWritten(outDir, a) != path {
      AsWrittenMissesArchive(outDir, a, E.AreaNotation(eaArea));
    }
    assert path !in AsWrittenArchive(outDir, areas);
  }

  /** The archive directory holds exactly the files of "areas", under their paths. */
  ghost predicate MountedExactly(archive: map<string, Table>, outDir: string, areaFiles: map<string, Table>) {
    Mounted(archive, outDir, areaFiles) &&
    forall p :: p in archive ==> exists n :: n in areaFiles && p == Join(AreasDir(outDir), n)
  }

  /** The scripts as written: a first run starts with an empty "areas", the
      combine loop leaves it empty, so the extraction script pointed at it
      finds no file for any area. */
  lemma AsWrittenRunFindsNothing(st: D.CombineState, catalogue: seq<D.AreaEntry>, areas: seq<string>,
                                 archive: map<string, Table>, outDir: string, eaArea: string,
                                 resultDir: string, start: string, end: string, locs: seq<Cell>, memoryError: bool)
    requires st.areaFiles == map[]
    requires MountedExactly(archive, outDir, D.CombineProcess(st, catalogue, areas).areaFiles)
    ensures var path := E.ArchivePath(AreasDir(outDir), E.AreaNotation(eaArea));
            E.ExtractAsWritten(archive, AreasDir(outDir), eaArea, resultDir, start, end, locs, memoryError) == Err(FileNotFound(path))
  {
    D.CombineEndsAtFirst(st, catalogue, areas);
    var path := E.ArchivePath(AreasDir(outDir), E.AreaNotation(eaArea));
    assert path !in archive;
  }
}

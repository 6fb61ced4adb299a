/** The decision logic of the restart tool, which fills the exam database.
    For every exam file it reads the header from the converted markdown,
    cleans it up and lets the language model parse it. It finds each file's
    subject directory and asks the model once per directory for its subject
    and year. It then inserts one exam, answer or other row per file,
    according to the parsed material type. The model's answers and the
    database identifiers are inputs. */
module Restart {
  import opened Wrappers
  import opened Strings
  import opened ExamFiles

  // ---------------------------------------------------------------------
  // The subject directory of a file

  /** The exam root that file paths start with. */
  const ExamRoot := "../../exams/markdown/"

  /** getSubjectDirectoryOfFile: the path with the exam root trimmed off,
      up to its first '/'. */
  function SubjectDirectory(file: PdfFile): (r: string)
    ensures '/' !in r
  {
    FirstSegment(TrimPrefix(file.path, ExamRoot), '/')
  }

  /** A file under the exam root belongs to the directory right below it. */
  lemma SubjectDirectoryUnderRoot(d: string, rest: string, name: string)
    requires '/' !in d
    ensures SubjectDirectory(PdfFile(ExamRoot + d + "/" + rest, name)) == d
  {
    var path := ExamRoot + d + "/" + rest;
    assert path[..|ExamRoot|] == ExamRoot;
    assert TrimPrefix(path, ExamRoot) == d + ['/'] + rest;
    FirstSegmentOfJoin(d, '/', rest);
  }

  /** A path outside the exam root is not trimmed: its own first segment is
      the directory. */
  lemma SubjectDirectoryOutsideRoot(file: PdfFile)
    requires !HasPrefix(file.path, ExamRoot)
    ensures SubjectDirectory(file) == FirstSegment(file.path, '/')
  {
  }

  // ---------------------------------------------------------------------
  // The header of a file

  /** The header fields the model extracts. */
  datatype HeaderExam = HeaderExam(
    examType: string,
    materialType: string,
    taskLabel: string,
    difficulty: string,
    workTime: int)

  /** The header of a file that was not scanned: Go's zero value. */
  const ZeroHeader := HeaderExam("", "", "", "", 0)

  /** The header of a scanned file in which no header line was found. */
  const FallbackHeader := HeaderExam("", "other", "", "", -1)

  /** A line starts the header iff it mentions "Zentralabitur" or
      "Erwartungshorizont". */
  predicate IsHeaderLine(line: string) {
    Contains(line, "Zentralabitur") || Contains(line, "Erwartungshorizont")
  }

  /** The header test, in terms of positions: one of the two words occurs
      somewhere in the line. */
  lemma HeaderLineOccurs(line: string)
    ensures IsHeaderLine(line) <==>
      (exists i :: OccursAt(line, "Zentralabitur", i)) || (exists i :: OccursAt(line, "Erwartungshorizont", i))
  {
    ContainsAt(line, "Zentralabitur");
    ContainsAt(line, "Erwartungshorizont");
  }

  /** The scanner's text for line i: past the end of the file, the empty
      string. */
  function LineAt(lines: seq<string>, i: nat): string {
    if i < |lines| then lines[i] else ""
  }

  /** The first n lines from line k, each followed by a newline. */
  function HeaderText(lines: seq<string>, k: nat, n: nat): (r: string)
    ensures n > 0 ==> HasPrefix(r, HeaderText(lines, k, n - 1))
    decreases n
  {
    if n == 0 then "" else HeaderText(lines, k, n - 1) + LineAt(lines, k + n - 1) + "\n"
  }

  /** The header line and the seven lines after it. */
  const HeaderLength := 8

  /** The cleanup chain: line breaks, tabs and newlines become spaces, double
      spaces are collapsed once and bold markers dropped. The result holds no
      tab and no newline and is never longer than the header. */
  function CleanHeader(h: string): (r: string)
    ensures '\t' !in r && '\n' !in r
    ensures |r| <= |h|
  {
    var s1 := ReplaceAll(h, "<br>", " ");
    var s2 := ReplaceAll(s1, "\t", " ");
    var s3 := ReplaceAll(s2, "\n", " ");
    var s4 := ReplaceAll(s3, "  ", " ");
    var s5 := ReplaceAll(s4, "**", "");
    ReplaceAllNotLonger(h, "<br>", " ");
    ReplaceAllNotLonger(s1, "\t", " ");
    ReplaceAllNotLonger(s2, "\n", " ");
    ReplaceAllNotLonger(s3, "  ", " ");
    ReplaceAllNotLonger(s4, "**", "");
    ReplaceAllRemovesChar(s1, '\t', " ");
    ReplaceAllRemovesChar(s2, '\n', " ");
    ReplaceAllKeepsAbsent(s2, "\n", " ", '\t');
    ReplaceAllKeepsAbsent(s3, "  ", " ", '\t');
    ReplaceAllKeepsAbsent(s3, "  ", " ", '\n');
    ReplaceAllKeepsAbsent(s4, "**", "", '\t');
    ReplaceAllKeepsAbsent(s4, "**", "", '\n');
    s5
  }

  /** Which lines are header lines. */
  function HeaderFlags(lines: seq<string>): (r: seq<bool>)
    ensures |r| == |lines|
  {
    seq(|lines|, i requires 0 <= i < |lines| => IsHeaderLine(lines[i]))
  }

  /** The first header line of the file, if any. */
  function FirstHeaderLine(lines: seq<string>): (r: Option<nat>)
    ensures r.Some? ==> r.value < |lines| && IsHeaderLine(lines[r.value])
    ensures r.Some? ==> forall j :: 0 <= j < r.value ==> !IsHeaderLine(lines[j])
    ensures r.None? ==> forall j :: 0 <= j < |lines| ==> !IsHeaderLine(lines[j])
  {
    var flags := HeaderFlags(lines);
    assert forall j :: 0 <= j < |lines| ==> flags[j] == IsHeaderLine(lines[j]);
    FirstTrue(flags, 0)
  }

  /** The header the worker records for a file: the zero header when the
      header mapping is already saved (no scanning); otherwise the model's
      parse of the cleaned first header, or the fallback when no line is a
      header line. None is the fatal exit when the model's answer does not
      parse. */
  function FileHeader(lines: seq<string>, headerMappingSaved: bool, parse: string -> Option<HeaderExam>): Option<HeaderExam> {
    if headerMappingSaved then Some(ZeroHeader)
    else match FirstHeaderLine(lines)
      case None => Some(FallbackHeader)
      case Some(k) => parse(CleanHeader(HeaderText(lines, k, HeaderLength)))
  }

  /** None of the first n lines is a header line. */
  predicate NoHeaderBefore(lines: seq<string>, n: nat) {
    forall j :: 0 <= j < n && j < |lines| ==> !IsHeaderLine(lines[j])
  }

  /** A scanned file without header line gets the fallback header: material
      type "other", work time -1 and empty exam type, task label and
      difficulty. */
  lemma NoHeaderLineFallback(lines: seq<string>, parse: string -> Option<HeaderExam>)
    requires NoHeaderBefore(lines, |lines|)
    ensures FileHeader(lines, false, parse) == Some(HeaderExam("", "other", "", "", -1))
  {
  }

  /** The model parses the first header line and the seven lines after it
      (empty past the end of the file), cleaned up, so without tabs or
      newlines. */
  lemma FirstHeaderParsed(lines: seq<string>, parse: string -> Option<HeaderExam>, k: nat)
    requires k < |lines| && IsHeaderLine(lines[k])
    requires NoHeaderBefore(lines, k)
    ensures FileHeader(lines, false, parse) == parse(CleanHeader(HeaderText(lines, k, HeaderLength)))
    ensures '\t' !in CleanHeader(HeaderText(lines, k, HeaderLength))
    ensures '\n' !in CleanHeader(HeaderText(lines, k, HeaderLength))
  {
    FirstTrueAt(HeaderFlags(lines), 0, k);
  }

  /** Reading the seven lines after the header line at k: each scan that
      finds no more line leaves the position at the end and yields the empty
      text. */
  method ReadHeader(lines: seq<string>, k: nat) returns (headerString: string, pos: nat)
    requires k < |lines|
    ensures headerString == HeaderText(lines, k, HeaderLength)
    ensures pos == if k + HeaderLength < |lines| then k + HeaderLength else |lines|
  {
    headerString := lines[k] + "\n";
    pos := k + 1;
    assert headerString == HeaderText(lines, k, 1);
    for i := 1 to HeaderLength
      invariant pos == if k + i < |lines| then k + i else |lines|
      invariant headerString == HeaderText(lines, k, i)
    {
      var text := if pos < |lines| then lines[pos] else "";
      if pos < |lines| {
        pos := pos + 1;
      }
      headerString := headerString + text + "\n";
    }
  }

  /** The cleanup chain as the worker runs it, one replacement at a time. */
  method CleanUp(header: string) returns (headerString: string)
    ensures headerString == CleanHeader(header)
  {
    headerString := ReplaceAll(header, "<br>", " ");
    headerString := ReplaceAll(headerString, "\t", " ");
    headerString := ReplaceAll(headerString, "\n", " ");
    headerString := ReplaceAll(headerString, "  ", " ");
    headerString := ReplaceAll(headerString, "**", "");
  }

  /** A line that is no header line extends the header-free prefix. */
  lemma NoHeaderStep(lines: seq<string>, n: nat)
    requires n < |lines| && NoHeaderBefore(lines, n) && !IsHeaderLine(lines[n])
    ensures NoHeaderBefore(lines, n + 1)
  {
  }

  /** The block for a detected header at line k: read it, clean it up and let
      the model parse it. pos is where the scanner stands afterwards. */
  method ParseHeaderAt(lines: seq<string>, k: nat, parse: string -> Option<HeaderExam>)
    returns (parsed: Option<HeaderExam>, pos: nat)
    requires k < |lines|
    ensures parsed == parse(CleanHeader(HeaderText(lines, k, HeaderLength)))
    ensures k < pos <= |lines|
  {
    var headerString;
    headerString, pos := ReadHeader(lines, k);
    headerString := CleanUp(headerString);
    parsed := parse(headerString);
  }

  /** The worker's scan of one file. The loop runs while the scanner has a
      line and the searching flag is set; a header line makes it read the
      next seven lines, clean the text up step by step and hand it to the
      model, and clears the flag. */
  method ScanFileHeader(lines: seq<string>, headerMappingSaved: bool, parse: string -> Option<HeaderExam>)
    returns (header: Option<HeaderExam>)
    ensures header == FileHeader(lines, headerMappingSaved, parse)
  {
    ghost var expected := FileHeader(lines, headerMappingSaved, parse);
    var current := ZeroHeader;
    var searching := !headerMappingSaved;
    var pos := 0;
    while pos < |lines| && searching
      invariant 0 <= pos <= |lines|
      invariant searching ==> !headerMappingSaved && NoHeaderBefore(lines, pos)
      invariant !searching ==> Some(current) == expected
      decreases |lines| - pos
    {
      var line := lines[pos];
      pos := pos + 1;
      if IsHeaderLine(line) {
        FirstHeaderParsed(lines, parse, pos - 1);
        var parsed;
        parsed, pos := ParseHeaderAt(lines, pos - 1, parse);
        if parsed.None? {
          return None;
        }
        current := parsed.value;
        searching := false;
      } else {
        NoHeaderStep(lines, pos - 1);
      }
    }
    if searching {
      NoHeaderLineFallback(lines, parse);
      current := FallbackHeader;
    }
    return Some(current);
  }

  // ---------------------------------------------------------------------
  // Subject and year per directory, looked up once

  /** The model's answer for a directory name. */
  datatype SubjectYear = SubjectYear(subjectName: string, year: int)

  /** The subject directory of every file, in result order. */
  function Directories(files: seq<PdfFile>): (r: seq<string>)
    ensures |r| == |files|
    ensures forall i :: 0 <= i < |files| ==> r[i] == SubjectDirectory(files[i])
  {
    seq(|files|, i requires 0 <= i < |files| => SubjectDirectory(files[i]))
  }

  /** No element occurs twice. */
  predicate NoDuplicates(s: seq<string>) {
    forall i, j :: 0 <= i < j < |s| ==> s[i] != s[j]
  }

  /** The distinct elements, in order of first occurrence. */
  function FirstOccurrences(ds: seq<string>): seq<string>
    decreases |ds|
  {
    if ds == [] then []
    else
      var init := FirstOccurrences(ds[..|ds| - 1]);
      var last := ds[|ds| - 1];
      if last in ds[..|ds| - 1] then init else init + [last]
  }

  /** The first occurrences hold every element once and nothing else. */
  lemma {:induction false} FirstOccurrencesDistinct(ds: seq<string>)
    ensures NoDuplicates(FirstOccurrences(ds))
    ensures forall d :: d in FirstOccurrences(ds) <==> d in ds
    ensures |FirstOccurrences(ds)| <= |ds|
    decreases |ds|
  {
    if ds != [] {
      var init := ds[..|ds| - 1];
      FirstOccurrencesDistinct(init);
      assert ds == init + [ds[|ds| - 1]];
    }
  }

  /** The first occurrences of a prefix are a prefix of the first
      occurrences. */
  lemma {:induction false} FirstOccurrencesOfPrefix(ds: seq<string>, n: nat)
    requires n <= |ds|
    ensures FirstOccurrences(ds[..n]) <= FirstOccurrences(ds)
    decreases |ds| - n
  {
    if n < |ds| {
      FirstOccurrencesOfPrefix(ds, n + 1);
      assert ds[..n + 1][..n] == ds[..n];
    } else {
      assert ds[..n] == ds;
    }
  }

  /** One more directory extends the first occurrences iff it is new. */
  lemma FirstOccurrencesSnoc(ds: seq<string>, i: nat)
    requires i < |ds|
    ensures FirstOccurrences(ds[..i + 1]) ==
      if ds[i] in ds[..i] then FirstOccurrences(ds[..i]) else FirstOccurrences(ds[..i]) + [ds[i]]
  {
    assert ds[..i + 1][..i] == ds[..i];
  }

  /** The state of the mapping loop after the first i files: the mapping
      holds their directories with the model's answers, and the lookups made
      are their first occurrences. */
  ghost predicate Memoised(dirs: seq<string>, i: nat, m: map<string, SubjectYear>, lookups: seq<string>,
                           lookup: string -> Option<SubjectYear>)
    requires i <= |dirs|
  {
    && m.Keys == (set d | d in dirs[..i])
    && lookups == FirstOccurrences(dirs[..i])
    && (forall d :: d in m ==> lookup(d) == Some(m[d]))
    && (forall k :: 0 <= k < i ==> lookup(dirs[k]).Some?)
  }

  /** A directory already in the mapping is not looked up again. */
  lemma MemoHit(dirs: seq<string>, i: nat, m: map<string, SubjectYear>, lookups: seq<string>,
                lookup: string -> Option<SubjectYear>)
    requires i < |dirs| && Memoised(dirs, i, m, lookups, lookup) && dirs[i] in m
    ensures Memoised(dirs, i + 1, m, lookups, lookup)
  {
    FirstOccurrencesSnoc(dirs, i);
    assert dirs[..i + 1] == dirs[..i] + [dirs[i]];
  }

  /** A new directory is looked up and its answer stored. */
  lemma MemoMiss(dirs: seq<string>, i: nat, m: map<string, SubjectYear>, lookups: seq<string>,
                 lookup: string -> Option<SubjectYear>)
    requires i < |dirs| && Memoised(dirs, i, m, lookups, lookup) && dirs[i] !in m
    requires lookup(dirs[i]).Some?
    ensures Memoised(dirs, i + 1, m[dirs[i] := lookup(dirs[i]).value], lookups + [dirs[i]], lookup)
  {
    FirstOccurrencesSnoc(dirs, i);
    assert dirs[..i + 1] == dirs[..i] + [dirs[i]];
  }

  /** A failed lookup ends the loop: the lookups made, this one included,
      are still distinct and a prefix of all first occurrences. */
  lemma MemoFail(files: seq<PdfFile>, i: nat, m: map<string, SubjectYear>, lookups: seq<string>,
                 lookup: string -> Option<SubjectYear>)
    requires i < |files| && Memoised(Directories(files), i, m, lookups, lookup)
    requires SubjectDirectory(files[i]) !in m && lookup(SubjectDirectory(files[i])).None?
    ensures NoDuplicates(lookups + [SubjectDirectory(files[i])])
    ensures lookups + [SubjectDirectory(files[i])] <= FirstOccurrences(Directories(files))
    ensures exists k :: 0 <= k < |files| && lookup(SubjectDirectory(files[k])).None?
  {
    var dirs := Directories(files);
    FirstOccurrencesSnoc(dirs, i);
    FirstOccurrencesOfPrefix(dirs, i + 1);
    FirstOccurrencesDistinct(dirs[..i + 1]);
  }

  /** After the last file, the mapping holds exactly the directories and the
      lookups are their first occurrences. */
  lemma MemoDone(files: seq<PdfFile>, m: map<string, SubjectYear>, lookups: seq<string>,
                 lookup: string -> Option<SubjectYear>)
    requires Memoised(Directories(files), |files|, m, lookups, lookup)
    ensures NoDuplicates(lookups) && lookups == FirstOccurrences(Directories(files))
    ensures forall d :: d in m <==> d in Directories(files)
    ensures forall d :: d in m ==> lookup(d) == Some(m[d])
    ensures forall k :: 0 <= k < |files| ==> lookup(SubjectDirectory(files[k])).Some?
  {
    var dirs := Directories(files);
    assert dirs[..|files|] == dirs;
    FirstOccurrencesDistinct(dirs);
  }

  /** The mapping loop: each file's directory is looked up with the model
      only when it has no entry yet. The lookups are the distinct
      directories in order of first occurrence, so none is asked for twice;
      the mapping holds every directory with the model's answer. A failed
      lookup is the fatal exit (None) after the lookups made so far. */
  method MapDirectories(files: seq<PdfFile>, lookup: string -> Option<SubjectYear>)
    returns (mapping: Option<map<string, SubjectYear>>, lookups: seq<string>)
    ensures NoDuplicates(lookups)
    ensures lookups <= FirstOccurrences(Directories(files))
    ensures mapping.None? <==> exists i :: 0 <= i < |files| && lookup(SubjectDirectory(files[i])).None?
    ensures mapping.Some? ==> lookups == FirstOccurrences(Directories(files))
    ensures mapping.Some? ==> forall d :: d in mapping.value <==> d in Directories(files)
    ensures mapping.Some? ==> forall d :: d in mapping.value ==> lookup(d) == Some(mapping.value[d])
  {
    var dirs := Directories(files);
    var m: map<string, SubjectYear> := map[];
    lookups := [];
    for i := 0 to |files|
      invariant Memoised(dirs, i, m, lookups, lookup)
    {
      var subjectDirectoryName := SubjectDirectory(files[i]);
      if subjectDirectoryName !in m {
        var resp := lookup(subjectDirectoryName);
        if resp.None? {
          MemoFail(files, i, m, lookups, lookup);
          return None, lookups + [subjectDirectoryName];
        }
        MemoMiss(dirs, i, m, lookups, lookup);
        lookups := lookups + [subjectDirectoryName];
        m := m[subjectDirectoryName := resp.value];
      } else {
        MemoHit(dirs, i, m, lookups, lookup);
      }
    }
    MemoDone(files, m, lookups, lookup);
    mapping := Some(m);
  }

  // ---------------------------------------------------------------------
  // The material-type dispatch

  /** A worker's result: the file and its header. */
  datatype FileContent = FileContent(file: PdfFile, header: HeaderExam)

  /** A row inserted for a file; the embedding is not computed yet (-1). */
  datatype Row =
    | ExamRow(subjectId: int, fileId: int, embeddingId: int, examType: string,
              difficulty: string, taskLabel: string, workTime: int)
    | AnswerRow(subjectId: int, fileId: int, embeddingId: int)
    | OtherRow(fileId: int, subjectId: int, embeddingId: int)

  /** A Go map read: the zero value for a missing key. */
  function SubjectYearOf(mapping: map<string, SubjectYear>, d: string): SubjectYear {
    if d in mapping then mapping[d] else SubjectYear("", 0)
  }

  function IdOf(ids: map<string, int>, key: string): int {
    if key in ids then ids[key] else 0
  }

  /** The row a result asks for, by its material type. */
  function RowFor(result: FileContent, mapping: map<string, SubjectYear>,
                  subjectIds: map<string, int>, fileIds: map<string, int>): Option<Row>
  {
    var subject := IdOf(subjectIds, SubjectYearOf(mapping, SubjectDirectory(result.file)).subjectName);
    var file := IdOf(fileIds, result.file.path);
    var h := result.header;
    if h.materialType == "exam" then
      Some(ExamRow(subject, file, -1, h.examType, h.difficulty, h.taskLabel, h.workTime))
    else if h.materialType == "answer" then Some(AnswerRow(subject, file, -1))
    else if h.materialType == "other" then Some(OtherRow(file, subject, -1))
    else None
  }

  /** "exam", "answer" and "other" each ask for one row of their kind, for the
      subject of the file's directory and for the file, with no embedding;
      any other material type asks for none. */
  lemma DispatchKinds(result: FileContent, mapping: map<string, SubjectYear>,
                      subjectIds: map<string, int>, fileIds: map<string, int>)
    ensures var r := RowFor(result, mapping, subjectIds, fileIds);
      && (r.Some? <==> result.header.materialType in {"exam", "answer", "other"})
      && (r.Some? ==> r.value.embeddingId == -1)
      && (r.Some? ==> (r.value.ExamRow? <==> result.header.materialType == "exam"))
      && (r.Some? ==> (r.value.AnswerRow? <==> result.header.materialType == "answer"))
      && (r.Some? ==> (r.value.OtherRow? <==> result.header.materialType == "other"))
      && (r.Some? ==>
           && r.value.fileId == IdOf(fileIds, result.file.path)
           && r.value.subjectId == IdOf(subjectIds, SubjectYearOf(mapping, SubjectDirectory(result.file)).subjectName))
      && (r.Some? && r.value.ExamRow? ==>
           && r.value.examType == result.header.examType
           && r.value.difficulty == result.header.difficulty
           && r.value.taskLabel == result.header.taskLabel
           && r.value.workTime == result.header.workTime)
  {
  }

  /** The rows the results ask for, in result order. */
  function Planned(results: seq<FileContent>, mapping: map<string, SubjectYear>,
                   subjectIds: map<string, int>, fileIds: map<string, int>): seq<Row>
    decreases |results|
  {
    if results == [] then []
    else
      var init := Planned(results[..|results| - 1], mapping, subjectIds, fileIds);
      match RowFor(results[|results| - 1], mapping, subjectIds, fileIds)
      case None => init
      case Some(row) => init + [row]
  }

  /** The rows the database takes. */
  function Kept(rows: seq<Row>, accepts: Row -> bool): seq<Row>
    decreases |rows|
  {
    if rows == [] then []
    else
      var init := Kept(rows[..|rows| - 1], accepts);
      var last := rows[|rows| - 1];
      if accepts(last) then init + [last] else init
  }

  /** A failed insert of exams and answers is fatal; one of others is not
      checked. */
  predicate Fatal(row: Row, accepts: Row -> bool) {
    !accepts(row) && !row.OtherRow?
  }

  /** No row is a fatal refusal. */
  predicate NoneFatal(rows: seq<Row>, accepts: Row -> bool) {
    forall row :: row in rows ==> !Fatal(row, accepts)
  }

  /** The state of the insert loop after the first i results: no fatal
      refusal yet, and the accepted rows inserted in order. */
  ghost predicate Inserting(results: seq<FileContent>, i: nat, mapping: map<string, SubjectYear>,
                            subjectIds: map<string, int>, fileIds: map<string, int>,
                            accepts: Row -> bool, inserted: seq<Row>)
    requires i <= |results|
  {
    && NoneFatal(Planned(results[..i], mapping, subjectIds, fileIds), accepts)
    && inserted == Kept(Planned(results[..i], mapping, subjectIds, fileIds), accepts)
  }

  /** A result whose row is taken, skipped or not asked for moves the loop on. */
  lemma InsertStep(results: seq<FileContent>, i: nat, mapping: map<string, SubjectYear>,
                   subjectIds: map<string, int>, fileIds: map<string, int>,
                   accepts: Row -> bool, inserted: seq<Row>)
    requires i < |results| && Inserting(results, i, mapping, subjectIds, fileIds, accepts, inserted)
    requires var row := RowFor(results[i], mapping, subjectIds, fileIds);
      row.Some? ==> !Fatal(row.value, accepts)
    ensures var row := RowFor(results[i], mapping, subjectIds, fileIds);
      Inserting(results, i + 1, mapping, subjectIds, fileIds, accepts,
        if row.Some? && accepts(row.value) then inserted + [row.value] else inserted)
  {
    PlannedSnoc(results, i, mapping, subjectIds, fileIds);
    var row := RowFor(results[i], mapping, subjectIds, fileIds);
    if row.Some? {
      KeptSnoc(Planned(results[..i], mapping, subjectIds, fileIds), row.value, accepts);
    }
  }

  /** A refused exam or answer row is a fatal refusal among all the rows. */
  lemma FatalStep(results: seq<FileContent>, i: nat, mapping: map<string, SubjectYear>,
                  subjectIds: map<string, int>, fileIds: map<string, int>, accepts: Row -> bool)
    requires i < |results|
    requires var row := RowFor(results[i], mapping, subjectIds, fileIds);
      row.Some? && Fatal(row.value, accepts)
    ensures !NoneFatal(Planned(results, mapping, subjectIds, fileIds), accepts)
  {
    PlannedSnoc(results, i, mapping, subjectIds, fileIds);
    PlannedPrefix(results, i + 1, mapping, subjectIds, fileIds, RowFor(results[i], mapping, subjectIds, fileIds).value);
  }

  /** The insert loop of the dispatch. accepts tells whether the database
      takes a row. ok is false iff an exam or answer row is refused, which
      ends the tool before the commit; a refused other row is skipped. When
      ok, the inserted rows are the accepted rows the results ask for, in
      order. */
  method InsertMaterials(results: seq<FileContent>, mapping: map<string, SubjectYear>,
                         subjectIds: map<string, int>, fileIds: map<string, int>, accepts: Row -> bool)
    returns (inserted: seq<Row>, ok: bool)
    ensures ok <==> NoneFatal(Planned(results, mapping, subjectIds, fileIds), accepts)
    ensures ok ==> inserted == Kept(Planned(results, mapping, subjectIds, fileIds), accepts)
  {
    inserted := [];
    for i := 0 to |results|
      invariant Inserting(results, i, mapping, subjectIds, fileIds, accepts, inserted)
    {
      var row := RowFor(results[i], mapping, subjectIds, fileIds);
      if row.Some? && !accepts(row.value) && !row.value.OtherRow? {
        FatalStep(results, i, mapping, subjectIds, fileIds, accepts);
        return inserted, false;
      }
      InsertStep(results, i, mapping, subjectIds, fileIds, accepts, inserted);
      if row.Some? && accepts(row.value) {
        inserted := inserted + [row.value];
      }
    }
    assert results[..|results|] == results;
    ok := true;
  }

  /** The results ask for at most one row each, and no row has an
      embedding yet. */
  lemma {:induction false} PlannedRows(results: seq<FileContent>, mapping: map<string, SubjectYear>,
                                       subjectIds: map<string, int>, fileIds: map<string, int>)
    ensures |Planned(results, mapping, subjectIds, fileIds)| <= |results|
    ensures forall row :: row in Planned(results, mapping, subjectIds, fileIds) ==> row.embeddingId == -1
    decreases |results|
  {
    if results != [] {
      PlannedRows(results[..|results| - 1], mapping, subjectIds, fileIds);
      DispatchKinds(results[|results| - 1], mapping, subjectIds, fileIds);
    }
  }

  /** One more result adds the row it asks for. */
  lemma PlannedSnoc(results: seq<FileContent>, i: nat, mapping: map<string, SubjectYear>,
                    subjectIds: map<string, int>, fileIds: map<string, int>)
    requires i < |results|
    ensures Planned(results[..i + 1], mapping, subjectIds, fileIds) ==
      match RowFor(results[i], mapping, subjectIds, fileIds)
      case None => Planned(results[..i], mapping, subjectIds, fileIds)
      case Some(row) => Planned(results[..i], mapping, subjectIds, fileIds) + [row]
  {
    assert results[..i + 1][..i] == results[..i];
  }

  lemma KeptSnoc(rows: seq<Row>, row: Row, accepts: Row -> bool)
    ensures Kept(rows + [row], accepts) == if accepts(row) then Kept(rows, accepts) + [row] else Kept(rows, accepts)
  {
    assert (rows + [row])[..|rows|] == rows;
  }

  /** A row asked for by a prefix of the results is asked for by all of them. */
  lemma {:induction false} PlannedPrefix(results: seq<FileContent>, n: nat, mapping: map<string, SubjectYear>,
                                         subjectIds: map<string, int>, fileIds: map<string, int>, row: Row)
    requires n <= |results|
    requires row in Planned(results[..n], mapping, subjectIds, fileIds)
    ensures row in Planned(results, mapping, subjectIds, fileIds)
    decreases |results| - n
  {
    if n < |results| {
      PlannedSnoc(results, n, mapping, subjectIds, fileIds);
      PlannedPrefix(results, n + 1, mapping, subjectIds, fileIds, row);
    } else {
      assert results[..n] == results;
    }
  }
}

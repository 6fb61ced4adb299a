/** The file-pair validator of the extractor mapper tool. The language model
    proposes, for a subject directory, groups of (answer file, exam file)
    pairs. A pair is taken when both files exist and neither has been used
    yet; taking it marks both files used in the file map. A proposal is kept,
    with all its pairs, as soon as it took at least one pair; otherwise the
    model is asked again. The model's successive answers are an input. */
module PairMapper {
  import opened Wrappers
  import opened ExamFiles

  /** A file of the walk with its used flag. */
  datatype TrackedFile = TrackedFile(path: string, name: string, alreadyUsed: bool)

  /** One proposed pair: the names of an answer file and of an exam file. */
  datatype FilePair = FilePair(answerPart: string, examPart: string)

  /** A kept subject: its directory name and the proposal's groups. */
  datatype Subject = Subject(subjectName: string, exams: seq<seq<FilePair>>)

  /** The walk's name-keyed files with the used flag cleared, as getExamFiles
      builds them in this tool. */
  function Untracked(files: map<string, PdfFile>): (r: map<string, TrackedFile>)
    ensures r.Keys == files.Keys
    ensures forall n :: n in r ==>
      && !r[n].alreadyUsed
      && r[n].path == files[n].path
      && r[n].name == files[n].name
  {
    map n | n in files :: TrackedFile(files[n].path, files[n].name, false)
  }

  /** The file exists and has not been used. */
  predicate Usable(fileMap: map<string, TrackedFile>, name: string) {
    name in fileMap && !fileMap[name].alreadyUsed
  }

  /** A pair is taken iff both its files are usable. */
  predicate Takes(fileMap: map<string, TrackedFile>, e: FilePair) {
    Usable(fileMap, e.answerPart) && Usable(fileMap, e.examPart)
  }

  /** The file map after one pair: a taken pair marks its two files used, each
      copied from the map before the step; a rejected pair changes nothing. */
  function Step(fileMap: map<string, TrackedFile>, e: FilePair): (r: map<string, TrackedFile>)
    ensures r.Keys == fileMap.Keys
    ensures !Takes(fileMap, e) ==> r == fileMap
    ensures Takes(fileMap, e) ==> r[e.answerPart].alreadyUsed && r[e.examPart].alreadyUsed
    ensures forall n :: n in fileMap && n != e.answerPart && n != e.examPart ==> r[n] == fileMap[n]
    ensures forall n :: n in fileMap ==>
      && r[n].path == fileMap[n].path
      && r[n].name == fileMap[n].name
      && (fileMap[n].alreadyUsed ==> r[n].alreadyUsed)
  {
    if Takes(fileMap, e) then
      var answerFile := fileMap[e.answerPart];
      var examFile := fileMap[e.examPart];
      fileMap[e.answerPart := answerFile.(alreadyUsed := true)][e.examPart := examFile.(alreadyUsed := true)]
    else
      fileMap
  }

  /** The file map after the pairs, in order. */
  function StepAll(fileMap: map<string, TrackedFile>, entries: seq<FilePair>): map<string, TrackedFile>
    decreases |entries|
  {
    if entries == [] then fileMap
    else Step(StepAll(fileMap, entries[..|entries| - 1]), entries[|entries| - 1])
  }

  /** Pair i is taken in the state its predecessors leave. */
  predicate TakenAt(fileMap: map<string, TrackedFile>, entries: seq<FilePair>, i: int)
    requires 0 <= i < |entries|
  {
    Takes(StepAll(fileMap, entries[..i]), entries[i])
  }

  /** Some pair is taken: the tool's dataIsCorrect, "any" and not "all". */
  predicate AnyTaken(fileMap: map<string, TrackedFile>, entries: seq<FilePair>) {
    exists i :: 0 <= i < |entries| && TakenAt(fileMap, entries, i)
  }

  /** Extending the pairs by one is one more step. */
  lemma StepAllSnoc(fileMap: map<string, TrackedFile>, entries: seq<FilePair>, j: nat)
    requires j < |entries|
    ensures StepAll(fileMap, entries[..j + 1]) == Step(StepAll(fileMap, entries[..j]), entries[j])
  {
    assert entries[..j + 1][..j] == entries[..j];
  }

  /** Processing pairs keeps the file names and paths, and never clears a used
      flag. */
  lemma {:induction false} StepAllMonotone(fileMap: map<string, TrackedFile>, entries: seq<FilePair>)
    ensures StepAll(fileMap, entries).Keys == fileMap.Keys
    ensures forall n :: n in fileMap ==>
      && StepAll(fileMap, entries)[n].path == fileMap[n].path
      && StepAll(fileMap, entries)[n].name == fileMap[n].name
      && (fileMap[n].alreadyUsed ==> StepAll(fileMap, entries)[n].alreadyUsed)
    decreases |entries|
  {
    if entries != [] {
      StepAllMonotone(fileMap, entries[..|entries| - 1]);
    }
  }

  /** A flag set after the first i pairs is still set after the first j. */
  lemma {:induction false} UsedStaysUsed(fileMap: map<string, TrackedFile>, entries: seq<FilePair>, i: nat, j: nat, n: string)
    requires i <= j <= |entries|
    requires n in StepAll(fileMap, entries[..i]) && StepAll(fileMap, entries[..i])[n].alreadyUsed
    ensures n in StepAll(fileMap, entries[..j]) && StepAll(fileMap, entries[..j])[n].alreadyUsed
    decreases j - i
  {
    if i < j {
      StepAllSnoc(fileMap, entries, i);
      UsedStaysUsed(fileMap, entries, i + 1, j, n);
    }
  }

  /** No file name is taken twice: two taken pairs share no file. */
  lemma TakenOnce(fileMap: map<string, TrackedFile>, entries: seq<FilePair>, i: nat, j: nat)
    requires i < j < |entries|
    requires TakenAt(fileMap, entries, i) && TakenAt(fileMap, entries, j)
    ensures entries[j].answerPart != entries[i].answerPart && entries[j].answerPart != entries[i].examPart
    ensures entries[j].examPart != entries[i].answerPart && entries[j].examPart != entries[i].examPart
  {
    StepAllSnoc(fileMap, entries, i);
    UsedStaysUsed(fileMap, entries, i + 1, j, entries[i].answerPart);
    UsedStaysUsed(fileMap, entries, i + 1, j, entries[i].examPart);
  }

  /** When no pair is taken, the file map is left as it was. */
  lemma {:induction false} NoneTakenUnchanged(fileMap: map<string, TrackedFile>, entries: seq<FilePair>)
    requires !AnyTaken(fileMap, entries)
    ensures StepAll(fileMap, entries) == fileMap
    decreases |entries|
  {
    if entries != [] {
      var init := entries[..|entries| - 1];
      assert !AnyTaken(fileMap, init) by {
        forall i | 0 <= i < |init| ensures !TakenAt(fileMap, init, i) {
          assert init[..i] == entries[..i];
          assert !TakenAt(fileMap, entries, i);
        }
      }
      NoneTakenUnchanged(fileMap, init);
      assert entries[..|entries| - 1] == init;
      assert !TakenAt(fileMap, entries, |entries| - 1);
    }
  }

  /** On the fresh map a pair is taken exactly when both its files exist. */
  lemma UntrackedTakes(files: map<string, PdfFile>, e: FilePair)
    ensures Takes(Untracked(files), e) <==> e.answerPart in files && e.examPart in files
  {
  }

  /** On the fresh map a proposal takes a pair exactly when one of its pairs
      names two files of the walk. */
  lemma UntrackedAnyTaken(files: map<string, PdfFile>, entries: seq<FilePair>)
    ensures AnyTaken(Untracked(files), entries) <==>
      exists i :: 0 <= i < |entries| && entries[i].answerPart in files && entries[i].examPart in files
  {
    var m := Untracked(files);
    if AnyTaken(m, entries) {
      var i :| 0 <= i < |entries| && TakenAt(m, entries, i);
      StepAllMonotone(m, entries[..i]);
      assert entries[i].answerPart in files && entries[i].examPart in files;
    }
    if i :| 0 <= i < |entries| && entries[i].answerPart in files && entries[i].examPart in files {
      if !AnyTaken(m, entries) {
        assert !AnyTaken(m, entries[..i]) by {
          forall k | 0 <= k < i ensures !TakenAt(m, entries[..i], k) {
            assert entries[..i][..k] == entries[..k];
            assert !TakenAt(m, entries, k);
          }
        }
        NoneTakenUnchanged(m, entries[..i]);
        assert TakenAt(m, entries, i);
      }
    }
  }

  /** One proposal: every pair of every group is checked in order against the
      file map, which is updated in place; dataIsCorrect tells whether any
      pair was taken. */
  method CheckProposal(fileMap: map<string, TrackedFile>, exams: seq<seq<FilePair>>)
    returns (fileMap': map<string, TrackedFile>, dataIsCorrect: bool)
    ensures fileMap' == StepAll(fileMap, Flatten(exams))
    ensures dataIsCorrect <==> AnyTaken(fileMap, Flatten(exams))
  {
    fileMap' := fileMap;
    dataIsCorrect := false;
    ghost var seen: seq<FilePair> := [];
    for g := 0 to |exams|
      invariant seen == Flatten(exams[..g])
      invariant fileMap' == StepAll(fileMap, seen)
      invariant dataIsCorrect <==> AnyTaken(fileMap, seen)
    {
      var group := exams[g];
      FlattenSnoc(exams, g);
      ghost var before := seen;
      for j := 0 to |group|
        invariant seen == before + group[..j]
        invariant fileMap' == StepAll(fileMap, seen)
        invariant dataIsCorrect <==> AnyTaken(fileMap, seen)
      {
        var file := group[j];
        TakeStep(fileMap, seen, file);
        var answerFileExists := file.answerPart in fileMap';
        var examFileExists := file.examPart in fileMap';
        if answerFileExists && examFileExists
          && !fileMap'[file.answerPart].alreadyUsed && !fileMap'[file.examPart].alreadyUsed
        {
          dataIsCorrect := true;
          var answerFileUsed := fileMap'[file.answerPart].(alreadyUsed := true);
          var examFileUsed := fileMap'[file.examPart].(alreadyUsed := true);
          fileMap' := fileMap'[file.answerPart := answerFileUsed];
          fileMap' := fileMap'[file.examPart := examFileUsed];
        }
        assert group[..j + 1] == group[..j] + [file];
        seen := seen + [file];
      }
      assert group[..|group|] == group;
    }
    assert exams[..|exams|] == exams;
  }

  /** One more pair: the state is one more step, and some pair is taken iff
      one was before or this one is. */
  lemma TakeStep(fileMap: map<string, TrackedFile>, seen: seq<FilePair>, e: FilePair)
    ensures StepAll(fileMap, seen + [e]) == Step(StepAll(fileMap, seen), e)
    ensures AnyTaken(fileMap, seen + [e]) <==> AnyTaken(fileMap, seen) || Takes(StepAll(fileMap, seen), e)
  {
    var all := seen + [e];
    assert all[..|seen|] == seen;
    forall i | 0 <= i < |seen|
      ensures TakenAt(fileMap, all, i) <==> TakenAt(fileMap, seen, i)
    {
      assert all[..i] == seen[..i];
    }
    assert TakenAt(fileMap, all, |seen|) <==> Takes(StepAll(fileMap, seen), e);
  }

  /** Which of the proposals would take a pair from the given file map. */
  function Outcomes(fileMap: map<string, TrackedFile>, proposals: seq<seq<seq<FilePair>>>): (r: seq<bool>)
    ensures |r| == |proposals|
  {
    seq(|proposals|, k requires 0 <= k < |proposals| => AnyTaken(fileMap, Flatten(proposals[k])))
  }

  /** The index of the first proposal that takes a pair, if any. */
  function FirstTaking(fileMap: map<string, TrackedFile>, proposals: seq<seq<seq<FilePair>>>): (r: Option<nat>)
    ensures r.Some? ==> r.value < |proposals| && AnyTaken(fileMap, Flatten(proposals[r.value]))
    ensures r.Some? ==> forall k :: 0 <= k < r.value ==> !AnyTaken(fileMap, Flatten(proposals[k]))
    ensures r.None? ==> forall k :: 0 <= k < |proposals| ==> !AnyTaken(fileMap, Flatten(proposals[k]))
  {
    var flags := Outcomes(fileMap, proposals);
    var r := FirstTrue(flags, 0);
    assert forall k :: 0 <= k < |proposals| ==> flags[k] == AnyTaken(fileMap, Flatten(proposals[k]));
    r
  }

  /** The retry loop for one subject directory. Rejected proposals leave the
      file map as it was, so the kept proposal is the first that takes a pair;
      it is kept whole, rejected pairs included, under the directory name.
      When the proposals run out first, the tool would keep asking; the model
      returns None with the file map unchanged. */
  method MapSubject(fileMap: map<string, TrackedFile>, name: string, proposals: seq<seq<seq<FilePair>>>)
    returns (fileMap': map<string, TrackedFile>, subject: Option<Subject>)
    ensures subject.Some? <==> FirstTaking(fileMap, proposals).Some?
    ensures subject.None? ==> fileMap' == fileMap
    ensures subject.Some? ==>
      var k := FirstTaking(fileMap, proposals).value;
      && subject == Some(Subject(name, proposals[k]))
      && fileMap' == StepAll(fileMap, Flatten(proposals[k]))
  {
    var attempt := 0;
    var dataIsCorrect := false;
    fileMap' := fileMap;
    subject := None;
    while !dataIsCorrect
      invariant 0 <= attempt <= |proposals|
      invariant !dataIsCorrect ==> subject == None && fileMap' == fileMap
      invariant !dataIsCorrect ==> forall k :: 0 <= k < attempt ==> !AnyTaken(fileMap, Flatten(proposals[k]))
      invariant dataIsCorrect ==> 0 < attempt && FirstTaking(fileMap, proposals) == Some(attempt - 1)
      invariant dataIsCorrect ==> subject == Some(Subject(name, proposals[attempt - 1]))
      invariant dataIsCorrect ==> fileMap' == StepAll(fileMap, Flatten(proposals[attempt - 1]))
      decreases |proposals| - attempt
    {
      if attempt == |proposals| {
        return fileMap, None;
      }
      var exams := proposals[attempt];
      var next;
      next, dataIsCorrect := CheckProposal(fileMap', exams);
      if dataIsCorrect {
        FirstTrueAt(Outcomes(fileMap, proposals), 0, attempt);
        subject := Some(Subject(name, exams));
      } else {
        NoneTakenUnchanged(fileMap, Flatten(exams));
      }
      fileMap' := next;
      attempt := attempt + 1;
    }
  }

  /** The file map after one directory's retry loop: its first proposal that
      takes a pair applied to the map, or the map unchanged when there is
      none. */
  function After(fileMap: map<string, TrackedFile>, proposals: seq<seq<seq<FilePair>>>): map<string, TrackedFile> {
    match FirstTaking(fileMap, proposals)
    case None => fileMap
    case Some(k) => StepAll(fileMap, Flatten(proposals[k]))
  }

  /** The file map the outer loop hands to directory i: the start map after
      the retry loops of the directories before it. */
  function Before(fileMap: map<string, TrackedFile>, names: seq<string>,
                  proposalsFor: string -> seq<seq<seq<FilePair>>>, i: nat): map<string, TrackedFile>
    requires i <= |names|
    decreases i
  {
    if i == 0 then fileMap
    else After(Before(fileMap, names, proposalsFor, i - 1), proposalsFor(names[i - 1]))
  }

  /** s is what the retry loop of directory i keeps: its first proposal that
      takes a pair from the map left by the earlier directories, under the
      directory name. */
  predicate Chosen(fileMap: map<string, TrackedFile>, names: seq<string>,
                   proposalsFor: string -> seq<seq<seq<FilePair>>>, i: nat, s: Subject)
    requires i < |names|
  {
    var k := FirstTaking(Before(fileMap, names, proposalsFor, i), proposalsFor(names[i]));
    k.Some? && s == Subject(names[i], proposalsFor(names[i])[k.value])
  }

  /** The outer loop's state after i directories: one chosen subject each. */
  ghost predicate Threaded(fileMap: map<string, TrackedFile>, names: seq<string>,
                           proposalsFor: string -> seq<seq<seq<FilePair>>>, i: nat, subjects: seq<Subject>)
    requires i <= |names|
  {
    |subjects| == i && forall k :: 0 <= k < i ==> Chosen(fileMap, names, proposalsFor, k, subjects[k])
  }

  /** The retry loop's result for directory i is the chosen subject, and its
      map is the one handed to directory i + 1. */
  lemma Advance(fileMap: map<string, TrackedFile>, names: seq<string>,
                proposalsFor: string -> seq<seq<seq<FilePair>>>, i: nat, subjects: seq<Subject>,
                m': map<string, TrackedFile>, s: Subject)
    requires i < |names| && Threaded(fileMap, names, proposalsFor, i, subjects)
    requires var k := FirstTaking(Before(fileMap, names, proposalsFor, i), proposalsFor(names[i]));
      && k.Some?
      && s == Subject(names[i], proposalsFor(names[i])[k.value])
      && m' == StepAll(Before(fileMap, names, proposalsFor, i), Flatten(proposalsFor(names[i])[k.value]))
    ensures Threaded(fileMap, names, proposalsFor, i + 1, subjects + [s])
    ensures m' == Before(fileMap, names, proposalsFor, i + 1)
  {
    var t := subjects + [s];
    forall k | 0 <= k < i + 1
      ensures Chosen(fileMap, names, proposalsFor, k, t[k])
    {
      if k < i {
        assert t[k] == subjects[k];
      }
    }
  }

  /** After all directories, every one had a proposal that takes a pair. */
  lemma ThreadedAll(fileMap: map<string, TrackedFile>, names: seq<string>,
                    proposalsFor: string -> seq<seq<seq<FilePair>>>, subjects: seq<Subject>)
    requires Threaded(fileMap, names, proposalsFor, |names|, subjects)
    ensures forall i :: 0 <= i < |names| ==>
      FirstTaking(Before(fileMap, names, proposalsFor, i), proposalsFor(names[i])).Some?
  {
    forall i | 0 <= i < |names|
      ensures FirstTaking(Before(fileMap, names, proposalsFor, i), proposalsFor(names[i])).Some?
    {
      assert Chosen(fileMap, names, proposalsFor, i, subjects[i]);
    }
  }

  /** The outer loop over the subject directories, threading the file map:
      for each directory in order, the subject its retry loop keeps against
      the map the earlier directories left; the final map is the one after
      the kept subjects. finished is false when some directory's proposals
      run out; the subjects are then those of the directories before it. */
  method MapSubjects(fileMap: map<string, TrackedFile>, names: seq<string>,
                     proposalsFor: string -> seq<seq<seq<FilePair>>>)
    returns (subjects: seq<Subject>, fileMap': map<string, TrackedFile>, finished: bool)
    ensures |subjects| <= |names|
    ensures finished <==> |subjects| == |names|
    ensures finished <==> forall i :: 0 <= i < |names| ==>
      FirstTaking(Before(fileMap, names, proposalsFor, i), proposalsFor(names[i])).Some?
    ensures !finished ==>
      FirstTaking(Before(fileMap, names, proposalsFor, |subjects|), proposalsFor(names[|subjects|])).None?
    ensures forall i :: 0 <= i < |subjects| ==> Chosen(fileMap, names, proposalsFor, i, subjects[i])
    ensures fileMap' == Before(fileMap, names, proposalsFor, |subjects|)
    ensures fileMap'.Keys == fileMap.Keys
    ensures forall n :: n in fileMap ==>
      && fileMap'[n].path == fileMap[n].path
      && fileMap'[n].name == fileMap[n].name
      && (fileMap[n].alreadyUsed ==> fileMap'[n].alreadyUsed)
  {
    subjects := [];
    fileMap' := fileMap;
    for i := 0 to |names|
      invariant Threaded(fileMap, names, proposalsFor, i, subjects)
      invariant fileMap' == Before(fileMap, names, proposalsFor, i)
    {
      var before := fileMap';
      var subject;
      fileMap', subject := MapSubject(before, names[i], proposalsFor(names[i]));
      if subject.None? {
        BeforeMonotone(fileMap, names, proposalsFor, i);
        return subjects, before, false;
      }
      Advance(fileMap, names, proposalsFor, i, subjects, fileMap', subject.value);
      subjects := subjects + [subject.value];
    }
    finished := true;
    ThreadedAll(fileMap, names, proposalsFor, subjects);
    BeforeMonotone(fileMap, names, proposalsFor, |names|);
  }

  /** One directory's retry loop keeps the file names and paths and never
      clears a used flag. */
  lemma AfterMonotone(m: map<string, TrackedFile>, proposals: seq<seq<seq<FilePair>>>)
    ensures After(m, proposals).Keys == m.Keys
    ensures forall n :: n in m ==>
      && After(m, proposals)[n].path == m[n].path
      && After(m, proposals)[n].name == m[n].name
      && (m[n].alreadyUsed ==> After(m, proposals)[n].alreadyUsed)
  {
    var k := FirstTaking(m, proposals);
    if k.Some? {
      StepAllMonotone(m, Flatten(proposals[k.value]));
    }
  }

  /** The outer loop keeps the file names and paths and never clears a used
      flag. */
  lemma {:induction false} BeforeMonotone(fileMap: map<string, TrackedFile>, names: seq<string>,
                                          proposalsFor: string -> seq<seq<seq<FilePair>>>, i: nat)
    requires i <= |names|
    ensures Before(fileMap, names, proposalsFor, i).Keys == fileMap.Keys
    ensures forall n :: n in fileMap ==>
      && Before(fileMap, names, proposalsFor, i)[n].path == fileMap[n].path
      && Before(fileMap, names, proposalsFor, i)[n].name == fileMap[n].name
      && (fileMap[n].alreadyUsed ==> Before(fileMap, names, proposalsFor, i)[n].alreadyUsed)
    decreases i
  {
    if i > 0 {
      BeforeMonotone(fileMap, names, proposalsFor, i - 1);
      var m := Before(fileMap, names, proposalsFor, i - 1);
      AfterMonotone(m, proposalsFor(names[i - 1]));
      assert Before(fileMap, names, proposalsFor, i) == After(m, proposalsFor(names[i - 1]));
    }
  }

  /** A flag set before directory i is still set before directory j. */
  lemma {:induction false} UsedStaysUsedAcross(fileMap: map<string, TrackedFile>, names: seq<string>,
                                               proposalsFor: string -> seq<seq<seq<FilePair>>>,
                                               i: nat, j: nat, n: string)
    requires i <= j <= |names|
    requires n in Before(fileMap, names, proposalsFor, i) && Before(fileMap, names, proposalsFor, i)[n].alreadyUsed
    ensures n in Before(fileMap, names, proposalsFor, j) && Before(fileMap, names, proposalsFor, j)[n].alreadyUsed
    decreases j - i
  {
    if i < j {
      var m := Before(fileMap, names, proposalsFor, i);
      AfterMonotone(m, proposalsFor(names[i]));
      assert Before(fileMap, names, proposalsFor, i + 1) == After(m, proposalsFor(names[i]));
      UsedStaysUsedAcross(fileMap, names, proposalsFor, i + 1, j, n);
    }
  }

  /** The pair e is taken while directory i's kept proposal is checked. */
  predicate TakenFor(fileMap: map<string, TrackedFile>, names: seq<string>,
                     proposalsFor: string -> seq<seq<seq<FilePair>>>, i: nat, e: FilePair)
    requires i < |names|
  {
    var m := Before(fileMap, names, proposalsFor, i);
    var k := FirstTaking(m, proposalsFor(names[i]));
    && k.Some?
    && var entries := Flatten(proposalsFor(names[i])[k.value]);
       exists p :: 0 <= p < |entries| && entries[p] == e && TakenAt(m, entries, p)
  }

  /** A pair taken while a proposal is checked has both files used once the
      whole proposal is checked. */
  lemma TakenMarked(m: map<string, TrackedFile>, entries: seq<FilePair>, p: nat)
    requires p < |entries| && TakenAt(m, entries, p)
    ensures entries[p].answerPart in StepAll(m, entries) && StepAll(m, entries)[entries[p].answerPart].alreadyUsed
    ensures entries[p].examPart in StepAll(m, entries) && StepAll(m, entries)[entries[p].examPart].alreadyUsed
  {
    StepAllSnoc(m, entries, p);
    UsedStaysUsed(m, entries, p + 1, |entries|, entries[p].answerPart);
    UsedStaysUsed(m, entries, p + 1, |entries|, entries[p].examPart);
    assert entries[..|entries|] == entries;
  }

  /** Taking a pair for directory i marks both its files used before the next
      directory. */
  lemma TakenForMarks(fileMap: map<string, TrackedFile>, names: seq<string>,
                      proposalsFor: string -> seq<seq<seq<FilePair>>>, i: nat, e: FilePair)
    requires i < |names| && TakenFor(fileMap, names, proposalsFor, i, e)
    ensures e.answerPart in Before(fileMap, names, proposalsFor, i + 1)
    ensures Before(fileMap, names, proposalsFor, i + 1)[e.answerPart].alreadyUsed
    ensures e.examPart in Before(fileMap, names, proposalsFor, i + 1)
    ensures Before(fileMap, names, proposalsFor, i + 1)[e.examPart].alreadyUsed
  {
    var m := Before(fileMap, names, proposalsFor, i);
    var k := FirstTaking(m, proposalsFor(names[i])).value;
    var entries := Flatten(proposalsFor(names[i])[k]);
    assert Before(fileMap, names, proposalsFor, i + 1) == StepAll(m, entries);
    var p :| 0 <= p < |entries| && entries[p] == e && TakenAt(m, entries, p);
    TakenMarked(m, entries, p);
  }

  /** Both files of a pair taken for directory i are still used before any
      later directory j. */
  lemma TakenStaysUsed(fileMap: map<string, TrackedFile>, names: seq<string>,
                       proposalsFor: string -> seq<seq<seq<FilePair>>>, i: nat, j: nat, e: FilePair)
    requires i < j <= |names| && TakenFor(fileMap, names, proposalsFor, i, e)
    ensures e.answerPart in Before(fileMap, names, proposalsFor, j)
    ensures Before(fileMap, names, proposalsFor, j)[e.answerPart].alreadyUsed
    ensures e.examPart in Before(fileMap, names, proposalsFor, j)
    ensures Before(fileMap, names, proposalsFor, j)[e.examPart].alreadyUsed
  {
    TakenForMarks(fileMap, names, proposalsFor, i, e);
    UsedStaysUsedAcross(fileMap, names, proposalsFor, i + 1, j, e.answerPart);
    UsedStaysUsedAcross(fileMap, names, proposalsFor, i + 1, j, e.examPart);
  }

  /** A pair taken for directory j uses no file that was already used before
      directory j. */
  lemma TakenForUnused(fileMap: map<string, TrackedFile>, names: seq<string>,
                       proposalsFor: string -> seq<seq<seq<FilePair>>>, j: nat, e: FilePair, n: string)
    requires j < |names| && TakenFor(fileMap, names, proposalsFor, j, e)
    requires n in Before(fileMap, names, proposalsFor, j) && Before(fileMap, names, proposalsFor, j)[n].alreadyUsed
    ensures n != e.answerPart && n != e.examPart
  {
    var m := Before(fileMap, names, proposalsFor, j);
    var k := FirstTaking(m, proposalsFor(names[j])).value;
    var entries := Flatten(proposalsFor(names[j])[k]);
    var q :| 0 <= q < |entries| && entries[q] == e && TakenAt(m, entries, q);
    StepAllMonotone(m, entries[..q]);
  }

  /** No file is taken for two directories: once a pair is taken for one
      directory, neither of its files is usable for a later one. */
  lemma NoFileTakenTwice(fileMap: map<string, TrackedFile>, names: seq<string>,
                         proposalsFor: string -> seq<seq<seq<FilePair>>>,
                         i: nat, j: nat, e: FilePair, e': FilePair)
    requires i < j < |names|
    requires TakenFor(fileMap, names, proposalsFor, i, e)
    requires TakenFor(fileMap, names, proposalsFor, j, e')
    ensures e'.answerPart != e.answerPart && e'.answerPart != e.examPart
    ensures e'.examPart != e.answerPart && e'.examPart != e.examPart
  {
    TakenStaysUsed(fileMap, names, proposalsFor, i, j, e);
    TakenForUnused(fileMap, names, proposalsFor, j, e', e.answerPart);
    TakenForUnused(fileMap, names, proposalsFor, j, e', e.examPart);
  }
}

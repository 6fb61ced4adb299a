/** The exam-mapping validator of the backend mapper tool. For every subject
    directory the language model proposes a mapping of exam groups to the
    files that make them up. A proposal is accepted only when every file it
    names is a key of the name-keyed file map, and the model is asked again
    until a proposal is accepted. The model's successive answers are an
    input. */
module SubjectMapper {
  import opened Wrappers
  import opened ExamFiles

  /** One exam of a proposal: the file names of its answer, its task and its
      additional parts. */
  datatype ExamEntry = ExamEntry(answerPart: string, examPart: string, additionalParts: seq<string>)

  /** A proposal for one subject directory, as the model returns it. */
  datatype Subject = Subject(
    friendlySubjectName: string,
    subjectName: string,
    year: string,
    exams: seq<seq<ExamEntry>>)

  /** Every file an entry names exists: answer, task and every additional
      part (no additional parts is no obstacle). */
  predicate EntryCorrect(e: ExamEntry, fileMap: map<string, PdfFile>) {
    && e.answerPart in fileMap
    && e.examPart in fileMap
    && forall p :: p in e.additionalParts ==> p in fileMap
  }

  /** How many of the entries are correct. */
  function CountCorrect(entries: seq<ExamEntry>, fileMap: map<string, PdfFile>): (n: nat)
    ensures n <= |entries|
    decreases |entries|
  {
    if entries == [] then 0
    else
      CountCorrect(entries[..|entries| - 1], fileMap)
      + (if EntryCorrect(entries[|entries| - 1], fileMap) then 1 else 0)
  }

  /** A proposal is accepted when its correct entries are all its entries. */
  predicate Accepted(s: Subject, fileMap: map<string, PdfFile>) {
    CountCorrect(Flatten(s.exams), fileMap) == |Flatten(s.exams)|
  }

  /** The additional-parts check with its flag and early exit: true iff every
      additional part is a key of the file map. */
  method AdditionalPartsExist(parts: seq<string>, fileMap: map<string, PdfFile>) returns (exist: bool)
    ensures exist <==> forall p :: p in parts ==> p in fileMap
  {
    exist := true;
    if |parts| > 0 {
      var i := 0;
      while i < |parts|
        invariant 0 <= i <= |parts|
        invariant exist <==> forall k :: 0 <= k < i ==> parts[k] in fileMap
        decreases |parts| - i
      {
        exist := parts[i] in fileMap;
        i := i + 1;
        if !exist {
          break;
        }
      }
    }
  }

  /** One more entry adds one to the count exactly when it is correct. */
  lemma CountCorrectSnoc(entries: seq<ExamEntry>, e: ExamEntry, fileMap: map<string, PdfFile>)
    ensures CountCorrect(entries + [e], fileMap)
      == CountCorrect(entries, fileMap) + (if EntryCorrect(e, fileMap) then 1 else 0)
  {
    assert (entries + [e])[..|entries|] == entries;
  }

  /** The nested counting loops: total is the number of entries over all
      groups and correct the number of correct ones. */
  method CheckSubject(s: Subject, fileMap: map<string, PdfFile>) returns (correct: nat, total: nat)
    ensures total == |Flatten(s.exams)|
    ensures correct == CountCorrect(Flatten(s.exams), fileMap)
    ensures correct <= total
  {
    correct, total := 0, 0;
    ghost var seen: seq<ExamEntry> := [];
    for g := 0 to |s.exams|
      invariant seen == Flatten(s.exams[..g])
      invariant total == |seen| && correct == CountCorrect(seen, fileMap)
    {
      var group := s.exams[g];
      FlattenSnoc(s.exams, g);
      ghost var before := seen;
      for j := 0 to |group|
        invariant seen == before + group[..j]
        invariant total == |seen| && correct == CountCorrect(seen, fileMap)
      {
        var entry := group[j];
        total := total + 1;
        var answerFileExists := entry.answerPart in fileMap;
        var examFileExists := entry.examPart in fileMap;
        var additionalPartsExist := AdditionalPartsExist(entry.additionalParts, fileMap);
        CountCorrectSnoc(seen, entry, fileMap);
        if answerFileExists && examFileExists && additionalPartsExist {
          correct := correct + 1;
        }
        assert group[..j + 1] == group[..j] + [entry];
        seen := seen + [entry];
      }
      assert group[..|group|] == group;
    }
    assert s.exams[..|s.exams|] == s.exams;
  }

  /** A proposal is accepted iff every one of its entries is correct; so a
      proposal without entries is accepted. */
  lemma {:induction false} AcceptedIffAllCorrect(entries: seq<ExamEntry>, fileMap: map<string, PdfFile>)
    ensures CountCorrect(entries, fileMap) == |entries| <==>
      forall i :: 0 <= i < |entries| ==> EntryCorrect(entries[i], fileMap)
    decreases |entries|
  {
    if entries != [] {
      var init := entries[..|entries| - 1];
      AcceptedIffAllCorrect(init, fileMap);
      if forall i :: 0 <= i < |entries| ==> EntryCorrect(entries[i], fileMap) {
        forall i | 0 <= i < |init| ensures EntryCorrect(init[i], fileMap) {
          assert init[i] == entries[i];
        }
      }
      if CountCorrect(entries, fileMap) == |entries| {
        forall i | 0 <= i < |entries| ensures EntryCorrect(entries[i], fileMap) {
          if i < |init| {
            assert entries[i] == init[i];
          }
        }
      }
    }
  }

  /** Which of the proposals are accepted. */
  function Outcomes(proposals: seq<Subject>, fileMap: map<string, PdfFile>): (r: seq<bool>)
    ensures |r| == |proposals|
  {
    seq(|proposals|, k requires 0 <= k < |proposals| => Accepted(proposals[k], fileMap))
  }

  /** The index of the first accepted proposal, if any. */
  function FirstAccepted(proposals: seq<Subject>, fileMap: map<string, PdfFile>): (r: Option<nat>)
    ensures r.Some? ==> r.value < |proposals| && Accepted(proposals[r.value], fileMap)
    ensures r.Some? ==> forall k :: 0 <= k < r.value ==> !Accepted(proposals[k], fileMap)
    ensures r.None? ==> forall k :: 0 <= k < |proposals| ==> !Accepted(proposals[k], fileMap)
  {
    var flags := Outcomes(proposals, fileMap);
    var r := FirstTrue(flags, 0);
    assert forall k :: 0 <= k < |proposals| ==> flags[k] == Accepted(proposals[k], fileMap);
    r
  }

  /** The retry loop for one subject directory: proposals are checked in turn
      until one is accepted, which is returned with SubjectName set to the
      directory name. When the proposals run out first, the tool would keep
      asking; the model returns None. */
  method MapSubject(name: string, proposals: seq<Subject>, fileMap: map<string, PdfFile>)
    returns (subject: Option<Subject>)
    ensures subject.Some? <==> FirstAccepted(proposals, fileMap).Some?
    ensures subject.Some? ==>
      subject == Some(proposals[FirstAccepted(proposals, fileMap).value].(subjectName := name))
  {
    var attempt := 0;
    var dataIsCorrect := false;
    subject := None;
    while !dataIsCorrect
      invariant 0 <= attempt <= |proposals|
      invariant !dataIsCorrect ==> subject == None
      invariant !dataIsCorrect ==> forall k :: 0 <= k < attempt ==> !Accepted(proposals[k], fileMap)
      invariant dataIsCorrect ==> 0 < attempt && FirstAccepted(proposals, fileMap) == Some(attempt - 1)
      invariant dataIsCorrect ==> subject == Some(proposals[attempt - 1].(subjectName := name))
      decreases |proposals| - attempt
    {
      if attempt == |proposals| {
        return None;
      }
      var proposal := proposals[attempt];
      var correct, total := CheckSubject(proposal, fileMap);
      attempt := attempt + 1;
      if correct == total {
        dataIsCorrect := true;
        FirstTrueAt(Outcomes(proposals, fileMap), 0, attempt - 1);
        subject := Some(proposal.(subjectName := name));
      }
    }
  }

  /** s is what the retry loop keeps for the directory name: its first
      accepted proposal, with SubjectName set to the directory name. */
  predicate Chosen(name: string, proposals: seq<Subject>, fileMap: map<string, PdfFile>, s: Subject) {
    && FirstAccepted(proposals, fileMap).Some?
    && s == proposals[FirstAccepted(proposals, fileMap).value].(subjectName := name)
  }

  /** The outer loop over the subject directories: for each directory in
      order, the subject its retry loop keeps. finished is false when some
      directory's proposals run out; the subjects are then those of the
      directories before it. */
  method MapSubjects(names: seq<string>, proposalsFor: string -> seq<Subject>, fileMap: map<string, PdfFile>)
    returns (subjects: seq<Subject>, finished: bool)
    ensures |subjects| <= |names|
    ensures finished <==> |subjects| == |names|
    ensures finished <==> forall i :: 0 <= i < |names| ==> FirstAccepted(proposalsFor(names[i]), fileMap).Some?
    ensures !finished ==> FirstAccepted(proposalsFor(names[|subjects|]), fileMap).None?
    ensures forall i :: 0 <= i < |subjects| ==> Chosen(names[i], proposalsFor(names[i]), fileMap, subjects[i])
    ensures forall i :: 0 <= i < |subjects| ==>
      subjects[i].subjectName == names[i] && Accepted(subjects[i], fileMap)
  {
    subjects := [];
    for i := 0 to |names|
      invariant |subjects| == i
      invariant forall k :: 0 <= k < i ==> Chosen(names[k], proposalsFor(names[k]), fileMap, subjects[k])
      invariant forall k :: 0 <= k < i ==>
        subjects[k].subjectName == names[k] && Accepted(subjects[k], fileMap)
    {
      var subject := MapSubject(names[i], proposalsFor(names[i]), fileMap);
      if subject.None? {
        return subjects, false;
      }
      RenamedStaysAccepted(proposalsFor(names[i])[FirstAccepted(proposalsFor(names[i]), fileMap).value],
        names[i], fileMap);
      subjects := subjects + [subject.value];
    }
    finished := true;
  }

  /** Setting the subject name does not change whether a proposal is accepted. */
  lemma RenamedStaysAccepted(s: Subject, name: string, fileMap: map<string, PdfFile>)
    requires Accepted(s, fileMap)
    ensures Accepted(s.(subjectName := name), fileMap)
  {
    assert s.(subjectName := name).exams == s.exams;
  }
}

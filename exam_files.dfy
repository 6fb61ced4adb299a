/** getExamFiles, which the three Go extractor tools share: a walk over the
    exam directory tree that skips every directory named "~BROMIUM" and keys
    each file it visits by its base name, so that a later file with the same
    name replaces an earlier one. Also the flattening of the exam groups that
    the mapping validators iterate over, and the attempt at which their retry
    loops stop. */
module ExamFiles {
  import opened Wrappers

  /** A file as the tools record it: its path and its base name. */
  datatype PdfFile = PdfFile(path: string, name: string)

  /** The directory tree under the exam root, children in lexical order. */
  datatype Node =
    | FileNode(path: string, name: string)
    | DirNode(path: string, name: string, children: seq<Node>)

  /** The directory name whose subtree the walk callback skips. */
  const SkippedDirectory := "~BROMIUM"

  /** The files the walk hands to the callback, in visiting order: a
      directory named SkippedDirectory is not entered. */
  function Walk(n: Node): seq<PdfFile>
    decreases n
  {
    match n
    case FileNode(path, name) => [PdfFile(path, name)]
    case DirNode(_, name, children) =>
      if name == SkippedDirectory then [] else WalkAll(children)
  }

  function WalkAll(ns: seq<Node>): seq<PdfFile>
    decreases ns
  {
    if ns == [] then [] else Walk(ns[0]) + WalkAll(ns[1..])
  }

  /** Every file of the tree, skipped directories included. */
  function AllFiles(n: Node): seq<PdfFile>
    decreases n
  {
    match n
    case FileNode(path, name) => [PdfFile(path, name)]
    case DirNode(_, _, children) => AllFilesOf(children)
  }

  function AllFilesOf(ns: seq<Node>): seq<PdfFile>
    decreases ns
  {
    if ns == [] then [] else AllFiles(ns[0]) + AllFilesOf(ns[1..])
  }

  /** No directory of the tree is named SkippedDirectory. */
  predicate NoSkipped(n: Node)
    decreases n
  {
    match n
    case FileNode(_, _) => true
    case DirNode(_, name, children) => name != SkippedDirectory && NoSkippedOf(children)
  }

  predicate NoSkippedOf(ns: seq<Node>)
    decreases ns
  {
    ns == [] || (NoSkipped(ns[0]) && NoSkippedOf(ns[1..]))
  }

  /** The walk visits files of the tree only, in the tree's order. */
  lemma {:induction false} WalkVisitsTreeFiles(n: Node)
    ensures forall f :: f in Walk(n) ==> f in AllFiles(n)
    decreases n
  {
    match n
    case FileNode(_, _) =>
    case DirNode(_, name, children) =>
      if name != SkippedDirectory {
        WalkAllVisitsTreeFiles(children);
      }
  }

  lemma {:induction false} WalkAllVisitsTreeFiles(ns: seq<Node>)
    ensures forall f :: f in WalkAll(ns) ==> f in AllFilesOf(ns)
    decreases ns
  {
    if ns != [] {
      WalkVisitsTreeFiles(ns[0]);
      WalkAllVisitsTreeFiles(ns[1..]);
    }
  }

  /** Without a skipped directory, the walk visits every file of the tree. */
  lemma {:induction false} WalkWithoutSkipped(n: Node)
    requires NoSkipped(n)
    ensures Walk(n) == AllFiles(n)
    decreases n
  {
    match n
    case FileNode(_, _) =>
    case DirNode(_, _, children) =>
      WalkAllWithoutSkipped(children);
  }

  lemma {:induction false} WalkAllWithoutSkipped(ns: seq<Node>)
    requires NoSkippedOf(ns)
    ensures WalkAll(ns) == AllFilesOf(ns)
    decreases ns
  {
    if ns != [] {
      WalkWithoutSkipped(ns[0]);
      WalkAllWithoutSkipped(ns[1..]);
    }
  }

  /** visited[i] is the last visited file named name. */
  predicate LastNamed(visited: seq<PdfFile>, name: string, i: int) {
    && 0 <= i < |visited|
    && visited[i].name == name
    && forall j :: i < j < |visited| ==> visited[j].name != name
  }

  /** Some file among the first n visited is named name. */
  predicate NamedAmong(visited: seq<PdfFile>, name: string, n: int) {
    exists i :: 0 <= i < n && i < |visited| && visited[i].name == name
  }

  /** The name-keyed map holds, for the first n visited files, exactly their
      names, each mapped to the last of them with that name. */
  ghost predicate KeyedByName(visited: seq<PdfFile>, n: int, files: map<string, PdfFile>)
    requires 0 <= n <= |visited|
  {
    && (forall name :: name in files <==> NamedAmong(visited, name, n))
    && (forall name :: name in files ==>
         exists k :: LastNamed(visited[..n], name, k) && files[name] == visited[k])
  }

  /** Inserting the next visited file under its name keeps the map keyed by
      name. */
  lemma InsertByName(visited: seq<PdfFile>, n: int, files: map<string, PdfFile>)
    requires 0 <= n < |visited| && KeyedByName(visited, n, files)
    ensures KeyedByName(visited, n + 1, files[visited[n].name := visited[n]])
  {
    var current := visited[n];
    var files' := files[current.name := current];
    assert LastNamed(visited[..n + 1], current.name, n);
    forall name | name in files' && name != current.name
      ensures exists k :: LastNamed(visited[..n + 1], name, k) && files'[name] == visited[k]
    {
      var k :| LastNamed(visited[..n], name, k) && files[name] == visited[k];
      assert LastNamed(visited[..n + 1], name, k);
    }
    assert forall name :: NamedAmong(visited, name, n + 1) <==>
      NamedAmong(visited, name, n) || name == current.name;
  }

  /** getExamFiles: the walk's files keyed by base name. Exactly the visited
      names are keys, each maps to the LAST visited file of that name, and so
      files sharing a name leave a single entry. */
  method GetExamFiles(root: Node) returns (files: map<string, PdfFile>)
    ensures forall name :: name in files <==> NamedAmong(Walk(root), name, |Walk(root)|)
    ensures forall name :: name in files ==>
      exists i :: LastNamed(Walk(root), name, i) && files[name] == Walk(root)[i]
    ensures |files| <= |Walk(root)|
  {
    var visited := Walk(root);
    files := map[];
    for i := 0 to |visited|
      invariant KeyedByName(visited, i, files)
    {
      InsertByName(visited, i, files);
      files := files[visited[i].name := visited[i]];
    }
    assert visited[..|visited|] == visited;
    assert files.Keys == set i | 0 <= i < |visited| :: visited[i].name;
    NamesAtMostFiles(visited);
  }

  /** A file map built by name never has more entries than visited files. */
  lemma {:induction false} NamesAtMostFiles(visited: seq<PdfFile>)
    ensures |set i | 0 <= i < |visited| :: visited[i].name| <= |visited|
    decreases |visited|
  {
    if visited != [] {
      var init := visited[..|visited| - 1];
      NamesAtMostFiles(init);
      var names := set i | 0 <= i < |visited| :: visited[i].name;
      var initNames := set i | 0 <= i < |init| :: init[i].name;
      assert names <= initNames + {visited[|visited| - 1].name} by {
        forall n | n in names ensures n in initNames + {visited[|visited| - 1].name} {
          var i :| 0 <= i < |visited| && visited[i].name == n;
          if i < |init| {
            assert init[i] == visited[i];
          }
        }
      }
      SubsetSize(names, initNames + {visited[|visited| - 1].name});
    }
  }

  lemma SubsetSize(a: set<string>, b: set<string>)
    requires a <= b
    ensures |a| <= |b|
  {
    assert b == a + (b - a);
  }

  /** The groups of a mapping, concatenated: the entries in the order the
      nested loops visit them. */
  function Flatten<T>(groups: seq<seq<T>>): (r: seq<T>)
    ensures groups == [] ==> r == []
    decreases |groups|
  {
    if groups == [] then [] else Flatten(groups[..|groups| - 1]) + groups[|groups| - 1]
  }

  /** Extending the groups by one extends the flattening by that group. */
  lemma FlattenSnoc<T>(groups: seq<seq<T>>, i: nat)
    requires i < |groups|
    ensures Flatten(groups[..i + 1]) == Flatten(groups[..i]) + groups[i]
  {
    assert groups[..i + 1][..i] == groups[..i];
  }

  /** The first position from i on whose flag is set: the attempt at which a
      retry loop stops, given which attempts succeed. */
  function FirstTrue(flags: seq<bool>, i: nat): (r: Option<nat>)
    requires i <= |flags|
    ensures r.Some? ==> i <= r.value < |flags| && flags[r.value]
    ensures r.Some? ==> forall k :: i <= k < r.value ==> !flags[k]
    ensures r.None? ==> forall k :: i <= k < |flags| ==> !flags[k]
    decreases |flags| - i
  {
    if i == |flags| then None
    else if flags[i] then Some(i)
    else FirstTrue(flags, i + 1)
  }

  /** A set flag after unset ones is the first. */
  lemma {:induction false} FirstTrueAt(flags: seq<bool>, i: nat, j: nat)
    requires i <= j < |flags| && flags[j]
    requires forall k :: i <= k < j ==> !flags[k]
    ensures FirstTrue(flags, i) == Some(j)
    decreases j - i
  {
    if i < j {
      FirstTrueAt(flags, i + 1, j);
    }
  }
}

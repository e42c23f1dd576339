/** `find_files(search_folder, keyword)`: walk a directory tree and collect,
    in walk order, the joined path of every file whose name contains the
    keyword, ignoring ASCII case.

    The tree walk is not performed here: its output, one `WalkEntry` per
    directory visited in the order the walk yields them, is the input. */
module Search {
  import opened Strings
  import opened Paths

  /** One item of the walk: a directory path, the names of its
      sub-directories and the names of its files. */
  datatype WalkEntry = WalkEntry(root: string, dirs: seq<string>, files: seq<string>)

  /** One file seen by the walk: the directory it was listed under and its
      bare name. */
  datatype FileRef = FileRef(root: string, name: string)

  /** The match test of the search: the lower-cased keyword is a substring
      of the lower-cased file name. */
  predicate IsMatch(keyword: string, name: string) {
    Contains(Lower(name), Lower(keyword))
  }

  // ---------------------------------------------------------------------
  // Specification: a filter over the flattened walk.
  // Every sequence function recurses on its LAST element, so that a loop
  // that has handled a prefix meets the function of that prefix.
  // ---------------------------------------------------------------------

  /** The files of one directory, in the order they are listed. */
  function Refs(root: string, files: seq<string>): seq<FileRef> {
    if files == [] then []
    else Refs(root, files[..|files| - 1]) + [FileRef(root, files[|files| - 1])]
  }

  /** Every file the walk lists, in walk order; sub-directory names are not
      candidates. */
  function Candidates(walk: seq<WalkEntry>): seq<FileRef> {
    if walk == [] then []
    else Candidates(walk[..|walk| - 1]) + Refs(walk[|walk| - 1].root, walk[|walk| - 1].files)
  }

  /** Number of files over all entries of the walk. */
  function TotalFiles(walk: seq<WalkEntry>): nat {
    if walk == [] then 0 else TotalFiles(walk[..|walk| - 1]) + |walk[|walk| - 1].files|
  }

  /** Joined paths of the candidates whose name matches, in order. */
  function Select(cs: seq<FileRef>, keyword: string): seq<string> {
    if cs == [] then []
    else
      var c := cs[|cs| - 1];
      Select(cs[..|cs| - 1], keyword) + (if IsMatch(keyword, c.name) then [Join(c.root, c.name)] else [])
  }

  /** Joined paths of all candidates, in order. */
  function PathsOf(cs: seq<FileRef>): seq<string> {
    if cs == [] then []
    else PathsOf(cs[..|cs| - 1]) + [Join(cs[|cs| - 1].root, cs[|cs| - 1].name)]
  }

  /** What `find_files` returns for a walk. */
  function FindFilesSpec(walk: seq<WalkEntry>, keyword: string): seq<string> {
    Select(Candidates(walk), keyword)
  }

  /** Every joined file path of the walk, in walk order. */
  function AllPaths(walk: seq<WalkEntry>): seq<string> {
    PathsOf(Candidates(walk))
  }

  /** `a` is `b` with some elements dropped, the rest kept in order. */
  predicate IsSubsequence(a: seq<string>, b: seq<string>)
    decreases |b|
  {
    a == [] ||
    (b != [] &&
     ((a[|a| - 1] == b[|b| - 1] && IsSubsequence(a[..|a| - 1], b[..|b| - 1])) ||
      IsSubsequence(a, b[..|b| - 1])))
  }

  // ---------------------------------------------------------------------
  // The search itself.
  // ---------------------------------------------------------------------

  /** The nested loops of `find_files`: for every walk entry, for every
      file of it, append the joined path when the name matches. */
  method FindFiles(walk: seq<WalkEntry>, keyword: string) returns (matches: seq<string>)
    ensures matches == FindFilesSpec(walk, keyword)
  {
    matches := [];
    for i := 0 to |walk|
      invariant matches == Select(Candidates(walk[..i]), keyword)
    {
      var root, files := walk[i].root, walk[i].files;
      assert Candidates(walk[..i]) + Refs(root, files[..0]) == Candidates(walk[..i]);
      for j := 0 to |files|
        invariant matches == Select(Candidates(walk[..i]) + Refs(root, files[..j]), keyword)
      {
        ghost var done := Candidates(walk[..i]) + Refs(root, files[..j]);
        assert files[..j + 1][..j] == files[..j];
        assert (done + [FileRef(root, files[j])])[..|done|] == done;
        assert Refs(root, files[..j + 1]) == Refs(root, files[..j]) + [FileRef(root, files[j])];
        assert Candidates(walk[..i]) + Refs(root, files[..j + 1]) == done + [FileRef(root, files[j])];
        if Contains(Lower(files[j]), Lower(keyword)) {
          var fullPath := Join(root, files[j]);
          matches := matches + [fullPath];
        }
      }
      assert files[..|files|] == files;
      assert walk[..i + 1][..i] == walk[..i];
    }
    assert walk[..|walk|] == walk;
  }

  // ---------------------------------------------------------------------
  // Properties of the specification.
  // ---------------------------------------------------------------------

  /** Candidates of a split walk are the candidates of its parts. */
  lemma {:induction false} CandidatesAppend(w1: seq<WalkEntry>, w2: seq<WalkEntry>)
    ensures Candidates(w1 + w2) == Candidates(w1) + Candidates(w2)
    decreases |w2|
  {
    if w2 == [] {
      assert w1 + w2 == w1;
    } else {
      var w2' := w2[..|w2| - 1];
      assert (w1 + w2)[..|w1 + w2| - 1] == w1 + w2';
      CandidatesAppend(w1, w2');
    }
  }

  /** Selecting from a concatenation selects from each part in turn. */
  lemma {:induction false} SelectAppend(a: seq<FileRef>, b: seq<FileRef>, keyword: string)
    ensures Select(a + b, keyword) == Select(a, keyword) + Select(b, keyword)
    decreases |b|
  {
    if b == [] {
      assert a + b == a;
    } else {
      var b' := b[..|b| - 1];
      assert (a + b)[..|a + b| - 1] == a + b';
      SelectAppend(a, b', keyword);
    }
  }

  /** Monotone accumulation: the result for a walk that goes on is the
      result for the part walked so far, followed by the rest's. */
  lemma FindFilesAppend(w1: seq<WalkEntry>, w2: seq<WalkEntry>, keyword: string)
    ensures FindFilesSpec(w1 + w2, keyword) == FindFilesSpec(w1, keyword) + FindFilesSpec(w2, keyword)
  {
    CandidatesAppend(w1, w2);
    SelectAppend(Candidates(w1), Candidates(w2), keyword);
  }

  /** The candidates of one directory are its files, position by position. */
  lemma {:induction false} RefsAt(root: string, files: seq<string>)
    ensures |Refs(root, files)| == |files|
    ensures forall j :: 0 <= j < |files| ==> Refs(root, files)[j] == FileRef(root, files[j])
    decreases |files|
  {
    if files != [] {
      RefsAt(root, files[..|files| - 1]);
    }
  }

  /** A candidate is exactly a file listed by some walk entry. */
  lemma {:induction false} CandidatesMembership(walk: seq<WalkEntry>, c: FileRef)
    ensures c in Candidates(walk) <==>
      exists i, j :: 0 <= i < |walk| && 0 <= j < |walk[i].files| && c == FileRef(walk[i].root, walk[i].files[j])
    decreases |walk|
  {
    if walk != [] {
      var init, last := walk[..|walk| - 1], walk[|walk| - 1];
      CandidatesMembership(init, c);
      RefsAt(last.root, last.files);
      if c in Candidates(walk) {
        if c in Candidates(init) {
          var i, j :| 0 <= i < |init| && 0 <= j < |init[i].files| && c == FileRef(init[i].root, init[i].files[j]);
          assert walk[i] == init[i];
        } else {
          var j :| 0 <= j < |last.files| && Refs(last.root, last.files)[j] == c;
          assert walk[|walk| - 1] == last;
        }
      }
      if exists i, j :: 0 <= i < |walk| && 0 <= j < |walk[i].files| && c == FileRef(walk[i].root, walk[i].files[j]) {
        var i, j :| 0 <= i < |walk| && 0 <= j < |walk[i].files| && c == FileRef(walk[i].root, walk[i].files[j]);
        if i < |walk| - 1 {
          assert init[i] == walk[i];
        } else {
          assert Refs(last.root, last.files)[j] == c;
        }
      }
    }
  }

  /** A path is selected exactly when it is the join of some candidate whose
      name matches. */
  lemma {:induction false} SelectMembership(cs: seq<FileRef>, keyword: string, p: string)
    ensures p in Select(cs, keyword) <==>
      exists c :: c in cs && IsMatch(keyword, c.name) && p == Join(c.root, c.name)
    decreases |cs|
  {
    if cs != [] {
      var init, last := cs[..|cs| - 1], cs[|cs| - 1];
      SelectMembership(init, keyword, p);
      assert cs == init + [last];
    }
  }

  /** Soundness and completeness of the search: a path is in the result
      exactly when some walk entry lists a file, whose name contains the
      keyword up to case, that joins with the entry's directory to that
      path. Names of sub-directories never qualify. */
  lemma FindFilesMembership(walk: seq<WalkEntry>, keyword: string, p: string)
    ensures p in FindFilesSpec(walk, keyword) <==>
      exists i, j :: 0 <= i < |walk| && 0 <= j < |walk[i].files| &&
        Occurs(Lower(keyword), Lower(walk[i].files[j])) &&
        p == Join(walk[i].root, walk[i].files[j])
  {
    SelectMembership(Candidates(walk), keyword, p);
    if p in FindFilesSpec(walk, keyword) {
      var c :| c in Candidates(walk) && IsMatch(keyword, c.name) && p == Join(c.root, c.name);
      CandidatesMembership(walk, c);
      var i, j :| 0 <= i < |walk| && 0 <= j < |walk[i].files| && c == FileRef(walk[i].root, walk[i].files[j]);
      ContainsIffOccurs(Lower(c.name), Lower(keyword));
    }
    if exists i, j :: 0 <= i < |walk| && 0 <= j < |walk[i].files| &&
        Occurs(Lower(keyword), Lower(walk[i].files[j])) && p == Join(walk[i].root, walk[i].files[j]) {
      var i, j :| 0 <= i < |walk| && 0 <= j < |walk[i].files| &&
        Occurs(Lower(keyword), Lower(walk[i].files[j])) && p == Join(walk[i].root, walk[i].files[j]);
      var c := FileRef(walk[i].root, walk[i].files[j]);
      CandidatesMembership(walk, c);
      ContainsIffOccurs(Lower(c.name), Lower(keyword));
    }
  }

  /** Order preservation: the selected paths keep the order of the
      candidates they come from. */
  lemma {:induction false} SelectIsSubsequence(cs: seq<FileRef>, keyword: string)
    ensures IsSubsequence(Select(cs, keyword), PathsOf(cs))
    decreases |cs|
  {
    if cs != [] {
      var init, last := cs[..|cs| - 1], cs[|cs| - 1];
      SelectIsSubsequence(init, keyword);
      var s, ps := Select(init, keyword), PathsOf(init);
      var q := Join(last.root, last.name);
      assert (ps + [q])[..|ps|] == ps;
      if IsMatch(keyword, last.name) {
        assert (s + [q])[..|s|] == s;
      } else {
        assert Select(cs, keyword) == s;
      }
    }
  }

  /** The result is a subsequence of all joined file paths in walk order. */
  lemma FindFilesInWalkOrder(walk: seq<WalkEntry>, keyword: string)
    ensures IsSubsequence(FindFilesSpec(walk, keyword), AllPaths(walk))
  {
    SelectIsSubsequence(Candidates(walk), keyword);
  }

  /** There is one candidate per file of the walk. */
  lemma {:induction false} CandidatesCount(walk: seq<WalkEntry>)
    ensures |Candidates(walk)| == TotalFiles(walk)
    decreases |walk|
  {
    if walk != [] {
      CandidatesCount(walk[..|walk| - 1]);
      RefsAt(walk[|walk| - 1].root, walk[|walk| - 1].files);
    }
  }

  /** At most one path is selected per candidate. */
  lemma {:induction false} SelectLength(cs: seq<FileRef>, keyword: string)
    ensures |Select(cs, keyword)| <= |cs|
    decreases |cs|
  {
    if cs != [] {
      SelectLength(cs[..|cs| - 1], keyword);
    }
  }

  /** Bound: the result is no longer than the number of files walked. */
  lemma FindFilesBound(walk: seq<WalkEntry>, keyword: string)
    ensures |FindFilesSpec(walk, keyword)| <= TotalFiles(walk)
  {
    CandidatesCount(walk);
    SelectLength(Candidates(walk), keyword);
  }

  /** Only the lower-cased keyword matters to the selection. */
  lemma {:induction false} SelectCaseInsensitive(cs: seq<FileRef>, k1: string, k2: string)
    requires Lower(k1) == Lower(k2)
    ensures Select(cs, k1) == Select(cs, k2)
    decreases |cs|
  {
    if cs != [] {
      SelectCaseInsensitive(cs[..|cs| - 1], k1, k2);
    }
  }

  /** Case-insensitivity: two keywords that agree up to ASCII case give the
      same result; in particular an upper-cased keyword ("RESUME") gives
      what the lower-case one ("resume") gives. */
  lemma FindFilesCaseInsensitive(walk: seq<WalkEntry>, k1: string, k2: string)
    ensures Lower(k1) == Lower(k2) ==> FindFilesSpec(walk, k1) == FindFilesSpec(walk, k2)
    ensures FindFilesSpec(walk, Upper(k1)) == FindFilesSpec(walk, k1)
  {
    if Lower(k1) == Lower(k2) {
      SelectCaseInsensitive(Candidates(walk), k1, k2);
    }
    LowerOfUpper(k1);
    SelectCaseInsensitive(Candidates(walk), Upper(k1), k1);
  }

  /** The empty keyword selects every candidate. */
  lemma {:induction false} SelectEmptyKeyword(cs: seq<FileRef>)
    ensures Select(cs, []) == PathsOf(cs)
    decreases |cs|
  {
    if cs != [] {
      SelectEmptyKeyword(cs[..|cs| - 1]);
      assert Lower([]) == [];
    }
  }

  /** Empty keyword: every file of the walk is returned, in walk order. */
  lemma FindFilesEmptyKeyword(walk: seq<WalkEntry>)
    ensures FindFilesSpec(walk, []) == AllPaths(walk)
  {
    SelectEmptyKeyword(Candidates(walk));
  }

  /** Walks that list the same directories and files give the same
      candidates, whatever sub-directory names they list. */
  lemma {:induction false} CandidatesIgnoreDirs(w1: seq<WalkEntry>, w2: seq<WalkEntry>)
    requires |w1| == |w2|
    requires forall i :: 0 <= i < |w1| ==> w1[i].root == w2[i].root && w1[i].files == w2[i].files
    ensures Candidates(w1) == Candidates(w2)
    decreases |w1|
  {
    if w1 != [] {
      CandidatesIgnoreDirs(w1[..|w1| - 1], w2[..|w2| - 1]);
    }
  }

  /** Only file names are tested: the sub-directory names of the walk do
      not change the result. */
  lemma FindFilesIgnoresDirs(w1: seq<WalkEntry>, w2: seq<WalkEntry>, keyword: string)
    requires |w1| == |w2|
    requires forall i :: 0 <= i < |w1| ==> w1[i].root == w2[i].root && w1[i].files == w2[i].files
    ensures FindFilesSpec(w1, keyword) == FindFilesSpec(w2, keyword)
  {
    CandidatesIgnoreDirs(w1, w2);
  }

  /** Which files are selected does not depend on the directories they sit
      in: two walks listing the same file names under any directories
      select the same number of paths. */
  lemma {:induction false} FindFilesIgnoresRoots(w1: seq<WalkEntry>, w2: seq<WalkEntry>, keyword: string)
    requires |w1| == |w2|
    requires forall i :: 0 <= i < |w1| ==> w1[i].files == w2[i].files
    ensures |FindFilesSpec(w1, keyword)| == |FindFilesSpec(w2, keyword)|
    decreases |w1|
  {
    if w1 != [] {
      var n := |w1| - 1;
      FindFilesIgnoresRoots(w1[..n], w2[..n], keyword);
      assert w1 == w1[..n] + [w1[n]];
      assert w2 == w2[..n] + [w2[n]];
      FindFilesAppend(w1[..n], [w1[n]], keyword);
      FindFilesAppend(w2[..n], [w2[n]], keyword);
      OneEntryCount(w1[n].root, w2[n].root, w1[n].files, keyword);
      assert [w1[n]][..0] == [] && [w2[n]][..0] == [];
      assert Candidates([w1[n]]) == Refs(w1[n].root, w1[n].files);
      assert Candidates([w2[n]]) == Refs(w2[n].root, w2[n].files);
    }
  }

  /** Helper for `FindFilesIgnoresRoots`: one directory's file list selects
      as many paths under either directory. */
  lemma {:induction false} OneEntryCount(r1: string, r2: string, files: seq<string>, keyword: string)
    ensures |Select(Refs(r1, files), keyword)| == |Select(Refs(r2, files), keyword)|
    decreases |files|
  {
    if files != [] {
      var init := files[..|files| - 1];
      OneEntryCount(r1, r2, init, keyword);
      var a, b := Refs(r1, init), Refs(r2, init);
      var x, y := FileRef(r1, files[|files| - 1]), FileRef(r2, files[|files| - 1]);
      assert (a + [x])[..|a|] == a;
      assert (b + [y])[..|b|] == b;
    }
  }

  /** The directory "resume" containing only "notes.txt" yields nothing for
      the keyword "resume": a directory name never makes a file match. */
  lemma RootNameDoesNotMatch()
    ensures FindFilesSpec([WalkEntry("resume", ["resume"], ["notes.txt"])], "resume") == []
  {
    var cs := Candidates([WalkEntry("resume", ["resume"], ["notes.txt"])]);
    assert [WalkEntry("resume", ["resume"], ["notes.txt"])][..0] == [];
    assert cs == [FileRef("resume", "notes.txt")];
    assert Lower("notes.txt") == "notes.txt";
    assert Lower("resume") == "resume";
    ContainsNeedsRoom(".txt", "resume");
    assert !Contains("s.txt", "resume") by { assert "s.txt"[1..] == ".txt"; }
    assert !Contains("es.txt", "resume") by { assert "es.txt"[1..] == "s.txt"; }
    assert !Contains("tes.txt", "resume") by { assert "tes.txt"[1..] == "es.txt"; }
    assert !Contains("otes.txt", "resume") by { assert "otes.txt"[1..] == "tes.txt"; }
    assert !Contains("notes.txt", "resume") by { assert "notes.txt"[1..] == "otes.txt"; }
  }
}

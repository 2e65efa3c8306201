/** The pure decisions of the application scanner
    (`src/prefix/scanner.rs`): which executables to skip, what description
    a path suggests, and how the scan's findings are ordered and
    de-duplicated.  Walking directories and reading executables are outside
    the model. */
module Scanner {
  import opened Common
  import opened Strings
  import opened Config

  // ---------------------------------------------------------------------------
  // should_skip_executable
  // ---------------------------------------------------------------------------

  /** Directory fragments whose executables are never offered.  The path is
      lower-cased before the comparison, so `windows/winSxS` cannot match. */
  const SkipPatterns: seq<string> := [
    "windows/system32", "windows/syswow64", "windows/servicing", "windows/inf",
    "windows/driverstore", "windows/winSxS", "windows/microsoft.net", "windows/assembly",
    "program files/common files", "program files (x86)/common files", "programdata/microsoft",
    "users/default", "users/public", "$recycle.bin", "system volume information"]

  /** File-name prefixes of installers and system tools. */
  const SkipExecutables: seq<string> := [
    "unins000", "unins001", "uninstall", "setup", "install", "update", "patch",
    "dllhost", "rundll32", "regsvr32", "msiexec", "wuauclt", "svchost"]

  /** The last piece that names something, skipping the empty pieces of
      repeated or trailing separators and `.` pieces. */
  function LastNamed(pieces: seq<string>): (r: Option<string>)
    ensures r.Some? ==> r.value in pieces && r.value != "" && r.value != "."
    ensures r.None? ==> forall i :: 0 <= i < |pieces| ==> pieces[i] == "" || pieces[i] == "."
    decreases |pieces|
  {
    if |pieces| == 0 then None
    else
      var last := pieces[|pieces| - 1];
      if last != "" && last != "." then Some(last) else LastNamed(pieces[..|pieces| - 1])
  }

  /** `Path::file_name` of a `/`-separated path: its final component,
      unless that is `..` or there is none. */
  function FileName(path: string): (r: Option<string>)
    ensures r.Some? ==> r.value != "" && r.value != "." && r.value != ".." && '/' !in r.value
  {
    var pieces := Split(path, '/');
    SplitPiecesHaveNoSeparator(path, '/');
    match LastNamed(pieces)
    case Some(name) => if name == ".." then None else Some(name)
    case None => None
  }

  lemma {:induction false} SplitPiecesHaveNoSeparator(s: string, c: char)
    ensures forall i :: 0 <= i < |Split(s, c)| ==> c !in Split(s, c)[i]
    decreases |s|
  {
    if |s| > 0 {
      SplitPiecesHaveNoSeparator(s[1..], c);
      if s[0] != c {
        var rest := Split(s[1..], c);
        assert Split(s, c) == [[s[0]] + rest[0]] + rest[1..];
        assert forall i :: 1 <= i < |Split(s, c)| ==> Split(s, c)[i] == rest[i];
      }
    }
  }

  /** Index of the first pattern at or after `from` that `s` contains. */
  function FirstContained(s: string, patterns: seq<string>, from: nat): (r: Option<nat>)
    requires from <= |patterns|
    ensures r.Some? ==> from <= r.value < |patterns| && Contains(s, patterns[r.value])
    ensures r.None? ==> forall i :: from <= i < |patterns| ==> !Contains(s, patterns[i])
    decreases |patterns| - from
  {
    if from == |patterns| then None
    else if Contains(s, patterns[from]) then Some(from)
    else FirstContained(s, patterns, from + 1)
  }

  /** Index of the first prefix at or after `from` that `s` starts with. */
  function FirstPrefix(s: string, prefixes: seq<string>, from: nat): (r: Option<nat>)
    requires from <= |prefixes|
    ensures r.Some? ==> from <= r.value < |prefixes| && StartsWith(s, prefixes[r.value])
    ensures r.None? ==> forall i :: from <= i < |prefixes| ==> !StartsWith(s, prefixes[i])
    decreases |prefixes| - from
  {
    if from == |prefixes| then None
    else if StartsWith(s, prefixes[from]) then Some(from)
    else FirstPrefix(s, prefixes, from + 1)
  }

  /** The path lies in one of the skipped directories. */
  predicate InSkippedDirectory(path: string) {
    exists i :: 0 <= i < |SkipPatterns| && Contains(Lower(path), SkipPatterns[i])
  }

  /** The file name starts with one of the skipped prefixes. */
  predicate HasSkippedName(path: string) {
    FileName(path).Some? && exists i :: 0 <= i < |SkipExecutables| && StartsWith(Lower(FileName(path).value), SkipExecutables[i])
  }

  /** `should_skip_executable`: true exactly when the lower-cased path
      contains a skipped directory fragment or the lower-cased file name
      starts with a skipped prefix. */
  function ShouldSkipExecutable(path: string): (r: bool)
    ensures r <==> InSkippedDirectory(path) || HasSkippedName(path)
  {
    if FirstContained(Lower(path), SkipPatterns, 0).Some? then true
    else match FileName(path)
      case Some(name) => FirstPrefix(Lower(name), SkipExecutables, 0).Some?
      case None => false
  }

  /** The `windows/winSxS` fragment is compared with a lower-cased path and
      so never matches. */
  lemma WinSxSNeverMatches(path: string)
    ensures SkipPatterns[5] == "windows/winSxS"
    ensures !Contains(Lower(path), SkipPatterns[5])
  {
    assert SkipPatterns[5][11] == 'S';
    LowerNeverContainsUpper(path, SkipPatterns[5], 11);
  }

  /** The last piece of a split is what follows the last separator. */
  lemma {:induction false} SplitLastPiece(a: string, c: char, b: string)
    requires c !in b
    ensures Split(a + [c] + b, c)[|Split(a + [c] + b, c)| - 1] == b
    decreases |a|
  {
    if |a| == 0 {
      assert a + [c] + b == [c] + b;
      assert ([c] + b)[1..] == b;
      SplitWithoutSeparator(b, c);
    } else {
      var s := a + [c] + b;
      assert s[1..] == a[1..] + [c] + b;
      SplitLastPiece(a[1..], c, b);
      if s[0] != c {
        var rest := Split(s[1..], c);
        assert Split(s, c) == [[s[0]] + rest[0]] + rest[1..];
        if |rest| == 1 {
          assert c in s[1..] by { assert s[1..][|a| - 1] == c; }
          SplitHasSeparatorPiece(s[1..], c);
        }
      }
    }
  }

  /** Because the name test is a prefix test, any file whose name starts
      with `install` (an installer, say) or `update` (an updater) is skipped
      wherever it lies. */
  lemma PrefixNamesAreSkipped(dir: string, name: string)
    requires '/' !in name && name != ".." && name != "." && name != ""
    requires StartsWith(Lower(name), "install") || StartsWith(Lower(name), "update")
    ensures ShouldSkipExecutable(dir + "/" + name)
  {
    var path := dir + "/" + name;
    SplitLastPiece(dir, '/', name);
    assert FileName(path) == Some(name);
    assert SkipExecutables[4] == "install" && SkipExecutables[5] == "update";
  }

  // ---------------------------------------------------------------------------
  // extract_description_from_path
  // ---------------------------------------------------------------------------

  /** A component of a path as `Path::components` yields it. */
  datatype Component = RootDir | CurDir | ParentDir | Normal(name: string)

  /** The text of a component, as `as_os_str` gives it. */
  function Text(c: Component): string {
    match c
    case RootDir => "/"
    case CurDir => "."
    case ParentDir => ".."
    case Normal(name) => name
  }

  /** A name `Path::components` can yield as a normal component. */
  predicate NormalName(name: string) {
    name != "" && name != "." && name != ".." && '/' !in name
  }

  /** The component one `/`-separated piece contributes: none for the empty
      pieces of repeated or trailing separators and for `.`. */
  function PieceComponent(piece: string): seq<Component> {
    if piece == "" || piece == "." then []
    else if piece == ".." then [ParentDir]
    else [Normal(piece)]
  }

  function Normals(pieces: seq<string>): (cs: seq<Component>)
    ensures forall i :: 0 <= i < |cs| ==> cs[i].ParentDir? || cs[i].Normal?
    ensures forall i :: 0 <= i < |cs| && cs[i].Normal? ==>
      cs[i].name in pieces && cs[i].name != "" && cs[i].name != "." && cs[i].name != ".."
    decreases |pieces|
  {
    if |pieces| == 0 then []
    else Normals(pieces[..|pieces| - 1]) + PieceComponent(pieces[|pieces| - 1])
  }

  /** `Path::components` of a `/`-separated path: a root component when the
      path starts with `/`, a current-directory component when its first
      piece is `.`, then one component per remaining piece, dropping empty
      pieces and `.`. */
  function Components(path: string): (cs: seq<Component>)
    ensures (|cs| > 0 && cs[0] == RootDir) <==> (|path| > 0 && path[0] == '/')
    ensures (|cs| > 0 && cs[0] == CurDir) <==> (path == "." || (|path| >= 2 && path[..2] == "./"))
    ensures forall i :: 0 < i < |cs| ==> cs[i].ParentDir? || cs[i].Normal?
    ensures forall i :: 0 <= i < |cs| && cs[i].Normal? ==> NormalName(cs[i].name)
  {
    var pieces := Split(path, '/');
    SplitPiecesHaveNoSeparator(path, '/');
    SplitHeadIsDot(path, '/');
    var lead := if |path| > 0 && path[0] == '/' then [RootDir] else if pieces[0] == "." then [CurDir] else [];
    assert forall i :: 0 <= i < |pieces| ==> '/' !in pieces[i];
    lead + Normals(pieces)
  }

  /** The first piece of a split is `.` exactly when the text is `.` or
      starts with `.` and the separator. */
  lemma SplitHeadIsDot(s: string, c: char)
    requires c != '.'
    ensures Split(s, c)[0] == "." <==> (s == "." || (|s| >= 2 && s[..2] == ['.', c]))
  {
    if |s| > 0 && s[0] == '.' {
      var rest := Split(s[1..], c);
      assert Split(s, c)[0] == ['.'] + rest[0];
      if |s| >= 2 && s[1] != c {
        assert rest[0] == [s[1]] + Split(s[2..], c)[0];
      }
      assert |s| >= 2 ==> s[..2] == ['.', s[1]];
    }
  }

  /** `Path::file_name` agrees with the last component: it is the last
      component's name when that component is a normal one, and absent
      otherwise. */
  lemma FileNameIsLastComponent(path: string)
    ensures var cs := Components(path);
      FileName(path) == if |cs| > 0 && cs[|cs| - 1].Normal? then Some(cs[|cs| - 1].name) else None
  {
    LastNamedIsLastNormal(Split(path, '/'));
  }

  lemma {:induction false} LastNamedIsLastNormal(pieces: seq<string>)
    ensures var cs := Normals(pieces);
      (|cs| == 0 <==> LastNamed(pieces).None?)
      && (|cs| > 0 ==> cs[|cs| - 1] == PieceComponent(LastNamed(pieces).value)[0])
    decreases |pieces|
  {
    if |pieces| > 0 {
      var init := pieces[..|pieces| - 1];
      LastNamedIsLastNormal(init);
    }
  }

  /** Repeated and trailing separators do not change the components, so
      `/a//b/` and `/a/b` name the same directory. */
  lemma RepeatedSeparatorsIgnored()
    ensures Components("/a//b/") == Components("/a/b") == [RootDir, Normal("a"), Normal("b")]
  {
    ExampleSplits();
    ExampleNormals();
  }

  lemma ExampleSplits()
    ensures Split("/a//b/", '/') == ["", "a", "", "b", ""]
    ensures Split("/a/b", '/') == ["", "a", "b"]
  {
    var s := "/a//b/";
    assert Split(s[5..], '/') == ["", ""];
    SplitNamePiece(s[4..], '/', ["", ""]);
    assert [s[4]] + "" == "b";
    assert Split(s[4..], '/') == ["b", ""];
    assert Split(s[3..], '/') == ["", "b", ""];
    assert Split(s[2..], '/') == ["", "", "b", ""];
    SplitNamePiece(s[1..], '/', ["", "", "b", ""]);
    assert [s[1]] + "" == "a";
    assert Split(s[1..], '/') == ["a", "", "b", ""];
    var u := "/a/b";
    SplitNamePiece(u[3..], '/', [""]);
    assert [u[3]] + "" == "b";
    assert Split(u[3..], '/') == ["b"];
    assert Split(u[2..], '/') == ["", "b"];
    SplitNamePiece(u[1..], '/', ["", "b"]);
    assert [u[1]] + "" == "a";
  }

  lemma ExampleNormals()
    ensures Normals(["", "a", "", "b", ""]) == [Normal("a"), Normal("b")]
    ensures Normals(["", "a", "b"]) == [Normal("a"), Normal("b")]
  {
    NormalsOfRootA();
    var a := [Normal("a")];
    NormalsSnoc(["", "a"], "");
    assert ["", "a"] + [""] == ["", "a", ""];
    assert a + [] == a;
    NormalsSnoc(["", "a", ""], "b");
    assert ["", "a", ""] + ["b"] == ["", "a", "", "b"];
    assert PieceComponent("b") == [Normal("b")];
    NormalsSnoc(["", "a", "", "b"], "");
    assert ["", "a", "", "b"] + [""] == ["", "a", "", "b", ""];
    NormalsSnoc(["", "a"], "b");
    assert ["", "a"] + ["b"] == ["", "a", "b"];
  }

  lemma NormalsOfRootA()
    ensures Normals(["", "a"]) == [Normal("a")]
  {
    var a := [Normal("a")];
    NormalsSnoc([], "");
    assert [] + [""] == [""];
    NormalsSnoc([""], "a");
    assert [""] + ["a"] == ["", "a"];
    assert PieceComponent("a") == a;
  }

  lemma NormalsSnoc(init: seq<string>, last: string)
    ensures Normals(init + [last]) == Normals(init) + PieceComponent(last)
  {
    assert (init + [last])[..|init|] == init;
  }

  /** One step of a split on text that starts with a one-character name. */
  lemma SplitNamePiece(s: string, c: char, rest: seq<string>)
    requires |s| > 0 && s[0] != c && Split(s[1..], c) == rest
    ensures Split(s, c) == [[s[0]] + rest[0]] + rest[1..]
  {
  }

  /** `parent().file_name()`: the next-to-last component when it is a
      normal one. */
  function ParentName(cs: seq<Component>): (r: Option<string>)
    ensures r.Some? <==> |cs| >= 2 && cs[|cs| - 2].Normal?
  {
    if |cs| >= 2 && cs[|cs| - 2].Normal? then Some(cs[|cs| - 2].name) else None
  }

  predicate IsProgramFiles(text: string) {
    Lower(text) == "program files" || Lower(text) == "program files (x86)"
  }

  /** Component `i` is a program-files directory followed by a directory
      whose name does not contain `common`. */
  predicate AppDirAt(cs: seq<Component>, i: int)
    requires 0 <= i < |cs|
  {
    IsProgramFiles(Text(cs[i])) && i + 1 < |cs| && !Contains(Lower(Text(cs[i + 1])), "common")
  }

  /** The first application directory at or after `from`. */
  function FirstAppDir(cs: seq<Component>, from: nat): (r: Option<nat>)
    requires from <= |cs|
    ensures r.Some? ==>
      from <= r.value < |cs| && AppDirAt(cs, r.value)
      && (forall j :: from <= j < r.value ==> !AppDirAt(cs, j))
    ensures r.None? ==> forall j :: from <= j < |cs| ==> !AppDirAt(cs, j)
    decreases |cs| - from
  {
    if from == |cs| then None
    else if AppDirAt(cs, from) then Some(from)
    else FirstAppDir(cs, from + 1)
  }

  /** `extract_description_from_path`: over the path's components, the
      directory after the first program-files component whose successor is
      not a common-files directory; otherwise the parent directory, unless
      its name mentions `system` or `windows`. */
  function ExtractDescriptionFromPath(path: string): (r: Option<string>)
    ensures var cs := Components(path);
      (exists i :: 0 <= i < |cs| && AppDirAt(cs, i)) ==>
        exists i :: 0 <= i < |cs| && AppDirAt(cs, i) && (forall j :: 0 <= j < i ==> !AppDirAt(cs, j))
          && r == Some("Application: " + Text(cs[i + 1]))
    ensures var cs := Components(path);
      (forall i :: 0 <= i < |cs| ==> !AppDirAt(cs, i)) ==>
        (r.Some? <==> ParentName(cs).Some? && !Contains(Lower(ParentName(cs).value), "system")
                      && !Contains(Lower(ParentName(cs).value), "windows"))
        && (r.Some? ==> r.value == "Located in: " + ParentName(cs).value)
  {
    var cs := Components(path);
    match FirstAppDir(cs, 0)
    case Some(i) => Some("Application: " + Text(cs[i + 1]))
    case None =>
      match ParentName(cs)
      case Some(p) =>
        if !Contains(Lower(p), "system") && !Contains(Lower(p), "windows") then Some("Located in: " + p) else None
      case None => None
  }

  // ---------------------------------------------------------------------------
  // scan_prefix: sort by name, then drop adjacent duplicates
  // ---------------------------------------------------------------------------

  predicate SortedByName(xs: seq<RegisteredExecutable>) {
    forall i :: 0 < i < |xs| ==> Le(xs[i - 1].name, xs[i].name)
  }

  /** Inserts `x` before the first entry whose name is not smaller, so an
      entry inserted later lands before equal names already placed. */
  function InsertByName(x: RegisteredExecutable, s: seq<RegisteredExecutable>): (r: seq<RegisteredExecutable>)
    ensures multiset(r) == multiset(s) + multiset{x}
    ensures |r| > 0 && (r[0] == x || (|s| > 0 && r[0] == s[0]))
    ensures SortedByName(s) ==> SortedByName(r)
    decreases |s|
  {
    if |s| == 0 || Le(x.name, s[0].name) then [x] + s
    else
      var rest := InsertByName(x, s[1..]);
      LeTotal(x.name, s[0].name);
      assert s == [s[0]] + s[1..];
      [s[0]] + rest
  }

  /** `sort_by` on names: stable, since each earlier entry is inserted in
      front of the equal names that follow it. */
  function SortByName(xs: seq<RegisteredExecutable>): (r: seq<RegisteredExecutable>)
    ensures multiset(r) == multiset(xs)
    ensures SortedByName(r)
    decreases |xs|
  {
    if |xs| == 0 then []
    else
      assert xs == [xs[0]] + xs[1..];
      InsertByName(xs[0], SortByName(xs[1..]))
  }

  /** The two entries `dedup_by` compares as equal: same name and path. */
  predicate SameEntry(a: RegisteredExecutable, b: RegisteredExecutable) {
    a.name == b.name && a.executablePath == b.executablePath
  }

  predicate NoAdjacentDuplicates(xs: seq<RegisteredExecutable>) {
    forall i :: 0 < i < |xs| ==> !SameEntry(xs[i - 1], xs[i])
  }

  /** `dedup_by`: keeps the first entry of every run of neighbours with the
      same name and path. */
  function DedupAdjacent(xs: seq<RegisteredExecutable>): (r: seq<RegisteredExecutable>)
    ensures multiset(r) <= multiset(xs)
    ensures NoAdjacentDuplicates(r)
    ensures |xs| > 0 ==> |r| > 0 && r[0] == xs[0]
    decreases |xs|
  {
    if |xs| == 0 then []
    else
      var d := DedupAdjacent(xs[1..]);
      assert xs == [xs[0]] + xs[1..];
      if |d| > 0 && SameEntry(xs[0], d[0]) then
        assert d == [d[0]] + d[1..];
        [xs[0]] + d[1..]
      else
        [xs[0]] + d
  }

  /** `dedup_by` keeps entry `i` when it is the first one or differs from
      the entry just before it in the input. */
  predicate KeptByDedup(xs: seq<RegisteredExecutable>, i: int)
    requires 0 <= i < |xs|
  {
    i == 0 || !SameEntry(xs[i - 1], xs[i])
  }

  /** The entries from position `from` on that `KeptByDedup` selects, in
      their input order. */
  function KeptEntries(xs: seq<RegisteredExecutable>, from: nat): seq<RegisteredExecutable>
    requires from <= |xs|
    decreases |xs| - from
  {
    if from == |xs| then []
    else (if KeptByDedup(xs, from) then [xs[from]] else []) + KeptEntries(xs, from + 1)
  }

  /** De-duplication is exactly the selection of the kept entries: an entry
      goes only when it equals its neighbour in the input, so repeats that
      are not neighbours all stay. */
  lemma {:induction false} DedupKeepsExactly(xs: seq<RegisteredExecutable>)
    ensures DedupAdjacent(xs) == KeptEntries(xs, 0)
    decreases |xs|
  {
    if |xs| == 1 {
      assert KeptEntries(xs, 0) == [xs[0]] + KeptEntries(xs, 1);
    } else if |xs| > 1 {
      var ys := xs[1..];
      var rest := KeptEntries(xs, 2);
      DedupKeepsExactly(ys);
      KeptEntriesShift(xs, 2);
      assert KeptEntries(ys, 0) == [xs[1]] + KeptEntries(ys, 1);
      var d := DedupAdjacent(ys);
      assert d == [xs[1]] + rest;
      assert d[0] == xs[1] && d[1..] == rest;
      assert KeptEntries(xs, 0) == [xs[0]] + KeptEntries(xs, 1);
      if SameEntry(xs[0], xs[1]) {
        assert KeptEntries(xs, 1) == rest;
        assert DedupAdjacent(xs) == [xs[0]] + d[1..];
      } else {
        assert KeptEntries(xs, 1) == [xs[1]] + rest;
        assert DedupAdjacent(xs) == [xs[0]] + d;
      }
    }
  }

  /** Selecting from position `k` of `xs` is selecting from `k - 1` of its
      tail, once both positions have a predecessor. */
  lemma {:induction false} KeptEntriesShift(xs: seq<RegisteredExecutable>, k: nat)
    requires 2 <= k <= |xs|
    ensures KeptEntries(xs, k) == KeptEntries(xs[1..], k - 1)
    decreases |xs| - k
  {
    if k < |xs| {
      KeptEntriesShift(xs, k + 1);
      assert KeptByDedup(xs, k) == KeptByDedup(xs[1..], k - 1);
    }
  }

  /** The (name, path) pairs of a list of executables. */
  function Keys(xs: seq<RegisteredExecutable>): set<(string, string)> {
    set e | e in xs :: (e.name, e.executablePath)
  }

  lemma KeysCons(x: RegisteredExecutable, ys: seq<RegisteredExecutable>)
    ensures Keys([x] + ys) == {(x.name, x.executablePath)} + Keys(ys)
  {
    assert forall e :: e in [x] + ys <==> e == x || e in ys;
  }

  /** De-duplication drops only entries whose name and path stay listed. */
  lemma {:induction false} DedupKeepsKeys(xs: seq<RegisteredExecutable>)
    ensures Keys(DedupAdjacent(xs)) == Keys(xs)
    decreases |xs|
  {
    if |xs| > 0 {
      var x := xs[0];
      var d := DedupAdjacent(xs[1..]);
      DedupKeepsKeys(xs[1..]);
      assert xs == [x] + xs[1..];
      KeysCons(x, xs[1..]);
      if |d| > 0 && SameEntry(x, d[0]) {
        assert d == [d[0]] + d[1..];
        KeysCons(d[0], d[1..]);
        KeysCons(x, d[1..]);
      } else {
        KeysCons(x, d);
      }
    }
  }

  /** De-duplicating a sorted list leaves it sorted. */
  lemma {:induction false} DedupKeepsSorted(xs: seq<RegisteredExecutable>)
    requires SortedByName(xs)
    ensures SortedByName(DedupAdjacent(xs))
    decreases |xs|
  {
    if |xs| > 1 {
      assert SortedByName(xs[1..]);
      DedupKeepsSorted(xs[1..]);
      var d := DedupAdjacent(xs[1..]);
      if |d| > 1 && SameEntry(xs[0], d[0]) {
        LeChain(xs[0].name, d[0].name, d[1].name);
      }
    }
  }

  lemma LeChain(a: string, b: string, c: string)
    ensures Le(a, b) && Le(b, c) ==> Le(a, c)
  {
    if Le(a, b) && Le(b, c) {
      LeTransitive(a, b, c);
    }
  }

  /** What `scan_prefix` returns for the executables found: sorted by
      name, with neighbouring duplicates removed. */
  function ScanOrder(found: seq<RegisteredExecutable>): (r: seq<RegisteredExecutable>)
    ensures SortedByName(r)
    ensures NoAdjacentDuplicates(r)
    ensures multiset(r) <= multiset(found)
    ensures Keys(r) == Keys(found)
  {
    DedupKeepsSorted(SortByName(found));
    var sorted := SortByName(found);
    DedupKeepsKeys(sorted);
    assert forall e :: e in sorted <==> e in found by {
      forall e ensures e in sorted <==> e in found {
        assert e in sorted <==> e in multiset(sorted);
        assert e in found <==> e in multiset(found);
      }
    }
    assert Keys(sorted) == Keys(found);
    DedupAdjacent(SortByName(found))
  }

  /** Entries that all share one name keep their order: the sort is
      stable. */
  lemma {:induction false} SortKeepsEqualNames(xs: seq<RegisteredExecutable>)
    requires forall i :: 0 <= i < |xs| ==> xs[i].name == xs[0].name
    ensures SortByName(xs) == xs
    decreases |xs|
  {
    if |xs| > 0 {
      var rest := xs[1..];
      assert forall i :: 0 <= i < |rest| ==> rest[i].name == rest[0].name == xs[0].name;
      SortKeepsEqualNames(rest);
      LeReflexive(xs[0].name);
      assert [xs[0]] + rest == xs;
    }
  }

  /** Only neighbours are compared: the same executable found twice with a
      different one of the same name between them is listed twice. */
  lemma OnlyNeighboursAreMerged(name: string, p1: string, p2: string)
    requires p1 != p2
    ensures var a := NewExecutable(name, p1);
      var b := NewExecutable(name, p2);
      ScanOrder([a, b, a]) == [a, b, a]
  {
    var a := NewExecutable(name, p1);
    var b := NewExecutable(name, p2);
    SortKeepsEqualNames([a, b, a]);
    DedupAlternating(a, b);
  }

  lemma DedupAlternating(a: RegisteredExecutable, b: RegisteredExecutable)
    requires !SameEntry(a, b)
    ensures DedupAdjacent([a, b, a]) == [a, b, a]
  {
    DedupKeepsDistinctHead(a, []);
    DedupKeepsDistinctHead(b, [a]);
    DedupKeepsDistinctHead(a, [b, a]);
  }

  /** A head that differs from its neighbour stays in front of the rest's
      de-duplication. */
  lemma DedupKeepsDistinctHead(x: RegisteredExecutable, ys: seq<RegisteredExecutable>)
    requires |ys| > 0 ==> !SameEntry(x, ys[0])
    ensures DedupAdjacent([x] + ys) == [x] + DedupAdjacent(ys)
  {
    assert ([x] + ys)[1..] == ys;
  }
}

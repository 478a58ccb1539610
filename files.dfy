/** The pure parts of files.hpp: the file- and directory-name validators,
    the C++ standard version computed from __cplusplus, and the rules
    filedir applies to the names it finds (extension normalisation,
    case-insensitive extension matching, sorting). */
module Files {
  import opened Wrappers

  // ---------------------------------------------------------------------------
  // check_file_name / check_dir_name

  /** Characters check_file_name rejects. */
  const FILE_NAME_FORBIDDEN: set<char> := {'/', '\\', ':', '*', '?', '"', '<', '>', '|'}

  /** Characters check_dir_name rejects: the same without the separators. */
  const DIR_NAME_FORBIDDEN: set<char> := {':', '*', '?', '"', '<', '>', '|'}

  /** std::string::find_first_of: the first position of s holding a
      character of chars, or None for npos. */
  function FindFirstOf(s: string, chars: set<char>): (r: Option<nat>)
    ensures r.None? <==> forall k | 0 <= k < |s| :: s[k] !in chars
    ensures r.Some? ==> (r.value < |s| && s[r.value] in chars &&
      forall k | 0 <= k < r.value :: s[k] !in chars)
  {
    if |s| == 0 then None
    else if s[0] in chars then Some(0)
    else match FindFirstOf(s[1..], chars)
      case None => None
      case Some(k) => Some(k + 1)
  }

  /** check_file_name: the name is legal when no forbidden character is
      found in it. */
  function CheckFileName(name: string): (ok: bool)
    ensures ok <==> forall k | 0 <= k < |name| :: name[k] !in FILE_NAME_FORBIDDEN
  {
    FindFirstOf(name, FILE_NAME_FORBIDDEN).None?
  }

  /** check_dir_name: like check_file_name but '/' and '\' are allowed. */
  function CheckDirName(name: string): (ok: bool)
    ensures ok <==> forall k | 0 <= k < |name| :: name[k] !in DIR_NAME_FORBIDDEN
  {
    FindFirstOf(name, DIR_NAME_FORBIDDEN).None?
  }

  /** Every legal file name is a legal directory name, and a name that only
      fails as a file name contains a path separator. */
  lemma FileNameImpliesDirName(name: string)
    ensures CheckFileName(name) ==> CheckDirName(name)
    ensures CheckDirName(name) && !CheckFileName(name) ==> exists k | 0 <= k < |name| :: name[k] == '/' || name[k] == '\\'
  {
    assert DIR_NAME_FORBIDDEN <= FILE_NAME_FORBIDDEN;
    if CheckDirName(name) && !CheckFileName(name) {
      var k :| 0 <= k < |name| && name[k] in FILE_NAME_FORBIDDEN;
      assert name[k] !in DIR_NAME_FORBIDDEN;
    }
  }

  /** The names the library's own test feeds in are rejected: the first
      ends in '/', the second holds '>'. */
  lemma RejectedFileName()
    ensures !CheckFileName("test.ikun/")
  {
    var s := "test.ikun/";
    assert s[9] in FILE_NAME_FORBIDDEN;
  }

  lemma RejectedDirName()
    ensures !CheckDirName("testdir>")
  {
    var s := "testdir>";
    assert s[7] in DIR_NAME_FORBIDDEN;
  }

  // ---------------------------------------------------------------------------
  // get_cppversion

  /** get_cppversion: the two-digit year of __cplusplus, moved up to the
      next year that is 2 modulo 3 (the years of published standards), so
      that a preview such as 202400 reads as the standard it announces.
      The macro is a positive literal, hence the nat. */
  function GetCppVersion(cplusplus: nat): (v: int)
    ensures var c := (cplusplus / 100) % 100;
      v in {c, c + 1, c + 2} && v % 3 == 2 &&
      forall w | c <= w < v :: w % 3 != 2
  {
    var version := (cplusplus / 100) % 100;
    var temp := version % 3;
    if temp == 1 then version + 1
    else if temp == 0 then version + 2
    else version
  }

  /** The cases worked through in the source's comments. */
  lemma CppVersionExamples()
    ensures GetCppVersion(201703) == 17
    ensures GetCppVersion(201600) == 17
    ensures GetCppVersion(202002) == 20
    ensures GetCppVersion(202400) == 26
    ensures GetCppVersion(199711) == 98
  {
  }

  // ---------------------------------------------------------------------------
  // filedir's rules on names

  /** The extension filter after filedir's fix-up: a non-empty filter other
      than "." that does not start with '.' gets one prepended. */
  function NormalizeExtension(wanted: string): (r: string)
    ensures wanted == "" || wanted == "." ==> r == wanted
    ensures |r| == |wanted| || |r| == |wanted| + 1
    ensures wanted != "" && wanted != "." ==> |r| > 0 && r[0] == '.' && r[|r| - |wanted|..] == wanted
  {
    if wanted != "" && wanted != "." && wanted[0] != '.' then "." + wanted else wanted
  }

  /** Normalising a normalised filter changes nothing. */
  lemma NormalizeIdempotent(wanted: string)
    ensures NormalizeExtension(NormalizeExtension(wanted)) == NormalizeExtension(wanted)
  {
  }

  /** std::filesystem::path::extension of a file name: empty for "." and
      "..", for names without a '.', and for names whose only '.' leads
      (hidden files); otherwise the text from the last '.' on. */
  function Extension(name: string): (ext: string)
    ensures ext != "" ==> ext[0] == '.' && |ext| < |name| && name[|name| - |ext|..] == ext
    ensures ext != "" ==> forall k | 1 <= k < |ext| :: ext[k] != '.'
    ensures ext == "" <==> name == "." || name == ".." || forall k | 1 <= k < |name| :: name[k] != '.'
  {
    if name == "." || name == ".." then ""
    else match LastDot(name)
      case None => ""
      case Some(k) => if k == 0 then "" else name[k..]
  }

  /** The position of the last '.' in s. */
  function LastDot(s: string): (r: Option<nat>)
    ensures r.None? <==> forall k | 0 <= k < |s| :: s[k] != '.'
    ensures r.Some? ==> (r.value < |s| && s[r.value] == '.' &&
      forall k | r.value < k < |s| :: s[k] != '.')
  {
    if |s| == 0 then None
    else if s[|s| - 1] == '.' then Some(|s| - 1)
    else LastDot(s[..|s| - 1])
  }

  /** std::tolower in the "C" locale. */
  function ToLower(c: char): (r: char)
    ensures 'A' <= c <= 'Z' ==> 'a' <= r <= 'z' && r as int == c as int + 32
    ensures !('A' <= c <= 'Z') ==> r == c
  {
    if 'A' <= c <= 'Z' then (c as int + 32) as char else c
  }

  /** The comparison filedir runs: the same length and the same characters
      after ToLower. */
  predicate EqualIgnoreCase(a: string, b: string) {
    |a| == |b| && forall k | 0 <= k < |a| :: ToLower(a[k]) == ToLower(b[k])
  }

  /** EqualIgnoreCase is an equivalence that identifies case variants. */
  lemma EqualIgnoreCaseEquivalence(a: string, b: string, c: string)
    ensures EqualIgnoreCase(a, a)
    ensures EqualIgnoreCase(a, b) ==> EqualIgnoreCase(b, a)
    ensures EqualIgnoreCase(a, b) && EqualIgnoreCase(b, c) ==> EqualIgnoreCase(a, c)
  {
  }

  /** Whether filedir keeps a file: the filter "." or "" keeps every file,
      any other (normalised) filter keeps the files whose non-empty
      extension equals it ignoring case. */
  function Matches(name: string, filter: string): (keep: bool)
    ensures filter == "" || filter == "." ==> keep
    ensures filter != "" && filter != "." ==> (keep <==> Extension(name) != "" && EqualIgnoreCase(Extension(name), filter))
  {
    if filter == "." then true
    else if filter == "" then true
    else
      var ext := Extension(name);
      ext != "" && EqualIgnoreCase(ext, filter)
  }

  /** Case does not matter on either side. */
  lemma MatchesIgnoresCase(name: string, filter: string, other: string)
    requires filter != "" && filter != "." && other != "" && other != "."
    requires EqualIgnoreCase(filter, other)
    ensures Matches(name, filter) == Matches(name, other)
  {
    EqualIgnoreCaseEquivalence(Extension(name), filter, other);
    EqualIgnoreCaseEquivalence(Extension(name), other, filter);
    EqualIgnoreCaseEquivalence(filter, other, other);
  }

  /** "report.TXT" is kept by the filter "txt" (normalised to ".txt"), and
      ".bashrc" has no extension, so only "." or "" keep it. */
  lemma MatchExamples()
    ensures Matches("report.TXT", NormalizeExtension("txt"))
    ensures !Matches(".bashrc", NormalizeExtension("bashrc"))
    ensures Matches(".bashrc", NormalizeExtension("."))
  {
    var s := "report.TXT";
    assert s[6] == '.' && s[7] == 'T' && s[8] == 'X' && s[9] == 'T';
    assert LastDot(s) == Some(6);
    assert Extension(s) == ".TXT";
    var h := ".bashrc";
    assert h[0] == '.' && forall k | 1 <= k < |h| :: h[k] != '.';
    assert LastDot(h) == Some(0);
  }

  // ---------------------------------------------------------------------------
  // sorting the result

  /** std::string's operator<=: lexicographic order on character codes. */
  predicate LexLessEq(a: string, b: string) {
    if |a| == 0 then true
    else if |b| == 0 then false
    else if a[0] != b[0] then a[0] < b[0]
    else LexLessEq(a[1..], b[1..])
  }

  lemma {:induction false} LexReflexive(a: string)
    ensures LexLessEq(a, a)
  {
    if |a| > 0 {
      LexReflexive(a[1..]);
    }
  }

  lemma {:induction false} LexTotal(a: string, b: string)
    ensures LexLessEq(a, b) || LexLessEq(b, a)
  {
    if |a| > 0 && |b| > 0 && a[0] == b[0] {
      LexTotal(a[1..], b[1..]);
    }
  }

  lemma {:induction false} LexTransitive(a: string, b: string, c: string)
    requires LexLessEq(a, b) && LexLessEq(b, c)
    ensures LexLessEq(a, c)
  {
    if |a| > 0 && |b| > 0 && |c| > 0 && a[0] == b[0] && b[0] == c[0] {
      LexTransitive(a[1..], b[1..], c[1..]);
    }
  }

  lemma {:induction false} LexAntisymmetric(a: string, b: string)
    requires LexLessEq(a, b) && LexLessEq(b, a)
    ensures a == b
  {
    if |a| > 0 && |b| > 0 {
      LexAntisymmetric(a[1..], b[1..]);
      assert a == [a[0]] + a[1..] && b == [b[0]] + b[1..];
    }
  }

  predicate Sorted(names: seq<string>) {
    forall i, j | 0 <= i < j < |names| :: LexLessEq(names[i], names[j])
  }

  /** Insertion of one name into a sorted list. */
  function Insert(x: string, names: seq<string>): (r: seq<string>)
    requires Sorted(names)
    ensures Sorted(r) && multiset(r) == multiset(names) + multiset{x}
  {
    if |names| == 0 then [x]
    else if LexLessEq(x, names[0]) then
      assert forall j | 0 < j < |names| :: LexLessEq(x, names[j]) by {
        forall j | 0 < j < |names| ensures LexLessEq(x, names[j]) {
          LexTransitive(x, names[0], names[j]);
        }
      }
      [x] + names
    else
      LexTotal(x, names[0]);
      var rest := Insert(x, names[1..]);
      assert names == [names[0]] + names[1..];
      assert forall y | y in multiset(rest) :: LexLessEq(names[0], y) by {
        forall y | y in multiset(rest) ensures LexLessEq(names[0], y) {
          if y != x {
            assert y in multiset(names[1..]);
            var j :| 0 <= j < |names[1..]| && names[1..][j] == y;
            assert names[j + 1] == y;
          }
        }
      }
      assert forall j | 0 <= j < |rest| :: rest[j] in multiset(rest);
      [names[0]] + rest
  }

  /** std::sort on the collected names: sorted and a permutation. */
  function SortNames(names: seq<string>): (r: seq<string>)
    ensures Sorted(r) && multiset(r) == multiset(names)
  {
    if |names| == 0 then []
    else
      assert names == names[..|names| - 1] + [names[|names| - 1]];
      Insert(names[|names| - 1], SortNames(names[..|names| - 1]))
  }

  /** Sorting is unique: two sorted arrangements of the same names agree,
      so SortNames(names) is what std::sort leaves whatever the input
      order. */
  lemma {:induction false} SortedUnique(a: seq<string>, b: seq<string>)
    requires Sorted(a) && Sorted(b) && multiset(a) == multiset(b)
    ensures a == b
  {
    if |a| == 0 {
      assert |b| == |multiset(b)| == 0;
    } else {
      assert |b| == |multiset(b)| == |multiset(a)| == |a|;
      SameHead(a, b);
      SameTail(a, b);
      SortedUnique(a[1..], b[1..]);
      assert a == [a[0]] + a[1..] && b == [b[0]] + b[1..];
    }
  }

  lemma SameHead(a: seq<string>, b: seq<string>)
    requires Sorted(a) && Sorted(b) && multiset(a) == multiset(b) && |a| > 0 && |b| > 0
    ensures a[0] == b[0]
  {
    assert a[0] in multiset(b) && b[0] in multiset(a);
    var i :| 0 <= i < |b| && b[i] == a[0];
    var j :| 0 <= j < |a| && a[j] == b[0];
    LexReflexive(a[0]);
    LexReflexive(b[0]);
    assert LexLessEq(b[0], a[0]) && LexLessEq(a[0], b[0]);
    LexAntisymmetric(a[0], b[0]);
  }

  lemma SameTail(a: seq<string>, b: seq<string>)
    requires multiset(a) == multiset(b) && |a| > 0 && |b| > 0 && a[0] == b[0]
    ensures multiset(a[1..]) == multiset(b[1..])
  {
    assert a == [a[0]] + a[1..] && b == [b[0]] + b[1..];
    assert multiset(a[1..]) == multiset(a) - multiset{a[0]};
    assert multiset(b[1..]) == multiset(b) - multiset{b[0]};
  }

  /** The names of the regular files filedir keeps for a filter. */
  function Kept(files: seq<string>, filter: string): (r: seq<string>)
    ensures forall x :: x in r <==> x in files && Matches(x, filter)
    ensures forall x :: multiset(r)[x] == if Matches(x, filter) then multiset(files)[x] else 0
    ensures |r| <= |files|
  {
    if |files| == 0 then []
    else
      var rest := Kept(files[1..], filter);
      assert files == [files[0]] + files[1..];
      assert multiset(files) == multiset{files[0]} + multiset(files[1..]);
      if Matches(files[0], filter) then [files[0]] + rest else rest
  }

  /** filedir's result for the names of the regular files in the directory
      (in whatever order the directory walk meets them) and a filter:
      the names kept by the normalised filter, sorted. */
  function SelectFiles(files: seq<string>, wanted: string): (r: seq<string>)
    ensures Sorted(r)
    ensures forall x :: x in r <==> x in files && Matches(x, NormalizeExtension(wanted))
    ensures forall x :: multiset(r)[x] == if Matches(x, NormalizeExtension(wanted)) then multiset(files)[x] else 0
    ensures |r| <= |files|
  {
    var kept := Kept(files, NormalizeExtension(wanted));
    var r := SortNames(kept);
    assert |r| == |multiset(r)| == |multiset(kept)| == |kept|;
    assert forall x :: x in r <==> x in multiset(r);
    r
  }

  /** With the default filter every file is listed, each as often as the
      walk met it. */
  lemma DefaultListsEverything(files: seq<string>)
    ensures multiset(SelectFiles(files, ".")) == multiset(files)
    ensures multiset(SelectFiles(files, "")) == multiset(files)
  {
    KeepAll(files, ".");
    KeepAll(files, "");
  }

  lemma {:induction false} KeepAll(files: seq<string>, filter: string)
    requires filter == "" || filter == "."
    ensures Kept(files, filter) == files
  {
    if |files| > 0 {
      KeepAll(files[1..], filter);
      assert files == [files[0]] + files[1..];
    }
  }
}

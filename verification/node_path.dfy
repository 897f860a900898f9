/** Node's POSIX `path.extname`, which both the upload filter and the
    stored-filename callback apply to the client's original file name.
    `ExtName` is the specification (last dot of the last path component);
    `ExtNameScan` is Node's own right-to-left scan, proved to agree with it. */
module NodePath {

  /** Index of the last occurrence of `c` in `s`, or -1 (`lastIndexOf`). */
  function LastIndexOf(s: string, c: char): (r: int)
    ensures -1 <= r < |s|
    ensures r >= 0 ==> s[r] == c
    ensures forall j :: r < j < |s| ==> s[j] != c
  {
    if |s| == 0 then -1
    else if s[|s| - 1] == c then |s| - 1
    else LastIndexOf(s[..|s| - 1], c)
  }

  /** `p` without its trailing separators. */
  function TrimTrailingSlashes(p: string): (t: string)
    ensures t <= p
    ensures t == [] || t[|t| - 1] != '/'
    ensures forall j :: |t| <= j < |p| ==> p[j] == '/'
  {
    if |p| > 0 && p[|p| - 1] == '/' then TrimTrailingSlashes(p[..|p| - 1]) else p
  }

  /** The last path component of `p`, trailing separators ignored. */
  function Basename(p: string): (b: string)
    ensures forall j :: 0 <= j < |b| ==> b[j] != '/'
  {
    var t := TrimTrailingSlashes(p);
    t[LastIndexOf(t, '/') + 1..]
  }

  /** `path.extname(p)`: the last component from its last dot on; "" when the
      component has no dot, when that dot is its first character (`.pdf`),
      or when the component is `..`. Case is kept. */
  function ExtName(p: string): (e: string)
    ensures e != [] ==> e[0] == '.' && forall j :: 1 <= j < |e| ==> e[j] != '.' && e[j] != '/'
    ensures e != [] ==> |e| < |Basename(p)| && Basename(p)[|Basename(p)| - |e|..] == e
  {
    var b := Basename(p);
    var d := LastIndexOf(b, '.');
    if d <= 0 || b == ".." then "" else b[d..]
  }

  /** Node's scan: walk right to left, skip trailing separators, remember the
      last dot and what precedes it, and stop at the separator that begins
      the last component. */
  method ExtNameScan(path: string) returns (ext: string)
    ensures ext == ExtName(path)
  {
    var startDot := -1;
    var startPart := 0;
    var end := -1;
    var matchedSlash := true;
    // 0: nothing yet before the dot; 1: a dot precedes it; -1: another character does
    var preDotState := 0;
    var i := |path| - 1;
    while i >= 0
      invariant -1 <= i < |path|
      invariant startPart == 0
      invariant matchedSlash <==> end == -1
      invariant end == -1 ==> startDot == -1 && forall j :: i < j < |path| ==> path[j] == '/'
      invariant end != -1 ==> i + 1 < end <= |path| && path[end - 1] != '/'
      invariant end != -1 ==> forall j :: end <= j < |path| ==> path[j] == '/'
      invariant end != -1 ==> forall j :: i < j < end ==> path[j] != '/'
      invariant startDot == -1 ==> preDotState == 0
      invariant startDot == -1 && end != -1 ==> forall j :: i < j < end ==> path[j] != '.'
      invariant startDot != -1 ==> end != -1 && i < startDot < end && path[startDot] == '.'
      invariant startDot != -1 ==> forall j :: startDot < j < end ==> path[j] != '.'
      invariant startDot != -1 ==> (preDotState == 0 <==> i + 1 == startDot)
      invariant startDot != -1 && i + 1 < startDot ==> (preDotState == 1 <==> path[i + 1] == '.')
      invariant startDot != -1 && i + 1 < startDot ==> (preDotState == -1 <==> path[i + 1] != '.')
    {
      if path[i] == '/' {
        if !matchedSlash {
          startPart := i + 1;
          break;
        }
        i := i - 1;
        continue;
      }
      if end == -1 {
        matchedSlash := false;
        end := i + 1;
      }
      if path[i] == '.' {
        if startDot == -1 {
          startDot := i;
        } else if preDotState != 1 {
          preDotState := 1;
        }
      } else if startDot != -1 {
        preDotState := -1;
      }
      i := i - 1;
    }
    ScanAgrees(path, startDot, startPart, end, preDotState);
    if startDot == -1 || end == -1 || preDotState == 0
       || (preDotState == 1 && startDot == end - 1 && startDot == startPart + 1) {
      return "";
    }
    return path[startDot..end];
  }

  /** What the scan has found when it stops, stated over `path`: the last
      component is `path[startPart..end]` and `startDot` is its last dot. */
  ghost predicate ScanResult(path: string, startDot: int, startPart: int, end: int, preDotState: int)
  {
    && 0 <= startPart
    && (startPart == 0 || (startPart <= |path| && path[startPart - 1] == '/'))
    && (end == -1 ==> startPart == 0 && startDot == -1 && forall j :: startPart <= j < |path| ==> path[j] == '/')
    && (end != -1 ==> startPart < end <= |path| && path[end - 1] != '/')
    && (end != -1 ==> forall j :: end <= j < |path| ==> path[j] == '/')
    && (end != -1 ==> forall j :: startPart <= j < end ==> path[j] != '/')
    && (startDot == -1 ==> preDotState == 0)
    && (startDot == -1 && end != -1 ==> forall j :: startPart <= j < end ==> path[j] != '.')
    && (startDot != -1 ==> end != -1 && startPart <= startDot < end && path[startDot] == '.')
    && (startDot != -1 ==> forall j :: startDot < j < end ==> path[j] != '.')
    && (startDot != -1 ==> (preDotState == 0 <==> startPart == startDot))
    && (startDot != -1 && startPart < startDot ==> (preDotState == 1 <==> path[startPart] == '.'))
  }

  lemma TrimUnique(p: string, n: nat)
    requires n <= |p|
    requires n == 0 || p[n - 1] != '/'
    requires forall j :: n <= j < |p| ==> p[j] == '/'
    ensures TrimTrailingSlashes(p) == p[..n]
  {
  }

  lemma LastIndexUnique(s: string, c: char, r: int)
    requires -1 <= r < |s|
    requires r >= 0 ==> s[r] == c
    requires forall j :: r < j < |s| ==> s[j] != c
    ensures LastIndexOf(s, c) == r
  {
  }

  /** The last component is `path[start..end]` when `end` is the trimmed
      length and `start` follows the last separator before it. */
  lemma BasenameBounds(path: string, start: nat, end: nat)
    requires start < end <= |path| && path[end - 1] != '/'
    requires forall j :: end <= j < |path| ==> path[j] == '/'
    requires start == 0 || path[start - 1] == '/'
    requires forall j :: start <= j < end ==> path[j] != '/'
    ensures Basename(path) == path[start..end]
  {
    TrimUnique(path, end);
    LastIndexUnique(path[..end], '/', start - 1);
  }

  /** `ExtName` of a path whose last component is `b` and has its last dot at `d`. */
  lemma ExtNameAt(path: string, b: string, d: int)
    requires Basename(path) == b
    requires -1 <= d < |b|
    requires d >= 0 ==> b[d] == '.'
    requires forall j :: d < j < |b| ==> b[j] != '.'
    ensures ExtName(path) == (if d <= 0 || b == ".." then "" else b[d..])
  {
    LastIndexUnique(b, '.', d);
  }

  /** When the scan stops, Node's emptiness test is exactly `ExtName(path) == ""`,
      and otherwise the slice it returns is `ExtName(path)`. */
  lemma ScanAgrees(path: string, startDot: int, startPart: int, end: int, preDotState: int)
    requires ScanResult(path, startDot, startPart, end, preDotState)
    ensures (startDot == -1 || end == -1 || preDotState == 0
             || (preDotState == 1 && startDot == end - 1 && startDot == startPart + 1))
            <==> ExtName(path) == ""
    ensures ExtName(path) != "" ==> 0 <= startDot < end <= |path| && ExtName(path) == path[startDot..end]
  {
    if end == -1 {
      AllSeparatorsNoExtension(path);
    } else {
      BasenameBounds(path, startPart, end);
      if startDot == -1 {
        NoDotNoExtension(path, startPart, end);
      } else {
        DotAgrees(path, startDot, startPart, end, preDotState);
      }
    }
  }

  /** A path made only of separators (or empty) has no extension. */
  lemma AllSeparatorsNoExtension(path: string)
    requires forall j :: 0 <= j < |path| ==> path[j] == '/'
    ensures ExtName(path) == ""
  {
    TrimUnique(path, 0);
    assert Basename(path) == [];
  }

  /** A last component without a dot has no extension. */
  lemma NoDotNoExtension(path: string, startPart: int, end: int)
    requires 0 <= startPart <= end <= |path|
    requires Basename(path) == path[startPart..end]
    requires forall j :: startPart <= j < end ==> path[j] != '.'
    ensures ExtName(path) == ""
  {
    ExtNameAt(path, path[startPart..end], -1);
  }

  lemma DotAgrees(path: string, startDot: int, startPart: int, end: int, preDotState: int)
    requires 0 <= startPart <= startDot < end <= |path|
    requires Basename(path) == path[startPart..end]
    requires path[startDot] == '.'
    requires forall j :: startDot < j < end ==> path[j] != '.'
    requires preDotState == 0 <==> startPart == startDot
    requires startPart < startDot ==> (preDotState == 1 <==> path[startPart] == '.')
    ensures (preDotState == 0 || (preDotState == 1 && startDot == end - 1 && startDot == startPart + 1))
            <==> ExtName(path) == ""
    ensures ExtName(path) != "" ==> ExtName(path) == path[startDot..end]
  {
    var b := path[startPart..end];
    ExtNameAt(path, b, startDot - startPart);
    if b == ".." {
      assert b[0] == path[startPart];
    }
    if preDotState == 1 && startDot == end - 1 && startDot == startPart + 1 {
      assert b == [path[startPart], path[startPart + 1]];
    }
  }

  /** Appending an extension to a non-empty, separator-free prefix gives a
      name whose `extname` is that extension, whatever dots the prefix has. */
  lemma {:induction false} ExtNameOfAppended(prefix: string, e: string)
    requires |prefix| > 0 && forall j :: 0 <= j < |prefix| ==> prefix[j] != '/'
    requires |e| > 0 && e[0] == '.'
    requires forall j :: 1 <= j < |e| ==> e[j] != '.' && e[j] != '/'
    requires prefix + e != ".."
    ensures ExtName(prefix + e) == e
  {
    var p := prefix + e;
    assert forall j :: 0 <= j < |p| ==> p[j] != '/' by {
      forall j | 0 <= j < |p| ensures p[j] != '/' {
        if j >= |prefix| {
          assert p[j] == e[j - |prefix|];
        }
      }
    }
    BasenameBounds(p, 0, |p|);
    assert p[0..|p|] == p;
    ExtNameAt(p, p, |prefix|);
    assert p[|prefix|..] == e;
  }

  /** A name whose only dot is its first character has no extension. */
  lemma LeadingDotExample(p: string)
    requires p == ".pdf"
    ensures ExtName(p) == ""
  {
    BasenameBounds(p, 0, 4);
    ExtNameAt(p, p, 0);
  }

  /** A name without a dot has no extension. */
  lemma NoDotExample(p: string)
    requires p == "resume"
    ensures ExtName(p) == ""
  {
    BasenameBounds(p, 0, 6);
    ExtNameAt(p, p, -1);
  }

  /** The extension keeps its case. */
  lemma UpperCaseExample(p: string)
    requires p == "a.PDF"
    ensures ExtName(p) == ".PDF"
  {
    assert p == "a" + ".PDF";
    ExtNameOfAppended("a", ".PDF");
  }

  /** Only the last dot counts. */
  lemma LastDotExample(q: string)
    requires q == "archive.tar.gz"
    ensures ExtName(q) == ".gz"
  {
    var stem := "archive.tar";
    assert q == stem + ".gz";
    ExtNameOfAppended(stem, ".gz");
  }

  /** Directories in front of the name are skipped. */
  lemma DirectoryExample(p: string)
    requires p == "dir/cv.docx"
    ensures ExtName(p) == ".docx"
  {
    BasenameBounds(p, 4, 11);
    ExtNameAt(p, "cv.docx", 2);
  }

  /** Trailing separators are skipped. */
  lemma TrailingSlashExample(q: string)
    requires q == "notes.txt/"
    ensures ExtName(q) == ".txt"
  {
    BasenameBounds(q, 0, 9);
    ExtNameAt(q, "notes.txt", 5);
  }
}

/** The pattern hook: the `-EsC-` escape rewrite, `check_patterns_in_file`
    once the file has been opened, and the per-file loop of `main` with its
    `exit_code` accumulator. Opening and reading a file is not modelled: the
    outcome of the read is an input (`FileRead`), and the files `main` sees
    are a map from path to that outcome, a path outside the map being one for
    which `os.path.isfile` is false. */
module PatternCheck {
  import opened Common
  import opened Regex
  import opened Text

  /** The token callers write where the pattern needs a backslash. */
  const Marker: string := "-EsC-"
  /** Paths containing this name are never checked. */
  const ConfigFileName: string := ".pre-commit-config.yaml"

  /** `pattern.replace("-EsC-", "\\")`. */
  function Unescape(p: string): (r: string)
    ensures |r| <= |p|
    ensures |p| < |Marker| ==> r == p
  {
    ReplaceAll(p, Marker, "\\")
  }

  /** A marker at the front is replaced by a backslash. */
  lemma MarkerBecomesBackslash(p: string)
    requires |p| >= |Marker| && p[..|Marker|] == Marker
    ensures |Unescape(p)| > 0 && Unescape(p)[0] == '\\'
  {
  }

  /** Up to its first backslash, the rewritten pattern is the original one:
      every replaced marker shows up as a backslash. */
  lemma {:induction false} UnescapeKeepsPrefix(p: string, k: nat)
    ensures k <= |Unescape(p)| && (forall j :: 0 <= j < k ==> Unescape(p)[j] != '\\')
            ==> k <= |p| && p[..k] == Unescape(p)[..k]
    decreases |p|
  {
    var u := Unescape(p);
    if k > 0 && |p| >= |Marker| {
      if p[..|Marker|] == Marker {
        MarkerBecomesBackslash(p);
      } else {
        var rest := Unescape(p[1..]);
        assert u == [p[0]] + rest;
        UnescapeKeepsPrefix(p[1..], k - 1);
        if k <= |u| && forall j :: 0 <= j < k ==> u[j] != '\\' {
          forall j | 0 <= j < k - 1 ensures rest[j] != '\\' {
            assert rest[j] == u[j + 1];
          }
          assert p[..k] == [p[0]] + p[1..][..k - 1];
          assert u[..k] == [p[0]] + rest[..k - 1];
        }
      }
    }
  }

  /** After the rewrite no marker is left: `replace` rewrites all of them,
      and backslashes cannot combine with what remains into a new one. */
  lemma {:induction false} NoMarkerLeft(p: string)
    ensures !Contains(Unescape(p), Marker)
    decreases |p|
  {
    var u := Unescape(p);
    if |p| < |Marker| {
      assert u == p;
    } else if p[..|Marker|] == Marker {
      NoMarkerLeft(p[|Marker|..]);
      assert u == "\\" + Unescape(p[|Marker|..]);
      assert u[1..] == Unescape(p[|Marker|..]);
      assert u[0] != Marker[0];
    } else {
      NoMarkerLeft(p[1..]);
      assert u == [p[0]] + Unescape(p[1..]);
      assert u[1..] == Unescape(p[1..]);
      UnescapeKeepsPrefix(p, |Marker|);
      assert |Marker| <= |u| && u[..|Marker|] == Marker
             ==> forall j :: 0 <= j < |Marker| ==> u[j] == Marker[j] != '\\';
    }
  }

  /** Rewriting twice is rewriting once. */
  lemma UnescapeIdempotent(p: string)
    ensures Unescape(Unescape(p)) == Unescape(p)
  {
    NoMarkerLeft(p);
    ReplaceAllAbsent(Unescape(p), Marker, "\\");
  }

  /** A pattern without the marker is used as written. */
  lemma UnescapeWithoutMarker(p: string)
    requires !Contains(p, Marker)
    ensures Unescape(p) == p
  {
  }

  /** The escaped parenthesis of the source's test becomes `\(c\)`. */
  lemma UnescapeExample()
    ensures Unescape("-EsC-(c-EsC-)") == "\\(c\\)"
  {
    var s := "-EsC-(c-EsC-)";
    assert s[..5] == Marker;
    assert s[5..] == "(c-EsC-)";
    assert "(c-EsC-)"[..5][0] != Marker[0];
    assert "(c-EsC-)"[1..] == "c-EsC-)";
    assert "c-EsC-)"[..5][0] != Marker[0];
    assert "c-EsC-)"[1..] == "-EsC-)";
    assert "-EsC-)"[..5] == Marker;
    assert "-EsC-)"[5..] == ")";
  }

  /** The outcome of opening and reading a file. */
  datatype FileRead = Content(text: string) | ReadError(detail: string)

  function ReadErrorMsg(filepath: string, detail: string): string
  {
    "Error reading file: " + filepath + " (" + detail + ")"
  }

  function InvalidMsg(re: Engine, which: string, p: string, filepath: string): string
  {
    "Invalid " + which + " pattern '" + p + "' in file: " + filepath + " (" + re.errorText(p) + ")"
  }

  function RejectedMsg(p: string, filepath: string): string
  {
    "Rejected pattern '" + p + "' found in file: " + filepath
  }

  function MissingMsg(p: string, filepath: string): string
  {
    "Required pattern '" + p + "' not found in file: " + filepath
  }

  /** Searching for `p` fails to return normally: it raises an exception,
      `re.error` or another one. */
  predicate SearchFails(re: Engine, p: string)
  {
    re.raises(p) || !re.compiles(p)
  }

  /** A reject pattern stops the scan when searching for its rewrite raises,
      or finds it somewhere in the content. */
  predicate RejectStops(re: Engine, content: string, p: string)
  {
    SearchFails(re, Unescape(p)) || re.search(Unescape(p), content)
  }

  /** A required pattern stops the scan when searching for its rewrite
      raises, or finds it nowhere in the content. */
  predicate RequireStops(re: Engine, content: string, p: string)
  {
    SearchFails(re, Unescape(p)) || !re.search(Unescape(p), content)
  }

  /** The verdict when searching for the rewritten pattern `p` raises: an
      exception other than `re.error` reaches the outer handler and is
      reported like a read failure (99); an `re.error` gives 98. */
  function FailureVerdict(re: Engine, which: string, p: string, filepath: string): (v: Verdict)
    requires SearchFails(re, p)
    ensures v.code == (if re.raises(p) then 99 else 98)
    ensures v.msg != ""
  {
    if re.raises(p) then Verdict(99, ReadErrorMsg(filepath, re.raisedText(p)))
    else Verdict(98, InvalidMsg(re, which, p, filepath))
  }

  /** The verdict of `check_patterns_in_file` on a file whose read gave
      `read`: reject patterns first, each tried only when every earlier one
      was searched for without an exception and was absent, then required
      patterns likewise. */
  function FileVerdict(re: Engine, filepath: string, read: FileRead,
                       required: Option<seq<string>>, reject: Option<seq<string>>): (v: Verdict)
    ensures v.code in {0, 1, 2, 98, 99}
    ensures v.code == 0 <==> v.msg == ""
  {
    match read
    case ReadError(detail) => Verdict(99, ReadErrorMsg(filepath, detail))
    case Content(content) =>
      var rej := OrElse(reject, []);
      var req := OrElse(required, []);
      var r := FirstWhere(rej, (p: string) => RejectStops(re, content, p));
      var q := FirstWhere(req, (p: string) => RequireStops(re, content, p));
      if r < |rej| then
        var p := Unescape(rej[r]);
        if SearchFails(re, p) then FailureVerdict(re, "reject", p, filepath)
        else Verdict(2, RejectedMsg(p, filepath))
      else if q < |req| then
        var p := Unescape(req[q]);
        if SearchFails(re, p) then FailureVerdict(re, "require", p, filepath)
        else Verdict(1, MissingMsg(p, filepath))
      else Verdict(0, "")
  }

  /** The reject loop: the index of the first reject pattern whose rewrite
      raises or is found, `|patterns|` when every one is searched for
      normally and is absent. */
  method ScanRejects(re: Engine, content: string, patterns: seq<string>) returns (k: nat)
    ensures k == FirstWhere(patterns, (p: string) => RejectStops(re, content, p))
  {
    k := 0;
    while k < |patterns|
      invariant k <= |patterns|
      invariant forall j :: 0 <= j < k ==> !RejectStops(re, content, patterns[j])
    {
      var pattern := Unescape(patterns[k]);
      if re.raises(pattern) || !re.compiles(pattern) || re.search(pattern, content) {
        break;
      }
      k := k + 1;
    }
    FirstWhereAt(patterns, (p: string) => RejectStops(re, content, p), k);
  }

  /** The required loop: the index of the first required pattern whose
      rewrite raises or is missing, `|patterns|` when every one is found. */
  method ScanRequired(re: Engine, content: string, patterns: seq<string>) returns (k: nat)
    ensures k == FirstWhere(patterns, (p: string) => RequireStops(re, content, p))
  {
    k := 0;
    while k < |patterns|
      invariant k <= |patterns|
      invariant forall j :: 0 <= j < k ==> !RequireStops(re, content, patterns[j])
    {
      var pattern := Unescape(patterns[k]);
      if re.raises(pattern) || !re.compiles(pattern) || !re.search(pattern, content) {
        break;
      }
      k := k + 1;
    }
    FirstWhereAt(patterns, (p: string) => RequireStops(re, content, p), k);
  }

  /** `check_patterns_in_file`: the reject loop, then the required loop,
      each stopping at the first rewritten pattern whose search raises or
      decides the file. An exception other than `re.error` is caught by the
      handler around the whole body, as a read failure is. */
  method CheckPatternsInFile(re: Engine, filepath: string, read: FileRead,
                             requiredPatterns: Option<seq<string>>, rejectPatterns: Option<seq<string>>)
    returns (code: int, msg: string)
    ensures Verdict(code, msg) == FileVerdict(re, filepath, read, requiredPatterns, rejectPatterns)
  {
    if read.ReadError? {
      return 99, ReadErrorMsg(filepath, read.detail);
    }
    var content := read.text;

    var rejects := OrElse(rejectPatterns, []);
    var r := ScanRejects(re, content, rejects);
    if r < |rejects| {
      var pattern := Unescape(rejects[r]);
      if re.raises(pattern) {
        return 99, ReadErrorMsg(filepath, re.raisedText(pattern));
      }
      if !re.compiles(pattern) {
        return 98, InvalidMsg(re, "reject", pattern, filepath);
      }
      return 2, RejectedMsg(pattern, filepath);
    }

    var requireds := OrElse(requiredPatterns, []);
    var q := ScanRequired(re, content, requireds);
    if q < |requireds| {
      var pattern := Unescape(requireds[q]);
      if re.raises(pattern) {
        return 99, ReadErrorMsg(filepath, re.raisedText(pattern));
      }
      if !re.compiles(pattern) {
        return 98, InvalidMsg(re, "require", pattern, filepath);
      }
      return 1, MissingMsg(pattern, filepath);
    }
    return 0, "";
  }

  /** With neither list supplied, or both empty, every readable file passes. */
  lemma NoPatternsPass(re: Engine, filepath: string, content: string,
                       required: Option<seq<string>>, reject: Option<seq<string>>)
    requires OrElse(required, []) == [] && OrElse(reject, []) == []
    ensures FileVerdict(re, filepath, Content(content), required, reject) == Verdict(0, "")
  {
  }

  /** A file that cannot be read gives 99, whatever the patterns. */
  lemma UnreadableIs99(re: Engine, filepath: string, detail: string,
                       required: Option<seq<string>>, reject: Option<seq<string>>)
    ensures FileVerdict(re, filepath, ReadError(detail), required, reject)
         == Verdict(99, ReadErrorMsg(filepath, detail))
  {
  }

  /** Reject patterns are tried lazily, in order: the first one whose search
      raises or finds it decides the file (99, 98 or 2), naming the rewritten
      pattern, and later reject patterns are never looked at, even invalid
      ones. */
  lemma FirstRejectReachedDecides(re: Engine, filepath: string, content: string,
                                  required: Option<seq<string>>, reject: Option<seq<string>>, i: nat)
    requires i < |OrElse(reject, [])| && RejectStops(re, content, OrElse(reject, [])[i])
    requires forall j :: 0 <= j < i ==> !RejectStops(re, content, OrElse(reject, [])[j])
    ensures var p := Unescape(OrElse(reject, [])[i]);
            FileVerdict(re, filepath, Content(content), required, reject)
            == if re.raises(p) then Verdict(99, ReadErrorMsg(filepath, re.raisedText(p)))
               else if !re.compiles(p) then Verdict(98, InvalidMsg(re, "reject", p, filepath))
               else Verdict(2, RejectedMsg(p, filepath))
  {
  }

  /** The required list is consulted only when no reject pattern stopped the
      scan: otherwise the verdict is the same whatever is required. */
  lemma RejectBeforeRequired(re: Engine, filepath: string, content: string,
                             required1: Option<seq<string>>, required2: Option<seq<string>>,
                             reject: Option<seq<string>>, i: nat)
    requires i < |OrElse(reject, [])| && RejectStops(re, content, OrElse(reject, [])[i])
    ensures FileVerdict(re, filepath, Content(content), required1, reject)
         == FileVerdict(re, filepath, Content(content), required2, reject)
    ensures FileVerdict(re, filepath, Content(content), required1, reject).code in {2, 98, 99}
  {
  }

  /** Required patterns have AND semantics: once no reject pattern stopped
      the scan, the file passes exactly when every required pattern is
      searched for without an exception and is found. */
  lemma PassIffAllRequiredFound(re: Engine, filepath: string, content: string,
                                required: Option<seq<string>>, reject: Option<seq<string>>)
    requires forall j :: 0 <= j < |OrElse(reject, [])| ==> !RejectStops(re, content, OrElse(reject, [])[j])
    ensures FileVerdict(re, filepath, Content(content), required, reject).code == 0
        <==> forall j :: 0 <= j < |OrElse(required, [])| ==>
               !SearchFails(re, Unescape(OrElse(required, [])[j])) && re.search(Unescape(OrElse(required, [])[j]), content)
  {
  }

  /** The first required pattern in list order whose search raises (99 for
      an exception other than `re.error`, 98 for `re.error`) or that is
      missing (1) decides the file, and the message names its rewrite. */
  lemma FirstRequiredMissDecides(re: Engine, filepath: string, content: string,
                                 required: Option<seq<string>>, reject: Option<seq<string>>, i: nat)
    requires forall j :: 0 <= j < |OrElse(reject, [])| ==> !RejectStops(re, content, OrElse(reject, [])[j])
    requires i < |OrElse(required, [])| && RequireStops(re, content, OrElse(required, [])[i])
    requires forall j :: 0 <= j < i ==> !RequireStops(re, content, OrElse(required, [])[j])
    ensures var p := Unescape(OrElse(required, [])[i]);
            FileVerdict(re, filepath, Content(content), required, reject)
            == if re.raises(p) then Verdict(99, ReadErrorMsg(filepath, re.raisedText(p)))
               else if !re.compiles(p) then Verdict(98, InvalidMsg(re, "require", p, filepath))
               else Verdict(1, MissingMsg(p, filepath))
  {
  }

  /** The escaped-parenthesis case: `-EsC-(c-EsC-)` is searched for as
      `\(c\)`, so a file holding `(c) [r]` passes whenever that expression
      compiles without raising and finds a literal `(c)` there. */
  lemma EscapedPatternIsSearchedRewritten(re: Engine, filepath: string)
    requires !re.raises("\\(c\\)") && re.compiles("\\(c\\)") && re.search("\\(c\\)", "(c) [r]")
    ensures FileVerdict(re, filepath, Content("(c) [r]"), Some(["-EsC-(c-EsC-)"]), None) == Verdict(0, "")
  {
    UnescapeExample();
    FirstWhereAt(["-EsC-(c-EsC-)"], (p: string) => RequireStops(re, "(c) [r]", p), 1);
  }

  // ----- the per-file loop of `main` -----

  /** What `main` does with one path. */
  datatype FileStatus = Skipped | NotFound | Checked(verdict: Verdict)

  function Status(re: Engine, fs: map<string, FileRead>,
                  required: Option<seq<string>>, reject: Option<seq<string>>, path: string): (st: FileStatus)
    ensures st.Skipped? <==> Contains(path, ConfigFileName)
    ensures st.NotFound? <==> !Contains(path, ConfigFileName) && path !in fs
    ensures st.Checked? ==> path in fs && st.verdict == FileVerdict(re, path, fs[path], required, reject)
  {
    if Contains(path, ConfigFileName) then Skipped
    else if path !in fs then NotFound
    else Checked(FileVerdict(re, path, fs[path], required, reject))
  }

  /** The value the path would give `exit_code`; 0 leaves it alone. */
  function StatusCode(st: FileStatus): int
  {
    match st
    case Skipped => 0
    case NotFound => 99
    case Checked(v) => v.code
  }

  function NotFoundMsg(path: string): string
  {
    "File not found: " + path
  }

  /** The lines `main` prints for one path. */
  function StatusLines(st: FileStatus, path: string, exitZero: bool): (ls: seq<Line>)
    ensures |ls| <= 1
    ensures ls == [] <==> StatusCode(st) == 0
    ensures forall l :: l in ls ==> l.prefix == PrefixFor(exitZero) || (st.NotFound? && l == Line(Err, NotFoundMsg(path)))
  {
    match st
    case Skipped => []
    case NotFound => [Line(Err, NotFoundMsg(path))]
    case Checked(v) => if v.code == 0 then [] else [Line(PrefixFor(exitZero), v.msg)]
  }

  /** Per-path codes, in the order the paths are given. */
  function Codes(re: Engine, fs: map<string, FileRead>,
                 required: Option<seq<string>>, reject: Option<seq<string>>, paths: seq<string>): seq<int>
  {
    seq(|paths|, i requires 0 <= i < |paths| => StatusCode(Status(re, fs, required, reject, paths[i])))
  }

  /** Everything `main` prints for `paths`, in order. */
  function Report(re: Engine, fs: map<string, FileRead>, required: Option<seq<string>>,
                  reject: Option<seq<string>>, exitZero: bool, paths: seq<string>): (ls: seq<Line>)
    ensures |ls| <= |paths|
    decreases |paths|
  {
    if paths == [] then []
    else Report(re, fs, required, reject, exitZero, paths[..|paths| - 1])
         + StatusLines(Status(re, fs, required, reject, paths[|paths| - 1]), paths[|paths| - 1], exitZero)
  }

  /** The `exit_code` accumulator after a run over `codes`: each non-zero
      code overwrites it, a zero leaves it. */
  function LastFailure(codes: seq<int>): (r: int)
    ensures r == 0 || r in codes
    decreases |codes|
  {
    if codes == [] then 0
    else if codes[|codes| - 1] != 0 then codes[|codes| - 1]
    else LastFailure(codes[..|codes| - 1])
  }

  /** The accumulator stays 0 exactly when every code is 0. */
  lemma {:induction false} LastFailureZeroIff(codes: seq<int>)
    ensures LastFailure(codes) == 0 <==> forall j :: 0 <= j < |codes| ==> codes[j] == 0
    decreases |codes|
  {
    if codes != [] {
      var n := |codes| - 1;
      LastFailureZeroIff(codes[..n]);
      assert forall j :: 0 <= j < n ==> codes[..n][j] == codes[j];
    }
  }

  /** Last failure wins: the accumulator ends as the last non-zero code,
      not the largest one. */
  lemma {:induction false} LastFailureIsLast(codes: seq<int>, k: nat)
    requires k < |codes| && codes[k] != 0
    requires forall j :: k < j < |codes| ==> codes[j] == 0
    ensures LastFailure(codes) == codes[k]
    decreases |codes|
  {
    var n := |codes| - 1;
    if k < n {
      LastFailureIsLast(codes[..n], k);
    }
  }

  lemma CodesSnoc(re: Engine, fs: map<string, FileRead>,
                  required: Option<seq<string>>, reject: Option<seq<string>>, paths: seq<string>, i: nat)
    requires i < |paths|
    ensures Codes(re, fs, required, reject, paths[..i + 1])
         == Codes(re, fs, required, reject, paths[..i]) + [StatusCode(Status(re, fs, required, reject, paths[i]))]
  {
  }

  /** `main` after argument parsing: the files are checked in order, a path
      naming the hook configuration is skipped, a missing file sets
      `exit_code` to 99, a failing file overwrites it with its own code, and
      `--exit-zero` makes the process exit with 0 whatever happened. */
  method RunHook(re: Engine, fs: map<string, FileRead>, files: seq<string>,
                 required: Option<seq<string>>, reject: Option<seq<string>>, exitZero: bool)
    returns (exitCode: int, lines: seq<Line>)
    ensures exitCode == (if exitZero then 0 else LastFailure(Codes(re, fs, required, reject, files)))
    ensures lines == Report(re, fs, required, reject, exitZero, files)
  {
    var code := 0;
    lines := [];
    for i := 0 to |files|
      invariant !exitZero ==> code == LastFailure(Codes(re, fs, required, reject, files[..i]))
      invariant lines == Report(re, fs, required, reject, exitZero, files[..i])
    {
      var filepath := files[i];
      CodesSnoc(re, fs, required, reject, files, i);
      assert files[..i + 1][..i] == files[..i];
      if Contains(filepath, ConfigFileName) {
        continue;
      }
      if filepath !in fs {
        lines := lines + [Line(Err, NotFoundMsg(filepath))];
        code := 99;
        continue;
      }
      var result, msg := CheckPatternsInFile(re, filepath, fs[filepath], required, reject);
      if result != 0 {
        lines := lines + [Line(PrefixFor(exitZero), msg)];
        if !exitZero {
          code := result;
        }
      }
    }
    assert files[..|files|] == files;
    if exitZero {
      return 0, lines;
    }
    exitCode := code;
  }

  /** Without `--exit-zero`, the hook exits with 0 exactly when every path
      that is not the configuration file names an existing file that passes. */
  lemma ExitZeroIffAllPass(re: Engine, fs: map<string, FileRead>, files: seq<string>,
                           required: Option<seq<string>>, reject: Option<seq<string>>)
    ensures LastFailure(Codes(re, fs, required, reject, files)) == 0
        <==> forall j :: 0 <= j < |files| && !Contains(files[j], ConfigFileName) ==>
               files[j] in fs && FileVerdict(re, files[j], fs[files[j]], required, reject).code == 0
  {
    var codes := Codes(re, fs, required, reject, files);
    LastFailureZeroIff(codes);
    assert forall j :: 0 <= j < |files| ==> codes[j] == StatusCode(Status(re, fs, required, reject, files[j]));
  }

  /** A sequence extended by one code is all zeros exactly when the old
      sequence is and the new code is 0. */
  lemma AllZeroSnoc(codes: seq<int>, c: int)
    ensures (forall j :: 0 <= j < |codes + [c]| ==> (codes + [c])[j] == 0)
        <==> (forall j :: 0 <= j < |codes| ==> codes[j] == 0) && c == 0
  {
    assert (codes + [c])[|codes|] == c;
    assert forall j :: 0 <= j < |codes| ==> (codes + [c])[j] == codes[j];
  }

  /** Nothing is printed exactly when the exit code (without `--exit-zero`)
      is 0: every failure, and only a failure, gets a line. */
  lemma {:induction false} QuietIffAllPass(re: Engine, fs: map<string, FileRead>, files: seq<string>,
                                           required: Option<seq<string>>, reject: Option<seq<string>>, exitZero: bool)
    ensures Report(re, fs, required, reject, exitZero, files) == []
        <==> forall j :: 0 <= j < |Codes(re, fs, required, reject, files)| ==> Codes(re, fs, required, reject, files)[j] == 0
    decreases |files|
  {
    if files != [] {
      var n := |files| - 1;
      QuietIffAllPass(re, fs, files[..n], required, reject, exitZero);
      CodesSnoc(re, fs, required, reject, files, n);
      assert files[..n + 1] == files;
      var st := Status(re, fs, required, reject, files[n]);
      var codes0 := Codes(re, fs, required, reject, files[..n]);
      assert Codes(re, fs, required, reject, files) == codes0 + [StatusCode(st)];
      AllZeroSnoc(codes0, StatusCode(st));
    }
  }

  /** Two file systems on which every path gets the same status produce the
      same output. */
  lemma {:induction false} ReportAgrees(re: Engine, fs1: map<string, FileRead>, fs2: map<string, FileRead>,
                                        files: seq<string>, required: Option<seq<string>>,
                                        reject: Option<seq<string>>, exitZero: bool)
    requires forall j :: 0 <= j < |files| ==>
               Status(re, fs1, required, reject, files[j]) == Status(re, fs2, required, reject, files[j])
    ensures Report(re, fs1, required, reject, exitZero, files) == Report(re, fs2, required, reject, exitZero, files)
    decreases |files|
  {
    if files != [] {
      var n := |files| - 1;
      assert forall j :: 0 <= j < n ==> files[..n][j] == files[j];
      ReportAgrees(re, fs1, fs2, files[..n], required, reject, exitZero);
    }
  }

  /** The configuration file is never checked: what the filesystem holds
      under such a path changes neither the exit code nor the output. */
  lemma ConfigFileNeverChecked(re: Engine, fs1: map<string, FileRead>, fs2: map<string, FileRead>,
                               files: seq<string>, required: Option<seq<string>>,
                               reject: Option<seq<string>>, exitZero: bool)
    requires forall p :: !Contains(p, ConfigFileName) ==> (p in fs1 <==> p in fs2)
    requires forall p :: !Contains(p, ConfigFileName) && p in fs1 && p in fs2 ==> fs1[p] == fs2[p]
    ensures Codes(re, fs1, required, reject, files) == Codes(re, fs2, required, reject, files)
    ensures Report(re, fs1, required, reject, exitZero, files) == Report(re, fs2, required, reject, exitZero, files)
  {
    forall j | 0 <= j < |files|
      ensures Status(re, fs1, required, reject, files[j]) == Status(re, fs2, required, reject, files[j])
    {
    }
    ReportAgrees(re, fs1, fs2, files, required, reject, exitZero);
  }

  /** Every failure line carries `[WARN]` under `--exit-zero` and `[ERR]`
      otherwise; only the "File not found" line is always `[ERR]`. */
  lemma {:induction false} ReportPrefixes(re: Engine, fs: map<string, FileRead>, files: seq<string>,
                                          required: Option<seq<string>>, reject: Option<seq<string>>, exitZero: bool)
    ensures forall l :: l in Report(re, fs, required, reject, exitZero, files) ==>
              l.prefix == PrefixFor(exitZero)
              || exists p :: p in files && !Contains(p, ConfigFileName) && p !in fs && l == Line(Err, NotFoundMsg(p))
    decreases |files|
  {
    if files != [] {
      var n := |files| - 1;
      ReportPrefixes(re, fs, files[..n], required, reject, exitZero);
      forall p | p in files[..n] ensures p in files {
      }
      assert files[n] in files;
    }
  }
}

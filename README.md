# simple-git-hooks: pattern policies of the three hooks

This project models the decision logic of three Git hooks, each a small
procedure over ordered lists of regular-expression strings that ends in an
exit code:

- `check_branch_name` checks the current branch name against accept and
  reject patterns.
- `check_commit_msg` does the same for a commit message, and first refuses an
  empty message.
- `check_patterns_in_file` checks a file's content against required and reject
  patterns, after rewriting every `-EsC-` in a pattern into a backslash. Its
  `main` runs it over many files and keeps an `exit_code` accumulator.

Python's `re` module is not modelled. An `Engine` (`regex.dfy`) is any
meaning for these things:

- which strings compile (`re.compile`), and the text of the `re.error` a
  string raises when it does not;
- which strings raise some other exception while compiling (an
  `OverflowError` for a repeat count of 2**32 - 1 or more, a
  `RecursionError` for very deeply nested groups), and its text;
- which strings match at the start (`.match`) or anywhere (`re.search`).

Every checker takes the engine as a parameter, so the proofs hold for any
regular-expression semantics. Facts about `re` enter only as hypotheses of
the lemmas that need them, and there are two of them:

- `DotStarMatchesEverything`: `.*` compiles and matches every string. It is
  used by `AnchoredPolicy.DefaultAcceptsEverything`,
  `BranchName.AnyNameAcceptedByDefault` and
  `CommitMsg.NonEmptyAcceptedByDefault`.
- `PatternCheck.EscapedPatternIsSearchedRewritten` assumes that `\(c\)`
  compiles without raising and that `re.search` finds it in `(c) [r]`.

Modules follow the source files:

- `Common` (`common.dfy`): the `(code, message)` verdict, printed lines, and
  `FirstWhere`, the search that every early-returning loop performs.
- `Regex` (`regex.dfy`): the engine.
- `AnchoredPolicy` (`anchored_policy.dfy`): the procedure that the branch and
  commit checkers both implement, line for line, written once. It is
  parameterised by the subject named in the messages.
- `BranchName` (`check_branch_name.dfy`), `CommitMsg` (`check_commit_msg.dfy`):
  the two checkers and the exit decisions of their `main`.
- `Text` (`text.dfy`): Python's `in` on strings and `str.replace`.
- `PatternCheck` (`check_for_pattern.dfy`): the escape rewrite,
  `check_patterns_in_file`, and the file loop of `main`.

Each checker with a loop is a `method` whose loops follow the source: compile
loops that build the compiled lists, then early-return match loops. Each is
proved equal to a specification function (`Evaluate`, `FileVerdict`,
`LastFailure`/`Codes`/`Report`). The properties are lemmas about those
functions.

Facts about the codes that the model follows:

- In the pattern hook, an invalid pattern gives 98. A read failure, a
  missing file, or an exception other than `re.error` raised by a search
  gives 99.
- The multi-file exit code is the last failing code, not the largest one.
- The docstring of `get_current_branch_name` says it returns `None` on error.
  The code returns `""`, and `main` treats that as "Could not get branch name".

## Model

| member | source | states |
|---|---|---|
| Common.FirstWhere | hooks/check_branch_name.py:60-67 | the index where a left-to-right loop stops: no earlier element satisfies the test, the element there does, or it is the length when none does |
| Common.FirstWhereAt | hooks/check_branch_name.py:60-67 | a loop that passed `i` elements without a hit and hits at `i` (or ends there) has stopped exactly where `FirstWhere` says |
| Common.FirstWhereNone | hooks/check_branch_name.py:69-70 | the search runs to the end exactly when no element satisfies the test |
| Common.OrElse | hooks/check_branch_name.py:45 | Python's `xs or default`: the result is `xs` when it is a non-empty list, and `default` otherwise (an absent list or an empty one); it is empty only when `default` is |
| AnchoredPolicy.Evaluate | hooks/check_branch_name.py:38-70 | the code is always one of 0, 1, 2, 99, and the message is empty exactly when the code is 0 |
| AnchoredPolicy.AcceptList | hooks/check_branch_name.py:45 | the accept list used is never empty: the supplied list when it is non-empty, `[".*"]` otherwise |
| AnchoredPolicy.RejectList | hooks/check_branch_name.py:53 | the reject list used is the supplied one, or `[]` when none was supplied |
| AnchoredPolicy.CompileAll | hooks/check_branch_name.py:44-58 | a compile loop stops at the first pattern that does not compile, having compiled exactly the patterns before it |
| AnchoredPolicy.FirstMatch | hooks/check_branch_name.py:60-67 | a match loop stops at the first compiled pattern that matches the subject at the start |
| AnchoredPolicy.Check | hooks/check_branch_name.py:44-70 | the loops, with their early returns, compute `Evaluate` |
| AnchoredPolicy.DefaultAcceptIsDotStar | hooks/check_branch_name.py:45 | an absent accept list and an empty one behave exactly as `[".*"]` |
| AnchoredPolicy.DefaultAcceptsEverything | hooks/check_branch_name.py:45-67 | with the default accept list, every subject (the empty one included) gets `(0, "")` when all reject patterns compile and none matches |
| AnchoredPolicy.BadAcceptFirst | hooks/check_branch_name.py:44-50 | the first accept pattern that does not compile gives 99 naming it, whatever the reject patterns and the subject |
| AnchoredPolicy.BadRejectNext | hooks/check_branch_name.py:52-58 | when every accept pattern compiles, the first reject pattern that does not compile gives 99 naming it |
| AnchoredPolicy.MalformedIff99 | hooks/check_branch_name.py:44-58 | the code is 99 exactly when some accept or reject pattern does not compile, so a malformed pattern never gives an accept or not-accepted verdict |
| AnchoredPolicy.RejectTakesPrecedence | hooks/check_branch_name.py:60-63 | when everything compiles, the first reject pattern in list order that matches gives 2 naming it, even when an accept pattern matches too |
| AnchoredPolicy.AcceptIsAnyMatch | hooks/check_branch_name.py:65-70 | when everything compiles and no reject pattern matches: `(0, "")` exactly when some accept pattern matches, otherwise 1 with the fixed message |
| BranchName.CheckBranchName | hooks/check_branch_name.py:26-70 | `check_branch_name` is the shared procedure with "Branch name" in its messages |
| BranchName.RunHook | hooks/check_branch_name.py:114-134 | an empty branch name gives 1 "Could not get branch name" without consulting patterns; `--exit-zero` gives exit 0 and a `[WARN]` tag, otherwise the exit code is the result; a line is printed exactly when the result is not 0 |
| BranchName.AnyNameAcceptedByDefault | hooks/check_branch_name.py:45-67 | with no accept list (`None` or `[]`) and no matching reject pattern, every branch name, even `""`, gives `(0, "")` |
| CommitMsg.CheckCommitMsg | hooks/check_commit_msg.py:43-73 | an empty message gives `(1, "Commit message is empty")` whatever the patterns, even invalid ones; any other message gets the shared procedure with "Commit message"; the code is in {0, 1, 2, 99} and the message is empty exactly when the code is 0 |
| CommitMsg.RunHook | hooks/check_commit_msg.py:114-131 | `--exit-zero` gives exit 0 and a `[WARN]` tag; otherwise the exit code is the checker's result; a line is printed exactly when the result is not 0 |
| CommitMsg.NonEmptyAcceptedByDefault | hooks/check_commit_msg.py:48-70 | with the default accept list, every non-empty message that no reject pattern matches gives `(0, "")` |
| CommitMsg.BadAcceptIgnoresRejects | hooks/check_commit_msg.py:47-61 | an accept pattern that does not compile gives 99 before the reject list is looked at: the verdict is the same for every reject list |
| Text.ContainsIff | hooks/check_for_pattern.py:113 | `needle in hay` holds exactly when `needle` occurs at some position of `hay` |
| Text.Contains | hooks/check_for_pattern.py:113 | `needle in hay`: true only when `needle` is no longer than `hay`, always true for an empty needle |
| Text.ReplaceAllAbsent | hooks/check_for_pattern.py:52 | `str.replace` leaves a string without an occurrence unchanged |
| Text.ReplaceAll | hooks/check_for_pattern.py:52 | `str.replace` never lengthens a string when the replacement is no longer than what it replaces, and leaves a string shorter than the searched text unchanged |
| PatternCheck.MarkerBecomesBackslash | hooks/check_for_pattern.py:52 | a leading `-EsC-` is rewritten into a backslash |
| PatternCheck.Unescape | hooks/check_for_pattern.py:52 | `pattern.replace("-EsC-", "\\")`: the rewrite is never longer than the pattern, and a pattern shorter than the marker is used as written |
| PatternCheck.UnescapeKeepsPrefix | hooks/check_for_pattern.py:52 | up to the first backslash of the rewrite, the rewrite and the original agree |
| PatternCheck.NoMarkerLeft | hooks/check_for_pattern.py:52 | after the rewrite no `-EsC-` is left anywhere in the pattern |
| PatternCheck.UnescapeIdempotent | hooks/check_for_pattern.py:52 | rewriting an already rewritten pattern changes nothing |
| PatternCheck.UnescapeWithoutMarker | hooks/check_for_pattern.py:52 | a pattern without the marker is used as written |
| PatternCheck.UnescapeExample | tests/test_check_for_pattern.py:30-41 | `-EsC-(c-EsC-)` becomes `\(c\)` |
| PatternCheck.FileVerdict | hooks/check_for_pattern.py:39-76 | the code is always one of 0, 1, 2, 98, 99, and the message is empty exactly when the code is 0 |
| PatternCheck.FailureVerdict | hooks/check_for_pattern.py:53-76 | a search that raises gives 99 "Error reading file" for an exception other than `re.error` (the outer handler) and 98 for `re.error`; never an empty message |
| PatternCheck.ScanRejects | hooks/check_for_pattern.py:50-59 | the reject loop stops at the first pattern whose rewrite raises when searched for or is found in the content |
| PatternCheck.ScanRequired | hooks/check_for_pattern.py:61-70 | the required loop stops at the first pattern whose rewrite raises when searched for or is not found in the content |
| PatternCheck.CheckPatternsInFile | hooks/check_for_pattern.py:46-76 | the two lazy loops, with their early returns, compute `FileVerdict`; a failed read, or an exception other than `re.error` from a search, gives 99 |
| PatternCheck.NoPatternsPass | hooks/check_for_pattern.py:50-72 | with neither list supplied (`None` or empty), every readable file gives `(0, "")` |
| PatternCheck.UnreadableIs99 | hooks/check_for_pattern.py:74-76 | a read failure gives 99 "Error reading file", whatever the patterns |
| PatternCheck.FirstRejectReachedDecides | hooks/check_for_pattern.py:50-59 | the first reject pattern whose search raises or finds it decides: 99 "Error reading file" for an exception other than `re.error`, 98 "Invalid reject pattern", or 2, naming the rewritten pattern; later reject patterns, even invalid ones, are never reached |
| PatternCheck.RejectBeforeRequired | hooks/check_for_pattern.py:50-67 | once a reject pattern stops the scan, the code is 2, 98 or 99 and the required list makes no difference |
| PatternCheck.PassIffAllRequiredFound | hooks/check_for_pattern.py:61-72 | when no reject pattern stops the scan, the file gives 0 exactly when every required pattern is searched for without an exception and is found (AND semantics) |
| PatternCheck.FirstRequiredMissDecides | hooks/check_for_pattern.py:61-70 | the first required pattern in list order whose search raises or that is missing decides: 99 "Error reading file" for an exception other than `re.error`, 98 "Invalid require pattern", or 1, naming the rewritten pattern |
| PatternCheck.EscapedPatternIsSearchedRewritten | tests/test_check_for_pattern.py:30-38 | `-EsC-(c-EsC-)` is searched as `\(c\)`: the test file passes whenever that expression compiles without raising and is found in `(c) [r]` |
| PatternCheck.LastFailureZeroIff | hooks/check_for_pattern.py:110-137 | the accumulator ends at 0 exactly when every per-file code is 0 |
| PatternCheck.LastFailureIsLast | hooks/check_for_pattern.py:129-137 | the accumulator ends at the last non-zero code (last failure wins, not the largest) |
| PatternCheck.Status | hooks/check_for_pattern.py:112-127 | a path is skipped exactly when it contains `.pre-commit-config.yaml`, not found exactly when it does not and is not a file, and otherwise checked with `check_patterns_in_file` |
| PatternCheck.StatusLines | hooks/check_for_pattern.py:116-135 | a path prints at most one line, a line exactly when its code is not 0, tagged `[WARN]`/`[ERR]` by `--exit-zero` except "File not found", which is `[ERR]` |
| PatternCheck.LastFailure | hooks/check_for_pattern.py:110-137 | the `exit_code` accumulator ends at 0 or at one of the per-file codes |
| PatternCheck.Report | hooks/check_for_pattern.py:112-135 | everything printed over the files: at most one line per path |
| PatternCheck.RunHook | hooks/check_for_pattern.py:107-142 | the loop, with its `continue`s and overwrites, ends at the last failure code (a missing file counts as 99, a skipped path as nothing); `--exit-zero` gives exit 0; the printed lines are `Report` |
| PatternCheck.ExitZeroIffAllPass | hooks/check_for_pattern.py:110-142 | without `--exit-zero`, the exit code is 0 exactly when every path that is not the configuration file exists and passes |
| PatternCheck.QuietIffAllPass | hooks/check_for_pattern.py:116-135 | nothing is printed exactly when every per-file code is 0: each failing or missing file gets a line, and nothing else does |
| PatternCheck.ConfigFileNeverChecked | hooks/check_for_pattern.py:113-114 | what the filesystem holds under a path containing `.pre-commit-config.yaml` changes neither the codes nor the output |
| PatternCheck.ReportPrefixes | hooks/check_for_pattern.py:116-135 | every printed line has the `[WARN]` tag under `--exit-zero` and `[ERR]` otherwise, except "File not found" for a listed path that is not the configuration file and is not a file, which is always `[ERR]` |

## Left out

- Regular-expression syntax and matching (`re.compile`, `.match`, `re.search`) and the text of their exceptions. They are foreign library code, so they are the parameters of an `Engine`. The only facts about `re` used are the two hypotheses named above: the `.*` fact and the `\(c\)` fact.
- AnchoredPolicy.Evaluate: does not model a compile exception other than `re.error` (the engine's `raises`). The branch and commit checkers catch only `re.error`, so such an exception crashes those hooks with a traceback and exit status 1. `Evaluate` and everything built on it (`AnchoredPolicy.Check`, `BranchName.CheckBranchName`, `BranchName.RunHook`, `CommitMsg.CheckCommitMsg`, `CommitMsg.RunHook`) describe the hooks only for patterns that do not raise in this way.
- `PatternCheck.EscapedPatternIsSearchedRewritten`: does not prove that `\(c\)` is found in `(c) [r]`, because that is a fact about `re`. It is a hypothesis of the lemma.
- Reading files: `open`/`read` in `check_patterns_in_file`, `os.path.isfile` in `main`, and the read and `strip()` in `get_commit_msg`. File content and existence are inputs: a `FileRead` value, and a map from path to `FileRead`. The exception a missing commit-message file raises out of `get_commit_msg` is not modelled.
- `get_current_branch_name`, which runs `git rev-parse --abbrev-ref HEAD`. The branch name is an input, `""` when git failed.
- `parse_args` and the command line. The pattern lists arrive as `Option<seq<string>>`, `None` standing for an option never given.
- The ANSI colour codes of `TextStyle` and `print` itself. A printed line is the chosen tag (`Err` or `Warn`) and its text. The process exit is the returned exit code.
- `check_patterns_in_file` catches every `Exception` raised in its body. Two sources are modelled: read failures (`FileRead.ReadError`), and a search that raises something other than `re.error` (the engine's `raises`). No other exceptions are modelled, such as a `MemoryError` from a huge file.

/** The branch-name hook: `check_branch_name` and the exit decision of its
    `main`. The branch name comes from `git rev-parse --abbrev-ref HEAD`,
    which is not modelled: it is an input, `""` when git failed. */
module BranchName {
  import opened Common
  import opened Regex
  import opened AnchoredPolicy

  const Kind: string := "Branch name"
  const NoBranchMsg: string := "Could not get branch name"

  /** `check_branch_name`: the shared start-anchored procedure, with
      `Branch name` in its messages. */
  method CheckBranchName(re: Engine, branchName: string,
                         acceptPatterns: Option<seq<string>>, rejectPatterns: Option<seq<string>>)
    returns (code: int, msg: string)
    ensures Verdict(code, msg) == Evaluate(re, Kind, branchName, acceptPatterns, rejectPatterns)
  {
    code, msg := Check(re, Kind, branchName, acceptPatterns, rejectPatterns);
  }

  /** `main` after argument parsing: the process exit code and the line it
      prints, if any. An empty branch name is reported without consulting
      any pattern; `--exit-zero` turns every exit code into 0 and the tag
      into `[WARN]`. */
  method RunHook(re: Engine, branchName: string,
                 accept: Option<seq<string>>, reject: Option<seq<string>>, exitZero: bool)
    returns (exitCode: int, printed: Option<Line>)
    ensures branchName == "" ==> printed == Some(Line(PrefixFor(exitZero), NoBranchMsg))
    ensures branchName == "" ==> exitCode == (if exitZero then 0 else 1)
    ensures branchName != "" ==>
              var v := Evaluate(re, Kind, branchName, accept, reject);
              && exitCode == (if exitZero then 0 else v.code)
              && printed == (if v.code == 0 then None else Some(Line(PrefixFor(exitZero), v.msg)))
    ensures exitZero ==> exitCode == 0
    ensures exitCode in {0, 1, 2, 99}
  {
    var result: int;
    var msg: string;
    if branchName == "" {
      result := 1;
      msg := NoBranchMsg;
    } else {
      result, msg := CheckBranchName(re, branchName, accept, reject);
    }
    var errorPrefix := PrefixFor(exitZero);
    printed := None;
    if result != 0 {
      printed := Some(Line(errorPrefix, msg));
    }
    if exitZero {
      return 0, printed;
    }
    exitCode := result;
  }

  /** With no accept list and no reject pattern that matches, every branch
      name, the empty one included, is accepted. */
  lemma AnyNameAcceptedByDefault(re: Engine, branchName: string, reject: seq<string>)
    requires DotStarMatchesEverything(re)
    requires forall j :: 0 <= j < |reject| ==> re.compiles(reject[j]) && !re.matchAt(reject[j], branchName)
    ensures Evaluate(re, Kind, branchName, None, Some(reject)) == Verdict(0, "")
    ensures Evaluate(re, Kind, branchName, Some([]), Some(reject)) == Verdict(0, "")
  {
  }
}

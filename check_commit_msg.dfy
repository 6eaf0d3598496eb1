/** The commit-msg hook: `check_commit_msg` and the exit decision of its
    `main`. Reading the message file and stripping it are not modelled: the
    message is an input. */
module CommitMsg {
  import opened Common
  import opened Regex
  import opened AnchoredPolicy

  const Kind: string := "Commit message"
  const EmptyMsg: string := "Commit message is empty"

  /** `check_commit_msg`: an empty message is refused before any pattern is
      compiled; any other message goes through the shared start-anchored
      procedure, with `Commit message` in its messages. */
  method CheckCommitMsg(re: Engine, commitMsg: string,
                        acceptPatterns: Option<seq<string>>, rejectPatterns: Option<seq<string>>)
    returns (code: int, msg: string)
    ensures commitMsg == "" ==> code == 1 && msg == EmptyMsg
    ensures commitMsg != "" ==> Verdict(code, msg) == Evaluate(re, Kind, commitMsg, acceptPatterns, rejectPatterns)
    ensures code in {0, 1, 2, 99}
    ensures code == 0 <==> msg == ""
  {
    if commitMsg == "" {
      return 1, EmptyMsg;
    }
    code, msg := Check(re, Kind, commitMsg, acceptPatterns, rejectPatterns);
  }

  /** `main` after reading the message: the process exit code and the
      line it prints, if any. */
  method RunHook(re: Engine, commitMsg: string,
                 accept: Option<seq<string>>, reject: Option<seq<string>>, exitZero: bool)
    returns (exitCode: int, printed: Option<Line>)
    ensures commitMsg == "" ==> printed == Some(Line(PrefixFor(exitZero), EmptyMsg))
    ensures commitMsg == "" ==> exitCode == (if exitZero then 0 else 1)
    ensures commitMsg != "" ==>
              var v := Evaluate(re, Kind, commitMsg, accept, reject);
              && exitCode == (if exitZero then 0 else v.code)
              && printed == (if v.code == 0 then None else Some(Line(PrefixFor(exitZero), v.msg)))
    ensures exitZero ==> exitCode == 0
    ensures exitCode in {0, 1, 2, 99}
  {
    var result, msg := CheckCommitMsg(re, commitMsg, accept, reject);
    var errorPrefix := PrefixFor(exitZero);
    printed := None;
    if result != 0 {
      printed := Some(Line(errorPrefix, msg));
    }
    if exitZero {
      return 0, printed;
    }
    exitCode := result;
  }

  /** With the default accept list, every non-empty message that no reject
      pattern matches is accepted. */
  lemma NonEmptyAcceptedByDefault(re: Engine, commitMsg: string, reject: seq<string>)
    requires DotStarMatchesEverything(re)
    requires commitMsg != ""
    requires forall j :: 0 <= j < |reject| ==> re.compiles(reject[j]) && !re.matchAt(reject[j], commitMsg)
    ensures Evaluate(re, Kind, commitMsg, None, Some(reject)) == Verdict(0, "")
  {
  }

  /** A bad accept pattern is reported before the reject list is looked at:
      the verdict is the same whatever the reject patterns are. */
  lemma BadAcceptIgnoresRejects(re: Engine, commitMsg: string,
                                accept: Option<seq<string>>, reject1: Option<seq<string>>, reject2: Option<seq<string>>)
    requires !AllCompile(re, AcceptList(accept))
    ensures Evaluate(re, Kind, commitMsg, accept, reject1) == Evaluate(re, Kind, commitMsg, accept, reject2)
    ensures Evaluate(re, Kind, commitMsg, accept, reject1).code == 99
  {
  }
}

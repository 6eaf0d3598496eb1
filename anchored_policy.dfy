/** The decision procedure shared by `check_branch_name` and
    `check_commit_msg`: compile every accept pattern, then every reject
    pattern (the first failure gives 99); then the first reject pattern that
    matches at the start gives 2; then any accept pattern that matches at the
    start gives 0; otherwise 1. The two checkers differ only in the subject
    named in their messages, `kind` below. */
module AnchoredPolicy {
  import opened Common
  import opened Regex

  /** The accept list actually used: `accept_patterns or [".*"]`. */
  function AcceptList(accept: Option<seq<string>>): (r: seq<string>)
    ensures r != []
    ensures accept.Some? && accept.value != [] ==> r == accept.value
    ensures accept.None? || accept.value == [] ==> r == [DotStar]
  {
    OrElse(accept, [DotStar])
  }

  /** The reject list actually used: `reject_patterns or []`. */
  function RejectList(reject: Option<seq<string>>): (r: seq<string>)
    ensures r == (if reject.Some? then reject.value else [])
  {
    OrElse(reject, [])
  }

  function CompileError(re: Engine, which: string, p: string): string
  {
    "Error compiling " + which + " pattern: " + p + " (" + re.errorText(p) + ")"
  }

  function RejectedMsg(kind: string, p: string): string
  {
    kind + " matched rejection pattern: " + p
  }

  function NotAcceptedMsg(kind: string): string
  {
    kind + " did not match any of the acceptance patterns supplied"
  }

  /** The verdict on `subject`, as the source's list order decides it. */
  function Evaluate(re: Engine, kind: string, subject: string,
                    accept: Option<seq<string>>, reject: Option<seq<string>>): (v: Verdict)
    ensures v.code in {0, 1, 2, 99}
    ensures v.code == 0 <==> v.msg == ""
  {
    var acc := AcceptList(accept);
    var rej := RejectList(reject);
    var badAccept := FirstWhere(acc, (p: string) => !re.compiles(p));
    var badReject := FirstWhere(rej, (p: string) => !re.compiles(p));
    var hitReject := FirstWhere(rej, (p: string) => re.matchAt(p, subject));
    var hitAccept := FirstWhere(acc, (p: string) => re.matchAt(p, subject));
    if badAccept < |acc| then Verdict(99, CompileError(re, "accept", acc[badAccept]))
    else if badReject < |rej| then Verdict(99, CompileError(re, "reject", rej[badReject]))
    else if hitReject < |rej| then Verdict(2, RejectedMsg(kind, rej[hitReject]))
    else if hitAccept < |acc| then Verdict(0, "")
    else Verdict(1, NotAcceptedMsg(kind))
  }

  /** One compile loop: append each pattern to the compiled list until the
      first one that raises `re.error`; `bad` is its index, `|patterns|` when
      there is none. */
  method CompileAll(re: Engine, patterns: seq<string>) returns (compiled: seq<string>, bad: nat)
    ensures bad == FirstWhere(patterns, (p: string) => !re.compiles(p))
    ensures compiled == patterns[..bad]
  {
    compiled := [];
    bad := 0;
    while bad < |patterns|
      invariant bad <= |patterns|
      invariant compiled == patterns[..bad]
      invariant forall j :: 0 <= j < bad ==> re.compiles(patterns[j])
    {
      if !re.compiles(patterns[bad]) {
        break;
      }
      compiled := compiled + [patterns[bad]];
      bad := bad + 1;
    }
    FirstWhereAt(patterns, (p: string) => !re.compiles(p), bad);
  }

  /** One match loop: the index of the first compiled pattern that matches
      `subject` at the start, `|compiled|` when none does. */
  method FirstMatch(re: Engine, compiled: seq<string>, subject: string) returns (k: nat)
    ensures k == FirstWhere(compiled, (p: string) => re.matchAt(p, subject))
  {
    k := 0;
    while k < |compiled|
      invariant k <= |compiled|
      invariant forall j :: 0 <= j < k ==> !re.matchAt(compiled[j], subject)
    {
      if re.matchAt(compiled[k], subject) {
        break;
      }
      k := k + 1;
    }
    FirstWhereAt(compiled, (p: string) => re.matchAt(p, subject), k);
  }

  /** The checker body: compile the accept list, then the reject list,
      returning on the first failure; then return on the first reject
      pattern that matches, then on the first accept pattern that matches. */
  method Check(re: Engine, kind: string, subject: string,
               accept: Option<seq<string>>, reject: Option<seq<string>>)
    returns (code: int, msg: string)
    ensures Verdict(code, msg) == Evaluate(re, kind, subject, accept, reject)
  {
    var acceptPatterns := AcceptList(accept);
    var compiledAccept, badAccept := CompileAll(re, acceptPatterns);
    if badAccept < |acceptPatterns| {
      return 99, CompileError(re, "accept", acceptPatterns[badAccept]);
    }
    assert compiledAccept == acceptPatterns;

    var rejectPatterns := RejectList(reject);
    var compiledReject, badReject := CompileAll(re, rejectPatterns);
    if badReject < |rejectPatterns| {
      return 99, CompileError(re, "reject", rejectPatterns[badReject]);
    }
    assert compiledReject == rejectPatterns;

    var hitReject := FirstMatch(re, compiledReject, subject);
    if hitReject < |compiledReject| {
      return 2, RejectedMsg(kind, compiledReject[hitReject]);
    }

    var hitAccept := FirstMatch(re, compiledAccept, subject);
    if hitAccept < |compiledAccept| {
      return 0, "";
    }
    return 1, NotAcceptedMsg(kind);
  }

  predicate AllCompile(re: Engine, ps: seq<string>)
  {
    forall j :: 0 <= j < |ps| ==> re.compiles(ps[j])
  }

  /** An absent accept list, an empty one and `[".*"]` are the same list. */
  lemma DefaultAcceptIsDotStar(re: Engine, kind: string, subject: string, reject: Option<seq<string>>)
    ensures Evaluate(re, kind, subject, None, reject) == Evaluate(re, kind, subject, Some([DotStar]), reject)
    ensures Evaluate(re, kind, subject, Some([]), reject) == Evaluate(re, kind, subject, Some([DotStar]), reject)
  {
  }

  /** Under the default accept list every subject, the empty one included,
      is accepted once the reject patterns compile and none of them matches. */
  lemma DefaultAcceptsEverything(re: Engine, kind: string, subject: string,
                                 accept: Option<seq<string>>, reject: Option<seq<string>>)
    requires DotStarMatchesEverything(re)
    requires AcceptList(accept) == [DotStar]
    requires AllCompile(re, RejectList(reject))
    requires forall j :: 0 <= j < |RejectList(reject)| ==> !re.matchAt(RejectList(reject)[j], subject)
    ensures Evaluate(re, kind, subject, accept, reject) == Verdict(0, "")
  {
  }

  /** Compile errors come before any matching: the first accept pattern
      that does not compile decides the verdict. */
  lemma BadAcceptFirst(re: Engine, kind: string, subject: string,
                       accept: Option<seq<string>>, reject: Option<seq<string>>, i: nat)
    requires i < |AcceptList(accept)| && !re.compiles(AcceptList(accept)[i])
    requires forall j :: 0 <= j < i ==> re.compiles(AcceptList(accept)[j])
    ensures Evaluate(re, kind, subject, accept, reject)
         == Verdict(99, CompileError(re, "accept", AcceptList(accept)[i]))
  {
  }

  /** With every accept pattern compiling, the first reject pattern that does
      not compile decides the verdict, whatever matches. */
  lemma BadRejectNext(re: Engine, kind: string, subject: string,
                      accept: Option<seq<string>>, reject: Option<seq<string>>, i: nat)
    requires AllCompile(re, AcceptList(accept))
    requires i < |RejectList(reject)| && !re.compiles(RejectList(reject)[i])
    requires forall j :: 0 <= j < i ==> re.compiles(RejectList(reject)[j])
    ensures Evaluate(re, kind, subject, accept, reject)
         == Verdict(99, CompileError(re, "reject", RejectList(reject)[i]))
  {
  }

  /** A malformed pattern in either list yields 99 and never a verdict about
      the subject; and 99 means some pattern is malformed. */
  lemma MalformedIff99(re: Engine, kind: string, subject: string,
                       accept: Option<seq<string>>, reject: Option<seq<string>>)
    ensures Evaluate(re, kind, subject, accept, reject).code == 99
        <==> !AllCompile(re, AcceptList(accept)) || !AllCompile(re, RejectList(reject))
  {
  }

  /** Reject before accept: once everything compiles, the first reject
      pattern in list order that matches decides the verdict, even when an
      accept pattern matches too. */
  lemma RejectTakesPrecedence(re: Engine, kind: string, subject: string,
                              accept: Option<seq<string>>, reject: Option<seq<string>>, i: nat)
    requires AllCompile(re, AcceptList(accept)) && AllCompile(re, RejectList(reject))
    requires i < |RejectList(reject)| && re.matchAt(RejectList(reject)[i], subject)
    requires forall j :: 0 <= j < i ==> !re.matchAt(RejectList(reject)[j], subject)
    ensures Evaluate(re, kind, subject, accept, reject)
         == Verdict(2, RejectedMsg(kind, RejectList(reject)[i]))
  {
  }

  /** Accept patterns are alternatives: once everything compiles and no
      reject pattern matches, the subject is accepted exactly when some accept
      pattern matches at the start, and otherwise gets the fixed message. */
  lemma AcceptIsAnyMatch(re: Engine, kind: string, subject: string,
                         accept: Option<seq<string>>, reject: Option<seq<string>>)
    requires AllCompile(re, AcceptList(accept)) && AllCompile(re, RejectList(reject))
    requires forall j :: 0 <= j < |RejectList(reject)| ==> !re.matchAt(RejectList(reject)[j], subject)
    ensures var v := Evaluate(re, kind, subject, accept, reject);
            if exists j :: 0 <= j < |AcceptList(accept)| && re.matchAt(AcceptList(accept)[j], subject)
            then v == Verdict(0, "")
            else v == Verdict(1, NotAcceptedMsg(kind))
  {
  }
}

/** The GitCleanup object: the candidate lists merged_branches fills in, the
    confirmation loop over them, and the master guard in front of every
    destructive step. Git is replaced by the text its commands print
    (`git branch`, `git branch -a --merged`), the terminal by the typed
    responses and the events the run produces. */
module Cleanup {
  import opened Base
  import opened Text
  import opened Branches
  import opened Confirmation

  /** The k-th answer is the reading of the k-th response. */
  lemma {:induction false} AnswersAt(responses: seq<string>, k: nat)
    requires k < |responses|
    ensures Answers(responses)[k] == Reply(responses[k])
  {
    if k > 0 {
      AnswersAt(responses[1..], k - 1);
    }
  }

  /** One pass of the inner loop keeps the run so far, followed by the rest
      of the loop, equal to the whole loop: the prompt and what the answer
      produced are added, and the rest is the loop on the following answers
      while the answer is invalid and nothing once it is y or n. */
  lemma PassKeeps(output: seq<Event>, read: nat, branch: string, remote: bool, answers: seq<Answer>,
                  reply: seq<Event>, whole: Transcript)
    requires answers != []
    requires After(output, read, Ask(branch, remote, answers)) == whole
    requires [Prompted(branch)] + reply == Step(branch, remote, answers[0])
    ensures After(output + [Prompted(branch)] + reply, read + 1,
                  if answers[0] == Invalid then Ask(branch, remote, answers[1..]) else Transcript([], 0, None)) == whole
  {
    var step := Step(branch, remote, answers[0]);
    var rest := if answers[0] == Invalid then Ask(branch, remote, answers[1..]) else Transcript([], 0, None);
    assert Ask(branch, remote, answers) == After(step, 1, rest) by {
      if answers[0] != Invalid {
        AppendEmpty(step);
      }
    }
    AfterAfter(output, read, step, 1, rest);
    AppendAssoc(output, [Prompted(branch)], reply);
  }

  /** Once the inner loop for the first candidate is decided, the outer loop
      goes on with the next candidate and the answers left over. */
  lemma ConfirmNext(events: seq<Event>, used: nat, output: seq<Event>, next: nat,
                    branches: seq<string>, remote: bool, answers: seq<Answer>)
    requires branches != [] && used <= next <= |answers|
    requires Transcript(output, next - used, None) == Ask(branches[0], remote, answers[used..])
    ensures After(events + output, next, Confirm(branches[1..], remote, answers[next..])) ==
            After(events, used, Confirm(branches, remote, answers[used..]))
  {
    var left := answers[used..];
    var rest := Confirm(branches[1..], remote, left[next - used..]);
    assert left[next - used..] == answers[next..];
    assert Confirm(branches, remote, left) == After(output, next - used, rest);
    AfterAfter(events, used, output, next - used, rest);
  }

  /** clean_local! (remote = false) or clean_remote! (remote = true) on a
      candidate list that is None while it is still nil. */
  function GuardedClean(branchOutput: string, list: Option<seq<string>>, remote: bool, responses: seq<string>): Transcript {
    match OnMaster(branchOutput)
    case None => Transcript([], 0, Some(NoCurrentBranch))
    case Some(onMaster) =>
      if !onMaster then Transcript([NotOnMaster], 0, None)
      else if list.None? then Transcript([], 0, Some(BranchListsUnset))
      else Confirm(list.value, remote, Answers(responses))
  }

  /** The verdicts clean_all! acts on: on master, "master" is the checked-out
      branch, so the protected list is the three environment branches. */
  function MergedVerdicts(mergedOutput: string): seq<Verdict> {
    Verdicts(Lines(mergedOutput), NeverRemove(Mandatory))
  }

  /** clean_all!: the guard, then classification of the merged branches, then
      the local candidates and, with the responses left over, the remote ones. */
  function CleanAllRun(branchOutput: string, mergedOutput: string, responses: seq<string>): Transcript {
    match OnMaster(branchOutput)
    case None => Transcript([], 0, Some(NoCurrentBranch))
    case Some(onMaster) =>
      if !onMaster then Transcript([NotOnMaster], 0, None)
      else
        var vs := MergedVerdicts(mergedOutput);
        if FirstFailure(vs) < |vs| then Transcript([], 0, Some(NilBranchName))
        else
          var l := Confirm(LocalsIn(vs), false, Answers(responses));
          if l.fault.Some? then l
          else After(l.events, l.consumed, Confirm(RemotesIn(vs), true, Answers(responses[l.consumed..])))
  }

  /** Off master, clean_local! and clean_remote! print one notice, read no
      response and run no command. */
  lemma GuardedCleanNeedsMaster(branchOutput: string, list: Option<seq<string>>, remote: bool, responses: seq<string>)
    ensures var t := GuardedClean(branchOutput, list, remote, responses);
      Commands(t.events) != [] ==> CurrentBranch(branchOutput) == Some(Mandatory)
    ensures OnMaster(branchOutput) == Some(false) ==>
      GuardedClean(branchOutput, list, remote, responses) == Transcript([NotOnMaster], 0, None)
  {
    if OnMaster(branchOutput) != Some(true) {
      assert Commands(GuardedClean(branchOutput, list, remote, responses).events) == [];
    }
  }

  /** A local delete of a branch that is neither protected nor a remote line. */
  predicate SafeLocalDelete(c: Command) {
    c.DeleteLocal? && c.name !in NeverRemove(Mandatory) && !Contains(c.name, "remotes")
  }

  /** A push-delete whose branch field is neither protected nor a HEAD pointer. */
  predicate SafePushDelete(c: Command) {
    c.PushEmpty? && c.name !in NeverRemove(Mandatory) && !Contains(c.name, "HEAD")
  }

  /** The local loop of clean_all! only runs safe local deletes. */
  lemma LocalCommandsSafe(mergedOutput: string, answers: seq<Answer>)
    ensures forall c | c in Commands(Confirm(LocalsIn(MergedVerdicts(mergedOutput)), false, answers).events) ::
      SafeLocalDelete(c)
  {
    var lines := Lines(mergedOutput);
    var vs := MergedVerdicts(mergedOutput);
    var locals := LocalsIn(vs);
    assert vs[..|lines|] == vs;
    LocalCandidatesSafe(lines, NeverRemove(Mandatory), |lines|);
    CommandsDeleteCandidates(locals, false, answers);
    forall c | c in Commands(Confirm(locals, false, answers).events) ensures SafeLocalDelete(c) {
      var i :| 0 <= i < |locals| && c == DeleteCommand(locals[i], false);
      assert locals[i] in locals;
    }
  }

  /** The remote loop of clean_all! only runs safe push-deletes. */
  lemma RemoteCommandsSafe(mergedOutput: string, answers: seq<Answer>)
    ensures forall c | c in Commands(Confirm(RemotesIn(MergedVerdicts(mergedOutput)), true, answers).events) ::
      SafePushDelete(c)
  {
    var lines := Lines(mergedOutput);
    var vs := MergedVerdicts(mergedOutput);
    var remotes := RemotesIn(vs);
    assert vs[..|lines|] == vs;
    RemoteCandidatesSafe(lines, NeverRemove(Mandatory), |lines|);
    CommandsDeleteCandidates(remotes, true, answers);
    forall c | c in Commands(Confirm(remotes, true, answers).events) ensures SafePushDelete(c) {
      var i :| 0 <= i < |remotes| && c == DeleteCommand(remotes[i], true);
      assert remotes[i] in remotes;
    }
  }

  /** The safety property of the whole run: every command clean_all! runs
      happens on master and is either a local delete of a branch that is
      not protected and is not a remote line, or a push-delete whose branch
      field is not protected and is not a HEAD pointer. */
  lemma CleanAllDeletesOnlyUnprotected(branchOutput: string, mergedOutput: string, responses: seq<string>)
    ensures forall c | c in Commands(CleanAllRun(branchOutput, mergedOutput, responses).events) ::
      CurrentBranch(branchOutput) == Some(Mandatory) && (SafeLocalDelete(c) || SafePushDelete(c))
  {
    var t := CleanAllRun(branchOutput, mergedOutput, responses);
    var vs := MergedVerdicts(mergedOutput);
    if OnMaster(branchOutput) != Some(true) || FirstFailure(vs) < |vs| {
      assert Commands(t.events) == [];
    } else {
      var l := Confirm(LocalsIn(vs), false, Answers(responses));
      LocalCommandsSafe(mergedOutput, Answers(responses));
      if l.fault.None? {
        var r := Confirm(RemotesIn(vs), true, Answers(responses[l.consumed..]));
        RemoteCommandsSafe(mergedOutput, Answers(responses[l.consumed..]));
        CommandsAppend(l.events, r.events);
      }
    }
  }

  class GitCleanup {
    /** @local_branches and @remote_branches: None while they are nil. */
    var localBranches: Option<seq<string>>
    var remoteBranches: Option<seq<string>>

    constructor ()
      ensures localBranches == None && remoteBranches == None
    {
      localBranches := None;
      remoteBranches := None;
    }

    /** merged_branches: both lists are reset and then filled, in the order of
        the lines of `git branch -a --merged`, up to the line that raises if
        there is one. If current_branch raises, nothing is changed. */
    method MergedBranches(branchOutput: string, mergedOutput: string) returns (fault: Option<Fault>)
      modifies this
      ensures CurrentBranch(branchOutput).None? ==>
        fault == Some(NoCurrentBranch) && localBranches == old(localBranches) && remoteBranches == old(remoteBranches)
      ensures CurrentBranch(branchOutput).Some? ==>
        var vs := Verdicts(Lines(mergedOutput), NeverRemove(CurrentBranch(branchOutput).value));
        var k := FirstFailure(vs);
        localBranches == Some(LocalsIn(vs[..k])) && remoteBranches == Some(RemotesIn(vs[..k])) &&
        fault == (if k < |vs| then Some(NilBranchName) else None)
    {
      var current := CurrentBranch(branchOutput);
      if current.None? {
        return Some(NoCurrentBranch);
      }
      var protected := NeverRemove(current.value);
      localBranches := Some([]);
      remoteBranches := Some([]);
      var lines := Lines(mergedOutput);
      var i := 0;
      ghost var done: seq<Verdict> := [];
      while i < |lines|
        invariant 0 <= i <= |lines|
        invariant done == Verdicts(lines[..i], protected)
        invariant FirstFailure(done) == i
        invariant localBranches == Some(LocalsIn(done))
        invariant remoteBranches == Some(RemotesIn(done))
      {
        ghost var v := ClassifyLine(lines[i], protected);
        var raised := AddMergedLine(lines[i], protected);
        if raised {
          VerdictsStop(lines, protected, i);
          return Some(NilBranchName);
        }
        VerdictsStep(lines, protected, i);
        CandidatesAppend(done, v);
        FirstFailureAppend(done, v);
        done := done + [v];
        i := i + 1;
      }
      assert lines[..i] == lines;
      VerdictsPrefix(lines, protected, i);
      return None;
    }

    /** The body of the loop in merged_branches for one line: the line is
        cleaned, and appended to the remote list (with "remotes/" removed) or
        the local list unless it is protected or a HEAD pointer. `raised` is
        set where Ruby calls match on a nil branch name. */
    method AddMergedLine(line: string, protected: seq<string>) returns (raised: bool)
      requires localBranches.Some? && remoteBranches.Some?
      modifies this
      ensures var v := ClassifyLine(line, protected);
        raised == v.NilName? &&
        localBranches == (if v.Local? then Some(old(localBranches.value) + [v.name]) else old(localBranches)) &&
        remoteBranches == (if v.Remote? then Some(old(remoteBranches.value) + [v.entry]) else old(remoteBranches))
    {
      ghost var v := ClassifyLine(line, protected);
      var branch := Clean(line);
      if Contains(branch, "remotes") {
        branch := RemoveAll(branch, "remotes/");
        assert v == RemoteVerdict(branch, protected);
        var parts := Split(branch, '/');
        if |parts| < 2 {
          return true;
        }
        var branchName := parts[1];
        if branchName !in protected && !Contains(branchName, "HEAD") {
          assert v == Remote(branch);
          remoteBranches := Some(remoteBranches.value + [branch]);
        } else {
          assert v == Skipped;
        }
      } else {
        assert v == LocalVerdict(branch, protected);
        if branch !in protected {
          localBranches := Some(localBranches.value + [branch]);
        }
      }
      return false;
    }

    /** clean_branches!: for each candidate, prompt and read responses until
        one is y or n; y runs the delete command, n prints a skip notice. */
    method CleanBranches(branchList: seq<string>, remote: bool, responses: seq<string>) returns (t: Transcript)
      ensures t == Confirm(branchList, remote, Answers(responses))
    {
      ghost var answers := Answers(responses);
      var events: seq<Event> := [];
      var used := 0;
      var i := 0;
      assert answers[0..] == answers && branchList[0..] == branchList;
      while i < |branchList|
        invariant 0 <= i <= |branchList| && 0 <= used <= |responses|
        invariant After(events, used, Confirm(branchList[i..], remote, answers[used..])) ==
                  Confirm(branchList, remote, answers)
      {
        var output, next, fault := ConfirmBranch(branchList[i], remote, responses, used);
        if fault.Some? {
          assert Confirm(branchList[i..], remote, answers[used..]) == Transcript(output, next - used, fault);
          return Transcript(events + output, next, fault);
        }
        ConfirmNext(events, used, output, next, branchList[i..], remote, answers);
        assert branchList[i..][1..] == branchList[i + 1..];
        events, used := events + output, next;
        i := i + 1;
      }
      AppendEmpty(events);
      t := Transcript(events, used, None);
    }

    /** The body of the loop in clean_branches! for one candidate, reading
        from the response at index `used`: prompt until a response is y or n,
        or until the responses run out. */
    method ConfirmBranch(branch: string, remote: bool, responses: seq<string>, used: nat)
      returns (output: seq<Event>, next: nat, fault: Option<Fault>)
      requires used <= |responses|
      ensures used <= next <= |responses|
      ensures Transcript(output, next - used, fault) == Ask(branch, remote, Answers(responses)[used..])
    {
      ghost var answers := Answers(responses);
      ghost var goal := Ask(branch, remote, answers[used..]);
      ghost var rest := goal;
      output, next := [], used;
      var invalidResponse := true;
      AppendEmpty(goal.events);
      while invalidResponse
        invariant used <= next <= |responses|
        invariant After(output, next - used, rest) == goal
        invariant invalidResponse ==> rest == Ask(branch, remote, answers[next..])
        invariant !invalidResponse ==> rest == Transcript([], 0, None)
        decreases |responses| - next, invalidResponse
      {
        ghost var before := output;
        output := output + [Prompted(branch)];
        if next == |responses| {
          assert answers[next..] == [];
          return output, next, Some(EndOfInput);
        }
        var decided, reply := Respond(branch, remote, responses[next]);
        ghost var left := answers[next..];
        assert left[0] == Reply(responses[next]) && left[1..] == answers[next + 1..] by {
          AnswersAt(responses, next);
        }
        PassKeeps(before, next - used, branch, remote, left, reply, goal);
        ghost var after := if decided then Transcript([], 0, None) else Ask(branch, remote, answers[next + 1..]);
        output := output + reply;
        next := next + 1;
        invalidResponse := !decided;
        rest := after;
      }
      AppendEmpty(output);
      fault := None;
    }

    /** One pass of the inner loop of clean_branches! after the prompt: the
        response is read and answered with a command, a skip notice or a
        request for y or n. `decided` ends the loop for this candidate. */
    method Respond(branch: string, remote: bool, line: string) returns (decided: bool, output: seq<Event>)
      ensures decided <==> Reply(line) != Invalid
      ensures [Prompted(branch)] + output == Step(branch, remote, Reply(line))
    {
      var response := Downcase(Chomp(line));
      var gitRemote, branchName := [], branch;
      if remote {
        var parts := Split(branch, '/');
        gitRemote, branchName := Field(parts, 0), Field(parts, 1);
      }
      if MatchesYesNo(response) {
        decided := true;
        if response == "y" {
          var command := if remote then PushEmpty(gitRemote, branchName) else DeleteLocal(branchName);
          output := [Ran(command)];
        } else {
          output := [SkipNotice(branchName)];
        }
      } else {
        decided := false;
        output := [AskedAgain];
      }
    }

    /** clean_local!: off master only the notice; otherwise the confirmation
        loop over the local candidates. */
    method CleanLocal(branchOutput: string, responses: seq<string>) returns (t: Transcript)
      ensures t == GuardedClean(branchOutput, localBranches, false, responses)
      ensures Commands(t.events) != [] ==> CurrentBranch(branchOutput) == Some(Mandatory)
    {
      var onMaster := OnMaster(branchOutput);
      if onMaster.None? {
        return Transcript([], 0, Some(NoCurrentBranch));
      }
      if !onMaster.value {
        t := Transcript([NotOnMaster], 0, None);
        assert Commands(t.events) == [];
        return;
      }
      if localBranches.None? {
        return Transcript([], 0, Some(BranchListsUnset));
      }
      t := CleanBranches(localBranches.value, false, responses);
    }

    /** clean_remote!: off master only the notice; otherwise the confirmation
        loop over the remote candidates. */
    method CleanRemote(branchOutput: string, responses: seq<string>) returns (t: Transcript)
      ensures t == GuardedClean(branchOutput, remoteBranches, true, responses)
      ensures Commands(t.events) != [] ==> CurrentBranch(branchOutput) == Some(Mandatory)
    {
      var onMaster := OnMaster(branchOutput);
      if onMaster.None? {
        return Transcript([], 0, Some(NoCurrentBranch));
      }
      if !onMaster.value {
        t := Transcript([NotOnMaster], 0, None);
        assert Commands(t.events) == [];
        return;
      }
      if remoteBranches.None? {
        return Transcript([], 0, Some(BranchListsUnset));
      }
      t := CleanBranches(remoteBranches.value, true, responses);
    }

    /** clean_all!: off master it returns before classifying anything or
        touching the lists; on master it classifies the merged branches and
        runs the local, then the remote confirmation loop. */
    method CleanAll(branchOutput: string, mergedOutput: string, responses: seq<string>) returns (t: Transcript)
      modifies this
      ensures t == CleanAllRun(branchOutput, mergedOutput, responses)
      ensures OnMaster(branchOutput) != Some(true) ==>
        localBranches == old(localBranches) && remoteBranches == old(remoteBranches)
      ensures OnMaster(branchOutput) == Some(true) ==>
        var vs := MergedVerdicts(mergedOutput);
        var k := FirstFailure(vs);
        localBranches == Some(LocalsIn(vs[..k])) && remoteBranches == Some(RemotesIn(vs[..k]))
    {
      var onMaster := OnMaster(branchOutput);
      if onMaster.None? {
        return Transcript([], 0, Some(NoCurrentBranch));
      }
      if !onMaster.value {
        return Transcript([NotOnMaster], 0, None);
      }
      var fault := MergedBranches(branchOutput, mergedOutput);
      if fault.Some? {
        return Transcript([], 0, fault);
      }
      ghost var vs := MergedVerdicts(mergedOutput);
      assert vs[..|vs|] == vs;
      var l := CleanLocal(branchOutput, responses);
      if l.fault.Some? {
        return l;
      }
      var r := CleanRemote(branchOutput, responses[l.consumed..]);
      t := After(l.events, l.consumed, r);
    }
  }
}

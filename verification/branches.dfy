/** What the script reads from git: the checked-out branch (from `git branch`)
    and the merged branches that are candidates for deletion (from
    `git branch -a --merged`), line by line. */
module Branches {
  import opened Base
  import opened Text

  /** The branch every destructive step is gated on. */
  const Mandatory: string := "master"

  /** A command's output cut into lines as split("\n") does. */
  function Lines(output: string): seq<string> {
    Split(output, '\n')
  }

  /** A line of `git branch` output that marks the checked-out branch. */
  predicate Marked(line: string) {
    line != [] && line[0] == '*'
  }

  /** Line `i` is the first marked line. */
  predicate FirstMarked(lines: seq<string>, i: int) {
    0 <= i < |lines| && Marked(lines[i]) && forall k | 0 <= k < i :: !Marked(lines[k])
  }

  /** current_branch over the lines of `git branch`: the first line starting
      with '*', with every "* " in it removed; None where Ruby calls gsub on nil. */
  function FindCurrent(lines: seq<string>): Option<string> {
    if lines == [] then None
    else if Marked(lines[0]) then Some(RemoveAll(lines[0], "* "))
    else FindCurrent(lines[1..])
  }

  lemma {:induction false} FindCurrentSpec(lines: seq<string>)
    ensures FindCurrent(lines).None? <==> forall i | 0 <= i < |lines| :: !Marked(lines[i])
    ensures forall i | FirstMarked(lines, i) :: FindCurrent(lines) == Some(RemoveAll(lines[i], "* "))
  {
    if lines != [] && !Marked(lines[0]) {
      FindCurrentSpec(lines[1..]);
      forall i | FirstMarked(lines, i) ensures FirstMarked(lines[1..], i - 1) {
        assert i != 0;
      }
      forall i | 0 <= i < |lines[1..]| && !Marked(lines[1..][i]) ensures !Marked(lines[i + 1]) {
      }
    }
  }

  /** The checked-out branch, read from the text `git branch` prints. */
  function CurrentBranch(branchOutput: string): Option<string> {
    FindCurrent(Lines(branchOutput))
  }

  /** on_master?: None where current_branch raises. */
  function OnMaster(branchOutput: string): (r: Option<bool>)
    ensures r.None? <==> CurrentBranch(branchOutput).None?
    ensures r == Some(true) <==> CurrentBranch(branchOutput) == Some(Mandatory)
  {
    match CurrentBranch(branchOutput)
    case None => None
    case Some(b) => Some(b == Mandatory)
  }

  /** never_remove_local and never_remove_remote (the two lists are equal):
      the three environment branches followed by the checked-out branch. */
  function NeverRemove(current: string): (r: seq<string>)
    ensures forall n :: n in r <==> n == Mandatory || n == "staging" || n == "production" || n == current
  {
    [Mandatory, "staging", "production", current]
  }

  /** A line with every '*' deleted, then stripped. */
  function Clean(line: string): string {
    Strip(DeleteChar(line, '*'))
  }

  /** What one line of `git branch -a --merged` adds to the candidate lists. */
  datatype Verdict =
    | Local(name: string)     // appended to the local list
    | Remote(entry: string)   // appended to the remote list
    | Skipped                 // protected, or a HEAD pointer
    | NilName                 // the line makes the script raise

  /** The verdict on an entry of the remote path, once "remotes/" is gone.
      Ruby's `a, b = entry.split('/')` leaves b nil when there is no second
      field; nil is not protected, and nil.match raises. */
  function RemoteVerdict(entry: string, protected: seq<string>): Verdict {
    var parts := Split(entry, '/');
    if |parts| < 2 then NilName
    else if parts[1] in protected then Skipped
    else if Contains(parts[1], "HEAD") then Skipped
    else Remote(entry)
  }

  /** The verdict on a cleaned line of the local path. */
  function LocalVerdict(branch: string, protected: seq<string>): Verdict {
    if branch in protected then Skipped else Local(branch)
  }

  /** The body of the loop in merged_branches for one line: a line containing
      "remotes" anywhere takes the remote path. */
  function ClassifyLine(line: string, protected: seq<string>): Verdict {
    ClassifyBranch(Clean(line), protected)
  }

  /** The verdict on a cleaned line. */
  function ClassifyBranch(branch: string, protected: seq<string>): Verdict {
    if Contains(branch, "remotes") then RemoteVerdict(RemoveAll(branch, "remotes/"), protected)
    else LocalVerdict(branch, protected)
  }

  /** The verdict of every line, in order. */
  function Verdicts(lines: seq<string>, protected: seq<string>): (vs: seq<Verdict>)
    ensures |vs| == |lines|
  {
    if lines == [] then []
    else Verdicts(lines[..|lines| - 1], protected) + [ClassifyLine(lines[|lines| - 1], protected)]
  }

  lemma {:induction false} VerdictAt(lines: seq<string>, protected: seq<string>, i: nat)
    requires i < |lines|
    ensures Verdicts(lines, protected)[i] == ClassifyLine(lines[i], protected)
  {
    if i < |lines| - 1 {
      VerdictAt(lines[..|lines| - 1], protected, i);
    }
  }

  /** The verdicts of a prefix of the lines are a prefix of the verdicts. */
  lemma {:induction false} VerdictsPrefix(lines: seq<string>, protected: seq<string>, k: nat)
    requires k <= |lines|
    ensures Verdicts(lines, protected)[..k] == Verdicts(lines[..k], protected)
  {
    if k < |lines| {
      VerdictsPrefix(lines[..|lines| - 1], protected, k);
      assert lines[..|lines| - 1][..k] == lines[..k];
    } else {
      assert lines[..k] == lines;
    }
  }

  /** A cleaned line the local path keeps: no "remotes" in it and not protected. */
  predicate LocalEligible(branch: string, protected: seq<string>) {
    !Contains(branch, "remotes") && branch !in protected
  }

  /** A cleaned line the remote path keeps: it contains "remotes" and, once
      every "remotes/" is removed, its second '/'-field exists, is not
      protected and does not contain "HEAD". */
  predicate RemoteEligible(branch: string, protected: seq<string>) {
    var parts := Split(RemoveAll(branch, "remotes/"), '/');
    Contains(branch, "remotes") && |parts| >= 2 && parts[1] !in protected && !Contains(parts[1], "HEAD")
  }

  /** What each kind of verdict says about its cleaned line, in both
      directions: a line is kept as a local (remote) candidate exactly when it
      is eligible for that list, and raises exactly when it takes the remote
      path without a second field. */
  lemma ClassifyBranchSpec(branch: string, protected: seq<string>)
    ensures var v := ClassifyBranch(branch, protected);
      (v.Local? <==> LocalEligible(branch, protected)) &&
      (v.Local? ==> v.name == branch) &&
      (v.Remote? <==> RemoteEligible(branch, protected)) &&
      (v.Remote? ==> v.entry == RemoveAll(branch, "remotes/")) &&
      (v.NilName? <==> Contains(branch, "remotes") && |Split(RemoveAll(branch, "remotes/"), '/')| < 2)
  {
    if Contains(branch, "remotes") {
      var entry := RemoveAll(branch, "remotes/");
      assert ClassifyBranch(branch, protected) == RemoteVerdict(entry, protected);
    } else {
      assert ClassifyBranch(branch, protected) == LocalVerdict(branch, protected);
    }
  }

  /** Index of the first verdict that makes the loop raise, or |vs| if none does. */
  function FirstFailure(vs: seq<Verdict>): (k: nat)
    ensures k <= |vs|
    ensures forall i | 0 <= i < k :: !vs[i].NilName?
    ensures k < |vs| ==> vs[k].NilName?
  {
    if vs == [] || vs[0].NilName? then 0 else FirstFailure(vs[1..]) + 1
  }

  /** One more verdict after a run without failures: the first failure is
      that verdict, or there is still none. */
  lemma FirstFailureAppend(vs: seq<Verdict>, v: Verdict)
    requires FirstFailure(vs) == |vs|
    ensures FirstFailure(vs + [v]) == if v.NilName? then |vs| else |vs| + 1
  {
    assert forall j | 0 <= j < |vs| :: (vs + [v])[j] == vs[j];
    assert (vs + [v])[|vs|] == v;
  }

  /** A failure within a prefix is the first failure of the whole. */
  lemma FirstFailurePrefix(vs: seq<Verdict>, m: nat)
    requires m <= |vs| && FirstFailure(vs[..m]) < m
    ensures FirstFailure(vs) == FirstFailure(vs[..m])
  {
    var k := FirstFailure(vs[..m]);
    assert vs[..m][k] == vs[k];
    assert forall j | 0 <= j < k :: vs[..m][j] == vs[j];
  }

  /** The verdicts of one more line: the loop of merged_branches reads the
      lines in order. */
  lemma VerdictsStep(lines: seq<string>, protected: seq<string>, i: nat)
    requires i < |lines|
    ensures Verdicts(lines[..i + 1], protected) == Verdicts(lines[..i], protected) + [ClassifyLine(lines[i], protected)]
  {
    assert lines[..i + 1][..i] == lines[..i];
  }

  /** A failing line after a run without failures is the first failure of
      all the lines. */
  lemma VerdictsStop(lines: seq<string>, protected: seq<string>, i: nat)
    requires i < |lines| && FirstFailure(Verdicts(lines[..i], protected)) == i
    requires ClassifyLine(lines[i], protected).NilName?
    ensures FirstFailure(Verdicts(lines, protected)) == i
    ensures Verdicts(lines, protected)[..i] == Verdicts(lines[..i], protected)
  {
    VerdictsStep(lines, protected, i);
    FirstFailureAppend(Verdicts(lines[..i], protected), ClassifyLine(lines[i], protected));
    VerdictsPrefix(lines, protected, i + 1);
    FirstFailurePrefix(Verdicts(lines, protected), i + 1);
    VerdictsPrefix(lines, protected, i);
  }

  function LocalOf(v: Verdict): seq<string> {
    if v.Local? then [v.name] else []
  }

  function RemoteOf(v: Verdict): seq<string> {
    if v.Remote? then [v.entry] else []
  }

  /** The local candidates the verdicts yield, in order. */
  function LocalsIn(vs: seq<Verdict>): seq<string> {
    if vs == [] then [] else LocalOf(vs[0]) + LocalsIn(vs[1..])
  }

  /** The remote candidates the verdicts yield, in order. */
  function RemotesIn(vs: seq<Verdict>): seq<string> {
    if vs == [] then [] else RemoteOf(vs[0]) + RemotesIn(vs[1..])
  }

  lemma {:induction false} LocalsAppend(vs: seq<Verdict>, v: Verdict)
    ensures LocalsIn(vs + [v]) == LocalsIn(vs) + LocalOf(v)
  {
    if vs == [] {
      assert LocalsIn([v]) == LocalOf(v) + LocalsIn([]);
      AppendEmpty(LocalOf(v));
    } else {
      assert (vs + [v])[1..] == vs[1..] + [v];
      LocalsAppend(vs[1..], v);
      AppendAssoc(LocalOf(vs[0]), LocalsIn(vs[1..]), LocalOf(v));
    }
  }

  lemma {:induction false} RemotesAppend(vs: seq<Verdict>, v: Verdict)
    ensures RemotesIn(vs + [v]) == RemotesIn(vs) + RemoteOf(v)
  {
    if vs == [] {
      assert RemotesIn([v]) == RemoteOf(v) + RemotesIn([]);
      AppendEmpty(RemoteOf(v));
    } else {
      assert (vs + [v])[1..] == vs[1..] + [v];
      RemotesAppend(vs[1..], v);
      AppendAssoc(RemoteOf(vs[0]), RemotesIn(vs[1..]), RemoteOf(v));
    }
  }

  /** One more verdict appends at most its own entry to each list: what the
      loop of merged_branches does step by step. */
  lemma CandidatesAppend(vs: seq<Verdict>, v: Verdict)
    ensures LocalsIn(vs + [v]) == if v.Local? then LocalsIn(vs) + [v.name] else LocalsIn(vs)
    ensures RemotesIn(vs + [v]) == if v.Remote? then RemotesIn(vs) + [v.entry] else RemotesIn(vs)
  {
    LocalsAppend(vs, v);
    RemotesAppend(vs, v);
    AppendEmpty(LocalsIn(vs));
    AppendEmpty(RemotesIn(vs));
  }

  /** Each line contributes at most one entry, to at most one list. */
  lemma {:induction false} OneEntryPerLine(vs: seq<Verdict>)
    ensures |LocalsIn(vs)| + |RemotesIn(vs)| <= |vs|
  {
    if vs != [] {
      OneEntryPerLine(vs[1..]);
    }
  }

  lemma {:induction false} LocalOrigin(vs: seq<Verdict>, n: string)
    requires n in LocalsIn(vs)
    ensures Local(n) in vs
  {
    if vs[0] != Local(n) {
      LocalOrigin(vs[1..], n);
    }
  }

  lemma {:induction false} RemoteOrigin(vs: seq<Verdict>, e: string)
    requires e in RemotesIn(vs)
    ensures Remote(e) in vs
  {
    if vs[0] != Remote(e) {
      RemoteOrigin(vs[1..], e);
    }
  }

  /** A local candidate is a whole input line with its asterisks deleted and
      its ends stripped; it does not contain "remotes" and is not protected. */
  lemma LocalCandidatesSafe(lines: seq<string>, protected: seq<string>, k: nat)
    requires k <= |lines|
    ensures forall n | n in LocalsIn(Verdicts(lines, protected)[..k]) ::
      n !in protected && !Contains(n, "remotes") && '*' !in n &&
      (n == [] || (!IsSpace(n[0]) && !IsSpace(n[|n| - 1]))) &&
      exists i | 0 <= i < k :: n == Clean(lines[i])
  {
    var vs := Verdicts(lines, protected)[..k];
    forall n | n in LocalsIn(vs)
      ensures n !in protected && !Contains(n, "remotes") && '*' !in n
      ensures n == [] || (!IsSpace(n[0]) && !IsSpace(n[|n| - 1]))
      ensures exists i | 0 <= i < k :: n == Clean(lines[i])
    {
      LocalOrigin(vs, n);
      var i :| 0 <= i < k && vs[i] == Local(n);
      VerdictAt(lines, protected, i);
      var branch := Clean(lines[i]);
      assert ClassifyBranch(branch, protected) == Local(n);
      ClassifyBranchSpec(branch, protected);
      assert n == branch && LocalEligible(branch, protected);
    }
  }

  /** A remote candidate is a cleaned input line that contains "remotes", with
      every "remotes/" removed; its second '/'-field exists, is not protected
      and does not contain "HEAD". */
  lemma RemoteCandidatesSafe(lines: seq<string>, protected: seq<string>, k: nat)
    requires k <= |lines|
    ensures forall e | e in RemotesIn(Verdicts(lines, protected)[..k]) ::
      |Split(e, '/')| >= 2 && Split(e, '/')[1] !in protected && !Contains(Split(e, '/')[1], "HEAD") &&
      exists i | 0 <= i < k :: Contains(Clean(lines[i]), "remotes") && e == RemoveAll(Clean(lines[i]), "remotes/")
  {
    var vs := Verdicts(lines, protected)[..k];
    forall e | e in RemotesIn(vs)
      ensures |Split(e, '/')| >= 2 && Split(e, '/')[1] !in protected && !Contains(Split(e, '/')[1], "HEAD")
      ensures exists i | 0 <= i < k :: Contains(Clean(lines[i]), "remotes") && e == RemoveAll(Clean(lines[i]), "remotes/")
    {
      RemoteOrigin(vs, e);
      var i :| 0 <= i < k && vs[i] == Remote(e);
      VerdictAt(lines, protected, i);
      ClassifyBranchSpec(Clean(lines[i]), protected);
    }
  }

  lemma {:induction false} LocalIn(vs: seq<Verdict>, i: nat)
    requires i < |vs| && vs[i].Local?
    ensures vs[i].name in LocalsIn(vs)
  {
    if i > 0 {
      LocalIn(vs[1..], i - 1);
    }
  }

  lemma {:induction false} RemoteIn(vs: seq<Verdict>, i: nat)
    requires i < |vs| && vs[i].Remote?
    ensures vs[i].entry in RemotesIn(vs)
  {
    if i > 0 {
      RemoteIn(vs[1..], i - 1);
    }
  }

  /** Every eligible line among the first `k` becomes a local candidate. */
  lemma LocalCandidatesComplete(lines: seq<string>, protected: seq<string>, k: nat)
    requires k <= |lines|
    ensures forall i | 0 <= i < k && LocalEligible(Clean(lines[i]), protected) ::
      Clean(lines[i]) in LocalsIn(Verdicts(lines, protected)[..k])
  {
    var vs := Verdicts(lines, protected)[..k];
    forall i | 0 <= i < k && LocalEligible(Clean(lines[i]), protected)
      ensures Clean(lines[i]) in LocalsIn(vs)
    {
      VerdictAt(lines, protected, i);
      ClassifyBranchSpec(Clean(lines[i]), protected);
      LocalIn(vs, i);
    }
  }

  /** Every eligible line among the first `k` becomes a remote candidate,
      with every "remotes/" removed. */
  lemma RemoteCandidatesComplete(lines: seq<string>, protected: seq<string>, k: nat)
    requires k <= |lines|
    ensures forall i | 0 <= i < k && RemoteEligible(Clean(lines[i]), protected) ::
      RemoveAll(Clean(lines[i]), "remotes/") in RemotesIn(Verdicts(lines, protected)[..k])
  {
    var vs := Verdicts(lines, protected)[..k];
    forall i | 0 <= i < k && RemoteEligible(Clean(lines[i]), protected)
      ensures RemoveAll(Clean(lines[i]), "remotes/") in RemotesIn(vs)
    {
      VerdictAt(lines, protected, i);
      ClassifyBranchSpec(Clean(lines[i]), protected);
      RemoteIn(vs, i);
    }
  }
}

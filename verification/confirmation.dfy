/** The confirmation loop of clean_branches!: for each candidate, prompt until
    the answer is y or n, then delete the branch or skip it. The terminal is a
    finite list of typed lines in and a list of events out. */
module Confirmation {
  import opened Base
  import opened Text

  /** A shell command the script runs through `system`. */
  datatype Command =
    | DeleteLocal(name: string)                   // git branch -d <name>
    | PushEmpty(remoteName: string, name: string) // git push <remote> :<name>

  /** What a run does to the outside world, in order. */
  datatype Event =
    | Prompted(branch: string)  // "Remove <branch>? [y/n] "
    | AskedAgain                // "Please enter y or n"
    | SkipNotice(name: string)  // "skipping <name>"
    | NotOnMaster               // "Must run against master"
    | Ran(command: Command)     // the command, run through `system`

  /** The command line `system` receives. */
  function CommandLine(c: Command): string {
    match c
    case DeleteLocal(name) => "git branch -d " + name
    case PushEmpty(remoteName, name) => "git push " + remoteName + " :" + name
  }

  /** The text an event prints, or the command line it runs. */
  function Output(e: Event): string {
    match e
    case Prompted(branch) => "Remove " + branch + "? [y/n] "
    case AskedAgain => "Please enter y or n"
    case SkipNotice(name) => "skipping " + name
    case NotOnMaster => "Must run against master"
    case Ran(c) => CommandLine(c)
  }

  /** The events of a run, how many responses it read, and the fault it died
      with, if any. */
  datatype Transcript = Transcript(events: seq<Event>, consumed: nat, fault: Option<Fault>)

  datatype Answer = Yes | No | Invalid

  /** response.match(/^[yn]$/) on the chomped, downcased response. Ruby's ^ and
      $ anchor at every line of the text, so the pattern matches when some
      '\n'-separated line of it is exactly "y" or "n". */
  predicate MatchesYesNo(r: string) {
    "y" in RawSplit(r, '\n') || "n" in RawSplit(r, '\n')
  }

  /** How the loop reads one response: invalid unless the pattern matches,
      then a deletion only if the whole response is "y". */
  function Reply(response: string): Answer {
    var r := Downcase(Chomp(response));
    if !MatchesYesNo(r) then Invalid else if r == "y" then Yes else No
  }

  /** For a line as `gets` returns it (no line feed but a final one), a
      response is yes exactly when it is "y" or "Y", no exactly when it is
      "n" or "N", and invalid otherwise. */
  lemma ReplyToLine(response: string)
    requires '\n' !in Chomp(response)
    ensures Reply(response) == Yes <==> Chomp(response) == "y" || Chomp(response) == "Y"
    ensures Reply(response) == No <==> Chomp(response) == "n" || Chomp(response) == "N"
  {
    var c := Chomp(response);
    var r := Downcase(c);
    forall i | 0 <= i < |r| ensures r[i] != '\n' {
      DowncaseAt(c, i);
    }
    RawSplitFree(r, '\n');
    DowncaseLetter(c, 'y');
    DowncaseLetter(c, 'n');
  }

  /** Field `k` of Ruby's multiple assignment from a split: a missing field is
      nil, and nil interpolates as the empty string. */
  function Field(parts: seq<string>, k: nat): string {
    if k < |parts| then parts[k] else []
  }

  /** The name the loop reports: the second '/'-field for a remote entry. */
  function TargetName(branch: string, remote: bool): string {
    if remote then Field(Split(branch, '/'), 1) else branch
  }

  /** The command a "y" runs: a push of the empty ref to the entry's first
      two '/'-fields for a remote entry, a safe local delete otherwise. */
  function DeleteCommand(branch: string, remote: bool): Command {
    if remote then PushEmpty(Field(Split(branch, '/'), 0), Field(Split(branch, '/'), 1))
    else DeleteLocal(branch)
  }

  /** The events of one pass through the inner loop. */
  function Step(branch: string, remote: bool, answer: Answer): seq<Event> {
    [Prompted(branch)] +
    match answer
    case Invalid => [AskedAgain]
    case Yes => [Ran(DeleteCommand(branch, remote))]
    case No => [SkipNotice(TargetName(branch, remote))]
  }

  /** The text one pass through the inner loop prints or runs: the prompt,
      then the command line on yes, "skipping" and the target name on no, and
      the reminder otherwise. A remote entry's command pushes to its first
      '/'-field the empty ref for its second. */
  lemma StepOutput(branch: string, remote: bool, answer: Answer)
    ensures var e := Step(branch, remote, answer);
      |e| == 2 && Output(e[0]) == "Remove " + branch + "? [y/n] " &&
      Output(e[1]) == match answer
        case Yes => if remote then "git push " + Field(Split(branch, '/'), 0) + " :" + Field(Split(branch, '/'), 1)
                    else "git branch -d " + branch
        case No => "skipping " + TargetName(branch, remote)
        case Invalid => "Please enter y or n"
  {
  }

  /** How the loop reads each response in turn. */
  function Answers(responses: seq<string>): (r: seq<Answer>)
    ensures |r| == |responses|
  {
    if responses == [] then [] else [Reply(responses[0])] + Answers(responses[1..])
  }

  /** A transcript continued after `events` have happened and `consumed`
      responses have been read. */
  function After(events: seq<Event>, consumed: nat, t: Transcript): Transcript {
    Transcript(events + t.events, consumed + t.consumed, t.fault)
  }

  /** Continuing twice is continuing once with both parts. */
  lemma AfterAfter(events: seq<Event>, consumed: nat, more: seq<Event>, read: nat, t: Transcript)
    ensures After(events, consumed, After(more, read, t)) == After(events + more, consumed + read, t)
  {
    AppendAssoc(events, more, t.events);
  }

  /** The inner while loop of clean_branches! for one candidate: prompt, read
      an answer, and ask again until it is y or n. When the responses run
      out, the prompt is printed and the script dies. */
  function Ask(branch: string, remote: bool, answers: seq<Answer>): (t: Transcript)
    ensures t.consumed <= |answers|
    ensures t.fault == None || (t.fault == Some(EndOfInput) && t.consumed == |answers|)
  {
    if answers == [] then Transcript([Prompted(branch)], 0, Some(EndOfInput))
    else if answers[0] == Invalid then After(Step(branch, remote, Invalid), 1, Ask(branch, remote, answers[1..]))
    else Transcript(Step(branch, remote, answers[0]), 1, None)
  }

  /** clean_branches!(branches, remote) fed with the answers read from the
      responses: the inner loop for each candidate in turn, each on the
      answers the previous ones left over. */
  function Confirm(branches: seq<string>, remote: bool, answers: seq<Answer>): (t: Transcript)
    ensures t.consumed <= |answers|
    ensures t.fault == None || (t.fault == Some(EndOfInput) && t.consumed == |answers|)
  {
    if branches == [] then Transcript([], 0, None)
    else
      var a := Ask(branches[0], remote, answers);
      if a.fault.Some? then a
      else After(a.events, a.consumed, Confirm(branches[1..], remote, answers[a.consumed..]))
  }

  /** The commands among the events, in order. */
  function Commands(events: seq<Event>): seq<Command> {
    if events == [] then []
    else (if events[0].Ran? then [events[0].command] else []) + Commands(events[1..])
  }

  lemma {:induction false} CommandsAppend(a: seq<Event>, b: seq<Event>)
    ensures Commands(a + b) == Commands(a) + Commands(b)
  {
    if a == [] {
      assert a + b == b;
    } else {
      assert (a + b)[1..] == a[1..] + b;
      CommandsAppend(a[1..], b);
      AppendAssoc(if a[0].Ran? then [a[0].command] else [], Commands(a[1..]), Commands(b));
    }
  }

  /** The commands of one pass: the delete command on yes, none otherwise. */
  lemma StepCommands(branch: string, remote: bool, answer: Answer)
    ensures Commands(Step(branch, remote, answer)) == if answer == Yes then [DeleteCommand(branch, remote)] else []
  {
    var s := Step(branch, remote, answer);
    assert |s| == 2 && !s[0].Ran?;
    assert s[1..][1..] == [];
    assert Commands(s[1..]) == (if s[1].Ran? then [s[1].command] else []) + Commands([]);
  }

  /** The number of yes answers. */
  function CountYes(answers: seq<Answer>): nat {
    if answers == [] then 0 else (if answers[0] == Yes then 1 else 0) + CountYes(answers[1..])
  }

  lemma {:induction false} CountYesAppend(a: seq<Answer>, b: seq<Answer>)
    ensures CountYes(a + b) == CountYes(a) + CountYes(b)
  {
    if a == [] {
      assert a + b == b;
    } else {
      assert (a + b)[1..] == a[1..] + b;
      CountYesAppend(a[1..], b);
    }
  }

  /** The yes answers among the first i + j are those among the first i and
      those among the next j. */
  lemma CountYesSplit(answers: seq<Answer>, i: nat, j: nat)
    requires i + j <= |answers|
    ensures CountYes(answers[..i + j]) == CountYes(answers[..i]) + CountYes(answers[i..][..j])
  {
    PrefixSplit(answers, i, j);
    CountYesAppend(answers[..i], answers[i..][..j]);
  }

  /** An invalid answer adds no command to the inner loop. */
  lemma AskInvalidCommands(branch: string, remote: bool, answers: seq<Answer>)
    requires answers != [] && answers[0] == Invalid
    ensures Commands(Ask(branch, remote, answers).events) == Commands(Ask(branch, remote, answers[1..]).events)
  {
    var r := Ask(branch, remote, answers[1..]);
    StepCommands(branch, remote, Invalid);
    CommandsAppend(Step(branch, remote, Invalid), r.events);
  }

  /** The inner loop runs at most one command: the candidate's delete. */
  lemma {:induction false} AskDeletes(branch: string, remote: bool, answers: seq<Answer>)
    ensures var t := Ask(branch, remote, answers);
      Commands(t.events) == [] || Commands(t.events) == [DeleteCommand(branch, remote)]
  {
    if answers == [] {
      var t := Ask(branch, remote, answers);
      assert t.events == [Prompted(branch)] && t.events[1..] == [];
    } else if answers[0] == Invalid {
      AskInvalidCommands(branch, remote, answers);
      AskDeletes(branch, remote, answers[1..]);
    } else {
      StepCommands(branch, remote, answers[0]);
    }
  }

  /** The inner loop runs as many commands as the yes answers it read. */
  lemma {:induction false} AskCommandCount(branch: string, remote: bool, answers: seq<Answer>)
    ensures var t := Ask(branch, remote, answers);
      |Commands(t.events)| == CountYes(answers[..t.consumed])
  {
    var t := Ask(branch, remote, answers);
    if answers == [] {
      assert t.events == [Prompted(branch)] && t.events[1..] == [];
      assert answers[..0] == [];
    } else if answers[0] == Invalid {
      var r := Ask(branch, remote, answers[1..]);
      AskInvalidCommands(branch, remote, answers);
      assert CountYes(answers[..t.consumed]) == CountYes(answers[1..][..r.consumed]) by {
        assert answers[..t.consumed][1..] == answers[1..][..r.consumed];
      }
      AskCommandCount(branch, remote, answers[1..]);
    } else {
      StepCommands(branch, remote, answers[0]);
      assert answers[..1][1..] == [];
    }
  }

  /** Every command the loop runs deletes one of its candidates. */
  lemma {:induction false} CommandsDeleteCandidates(branches: seq<string>, remote: bool, answers: seq<Answer>)
    ensures forall c | c in Commands(Confirm(branches, remote, answers).events) ::
      exists i | 0 <= i < |branches| :: c == DeleteCommand(branches[i], remote)
  {
    if branches != [] {
      var t := Confirm(branches, remote, answers);
      var a := Ask(branches[0], remote, answers);
      AskDeletes(branches[0], remote, answers);
      if a.fault.None? {
        var rest := Confirm(branches[1..], remote, answers[a.consumed..]);
        assert Commands(t.events) == Commands(a.events) + Commands(rest.events) by {
          CommandsAppend(a.events, rest.events);
        }
        forall c | c in Commands(rest.events) ensures exists i | 0 <= i < |branches| :: c == DeleteCommand(branches[i], remote) {
          CommandsDeleteCandidates(branches[1..], remote, answers[a.consumed..]);
          var j :| 0 <= j < |branches[1..]| && c == DeleteCommand(branches[1..][j], remote);
          assert branches[1..][j] == branches[j + 1];
        }
      }
    }
  }

  /** A yes runs exactly one command and any other answer none: the commands
      run are as many as the yes answers read. */
  lemma {:induction false} OneCommandPerYes(branches: seq<string>, remote: bool, answers: seq<Answer>)
    ensures var t := Confirm(branches, remote, answers);
      |Commands(t.events)| == CountYes(answers[..t.consumed])
  {
    var t := Confirm(branches, remote, answers);
    if branches == [] {
      assert answers[..0] == [];
    } else {
      var a := Ask(branches[0], remote, answers);
      AskCommandCount(branches[0], remote, answers);
      if a.fault.None? {
        var restAnswers := answers[a.consumed..];
        var rest := Confirm(branches[1..], remote, restAnswers);
        assert t == After(a.events, a.consumed, rest);
        assert |Commands(t.events)| == |Commands(a.events)| + |Commands(rest.events)| by {
          CommandsAppend(a.events, rest.events);
        }
        assert |Commands(rest.events)| == CountYes(restAnswers[..rest.consumed]) by {
          OneCommandPerYes(branches[1..], remote, restAnswers);
        }
        assert CountYes(answers[..t.consumed]) == CountYes(answers[..a.consumed]) + CountYes(restAnswers[..rest.consumed]) by {
          CountYesSplit(answers, a.consumed, rest.consumed);
        }
      }
    }
  }

  /** `n` prompts for the same candidate, each answered by an invalid response. */
  function Reprompts(branch: string, n: nat): seq<Event> {
    if n == 0 then [] else [Prompted(branch), AskedAgain] + Reprompts(branch, n - 1)
  }

  /** Invalid answers never advance the inner loop: they only re-prompt for
      the same candidate, after which the loop goes on exactly as without
      them. */
  lemma {:induction false} InvalidNeverAdvances(branch: string, remote: bool, invalid: seq<Answer>, rest: seq<Answer>)
    requires forall k | 0 <= k < |invalid| :: invalid[k] == Invalid
    ensures Ask(branch, remote, invalid + rest) ==
      After(Reprompts(branch, |invalid|), |invalid|, Ask(branch, remote, rest))
  {
    var t := Ask(branch, remote, rest);
    if invalid == [] {
      assert invalid + rest == rest;
      assert Reprompts(branch, 0) + t.events == t.events;
    } else {
      var s := invalid + rest;
      assert s[0] == Invalid && s[1..] == invalid[1..] + rest;
      InvalidNeverAdvances(branch, remote, invalid[1..], rest);
      var again := [Prompted(branch), AskedAgain];
      assert Step(branch, remote, Invalid) == again;
      AppendAssoc(again, Reprompts(branch, |invalid| - 1), t.events);
    }
  }

  /** The commands of the candidates answered yes, pairing candidates and
      answers in order. */
  function YesCommands(branches: seq<string>, remote: bool, answers: seq<Answer>): seq<Command>
    requires |answers| >= |branches|
  {
    if branches == [] then []
    else (if answers[0] == Yes then [DeleteCommand(branches[0], remote)] else []) +
         YesCommands(branches[1..], remote, answers[1..])
  }

  /** When every answer is y or n, the loop reads one answer per candidate,
      finishes, and runs the delete command of exactly the candidates
      answered yes, in order. */
  lemma {:induction false} ValidAnswersDecideInOrder(branches: seq<string>, remote: bool, answers: seq<Answer>)
    requires |answers| >= |branches|
    requires forall k | 0 <= k < |branches| :: answers[k] != Invalid
    ensures var t := Confirm(branches, remote, answers);
      t.consumed == |branches| && t.fault == None &&
      Commands(t.events) == YesCommands(branches, remote, answers)
  {
    if branches != [] {
      var a := Ask(branches[0], remote, answers);
      assert a == Transcript(Step(branches[0], remote, answers[0]), 1, None);
      var rest := Confirm(branches[1..], remote, answers[1..]);
      ValidAnswersDecideInOrder(branches[1..], remote, answers[1..]);
      CommandsAppend(a.events, rest.events);
      StepCommands(branches[0], remote, answers[0]);
    }
  }
}

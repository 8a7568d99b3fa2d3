# git-cleanup, modelled in Dafny

git-cleanup is a one-file Ruby script that deletes branches already merged
into `master`. It works only while `master` is checked out. First it reads
`git branch -a --merged` and sorts the lines into local and remote
candidates. It never takes `master`, `staging`, `production` or the
checked-out branch. Then it asks about each candidate with
"Remove <branch>? [y/n] ". A `y` runs `git branch -d <name>` for a local
candidate and `git push <remote> :<name>` for a remote one. An `n` prints
"skipping <name>". Any other response asks again.

The model has six modules:

- `Base`: an `Option` type, and the `Fault` type for the uncaught Ruby
  exceptions the script can die with.
- `Text`: the Ruby string methods the script relies on, as they behave on
  the ASCII text git prints (see "Left out" for other encodings):
  - `strip`;
  - `gsub` of a literal, which removes every non-overlapping occurrence,
    scanning left to right;
  - `match` of a metacharacter-free pattern, which is a substring test;
  - `split` on one character, which drops trailing empty fields;
  - `chomp` and `downcase`.
- `Branches`: `current_branch`, `on_master?`, the protected lists, and the
  classification of every line of `git branch -a --merged`.
- `Confirmation`: the confirmation loop of `clean_branches!` as functions.
  - `Ask` is the inner `while`, for one candidate.
  - `Confirm` is the outer `each`.
  - The loop's output is a sequence of structured events: prompts,
    notices and commands run.
- `Cleanup`: the `GitCleanup` class.
  - The two candidate lists are fields, and `MergedBranches` resets and
    fills them in a loop.
  - `CleanBranches` and `ConfirmBranch` run the nested confirmation loops
    and are proved equal to `Confirm` and `Ask`.
  - `CleanLocal`, `CleanRemote` and `CleanAll` carry the master guards.
  - The module also proves the safety lemma: every command the run issues
    is issued on master, and as a `Command` value it deletes only an
    unprotected branch. How the shell reads the command line is not part of
    the model.
- `Scenarios`: concrete lines and what the model does with them.

The outside world is turned into parameters:

- `git branch` and `git branch -a --merged` are the text they print.
- The terminal is the list of lines `gets` returns.
- Running out of lines is the `EndOfInput` fault. It is where `gets` returns
  nil and `nil.chomp` raises.

These quirks of the script are kept on purpose:

- `gsub("*", '')` deletes every asterisk in a line.
- A line takes the remote path when it contains "remotes" anywhere.
- `gsub!('remotes/', '')` removes every occurrence.
- `a, b = entry.split('/')` keeps only the first two fields. For
  "origin/feature/x" the push therefore deletes `feature` on `origin`.
- An empty line becomes a local candidate.
- A remote-path line with fewer than two fields makes the script raise on
  `nil.match`, as does "remotes-fix".
- `current_branch` raises when no line starts with `*`.
- `/^[yn]$/` anchors at every line of the response.

The script has no modes and no allowlist of managed remotes. It skips a
remote entry whose second field *contains* `HEAD`, not only one whose
second field is `HEAD`.

## Model

| member | source | states |
|---|---|---|
| Text.Strip | git-cleanup.rb:32 | the result has no leading or trailing whitespace or NUL, and all its characters come from the input |
| Text.StripSlice | git-cleanup.rb:32 | the result is one contiguous slice of the input, and everything outside that slice is whitespace or NUL |
| Text.DeleteChar | git-cleanup.rb:32 | the deleted character no longer occurs and the text does not grow |
| Text.DeleteCharCounts | git-cleanup.rb:32 | only that character is removed: every other character keeps its multiplicity |
| Text.DeleteCharAppend | git-cleanup.rb:32 | deleting distributes over concatenation, so the kept characters stay in order |
| Text.Contains | git-cleanup.rb:33 | `match` with a literal pattern, a substring test; specified by `ContainsIff` and `ContainsChar` |
| Text.ContainsIff | git-cleanup.rb:33 | `match` with a literal pattern holds iff the pattern occurs at some index |
| Text.ContainsChar | git-cleanup.rb:33 | a text that matches a pattern contains every character of the pattern |
| Text.RemoveAll | git-cleanup.rb:34 | gsub of a literal never lengthens the text |
| Text.RemoveAllDeletes | git-cleanup.rb:34 | gsub of a literal only deletes: the result's multiset is included in the input's |
| Text.RemoveAllAbsent | git-cleanup.rb:34 | gsub leaves a text without the pattern unchanged |
| Text.RemoveAllLeftmost | git-cleanup.rb:34 | gsub keeps the text before the leftmost occurrence, removes that occurrence, and goes on after it |
| Text.RawSplit | git-cleanup.rb:35 | there is at least one field and no field holds the separator |
| Text.JoinRawSplit | git-cleanup.rb:35 | joining the raw fields with the separator gives the text back |
| Text.RawSplitJoin | git-cleanup.rb:35 | splitting joined separator-free fields gives the fields back |
| Text.Split | git-cleanup.rb:35 | split's fields hold no separator and the last one is not empty |
| Text.SplitDrops | git-cleanup.rb:35 | split is the raw fields with some trailing empty fields dropped |
| Text.SplitJoin | git-cleanup.rb:35 | split inverts join when the last field is non-empty |
| Text.SplitText | git-cleanup.rb:30 | what split drops is only separators at the end of the text |
| Text.Chomp | git-cleanup.rb:95 | chomp removes at most two characters, and only from the end |
| Text.ChompLine | git-cleanup.rb:95 | chomp removes a final "\n" or "\r\n" and leaves a text without a line ending unchanged |
| Text.Downcase | git-cleanup.rb:95 | downcase keeps the length |
| Text.DowncaseAt | git-cleanup.rb:95 | downcase maps each character on its own |
| Text.DowncaseLetter | git-cleanup.rb:95 | a text downcases to one lower-case letter iff it is that letter in either case |
| Branches.FindCurrent | git-cleanup.rb:4-5 | the find for the first line matching `/^\*/` and the gsub of "* " on it, None where the find returns nil; specified by `FindCurrentSpec` |
| Branches.CurrentBranch | git-cleanup.rb:3-6 | current_branch on the text `git branch` prints, cut into lines; specified by `FindCurrentSpec` and `OnMaster` |
| Branches.FindCurrentSpec | git-cleanup.rb:3-6 | current_branch is nil iff no line starts with `*`; otherwise it is the first such line with every "* " removed |
| Branches.OnMaster | git-cleanup.rb:47-49 | undefined iff current_branch raises; true iff the current branch is exactly "master" |
| Branches.NeverRemove | git-cleanup.rb:71-77 | the protected names are exactly master, staging, production and the current branch |
| Branches.Clean | git-cleanup.rb:32 | every `*` deleted, then stripped; specified by `DeleteCharCounts`, `DeleteCharAppend` and `StripSlice`, and used by `LocalCandidatesSafe` |
| Branches.ClassifyLine | git-cleanup.rb:31-43 | the body of the merged_branches loop for one line; specified by `ClassifyBranchSpec` on the cleaned line |
| Branches.ClassifyBranch | git-cleanup.rb:33-43 | the branch on "remotes" between the remote and the local path; specified by `ClassifyBranchSpec` |
| Branches.RemoteVerdict | git-cleanup.rb:35-39 | the remote path after "remotes/" is removed; specified by `ClassifyBranchSpec` |
| Branches.LocalVerdict | git-cleanup.rb:41-42 | the local path; specified by `ClassifyBranchSpec` |
| Branches.Verdicts | git-cleanup.rb:30-44 | the verdict of every line in order; specified by `VerdictAt` and `VerdictsPrefix` |
| Branches.ClassifyBranchSpec | git-cleanup.rb:32-43 | a cleaned line becomes a local candidate, itself, iff it has no "remotes" and is unprotected; it becomes a remote candidate, with "remotes/" removed, iff it has "remotes" and its second field exists, is unprotected and has no HEAD; it raises iff it has "remotes" and fewer than two fields |
| Branches.VerdictAt | git-cleanup.rb:30 | the i-th verdict is the classification of the i-th line |
| Branches.VerdictsPrefix | git-cleanup.rb:30 | the verdicts of a prefix of the lines are the prefix of the verdicts |
| Branches.FirstFailure | git-cleanup.rb:30-44 | the index of the first line that raises, or the number of lines; no line before it raises |
| Branches.VerdictsStop | git-cleanup.rb:30-44 | a raising line after clean lines is the first failure of the whole output |
| Branches.LocalsIn | git-cleanup.rb:42 | the local candidates of the verdicts in order; specified by `LocalsAppend`, `LocalOrigin` and `LocalIn` |
| Branches.RemotesIn | git-cleanup.rb:39 | the remote candidates of the verdicts in order; specified by `RemotesAppend`, `RemoteOrigin` and `RemoteIn` |
| Branches.LocalsAppend | git-cleanup.rb:42 | the local list of one more verdict is the old list followed by that verdict's local entry |
| Branches.RemotesAppend | git-cleanup.rb:39 | the remote list of one more verdict is the old list followed by that verdict's remote entry |
| Branches.CandidatesAppend | git-cleanup.rb:39-42 | one more line appends its entry to the local list, the remote list, or neither |
| Branches.OneEntryPerLine | git-cleanup.rb:30-44 | the two lists together have at most one entry per line |
| Branches.LocalOrigin | git-cleanup.rb:42 | every local candidate comes from a local verdict |
| Branches.RemoteOrigin | git-cleanup.rb:39 | every remote candidate comes from a remote verdict |
| Branches.LocalIn | git-cleanup.rb:42 | a local verdict's name is in the local list |
| Branches.RemoteIn | git-cleanup.rb:39 | a remote verdict's entry is in the remote list |
| Branches.LocalCandidatesComplete | git-cleanup.rb:40-42 | every line that has no "remotes" and whose cleaned name is unprotected ends up in the local list |
| Branches.RemoteCandidatesComplete | git-cleanup.rb:33-39 | every "remotes" line whose second field exists, is unprotected and has no HEAD ends up in the remote list, with "remotes/" removed |
| Branches.LocalCandidatesSafe | git-cleanup.rb:41-42 | every local candidate is unprotected, has no "remotes", has no `*`, is stripped, and is some cleaned input line |
| Branches.RemoteCandidatesSafe | git-cleanup.rb:34-39 | every remote candidate comes from a "remotes" line, and its second field exists, is unprotected and has no HEAD |
| Confirmation.MatchesYesNo | git-cleanup.rb:100 | `/^[yn]$/` with `^` and `$` anchoring at every line; specified by `ReplyToLine` |
| Confirmation.Reply | git-cleanup.rb:95-102 | the chomped, downcased response read as yes, no or invalid; specified by `ReplyToLine` |
| Confirmation.ReplyToLine | git-cleanup.rb:95-102 | for a single line, the response is a yes iff it is y or Y, and a no iff it is n or N |
| Confirmation.Answers | git-cleanup.rb:95 | one answer per response |
| Confirmation.TargetName | git-cleanup.rb:97-98 | the branch name the loop reports, the second field for a remote entry; specified by `StepOutput` |
| Confirmation.DeleteCommand | git-cleanup.rb:103 | the delete run on y; specified by `StepOutput`, `StepCommands` and `CommandsDeleteCandidates` |
| Confirmation.CommandLine | git-cleanup.rb:103-104 | the text handed to `system`; specified by `StepOutput` |
| Confirmation.Output | git-cleanup.rb:93-109 | the text each event prints; specified by `StepOutput` |
| Confirmation.Step | git-cleanup.rb:93-110 | one pass of the inner loop; specified by `StepOutput` and `StepCommands` |
| Confirmation.StepOutput | git-cleanup.rb:93-109 | one pass prints the prompt, then runs `git push <first field> :<second field>` or `git branch -d <name>` on y, prints "skipping <name>" on n, and "Please enter y or n" otherwise |
| Confirmation.Ask | git-cleanup.rb:92-111 | the inner loop reads at most the answers given, and it ends either decided or with the input exhausted |
| Confirmation.Confirm | git-cleanup.rb:89-113 | the whole loop reads at most the answers given, and faults only when the input is exhausted |
| Confirmation.AfterAfter | git-cleanup.rb:89-113 | continuing a run twice is continuing it once with both parts |
| Confirmation.CommandsAppend | git-cleanup.rb:104 | the commands of two runs in a row are the commands of each, in order |
| Confirmation.StepCommands | git-cleanup.rb:100-110 | one pass runs the delete command on y and nothing otherwise |
| Confirmation.CountYesAppend | git-cleanup.rb:102 | the yes answers of two parts add up |
| Confirmation.CountYesSplit | git-cleanup.rb:102 | the yes answers of a prefix split at any point add up |
| Confirmation.AskInvalidCommands | git-cleanup.rb:108-110 | an invalid answer adds no command to the inner loop |
| Confirmation.AskDeletes | git-cleanup.rb:92-111 | the inner loop runs no command or just the candidate's delete |
| Confirmation.AskCommandCount | git-cleanup.rb:92-111 | the inner loop runs as many commands as the yes answers it read |
| Confirmation.CommandsDeleteCandidates | git-cleanup.rb:89-113 | every command the loop runs deletes one of the candidates |
| Confirmation.OneCommandPerYes | git-cleanup.rb:89-113 | the loop runs exactly as many commands as the yes answers it read |
| Confirmation.InvalidNeverAdvances | git-cleanup.rb:92-111 | invalid answers only re-prompt for the same candidate; the loop then goes on as without them |
| Confirmation.ValidAnswersDecideInOrder | git-cleanup.rb:89-113 | when every answer the loop reads, one per candidate, is y or n, one answer per candidate is read, there is no fault, and the commands are the deletes of the yes candidates in order |
| Cleanup.AnswersAt | git-cleanup.rb:95 | the k-th answer is the reading of the k-th response |
| Cleanup.PassKeeps | git-cleanup.rb:93-110 | one pass keeps "run so far, then rest of the loop" equal to the whole inner loop |
| Cleanup.ConfirmNext | git-cleanup.rb:90-112 | a decided candidate hands the remaining answers to the next candidate |
| Cleanup.GuardedClean | git-cleanup.rb:51-69 | clean_local! and clean_remote!: the master guard, then the confirmation loop; specified by `GuardedCleanNeedsMaster`, `LocalCommandsSafe` and `RemoteCommandsSafe`, and run by `GitCleanup.CleanLocal` and `GitCleanup.CleanRemote` |
| Cleanup.MergedVerdicts | git-cleanup.rb:17 | the verdicts merged_branches computes when clean_all! runs on master, with master as the current branch; used by `CleanAllRun` and `CleanAllDeletesOnlyUnprotected` |
| Cleanup.CleanAllRun | git-cleanup.rb:9-19 | clean_all!: the guard, merged_branches, then the local and the remote loop; specified by `CleanAllDeletesOnlyUnprotected`, and run by `GitCleanup.CleanAll` |
| Cleanup.GuardedCleanNeedsMaster | git-cleanup.rb:51-69 | clean_local! and clean_remote! run commands only on master; off master they only print the notice and read nothing |
| Cleanup.LocalCommandsSafe | git-cleanup.rb:41-42 | the local loop of clean_all! runs only local deletes of unprotected names without "remotes" |
| Cleanup.RemoteCommandsSafe | git-cleanup.rb:35-39 | the remote loop of clean_all! runs only push-deletes whose branch is unprotected and has no HEAD |
| Cleanup.CleanAllDeletesOnlyUnprotected | git-cleanup.rb:9-19 | every command clean_all! runs is issued on master and is one of those safe deletes |
| Cleanup.GitCleanup.constructor | git-cleanup.rb:116 | a new object has both lists nil |
| Cleanup.GitCleanup.MergedBranches | git-cleanup.rb:26-45 | nothing changes when current_branch raises; otherwise the lists are reset and hold, in order, the candidates of the lines before the first raising line, and the fault says whether one raised |
| Cleanup.GitCleanup.AddMergedLine | git-cleanup.rb:31-43 | one line appends its candidate to exactly the list its verdict names and reports whether it raised |
| Cleanup.GitCleanup.CleanBranches | git-cleanup.rb:89-113 | the nested loops produce exactly the run `Confirm` defines on the answers read from the responses |
| Cleanup.GitCleanup.ConfirmBranch | git-cleanup.rb:91-111 | the inner loop from a given response produces exactly `Ask` on the remaining answers |
| Cleanup.GitCleanup.Respond | git-cleanup.rb:95-110 | the loop is decided iff the response reads as y or n; the prompt and output are the pass the answer defines |
| Cleanup.GitCleanup.CleanLocal | git-cleanup.rb:61-69 | clean_local! is the guarded loop over the local list, and it runs commands only on master |
| Cleanup.GitCleanup.CleanRemote | git-cleanup.rb:51-59 | clean_remote! is the guarded loop over the remote list, and it runs commands only on master |
| Cleanup.GitCleanup.CleanAll | git-cleanup.rb:9-19 | off master the lists are untouched; on master they hold the classified candidates, and the run is the local loop followed by the remote loop on the responses left over |
| Scenarios.NestedRemoteName | git-cleanup.rb:98-103 | answering y for "origin/feature/x" pushes an empty ref to `feature` on `origin` |
| Scenarios.RemotesInLocalName | git-cleanup.rb:33-38 | a branch named "remotes-fix" makes merged_branches raise |

## Left out

- `fetch` and `prune_branches!` (git-cleanup.rb:22-24, 79-86) only run shell commands. Their effect on the repository is not modelled.
- The banner and the "N branches ready for cleanup" messages (git-cleanup.rb:27, 57, 67) are not events of the model. So a run's events hold only the prompts, the "Please enter y or n" and "skipping" notices, the "Must run against master" notice, and the commands run.
- The exit status of `system` and of the git commands is not inspected by the script, so it is not modelled.
- Memoization of `never_remove_local` and `never_remove_remote` with `||=` is not modelled. Within one run the current branch does not change, so the lists are recomputed with the same value.
- `current_branch` runs `git branch` on every call. The model reads one fixed output of `git branch` per operation.
- The top-level invocation (git-cleanup.rb:116-117) is reduced to the constructor followed by `CleanAll`.
- Text.Downcase: only ASCII letters are lowered. No other character lowercases to `y` or `n`, so the answers read are unaffected.
- Input is a finite list of responses. A terminal that never ends is out of scope, and so is a run that never finishes because it keeps getting invalid answers.
- Encodings are not modelled. A `string` here is a sequence of characters, so the ArgumentError that `match` (git-cleanup.rb:33) and `downcase` (git-cleanup.rb:95) raise on a line holding invalid UTF-8 has no counterpart.
- The shell's reading of a command line is not modelled. `system` (git-cleanup.rb:104) passes a line holding shell metacharacters to /bin/sh, and git ref names may contain `;`, `$`, `{` and `}`. The safety lemmas speak of the `Command` value, not of what such a shell line may also run.
- The events carry no line endings: `Output` gives the prompt (written with `print`) and the notices (written with `puts`) without the newline `puts` adds.

/** Values shared by the whole model: an optional value (Ruby's nil) and the
    faults the script dies with when it calls a method on nil. */
module Base {

  datatype Option<+T> = None | Some(value: T)

  /** Each fault is an uncaught NoMethodError of the script. */
  datatype Fault =
    | NoCurrentBranch   // `git branch` printed no line starting with '*': nil.gsub
    | NilBranchName     // a "remotes" line with fewer than two '/'-segments: nil.match
    | BranchListsUnset  // clean_local!/clean_remote! before merged_branches: nil.size
    | EndOfInput        // the responses ran out: gets returned nil, nil.chomp

  /** Concatenation is associative. */
  lemma AppendAssoc<T>(a: seq<T>, b: seq<T>, c: seq<T>)
    ensures a + (b + c) == (a + b) + c
  {
  }

  /** The empty sequence is a unit of concatenation. */
  lemma AppendEmpty<T>(a: seq<T>)
    ensures a + [] == a && [] + a == a
  {
  }

  /** A prefix of length i + j is the first i elements followed by the next j. */
  lemma PrefixSplit<T>(s: seq<T>, i: nat, j: nat)
    requires i + j <= |s|
    ensures s[..i + j] == s[..i] + s[i..][..j]
  {
    assert forall k | 0 <= k < i + j :: s[..i + j][k] == (s[..i] + s[i..][..j])[k];
  }
}

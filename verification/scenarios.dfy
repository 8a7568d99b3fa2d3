/** Concrete lines of `git branch -a --merged` output and what the model does
    with them. */
module Scenarios {
  import opened Text
  import opened Branches
  import opened Confirmation

  /** Three '/'-free fields, the last non-empty, joined by '/' split back. */
  lemma ThreeFields(a: string, b: string, c: string)
    requires '/' !in a && '/' !in b && '/' !in c && c != []
    ensures Split(a + "/" + b + "/" + c, '/') == [a, b, c]
  {
    var parts := [a, b, c];
    assert Join(parts[2..], '/') == c;
    assert Join(parts[1..], '/') == b + "/" + c;
    assert Join(parts, '/') == a + "/" + b + "/" + c;
    SplitJoin(parts, '/');
  }

  /** A text lacking some character of a pattern does not contain it. */
  lemma Lacks(s: string, sub: string, c: char)
    requires c in sub && c !in s
    ensures !Contains(s, sub)
  {
    if Contains(s, sub) {
      ContainsChar(s, sub, c);
    }
  }

  /** A remote entry whose branch has a '/' in its name: the push deletes the
      branch named by the second field only. */
  lemma NestedRemoteName()
    ensures DeleteCommand("origin/feature/x", true) == PushEmpty("origin", "feature")
  {
    ThreeFields("origin", "feature", "x");
    assert "origin" + "/" + "feature" + "/" + "x" == "origin/feature/x";
  }

  /** A local branch whose name contains "remotes" but no '/' takes the
      remote path, has no second field, and makes merged_branches raise. */
  lemma RemotesInLocalName()
    ensures ClassifyBranch("remotes-fix", NeverRemove(Mandatory)) == NilName
  {
    var line := "remotes-fix";
    assert StartsWith(line, "remotes");
    Lacks(line, "remotes/", '/');
    RemoveAllAbsent(line, "remotes/");
    SplitJoin([line], '/');
  }
}

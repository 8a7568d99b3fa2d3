/** The Ruby String operations the script relies on, with Ruby's semantics:
    strip, gsub with a literal pattern, a literal `match`, split on a
    one-character separator (trailing empty fields dropped), chomp and
    downcase. */
module Text {

  /** The characters String#strip removes: NUL, tab, line feed, vertical tab,
      form feed, carriage return and space. */
  predicate IsSpace(c: char) {
    c == '\0' || c == '\t' || c == '\n' || c == '\U{B}' || c == '\U{C}' || c == '\r' || c == ' '
  }

  function TrimLeft(s: string): (r: string)
    ensures |r| <= |s| && r == s[|s| - |r|..]
    ensures r == [] || !IsSpace(r[0])
    ensures forall i | 0 <= i < |s| - |r| :: IsSpace(s[i])
  {
    if s != [] && IsSpace(s[0]) then TrimLeft(s[1..]) else s
  }

  function TrimRight(s: string): (r: string)
    ensures |r| <= |s| && r == s[..|r|]
    ensures r == [] || !IsSpace(r[|r| - 1])
    ensures forall i | |r| <= i < |s| :: IsSpace(s[i])
  {
    if s != [] && IsSpace(s[|s| - 1]) then TrimRight(s[..|s| - 1]) else s
  }

  /** String#strip: the slice of `s` left after removing whitespace at both ends. */
  function Strip(s: string): (r: string)
    ensures r == [] || (!IsSpace(r[0]) && !IsSpace(r[|r| - 1]))
    ensures forall c | c in r :: c in s
  {
    var t := TrimLeft(s);
    var r := TrimRight(t);
    assert forall c | c in r :: c in t;
    r
  }

  /** Strip keeps one slice of the text and removes only whitespace around it. */
  lemma StripSlice(s: string) returns (a: nat)
    ensures a + |Strip(s)| <= |s| && Strip(s) == s[a..a + |Strip(s)|]
    ensures forall i | 0 <= i < a :: IsSpace(s[i])
    ensures forall i | a + |Strip(s)| <= i < |s| :: IsSpace(s[i])
  {
    var t := TrimLeft(s);
    a := |s| - |t|;
    assert t == s[a..];
    var r := TrimRight(t);
    assert Strip(s) == r;
    assert r == t[..|r|];
    assert s[a..a + |r|] == t[..|r|];
    forall i | a + |r| <= i < |s| ensures IsSpace(s[i]) {
      assert s[i] == t[i - a];
    }
  }

  /** gsub(c, '') for a one-character pattern: every occurrence of `c` deleted. */
  function DeleteChar(s: string, c: char): (r: string)
    ensures c !in r
    ensures |r| <= |s|
  {
    if s == [] then []
    else if s[0] == c then DeleteChar(s[1..], c) else [s[0]] + DeleteChar(s[1..], c)
  }

  /** DeleteChar removes every `c` and keeps every other character, as many
      times as it occurs. */
  lemma {:induction false} DeleteCharCounts(s: string, c: char)
    ensures multiset(DeleteChar(s, c)) == multiset(s)[c := 0]
  {
    if s != [] {
      DeleteCharCounts(s[1..], c);
      assert s == [s[0]] + s[1..];
    }
  }

  /** DeleteChar works character by character: it distributes over
      concatenation, so the characters it keeps stay in order. */
  lemma {:induction false} DeleteCharAppend(a: string, b: string, c: char)
    ensures DeleteChar(a + b, c) == DeleteChar(a, c) + DeleteChar(b, c)
  {
    if a == [] {
      assert a + b == b;
    } else {
      assert (a + b)[1..] == a[1..] + b;
      DeleteCharAppend(a[1..], b, c);
    }
  }

  /** On one character DeleteChar drops it if it is `c` and keeps it otherwise. */
  lemma DeleteCharSingle(x: char, c: char)
    ensures DeleteChar([x], c) == if x == c then [] else [x]
  {
  }

  predicate StartsWith(s: string, prefix: string) {
    |prefix| <= |s| && s[..|prefix|] == prefix
  }

  /** `sub` occurs in `s` starting at index `i`. */
  predicate OccursAt(s: string, sub: string, i: int) {
    0 <= i && i + |sub| <= |s| && s[i..i + |sub|] == sub
  }

  /** match with a pattern free of regular-expression metacharacters:
      a substring test anywhere in `s`. */
  predicate Contains(s: string, sub: string)
    decreases |s|
  {
    StartsWith(s, sub) || (s != [] && Contains(s[1..], sub))
  }

  lemma {:induction false} ContainsIff(s: string, sub: string)
    ensures Contains(s, sub) <==> exists i :: OccursAt(s, sub, i)
    decreases |s|
  {
    if StartsWith(s, sub) {
      assert OccursAt(s, sub, 0);
    } else if s == [] {
      assert forall i :: !OccursAt(s, sub, i);
    } else {
      ContainsIff(s[1..], sub);
      forall i | OccursAt(s[1..], sub, i) ensures OccursAt(s, sub, i + 1) {
        assert s[i + 1..i + 1 + |sub|] == s[1..][i..i + |sub|];
      }
      forall i | OccursAt(s, sub, i) ensures OccursAt(s[1..], sub, i - 1) {
        assert i != 0;
        assert s[1..][i - 1..i - 1 + |sub|] == s[i..i + |sub|];
      }
    }
  }

  /** A text that contains a pattern contains every character of it. */
  lemma {:induction false} ContainsChar(s: string, sub: string, c: char)
    requires Contains(s, sub) && c in sub
    ensures c in s
    decreases |s|
  {
    if StartsWith(s, sub) {
      assert s[..|sub|] == sub;
    } else {
      ContainsChar(s[1..], sub, c);
    }
  }

  /** gsub(pat, '') for a literal, non-empty pattern: scanning left to right,
      every non-overlapping occurrence is deleted. */
  function RemoveAll(s: string, pat: string): (r: string)
    requires pat != []
    ensures |r| <= |s|
    decreases |s|
  {
    if s == [] then []
    else if StartsWith(s, pat) then RemoveAll(s[|pat|..], pat)
    else [s[0]] + RemoveAll(s[1..], pat)
  }

  /** RemoveAll only deletes: the result's characters are drawn from the text. */
  lemma {:induction false} RemoveAllDeletes(s: string, pat: string)
    requires pat != []
    ensures multiset(RemoveAll(s, pat)) <= multiset(s)
    decreases |s|
  {
    if s != [] {
      if StartsWith(s, pat) {
        RemoveAllDeletes(s[|pat|..], pat);
        assert s == s[..|pat|] + s[|pat|..];
      } else {
        RemoveAllDeletes(s[1..], pat);
        assert s == [s[0]] + s[1..];
      }
    }
  }

  /** Removing a pattern that does not occur leaves the text as it is. */
  lemma {:induction false} RemoveAllAbsent(s: string, pat: string)
    requires pat != [] && !Contains(s, pat)
    ensures RemoveAll(s, pat) == s
    decreases |s|
  {
    if s != [] {
      RemoveAllAbsent(s[1..], pat);
    }
  }

  /** gsub scans from the left: text before the first occurrence is kept, that
      occurrence is removed, and the scan resumes right after it. */
  lemma {:induction false} RemoveAllLeftmost(w: string, pat: string, t: string)
    requires pat != [] && !Contains(w + pat[..|pat| - 1], pat)
    ensures RemoveAll(w + pat + t, pat) == w + RemoveAll(t, pat)
    decreases |w|
  {
    var s := w + pat + t;
    if w == [] {
      assert s == pat + t;
      assert StartsWith(s, pat);
      assert s[|pat|..] == t;
    } else {
      var u := w + pat[..|pat| - 1];
      assert !StartsWith(u, pat);
      assert s[..|pat|] == u[..|pat|];
      assert u[1..] == w[1..] + pat[..|pat| - 1];
      RemoveAllLeftmost(w[1..], pat, t);
      assert s[1..] == w[1..] + pat + t;
      assert [w[0]] + w[1..] == w;
    }
  }

  /** Every field of `s` between occurrences of `sep`, empty fields included. */
  function RawSplit(s: string, sep: char): (r: seq<string>)
    ensures |r| >= 1
    ensures forall k | 0 <= k < |r| :: sep !in r[k]
  {
    if s == [] then [[]]
    else
      var rest := RawSplit(s[1..], sep);
      if s[0] == sep then [[]] + rest else [[s[0]] + rest[0]] + rest[1..]
  }

  /** The fields joined back together with `sep` between them. */
  function Join(parts: seq<string>, sep: char): string {
    if parts == [] then []
    else if |parts| == 1 then parts[0]
    else parts[0] + [sep] + Join(parts[1..], sep)
  }

  lemma {:induction false} JoinRawSplit(s: string, sep: char)
    ensures Join(RawSplit(s, sep), sep) == s
  {
    if s != [] {
      JoinRawSplit(s[1..], sep);
      var rest := RawSplit(s[1..], sep);
      if s[0] != sep && |rest| > 1 {
        assert Join(rest, sep) == rest[0] + [sep] + Join(rest[1..], sep);
      }
    }
  }

  lemma {:induction false} RawSplitPrefix(w: string, sep: char, t: string)
    requires sep !in w
    ensures RawSplit(w + [sep] + t, sep) == [w] + RawSplit(t, sep)
  {
    if w == [] {
      assert ([sep] + t)[1..] == t;
    } else {
      assert (w + [sep] + t)[1..] == w[1..] + [sep] + t;
      RawSplitPrefix(w[1..], sep, t);
      assert [w[0]] + w[1..] == w;
    }
  }

  lemma {:induction false} RawSplitFree(w: string, sep: char)
    requires sep !in w
    ensures RawSplit(w, sep) == [w]
  {
    if w != [] {
      RawSplitFree(w[1..], sep);
      assert [w[0]] + w[1..] == w;
    }
  }

  /** Joining fields that are free of the separator and splitting again gives
      the fields back: with JoinRawSplit, RawSplit and Join are inverses. */
  lemma {:induction false} RawSplitJoin(parts: seq<string>, sep: char)
    requires |parts| >= 1
    requires forall k | 0 <= k < |parts| :: sep !in parts[k]
    ensures RawSplit(Join(parts, sep), sep) == parts
  {
    if |parts| == 1 {
      RawSplitFree(parts[0], sep);
    } else {
      RawSplitJoin(parts[1..], sep);
      RawSplitPrefix(parts[0], sep, Join(parts[1..], sep));
    }
  }

  function DropTrailingEmpty(parts: seq<string>): (r: seq<string>)
    ensures |r| <= |parts| && r == parts[..|r|]
    ensures r == [] || r[|r| - 1] != []
    ensures forall k | |r| <= k < |parts| :: parts[k] == []
  {
    if parts != [] && parts[|parts| - 1] == [] then DropTrailingEmpty(parts[..|parts| - 1]) else parts
  }

  /** String#split with a one-character separator: the fields in order, with
      trailing empty fields dropped. */
  function Split(s: string, sep: char): (r: seq<string>)
    ensures forall k | 0 <= k < |r| :: sep !in r[k]
    ensures r == [] || r[|r| - 1] != []
  {
    DropTrailingEmpty(RawSplit(s, sep))
  }

  /** Fields free of the separator, the last one non-empty, come back from
      split unchanged once joined. */
  lemma SplitJoin(parts: seq<string>, sep: char)
    requires |parts| >= 1 && parts[|parts| - 1] != []
    requires forall k | 0 <= k < |parts| :: sep !in parts[k]
    ensures Split(Join(parts, sep), sep) == parts
  {
    RawSplitJoin(parts, sep);
  }

  lemma {:induction false} JoinAppend(a: seq<string>, b: seq<string>, sep: char)
    requires a != [] && b != []
    ensures Join(a + b, sep) == Join(a, sep) + [sep] + Join(b, sep)
  {
    if |a| > 1 {
      assert (a + b)[1..] == a[1..] + b;
      JoinAppend(a[1..], b, sep);
    }
  }

  function Empties(n: nat): (r: seq<string>)
    ensures |r| == n && forall k | 0 <= k < n :: r[k] == []
  {
    if n == 0 then [] else [[]] + Empties(n - 1)
  }

  function Separators(n: nat, sep: char): (r: string)
    ensures |r| == n && forall k | 0 <= k < n :: r[k] == sep
  {
    if n == 0 then [] else [sep] + Separators(n - 1, sep)
  }

  lemma {:induction false} JoinEmpties(n: nat, sep: char)
    requires n >= 1
    ensures Join(Empties(n), sep) == Separators(n - 1, sep)
  {
    if n > 1 {
      JoinEmpties(n - 1, sep);
    }
  }

  /** The text is the joined fields of its split followed by some text. */
  lemma SplitRest(s: string, sep: char) returns (tail: string)
    ensures s == Join(Split(s, sep), sep) + tail
    ensures forall k | 0 <= k < |tail| :: tail[k] == sep
  {
    var r := Split(s, sep);
    var m := SplitDrops(s, sep);
    JoinRawSplit(s, sep);
    if m == 0 {
      assert r + Empties(0) == r;
      tail := [];
    } else if r == [] {
      assert r + Empties(m) == Empties(m);
      JoinEmpties(m, sep);
      tail := Separators(m - 1, sep);
    } else {
      JoinAppend(r, Empties(m), sep);
      JoinEmpties(m, sep);
      tail := [sep] + Separators(m - 1, sep);
    }
  }

  /** Split drops `m` empty fields from the end of the raw fields. */
  lemma SplitDrops(s: string, sep: char) returns (m: nat)
    ensures RawSplit(s, sep) == Split(s, sep) + Empties(m)
  {
    var raw := RawSplit(s, sep);
    var r := Split(s, sep);
    m := |raw| - |r|;
    assert raw == r + raw[|r|..];
    assert raw[|r|..] == Empties(m);
  }

  /** What Split drops is only separators at the end of the text: the text is
      the joined fields followed by separators alone. */
  lemma SplitText(s: string, sep: char)
    ensures var r := Split(s, sep);
            |Join(r, sep)| <= |s| && s[..|Join(r, sep)|] == Join(r, sep) &&
            forall k | |Join(r, sep)| <= k < |s| :: s[k] == sep
  {
    var j := Join(Split(s, sep), sep);
    var tail := SplitRest(s, sep);
    forall k | |j| <= k < |s| ensures s[k] == sep {
      assert s[k] == tail[k - |j|];
    }
  }

  /** String#chomp with no argument: one trailing "\r\n", "\n" or "\r" removed. */
  function Chomp(s: string): (r: string)
    ensures |s| - 2 <= |r| <= |s| && r == s[..|r|]
  {
    if |s| >= 2 && s[|s| - 2..] == "\r\n" then s[..|s| - 2]
    else if s != [] && (s[|s| - 1] == '\n' || s[|s| - 1] == '\r') then s[..|s| - 1]
    else s
  }

  /** chomp removes exactly the line ending `gets` leaves on a line, "\n" or
      "\r\n", and leaves a text without a line ending as it is. */
  lemma ChompLine(x: string)
    requires x == [] || x[|x| - 1] != '\r'
    ensures Chomp(x + "\n") == x && Chomp(x + "\r\n") == x
    ensures x == [] || x[|x| - 1] != '\n' ==> Chomp(x) == x
  {
    assert (x + "\n")[..|x|] == x;
    assert (x + "\r\n")[..|x|] == x;
    if |x + "\n"| >= 2 {
      assert (x + "\n")[|x + "\n"| - 2] == x[|x| - 1];
    }
  }

  function Lower(c: char): char {
    if 'A' <= c <= 'Z' then (c as int - 'A' as int + 'a' as int) as char else c
  }

  /** String#downcase on ASCII letters; other characters are kept. */
  function Downcase(s: string): (r: string)
    ensures |r| == |s|
  {
    if s == [] then [] else [Lower(s[0])] + Downcase(s[1..])
  }

  lemma {:induction false} DowncaseAt(s: string, i: nat)
    requires i < |s|
    ensures Downcase(s)[i] == Lower(s[i])
  {
    if i > 0 {
      DowncaseAt(s[1..], i - 1);
    }
  }

  /** The only texts that downcase to a one-letter lower-case word are that
      letter in either case. */
  lemma DowncaseLetter(s: string, c: char)
    requires 'a' <= c <= 'z'
    ensures Downcase(s) == [c] <==> s == [c] || s == [(c as int - 'a' as int + 'A' as int) as char]
  {
    if |s| == 1 {
      DowncaseAt(s, 0);
    }
  }
}

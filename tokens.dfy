/** The text layer of the shell's command-line parser: spaces and tabs are the only
    separators, trimming removes them at both ends, and `strtok` cuts a line into the
    maximal runs of other characters. */
module Tokens {

  /** The `splitters` of `parse_command`: space and tab. */
  predicate IsSplitter(c: char)
  {
    c == ' ' || c == '\t'
  }

  /** A token as `strtok` returns it: non-empty and free of splitters. */
  predicate IsWord(t: string)
  {
    |t| > 0 && forall i :: 0 <= i < |t| ==> !IsSplitter(t[i])
  }

  /** The length of the run of non-splitters at the start of `s`. */
  function WordLength(s: string): (n: nat)
    ensures n <= |s|
    ensures forall i :: 0 <= i < n ==> !IsSplitter(s[i])
    ensures n < |s| ==> IsSplitter(s[n])
  {
    if s == [] || IsSplitter(s[0]) then 0 else 1 + WordLength(s[1..])
  }

  /** The tokens `strtok(s, " \t")` and then `strtok(NULL, " \t")` return, in order. */
  function Split(s: string): (ts: seq<string>)
    ensures forall i :: 0 <= i < |ts| ==> IsWord(ts[i])
    decreases |s|
  {
    if s == [] then []
    else if IsSplitter(s[0]) then Split(s[1..])
    else
      var n := WordLength(s);
      [s[..n]] + Split(s[n..])
  }

  /** How many splitters `s` starts with. */
  function Leading(s: string): (n: nat)
    ensures n <= |s|
    ensures forall i :: 0 <= i < n ==> IsSplitter(s[i])
    ensures n < |s| ==> !IsSplitter(s[n])
  {
    if s != [] && IsSplitter(s[0]) then 1 + Leading(s[1..]) else 0
  }

  /** The length of `s` without its trailing splitters. */
  function Kept(s: string): (n: nat)
    ensures n <= |s|
    ensures forall i :: n <= i < |s| ==> IsSplitter(s[i])
    ensures n > 0 ==> !IsSplitter(s[n - 1])
  {
    if s != [] && IsSplitter(s[|s| - 1]) then Kept(s[..|s| - 1]) else |s|
  }

  /** The line `parse_command` works on after its two trimming loops: no splitter at
      either end. */
  function Trim(s: string): (r: string)
    ensures r != [] ==> !IsSplitter(r[|r| - 1])
  {
    var t := s[Leading(s)..];
    t[..Kept(t)]
  }

  /** A splitter at position `k` contributes no token. */
  lemma SplitSkipsSplitter(s: string, k: nat)
    requires k < |s| && IsSplitter(s[k])
    ensures Split(s[k..]) == Split(s[k + 1..])
  {
    assert s[k..][1..] == s[k + 1..];
  }

  /** A maximal run of non-splitters from `start` to `end` is the next token. */
  lemma SplitAtWord(s: string, start: nat, end: nat)
    requires start < end <= |s|
    requires forall i :: start <= i < end ==> !IsSplitter(s[i])
    requires end < |s| ==> IsSplitter(s[end])
    ensures Split(s[start..]) == [s[start..end]] + Split(s[end..])
  {
    var t := s[start..];
    assert WordLength(t) == end - start;
    assert t[..end - start] == s[start..end] && t[end - start..] == s[end..];
  }

  /** Splitting is blind to a splitter appended at the end. */
  lemma {:induction false} SplitIgnoresTrailingSplitter(s: string, c: char)
    requires IsSplitter(c)
    ensures Split(s + [c]) == Split(s)
    decreases |s|
  {
    if s == [] {
      assert Split([c]) == Split([c][1..]);
    } else if IsSplitter(s[0]) {
      assert (s + [c])[1..] == s[1..] + [c];
      SplitIgnoresTrailingSplitter(s[1..], c);
    } else {
      var n := WordLength(s);
      assert WordLength(s + [c]) == n by {
        WordLengthOfExtension(s, c);
      }
      assert (s + [c])[..n] == s[..n];
      assert (s + [c])[n..] == s[n..] + [c];
      SplitIgnoresTrailingSplitter(s[n..], c);
    }
  }

  /** Appending a splitter does not change the first word. */
  lemma {:induction false} WordLengthOfExtension(s: string, c: char)
    requires IsSplitter(c)
    ensures WordLength(s + [c]) == WordLength(s)
    decreases |s|
  {
    if s != [] && !IsSplitter(s[0]) {
      assert (s + [c])[1..] == s[1..] + [c];
      WordLengthOfExtension(s[1..], c);
    }
  }

  /** Splitting is blind to splitters at either end: the tokens of the trimmed line are
      the tokens of the line. */
  lemma SplitOfTrim(s: string)
    ensures Split(Trim(s)) == Split(s)
  {
    SplitSkipsLeading(s);
    SplitSkipsTrailing(s[Leading(s)..]);
  }

  lemma {:induction false} SplitSkipsLeading(s: string)
    ensures Split(s[Leading(s)..]) == Split(s)
    decreases |s|
  {
    if s != [] && IsSplitter(s[0]) {
      SplitSkipsLeading(s[1..]);
      assert s[1..][Leading(s[1..])..] == s[Leading(s)..];
    } else {
      assert s[0..] == s;
    }
  }

  lemma {:induction false} SplitSkipsTrailing(s: string)
    ensures Split(s[..Kept(s)]) == Split(s)
    decreases |s|
  {
    if s != [] && IsSplitter(s[|s| - 1]) {
      var init := s[..|s| - 1];
      assert s == init + [s[|s| - 1]];
      SplitIgnoresTrailingSplitter(init, s[|s| - 1]);
      SplitSkipsTrailing(init);
      assert init[..Kept(init)] == s[..Kept(s)];
    } else {
      assert s[..|s|] == s;
    }
  }

  /** A line whose last character is not a splitter has tokens, and its last token
      ends with that character. */
  lemma {:induction false} LastTokenEndsLine(s: string)
    requires s != [] && !IsSplitter(s[|s| - 1])
    ensures Split(s) != []
    ensures var last := Split(s)[|Split(s)| - 1]; last[|last| - 1] == s[|s| - 1]
    decreases |s|
  {
    if IsSplitter(s[0]) {
      LastTokenEndsLine(s[1..]);
    } else {
      var n := WordLength(s);
      if n < |s| {
        LastTokenEndsLine(s[n..]);
      }
    }
  }

  /** The trimmed line is empty exactly when the line has no tokens; otherwise its last
      character is the last character of the last token. */
  lemma TrimmedEndIsLastToken(s: string)
    ensures Trim(s) == [] <==> Split(s) == []
    ensures Trim(s) != [] ==>
              var ts := Split(s); ts[|ts| - 1][|ts[|ts| - 1]| - 1] == Trim(s)[|Trim(s)| - 1]
  {
    SplitOfTrim(s);
    EndsOfUntrailed(Trim(s));
  }

  /** For a line without a trailing splitter: it is empty exactly when it has no
      tokens, and otherwise its last character ends its last token. */
  lemma EndsOfUntrailed(t: string)
    requires t != [] ==> !IsSplitter(t[|t| - 1])
    ensures t == [] <==> Split(t) == []
    ensures t != [] ==> var ts := Split(t); ts[|ts| - 1][|ts[|ts| - 1]| - 1] == t[|t| - 1]
  {
    if t != [] {
      LastTokenEndsLine(t);
    }
  }
}

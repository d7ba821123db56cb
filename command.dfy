/** `parse_command` of the shell: a command line becomes a command structure with a
    name, an argument vector, three redirect targets, the background and
    auto-complete flags, and the command it pipes into.

    ParseTokens states the result in terms of the line's tokens; ParseCommand follows
    the C function's loops (trimming, `strtok`, the argument shift) and is proved to
    compute ParseTokens(Split(line)). */
module CommandParser {
  import opened Wrappers
  import opened Tokens

  /** `struct command_t`. `args` holds `argCount` entries, the last one NULL (None);
      `redirects` holds the targets of `<`, `>` and `>>`. */
  datatype Command = Command(
    name: string,
    background: bool,
    autoComplete: bool,
    argCount: nat,
    args: seq<Option<string>>,
    redirects: seq<Option<string>>,
    next: Option<Command>)

  /** What the token loop has gathered: the plain arguments, the redirect targets and
      the piped successor. */
  datatype Gathered = Gathered(args: seq<string>, redirects: seq<Option<string>>, next: Option<Command>)

  const NO_REDIRECTS: seq<Option<string>> := [None, None, None]

  /** Which redirect a token asks for: 0 for `<`, 2 for `>>`, 1 for any other `>`,
      and -1 for a token that is no redirect. Only the first one or two characters
      count: the rest of the token is ignored. */
  function RedirectIndex(t: string): (k: int)
    ensures -1 <= k < 3
    ensures k >= 0 <==> |t| > 0 && (t[0] == '<' || t[0] == '>')
  {
    if |t| > 0 && t[0] == '<' then 0
    else if |t| > 0 && t[0] == '>' then (if |t| > 1 && t[1] == '>' then 2 else 1)
    else -1
  }

  /** An argument of more than two characters wrapped in matching double or single
      quotes loses the two quotes; any other argument is kept as it is. */
  function Unquote(t: string): (r: string)
    ensures |t| > 2 && (t[0] == '"' || t[0] == '\'') && t[|t| - 1] == t[0] ==> r == t[1..|t| - 1]
    ensures !(|t| > 2 && (t[0] == '"' || t[0] == '\'') && t[|t| - 1] == t[0]) ==> r == t
  {
    if |t| > 2 && ((t[0] == '"' && t[|t| - 1] == '"') || (t[0] == '\'' && t[|t| - 1] == '\''))
    then t[1..|t| - 1]
    else t
  }

  /** The token `|` (`strcmp(arg, "|") == 0`). */
  predicate IsPipe(t: string)
  {
    |t| == 1 && t[0] == '|'
  }

  /** The token `&` on its own (`strcmp(arg, "&") == 0`). */
  predicate IsAmpersand(t: string)
  {
    |t| == 1 && t[0] == '&'
  }

  /** A token the loop stores as an argument: no pipe, no lone `&`, no redirect. */
  predicate IsPlain(t: string)
  {
    !IsPipe(t) && !IsAmpersand(t) && RedirectIndex(t) == -1
  }

  function Unquoted(ts: seq<string>): (r: seq<string>)
    ensures |r| == |ts| && forall i :: 0 <= i < |ts| ==> r[i] == Unquote(ts[i])
  {
    seq(|ts|, i requires 0 <= i < |ts| => Unquote(ts[i]))
  }

  function Present(ts: seq<string>): (r: seq<Option<string>>)
    ensures |r| == |ts| && forall i :: 0 <= i < |ts| ==> r[i] == Some(ts[i])
  {
    seq(|ts|, i requires 0 <= i < |ts| => Some(ts[i]))
  }

  /** The last character of the last token, which is the last character of the
      trimmed line. */
  function LastChar(ts: seq<string>): Option<char>
  {
    if ts == [] || ts[|ts| - 1] == [] then None else Some(ts[|ts| - 1][|ts[|ts| - 1]| - 1])
  }

  /** The command a line with tokens `ts` parses to. The first token is the name; the
      flags come from the line's last character; the remaining tokens are gathered by
      Gather; the argument vector is the name, the arguments, and NULL. */
  function ParseTokens(ts: seq<string>): Command
    decreases |ts|, 1
  {
    var name := if ts == [] then "" else ts[0];
    var g := Gather(if ts == [] then [] else ts[1..], [], NO_REDIRECTS);
    Command(name, LastChar(ts) == Some('&'), LastChar(ts) == Some('?'),
            |g.args| + 2, [Some(name)] + Present(g.args) + [None], g.redirects, g.next)
  }

  /** The token loop, continuing after `args` and `redirects` were gathered: a `|`
      hands every later token to the piped command and ends the loop; a lone `&` is
      skipped; a redirect stores the next token as its target (a later redirect of
      the same kind replaces an earlier one); any other token becomes an argument. */
  function Gather(ts: seq<string>, args: seq<string>, redirects: seq<Option<string>>): (g: Gathered)
    requires |redirects| == 3
    ensures |g.redirects| == 3
    decreases |ts|, 0
  {
    if ts == [] then Gathered(args, redirects, None)
    else if IsPipe(ts[0]) then Gathered(args, redirects, Some(ParseTokens(ts[1..])))
    else if IsAmpersand(ts[0]) then Gather(ts[1..], args, redirects)
    else if RedirectIndex(ts[0]) >= 0 then
      if |ts| == 1 then Gathered(args, redirects, None)
      else Gather(ts[2..], args, redirects[RedirectIndex(ts[0]) := Some(ts[1])])
    else Gather(ts[1..], args + [Unquote(ts[0])], redirects)
  }

  /** The command a line parses to. */
  function ParseLine(line: string): Command
  {
    ParseTokens(Split(line))
  }

  /** `strtok(NULL, " \t")` with its saved position at `pos`: skip splitters, then cut
      the next run of non-splitters and step over the splitter that ends it. */
  method NextToken(buf: string, pos: nat) returns (tok: Option<string>, pos': nat)
    requires pos <= |buf|
    ensures pos' <= |buf|
    ensures Split(buf[pos..]) == [] ==> tok == None && pos' == |buf|
    ensures Split(buf[pos..]) != [] ==>
              && pos < pos' && tok == Some(Split(buf[pos..])[0])
              && Split(buf[pos'..]) == Split(buf[pos..])[1..]
  {
    var start := SkipSplitters(buf, pos);
    if start == |buf| {
      return None, |buf|;
    }
    var end := WordEnd(buf, start);
    WordThenRest(buf, pos, start, end);
    tok := Some(buf[start..end]);
    pos' := if end < |buf| then end + 1 else end;
  }

  /** After the splitters from `pos` to `start`, the word from `start` to `end` is
      the first token, and the tokens after the splitter ending it are the rest. */
  lemma WordThenRest(buf: string, pos: nat, start: nat, end: nat)
    requires pos <= start < end <= |buf| && Split(buf[start..]) == Split(buf[pos..])
    requires forall i :: start <= i < end ==> !IsSplitter(buf[i])
    requires end < |buf| ==> IsSplitter(buf[end])
    ensures Split(buf[pos..]) != [] && Split(buf[pos..])[0] == buf[start..end]
    ensures Split(buf[if end < |buf| then end + 1 else end..]) == Split(buf[pos..])[1..]
  {
    SplitAtWord(buf, start, end);
    if end < |buf| {
      SplitSkipsSplitter(buf, end);
    }
  }

  /** The first position at or after `pos` that is not a splitter; the splitters
      skipped contribute no token. */
  method SkipSplitters(buf: string, pos: nat) returns (start: nat)
    requires pos <= |buf|
    ensures pos <= start <= |buf|
    ensures start < |buf| ==> !IsSplitter(buf[start])
    ensures Split(buf[start..]) == Split(buf[pos..])
  {
    start := pos;
    while start < |buf| && IsSplitter(buf[start])
      invariant pos <= start <= |buf|
      invariant Split(buf[start..]) == Split(buf[pos..])
    {
      SplitSkipsSplitter(buf, start);
      start := start + 1;
    }
  }

  /** The end of the run of non-splitters starting at `start`. */
  method WordEnd(buf: string, start: nat) returns (end: nat)
    requires start < |buf| && !IsSplitter(buf[start])
    ensures start < end <= |buf|
    ensures forall i :: start <= i < end ==> !IsSplitter(buf[i])
    ensures end < |buf| ==> IsSplitter(buf[end])
  {
    end := start + 1;
    while end < |buf| && !IsSplitter(buf[end])
      invariant start < end <= |buf|
      invariant forall i :: start <= i < end ==> !IsSplitter(buf[i])
    {
      end := end + 1;
    }
  }

  /** The two trimming loops at the start of `parse_command`: skip the leading
      splitters, then shorten the length while the last character is a splitter. */
  method TrimLine(line: string) returns (buf: string)
    ensures buf == Trim(line)
  {
    var first := 0;
    while first < |line| && IsSplitter(line[first])
      invariant first <= Leading(line)
    {
      first := first + 1;
    }
    var len := |line| - first;
    ghost var t := line[first..];
    while len > 0 && IsSplitter(line[first + len - 1])
      invariant Kept(t) <= len <= |t|
    {
      len := len - 1;
    }
    buf := line[first..first + len];
  }

  /** `parse_command(buf, command)` on a zeroed command. */
  method ParseCommand(line: string) returns (c: Command)
    ensures c == ParseLine(line)
    decreases |line|, 1
  {
    var buf := TrimLine(line);
    SplitOfTrim(line);
    TrimmedEndIsLastToken(line);
    var len := |buf|;
    var autoComplete := len > 0 && buf[len - 1] == '?';
    var background := len > 0 && buf[len - 1] == '&';

    var tok, pos := NextToken(buf, 0);
    assert buf[0..] == buf;
    var name := if tok.None? then "" else tok.value;
    var args, redirects, next := GatherTokens(buf, pos);
    var argv := BuildArgv(name, args);
    c := Command(name, background, autoComplete, |args| + 2, argv, redirects, next);
  }

  /** The token loop of `parse_command`, from saved position `pos` to the end of `buf`. */
  method GatherTokens(buf: string, pos0: nat) returns (args: seq<string>, redirects: seq<Option<string>>, next: Option<Command>)
    requires pos0 <= |buf|
    ensures Gathered(args, redirects, next) == Gather(Split(buf[pos0..]), [], NO_REDIRECTS)
    decreases |buf| - pos0, 0
  {
    ghost var target := Gather(Split(buf[pos0..]), [], NO_REDIRECTS);
    var pos := pos0;
    args, redirects, next := [], NO_REDIRECTS, None;
    while true
      invariant pos0 <= pos <= |buf| && |redirects| == 3
      invariant next.None? ==> Gather(Split(buf[pos..]), args, redirects) == target
      invariant next.Some? ==> Gathered(args, redirects, next) == target
      decreases |buf| - pos, if next.None? then 1 else 0
    {
      if next.Some? {
        // the nested call restarted strtok on the rest of the line and ran it to the end
        break;
      }
      ghost var ts := Split(buf[pos..]);
      var tok;
      tok, pos := NextToken(buf, pos);
      if tok.None? {
        break;
      }
      var arg := tok.value;
      assert ts[0] == arg && ts[1..] == Split(buf[pos..]);
      if IsPipe(arg) {
        var piped := ParseCommand(buf[pos..]);
        next := Some(piped);
        continue;
      }
      if IsAmpersand(arg) {
        continue;
      }
      var redirectIndex := RedirectIndex(arg);
      if redirectIndex != -1 {
        ghost var rest := Split(buf[pos..]);
        tok, pos := NextToken(buf, pos);
        if tok.Some? {
          assert ts[2..] == rest[1..];
          redirects := redirects[redirectIndex := tok];
        }
        continue;
      }
      if |arg| > 2 && ((arg[0] == '"' && arg[|arg| - 1] == '"') || (arg[0] == '\'' && arg[|arg| - 1] == '\'')) {
        arg := arg[1..|arg| - 1];
      }
      args := args + [arg];
    }
  }

  /** The end of `parse_command`: two more slots, the arguments shifted up by one, the
      name copied into the first slot and NULL into the last. */
  method BuildArgv(name: string, args: seq<string>) returns (argv: seq<Option<string>>)
    ensures argv == [Some(name)] + Present(args) + [None]
  {
    var argCount := |args| + 2;
    var a := new Option<string>[argCount](i requires 0 <= i < argCount => if i < |args| then Some(args[i]) else None);
    for i := argCount - 1 downto 1
      invariant forall j :: 0 <= j < i ==> a[j] == if j < |args| then Some(args[j]) else None
      invariant forall j :: i <= j < argCount - 1 ==> a[j] == Some(args[j - 1])
    {
      a[i] := a[i - 1];
    }
    a[0] := Some(name);
    a[argCount - 1] := None;
    argv := a[..];
    ArgvShape(argv, name, args);
  }

  lemma ArgvShape(argv: seq<Option<string>>, name: string, args: seq<string>)
    requires |argv| == |args| + 2 && argv[0] == Some(name) && argv[|argv| - 1] == None
    requires forall j :: 1 <= j < |argv| - 1 ==> argv[j] == Some(args[j - 1])
    ensures argv == [Some(name)] + Present(args) + [None]
  {
    var want := [Some(name)] + Present(args) + [None];
    assert forall j :: 0 <= j < |argv| ==> argv[j] == want[j];
  }

  /** The argument vector of every parsed command is the name, then the arguments,
      then NULL, and `argCount` counts all of them; there are three redirect slots. */
  lemma ArgumentVectorShape(ts: seq<string>)
    ensures var c := ParseTokens(ts);
      && c.argCount == |c.args| >= 2
      && c.args[0] == Some(c.name)
      && c.args[c.argCount - 1] == None
      && (forall i :: 0 < i < c.argCount - 1 ==> c.args[i].Some?)
      && |c.redirects| == 3
  {
  }

  /** The name is the first token, or empty for a blank line; the flags say whether
      the trimmed line ends with `&` or `?`. */
  lemma NameAndFlags(line: string)
    ensures ParseLine(line).name == if Split(line) == [] then "" else Split(line)[0]
    ensures ParseLine(line).background <==> Trim(line) != [] && Trim(line)[|Trim(line)| - 1] == '&'
    ensures ParseLine(line).autoComplete <==> Trim(line) != [] && Trim(line)[|Trim(line)| - 1] == '?'
  {
    LastCharOfLine(line);
  }

  /** The last character of the last token is the last character of the trimmed line. */
  lemma LastCharOfLine(line: string)
    ensures LastChar(Split(line)) == if Trim(line) == [] then None else Some(Trim(line)[|Trim(line)| - 1])
  {
    TrimmedEndIsLastToken(line);
    if Split(line) != [] {
      assert IsWord(Split(line)[|Split(line)| - 1]);
    }
  }

  /** A run of plain tokens only adds arguments, each with its quotes removed, in
      input order. */
  lemma {:induction false} GatherPlain(ts: seq<string>, args: seq<string>, redirects: seq<Option<string>>)
    requires |redirects| == 3 && forall i :: 0 <= i < |ts| ==> IsPlain(ts[i])
    ensures Gather(ts, args, redirects) == Gathered(args + Unquoted(ts), redirects, None)
    decreases |ts|
  {
    if ts != [] {
      var u := Unquote(ts[0]);
      GatherPlain(ts[1..], args + [u], redirects);
      UnquotedCons(ts);
      AppendAssoc(args, [u], Unquoted(ts[1..]));
    }
  }

  /** A line of plain tokens is a command whose arguments are the other tokens,
      unquoted, in order, with no redirect and no pipe. */
  lemma PlainLine(ts: seq<string>)
    requires ts != [] && forall i :: 0 <= i < |ts| ==> IsPlain(ts[i])
    ensures var c := ParseTokens(ts);
      && c.args == [Some(ts[0])] + Present(Unquoted(ts[1..])) + [None]
      && c.argCount == |ts| + 1
      && c.redirects == NO_REDIRECTS && c.next == None
  {
    var g := Gather(ts[1..], [], NO_REDIRECTS);
    GatherPlain(ts[1..], [], NO_REDIRECTS);
    assert g.args == Unquoted(ts[1..]);
    assert ParseTokens(ts).args == [Some(ts[0])] + Present(g.args) + [None];
  }

  /** A redirect token and its target never become arguments: the target lands in the
      redirect's slot, and the rest of the line is gathered as if the pair were not
      there. */
  lemma {:induction false} RedirectTakesNextToken(r: string, target: string, ts: seq<string>, args: seq<string>, redirects: seq<Option<string>>)
    requires |redirects| == 3 && RedirectIndex(r) >= 0
    requires forall i :: 0 <= i < |ts| ==> IsPlain(ts[i])
    ensures Gather([r, target] + ts, args, redirects) ==
              Gathered(args + Unquoted(ts), redirects[RedirectIndex(r) := Some(target)], None)
  {
    assert ([r, target] + ts)[2..] == ts;
    GatherPlain(ts, args, redirects[RedirectIndex(r) := Some(target)]);
  }

  /** A line whose tokens contain no `|` has no piped successor. */
  lemma {:induction false} NoPipeNoSuccessor(ts: seq<string>, args: seq<string>, redirects: seq<Option<string>>)
    requires |redirects| == 3 && forall i :: 0 <= i < |ts| ==> !IsPipe(ts[i])
    ensures Gather(ts, args, redirects).next == None
    decreases |ts|
  {
    if ts != [] && !IsPipe(ts[0]) {
      if IsAmpersand(ts[0]) || RedirectIndex(ts[0]) == -1 {
        NoPipeNoSuccessor(ts[1..], args + [Unquote(ts[0])], redirects);
        NoPipeNoSuccessor(ts[1..], args, redirects);
      } else if |ts| > 1 {
        NoPipeNoSuccessor(ts[2..], args, redirects[RedirectIndex(ts[0]) := Some(ts[1])]);
      }
    }
  }

  /** A `|` after plain tokens passes every later token to the piped command, which
      is parsed on its own, and ends the first command's arguments. */
  lemma {:induction false} PipeSplitsLine(pre: seq<string>, post: seq<string>, args: seq<string>, redirects: seq<Option<string>>)
    requires |redirects| == 3 && forall i :: 0 <= i < |pre| ==> IsPlain(pre[i])
    ensures Gather(pre + ["|"] + post, args, redirects) ==
              Gathered(args + Unquoted(pre), redirects, Some(ParseTokens(post)))
    decreases |pre|
  {
    var ts := pre + ["|"] + post;
    if pre == [] {
      assert ts[1..] == post;
    } else {
      var u := Unquote(pre[0]);
      assert ts[1..] == pre[1..] + ["|"] + post;
      PipeSplitsLine(pre[1..], post, args + [u], redirects);
      UnquotedCons(pre);
      AppendAssoc(args, [u], Unquoted(pre[1..]));
    }
  }

  lemma UnquotedCons(ts: seq<string>)
    requires ts != []
    ensures Unquoted(ts) == [Unquote(ts[0])] + Unquoted(ts[1..])
  {
  }

  lemma AppendAssoc<T>(a: seq<T>, b: seq<T>, c: seq<T>)
    ensures a + b + c == a + (b + c)
  {
  }
}

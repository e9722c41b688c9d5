/** f2b_cmd_create and f2b_cmd_parse: tokens are cut in place, then a chain of comparisons. */
module CommandParser {
  import opened Text
  import opened Buffers
  import opened Commands

  /** From the given place on, the memory still holds the text and its terminator. */
  ghost predicate Holds(data: array<char>, src: string, from: nat)
    reads data
  {
    from <= |src| < data.Length && data[|src|] == '\0' && forall i :: from <= i < |src| ==> data[i] == src[i]
  }

  /** A token of the text that has been cut out in place. */
  ghost predicate Cut(data: array<char>, start: nat, token: string)
    reads data
  {
    && start + |token| < data.Length && data[start + |token|] == '\0'
    && forall i :: 0 <= i < |token| ==> data[start + i] == token[i]
  }

  // --- what a scan over the text means for its tokens ---

  lemma {:induction false} BlanksSkipped(s: string, n: nat)
    requires n <= |s| && forall i :: 0 <= i < n ==> IsBlank(s[i])
    ensures Tokens(s) == Tokens(s[n..])
  {
    if n == 0 {
      assert s[n..] == s;
    } else {
      assert s[1..][n - 1..] == s[n..];
      BlanksSkipped(s[1..], n - 1);
      TokensSkip(s);
    }
  }

  lemma NoMoreTokens(src: string, from: nat)
    requires from <= |src| && forall i :: from <= i < |src| ==> IsBlank(src[i])
    ensures Tokens(src[from..]) == []
  {
    var s := src[from..];
    BlanksSkipped(s, |s|);
    assert s[|s|..] == "";
  }

  lemma OneMoreToken(src: string, from: nat, k: nat, n: nat)
    requires from <= k < n <= |src|
    requires forall i :: from <= i < k ==> IsBlank(src[i])
    requires forall i :: k <= i < n ==> !IsBlank(src[i])
    requires n < |src| ==> IsBlank(src[n])
    ensures var save := if n < |src| then n + 1 else n;
            Tokens(src[from..]) == [src[k..n]] + Tokens(src[save..])
  {
    hide Tokens;
    var s := src[from..];
    BlanksSkipped(s, k - from);
    assert s[k - from..] == src[k..n] + src[n..];
    TokensFront(src[k..n], src[n..]);
    if n < |src| {
      TokensSkip(src[n..]);
      assert src[n..][1..] == src[n + 1..];
    }
  }

  /** The span of blanks, or of anything else, that the scan of strtok_r passes. */
  method Scan(data: array<char>, from: nat, blanks: bool, ghost src: string) returns (k: nat)
    requires NulFree(src) && Holds(data, src, from)
    ensures from <= k <= |src| && forall i :: from <= i < k ==> IsBlank(src[i]) == blanks
    ensures k < |src| ==> IsBlank(src[k]) != blanks
  {
    k := from;
    while data[k] != '\0' && IsBlank(data[k]) == blanks
      invariant from <= k <= |src| && forall i :: from <= i < k ==> IsBlank(src[i]) == blanks
      decreases |src| - k
    {
      k := k + 1;
    }
  }

  /** strtok_r: where the next token starts, and where to go on. */
  method NextToken(data: array<char>, from: nat, ghost src: string)
    returns (start: Option<nat>, save: nat, ghost token: string)
    requires NulFree(src) && Holds(data, src, from)
    modifies data
    ensures Holds(data, src, save) && from <= save
    ensures forall i :: 0 <= i < from ==> data[i] == old(data[i])
    ensures match start
            case None => Tokens(src[from..]) == [] && save == |src|
            case Some(k) =>
              && from <= k && k + |token| <= |src| && Cut(data, k, token) && NulFree(token)
              && (k + |token| < save || save == |src|)
              && Tokens(src[from..]) == [token] + Tokens(src[save..])
    ensures from == |src| ==> data[..] == old(data[..])
  {
    hide Tokens;
    var k := Scan(data, from, true, src);
    if data[k] == '\0' {
      NoMoreTokens(src, from);
      return None, k, "";
    }
    var n := Scan(data, k, false, src);
    OneMoreToken(src, from, k, n);
    start := Some(k);
    token := src[k..n];
    if data[n] == '\0' {
      save := n;
    } else {
      data[n] := '\0';
      save := n + 1;
    }
  }

  lemma FirstToken(src: string)
    requires src != "" && !IsBlank(src[0])
    ensures Tokens(src) != []
  {}

  /** The tokens of the text, at most MAX_TOKENS of them. */
  method Tokenize(data: array<char>, ghost src: string) returns (args: seq<string>)
    requires NulFree(src) && Holds(data, src, 0) && src != "" && !IsBlank(src[0])
    modifies data
    ensures args == Tokens(src)[..Min(|Tokens(src)|, MAX_TOKENS)] && |args| > 0
  {
    hide Tokens, CString;
    var starts: seq<nat> := [];
    ghost var tokens: seq<string> := [];
    var save := 0;
    assert src[0..] == src;
    FirstToken(src);
    while |starts| < MAX_TOKENS
      invariant |starts| == |tokens| <= MAX_TOKENS && Holds(data, src, save)
      invariant Tokens(src) == tokens + Tokens(src[save..])
      invariant forall j :: 0 <= j < |starts| ==> NulFree(tokens[j]) && Cut(data, starts[j], tokens[j])
      invariant forall j :: 0 <= j < |starts| ==> starts[j] + |tokens[j]| < save || save == |src|
    {
      var start;
      ghost var token;
      start, save, token := NextToken(data, save, src);
      if start.None? {
        break;
      }
      starts := starts + [start.value];
      tokens := tokens + [token];
    }
    args := Texts(data, starts, tokens);
  }

  /** The C strings that the argument pointers point to. */
  method Texts(data: array<char>, starts: seq<nat>, ghost tokens: seq<string>) returns (args: seq<string>)
    requires |starts| == |tokens|
    requires forall j :: 0 <= j < |starts| ==> NulFree(tokens[j]) && Cut(data, starts[j], tokens[j])
    ensures args == tokens
  {
    hide CString;
    args := [];
    for j := 0 to |starts|
      invariant args == tokens[..j]
    {
      var s := data[starts[j]..];
      assert s[..|tokens[j]|] == tokens[j];
      CStringPrefix(s, |tokens[j]|);
      args := args + [CString(s)];
    }
  }

  // --- the chain of comparisons ---

  /** What the chain asks of the tokens, kind by kind. */
  predicate Test(k: Kind, args: seq<string>) {
    match k
    case CmdHelp => false
    case CmdStatus => false
    case CmdReload => false
    case CmdShutdown => false
    case CmdAuth => |args| == 3 && args[0] == Spelling(Auth) && AuthTypeKnown(args[1])
    case CmdLogRotate => |args| == 2 && args[0] == Spelling(Log) && args[1] == Spelling(Rotate)
    case CmdLogLevel => |args| == 3 && args[0] == Spelling(Log) && args[1] == Spelling(Level)
    case CmdLogEvents => |args| == 3 && args[0] == Spelling(Log) && args[1] == Spelling(Events)
    case CmdJailStatus => |args| == 3 && args[0] == Spelling(Jail) && args[2] == Spelling(Status)
    case CmdJailSet => |args| == 5 && args[0] == Spelling(Jail) && args[2] == Spelling(Set)
    case CmdJailIpStatus => |args| == 5 && args[0] == Spelling(Jail) && args[2] == Spelling(Ip) && args[3] == Spelling(Status)
    case CmdJailIpBan => |args| == 5 && args[0] == Spelling(Jail) && args[2] == Spelling(Ip) && args[3] == Spelling(Ban)
    case CmdJailIpRelease => |args| == 5 && args[0] == Spelling(Jail) && args[2] == Spelling(Ip) && args[3] == Spelling(Release)
    case CmdJailSourceStats => |args| == 4 && args[0] == Spelling(Jail) && args[2] == Spelling(Source) && args[3] == Spelling(Stats)
    case CmdJailFilterStats => |args| == 4 && args[0] == Spelling(Jail) && args[2] == Spelling(Filter) && args[3] == Spelling(Stats)
    case CmdJailFilterReload => |args| == 4 && args[0] == Spelling(Jail) && args[2] == Spelling(Filter) && args[3] == Spelling(Reload)
  }

  lemma PhraseTest(k: Kind, args: seq<string>)
    ensures Phrase(k, args) <==> Test(k, args)
  {
    hide Spelling, AuthTypeKnown;
    var row := Row(k);
    if |args| == |row| > 1 {
      assert RowFits(row, args) ==> Fits(row[0], args[0]) && Fits(row[1], args[1]);
      if |row| > 2 { assert RowFits(row, args) ==> Fits(row[2], args[2]); }
      if |row| > 3 { assert RowFits(row, args) ==> Fits(row[3], args[3]); }
    }
  }

  /** The kinds of the commands that start with the given word. */
  predicate StartsWith(k: Kind, w: Keyword) {
    match k
    case CmdHelp => w == Help
    case CmdStatus => w == Status
    case CmdReload => w == Reload
    case CmdShutdown => w == Shutdown
    case CmdAuth => w == Auth
    case CmdLogRotate => w == Log
    case CmdLogLevel => w == Log
    case CmdLogEvents => w == Log
    case CmdJailStatus => w == Jail
    case CmdJailSet => w == Jail
    case CmdJailIpStatus => w == Jail
    case CmdJailIpBan => w == Jail
    case CmdJailIpRelease => w == Jail
    case CmdJailSourceStats => w == Jail
    case CmdJailFilterStats => w == Jail
    case CmdJailFilterReload => w == Jail
  }

  method JailCommand(args: seq<string>) returns (kind: Option<Kind>)
    requires |args| > 1 && args[0] == Spelling(Jail)
    ensures kind.Some? ==> Test(kind.value, args)
    ensures kind.None? ==> forall k :: StartsWith(k, Jail) ==> !Test(k, args)
  {
    hide Spelling;
    if |args| == 3 && args[2] == Spelling(Status) { return Some(CmdJailStatus); }
    if |args| == 5 && args[2] == Spelling(Set) { return Some(CmdJailSet); }
    if |args| == 5 && args[2] == Spelling(Ip) && args[3] == Spelling(Status) { return Some(CmdJailIpStatus); }
    if |args| == 5 && args[2] == Spelling(Ip) && args[3] == Spelling(Ban) { return Some(CmdJailIpBan); }
    if |args| == 5 && args[2] == Spelling(Ip) && args[3] == Spelling(Release) { return Some(CmdJailIpRelease); }
    if |args| == 4 && args[2] == Spelling(Source) && args[3] == Spelling(Stats) { return Some(CmdJailSourceStats); }
    if |args| == 4 && args[2] == Spelling(Filter) && args[3] == Spelling(Stats) { return Some(CmdJailFilterStats); }
    if |args| == 4 && args[2] == Spelling(Filter) && args[3] == Spelling(Reload) { return Some(CmdJailFilterReload); }
    return None;
  }

  method Classify(args: seq<string>) returns (kind: Option<Kind>)
    requires |args| > 0
    ensures kind.Some? ==> Phrase(kind.value, args)
    ensures kind.None? ==> forall k :: !Phrase(k, args)
  {
    hide Spelling, Phrase, AuthTypeKnown;
    kind := None;
    if args[0] == Spelling(Jail) && |args| > 1 {
      kind := JailCommand(args);
    } else if args[0] == Spelling(Auth) && |args| > 1 {
      if |args| == 3 && AuthTypeKnown(args[1]) { kind := Some(CmdAuth); }
    } else if args[0] == Spelling(Log) && |args| > 1 {
      if |args| == 2 && args[1] == Spelling(Rotate) { kind := Some(CmdLogRotate); }
      else if |args| == 3 && args[1] == Spelling(Level) { kind := Some(CmdLogLevel); }
      else if |args| == 3 && args[1] == Spelling(Events) { kind := Some(CmdLogEvents); }
    }
    if kind.Some? {
      PhraseTest(kind.value, args);
    } else {
      SpellingsDiffer(Jail, Auth);
      SpellingsDiffer(Jail, Log);
      SpellingsDiffer(Auth, Log);
      forall k ensures !Phrase(k, args) {
        PhraseTest(k, args);
      }
    }
  }

  // --- a whole line ---

  lemma Truncated(k: Kind, tokens: seq<string>)
    ensures Phrase(k, tokens) <==> Phrase(k, tokens[..Min(|tokens|, MAX_TOKENS)])
  {
    SingleRow(k);
    hide Row, Spelling;
    if |tokens| <= MAX_TOKENS { assert tokens[..|tokens|] == tokens; }
  }

  lemma PhraseAccepted(k: Kind, src: string)
    ensures Phrase(k, Tokens(src)) ==> Accepts(k, src) && ArgsOf(k, src) == Tokens(src) && |Tokens(src)| < MAX_TOKENS
    ensures Accepts(k, src) ==> |Row(k)| == 1 || Phrase(k, Tokens(src))
  {
    SingleRow(k);
    hide Row, Spelling, Tokens;
  }

  /** f2b_cmd_parse of a text without blanks in front. */
  method Parse(src: string) returns (cmd: Option<Command>)
    requires NulFree(src) && src != "" && !IsBlank(src[0])
    ensures cmd.Some? ==> Accepts(cmd.value.kind, src) && cmd.value.args == ArgsOf(cmd.value.kind, src)
    ensures cmd.None? ==> forall k :: !Accepts(k, src)
  {
    hide Spelling, Phrase, Tokens, CString;
    if src == Spelling(Help) { return Some(Command(CmdHelp, [src])); }
    if src == Spelling(Status) { return Some(Command(CmdStatus, [src])); }
    if src == Spelling(Reload) { return Some(Command(CmdReload, [src])); }
    if src == Spelling(Shutdown) { return Some(Command(CmdShutdown, [src])); }
    var data := new Buf(|src| + 1);
    CStringOf(src);
    var _ := data.Append(src, 0);
    var args := Tokenize(data.data, src);
    forall k ensures Phrase(k, Tokens(src)) <==> Phrase(k, args) { Truncated(k, Tokens(src)); }
    var kind := Classify(args);
    match kind
    case None => cmd := None;
    case Some(k) =>
      PhraseAccepted(k, src);
      cmd := Some(Command(k, args));
  }

  /** f2b_cmd_create */
  method Create(line: string) returns (cmd: Option<Command>)
    requires NulFree(line)
    ensures cmd == Parsed(line)
  {
    hide Accepts, ArgsOf;
    var src := line;
    while src != "" && IsSpace(src[0])
      invariant NulFree(src) && SkipSpaces(src) == SkipSpaces(line)
      decreases |src|
    {
      src := src[1..];
    }
    assert SkipSpaces(line) == src;
    hide SkipSpaces;
    if src == "" {
      forall k ensures !Accepts(k, "") { NothingAccepted(k); }
      return None;
    }
    cmd := Parse(src);
    if cmd.Some? { ParsedIs(line, cmd.value.kind); }
  }

  lemma NothingAccepted(k: Kind)
    ensures !Accepts(k, "")
  {
    if Accepts(k, "") {
      AcceptedLength(k, "");
      SingleRow(k);
    }
    hide Row, Accepts;
  }
}

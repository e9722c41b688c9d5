/** The control commands (commands.c): what the table says, and how a line is recognized. */
module Commands {
  import opened Text

  datatype Keyword =
    | Help | Status | Reload | Shutdown | Auth | Plain | Challenge | Log | Rotate | Level | Events
    | Jail | Set | Ip | Ban | Release | Source | Stats | Filter

  function Spelling(w: Keyword): string {
    match w
    case Help => "help"
    case Status => "status"
    case Reload => "reload"
    case Shutdown => "shutdown"
    case Auth => "auth"
    case Plain => "plain"
    case Challenge => "challenge"
    case Log => "log"
    case Rotate => "rotate"
    case Level => "level"
    case Events => "events"
    case Jail => "jail"
    case Set => "set"
    case Ip => "ip"
    case Ban => "ban"
    case Release => "release"
    case Source => "source"
    case Stats => "stats"
    case Filter => "filter"
  }

  datatype Kind =
    | CmdHelp | CmdAuth | CmdStatus | CmdReload | CmdShutdown
    | CmdLogRotate | CmdLogLevel | CmdLogEvents
    | CmdJailStatus | CmdJailSet | CmdJailIpStatus | CmdJailIpBan | CmdJailIpRelease
    | CmdJailSourceStats | CmdJailFilterStats | CmdJailFilterReload

  /** A token of a table row: a word, or a placeholder for any token. */
  datatype Slot = Fixed(word: Keyword) | Any

  const MAX_TOKENS := 6

  /** The row of the command table for each kind of command. */
  function Row(k: Kind): seq<Slot> {
    match k
    case CmdHelp => [Fixed(Help)]
    case CmdAuth => [Fixed(Auth), Any, Any]
    case CmdStatus => [Fixed(Status)]
    case CmdReload => [Fixed(Reload)]
    case CmdShutdown => [Fixed(Shutdown)]
    case CmdLogRotate => [Fixed(Log), Fixed(Rotate)]
    case CmdLogLevel => [Fixed(Log), Fixed(Level), Any]
    case CmdLogEvents => [Fixed(Log), Fixed(Events), Any]
    case CmdJailStatus => [Fixed(Jail), Any, Fixed(Status)]
    case CmdJailSet => [Fixed(Jail), Any, Fixed(Set), Any, Any]
    case CmdJailIpStatus => [Fixed(Jail), Any, Fixed(Ip), Fixed(Status), Any]
    case CmdJailIpBan => [Fixed(Jail), Any, Fixed(Ip), Fixed(Ban), Any]
    case CmdJailIpRelease => [Fixed(Jail), Any, Fixed(Ip), Fixed(Release), Any]
    case CmdJailSourceStats => [Fixed(Jail), Any, Fixed(Source), Fixed(Stats)]
    case CmdJailFilterStats => [Fixed(Jail), Any, Fixed(Filter), Fixed(Stats)]
    case CmdJailFilterReload => [Fixed(Jail), Any, Fixed(Filter), Fixed(Reload)]
  }

  // --- tokens ---

  function TokenLen(s: string): (n: nat)
    ensures n <= |s|
  {
    if s == "" || IsBlank(s[0]) then 0 else 1 + TokenLen(s[1..])
  }

  function Tokens(s: string): seq<string>
    decreases |s|
  {
    SkipBlanksEnds(s);
    var p := SkipBlanks(s);
    if p == "" then [] else [p[..TokenLen(p)]] + Tokens(p[TokenLen(p)..])
  }

  // --- the language of the table ---

  predicate Fits(slot: Slot, token: string) {
    slot.Any? || token == Spelling(slot.word)
  }

  predicate RowFits(row: seq<Slot>, tokens: seq<string>) {
    |tokens| == |row| && forall i :: 0 <= i < |row| ==> Fits(row[i], tokens[i])
  }

  /** The types of authorization that the help text of the table offers. */
  predicate AuthTypeKnown(token: string) {
    token == Spelling(Plain) || token == Spelling(Challenge)
  }

  /** The tokens of a command of more than one word. */
  predicate Phrase(k: Kind, tokens: seq<string>) {
    |Row(k)| > 1 && RowFits(Row(k), tokens) && (k == CmdAuth ==> AuthTypeKnown(tokens[1]))
  }

  /** A line, stripped of leading blanks, that is a command of the given kind. */
  predicate Accepts(k: Kind, src: string) {
    if |Row(k)| == 1 then src == Spelling(Row(k)[0].word) else Phrase(k, Tokens(src))
  }

  datatype Command = Command(kind: Kind, args: seq<string>)

  function ArgsOf(k: Kind, src: string): seq<string> {
    if |Row(k)| == 1 then [src] else Tokens(src)
  }

  /** The command that a line stands for. */
  ghost function Parsed(line: string): Option<Command> {
    var src := SkipSpaces(line);
    if k :| Accepts(k, src) then Some(Command(k, ArgsOf(k, src))) else None
  }

  // --- words ---

  /** Length, first and last letter of a word; together they tell all words apart. */
  function Shape(w: Keyword): (int, char, char) {
    match w
    case Help => (4, 'h', 'p')
    case Status => (6, 's', 's')
    case Reload => (6, 'r', 'd')
    case Shutdown => (8, 's', 'n')
    case Auth => (4, 'a', 'h')
    case Plain => (5, 'p', 'n')
    case Challenge => (9, 'c', 'e')
    case Log => (3, 'l', 'g')
    case Rotate => (6, 'r', 'e')
    case Level => (5, 'l', 'l')
    case Events => (6, 'e', 's')
    case Jail => (4, 'j', 'l')
    case Set => (3, 's', 't')
    case Ip => (2, 'i', 'p')
    case Ban => (3, 'b', 'n')
    case Release => (7, 'r', 'e')
    case Source => (6, 's', 'e')
    case Stats => (5, 's', 's')
    case Filter => (6, 'f', 'r')
  }

  lemma Spelled(w: Keyword)
    ensures var s := Spelling(w); |s| > 0 && Shape(w) == (|s|, s[0], s[|s| - 1])
    ensures forall i :: 0 <= i < |Spelling(w)| ==> 'a' <= Spelling(w)[i] <= 'z'
  {}

  lemma ShapesDiffer(v: Keyword, w: Keyword)
    ensures Shape(v) == Shape(w) ==> v == w
  {}

  lemma SpellingsDiffer(v: Keyword, w: Keyword)
    ensures Spelling(v) == Spelling(w) ==> v == w
  {
    hide *;
    Spelled(v);
    Spelled(w);
    ShapesDiffer(v, w);
  }

  // --- tokens of a text ---

  /** A token as strtok_r cuts it. */
  ghost predicate IsToken(t: string) {
    t != "" && forall i :: 0 <= i < |t| ==> !IsBlank(t[i])
  }

  lemma {:induction false} TokenLenStops(s: string)
    ensures var n := TokenLen(s);
            && (forall i :: 0 <= i < n ==> !IsBlank(s[i]))
            && (n < |s| ==> IsBlank(s[n]))
  {
    if s != "" && !IsBlank(s[0]) { TokenLenStops(s[1..]); }
  }

  lemma {:induction false} TokensAreTokens(s: string)
    ensures forall t :: t in Tokens(s) ==> IsToken(t)
    decreases |s|
  {
    SkipBlanksEnds(s);
    var p := SkipBlanks(s);
    if p != "" {
      TokenLenStops(p);
      TokensAreTokens(p[TokenLen(p)..]);
    }
  }

  lemma {:induction false} TokenLenOf(t: string, rest: string)
    requires (forall i :: 0 <= i < |t| ==> !IsBlank(t[i])) && (rest == "" || IsBlank(rest[0]))
    ensures TokenLen(t + rest) == |t|
  {
    if t == "" {
      assert t + rest == rest;
    } else {
      TokenLenOf(t[1..], rest);
      assert (t + rest)[1..] == t[1..] + rest;
    }
  }

  /** The tokens of a text that starts with a token. */
  lemma TokensFront(t: string, rest: string)
    requires IsToken(t) && (rest == "" || IsBlank(rest[0]))
    ensures Tokens(t + rest) == [t] + Tokens(rest)
  {
    TokenLenOf(t, rest);
    assert SkipBlanks(t + rest) == t + rest;
    assert (t + rest)[..|t|] == t && (t + rest)[|t|..] == rest;
  }

  lemma TokensSkip(s: string)
    requires s != "" && IsBlank(s[0])
    ensures Tokens(s) == Tokens(s[1..])
  {}

  lemma TokensOfWord(t: string)
    requires IsToken(t)
    ensures Tokens(t) == [t]
  {
    TokensFront(t, "");
    assert t + "" == t;
  }

  /** The tokens again as one line, with single blanks between. */
  function Render(tokens: seq<string>): string {
    if tokens == [] then ""
    else if |tokens| == 1 then tokens[0]
    else tokens[0] + ([' '] + Render(tokens[1..]))
  }

  lemma {:induction false} TokensOfRendered(tokens: seq<string>)
    requires forall t :: t in tokens ==> IsToken(t)
    ensures Tokens(Render(tokens)) == tokens
  {
    if |tokens| == 1 {
      TokensOfWord(tokens[0]);
    } else if |tokens| > 1 {
      TokensOfRendered(tokens[1..]);
      var rest := [' '] + Render(tokens[1..]);
      assert rest[1..] == Render(tokens[1..]);
      TokensSkip(rest);
      TokensFront(tokens[0], rest);
    }
  }

  // --- rows do not overlap ---

  /** Two slots that one token can fit. */
  predicate Agree(a: Slot, b: Slot) { a.Any? || b.Any? || a == b }

  lemma FitsBoth(a: Slot, b: Slot, token: string)
    requires Fits(a, token) && Fits(b, token)
    ensures Agree(a, b)
  {
    if a.Fixed? && b.Fixed? { SpellingsDiffer(a.word, b.word); }
    hide Spelling;
  }

  lemma RowsClash(j: Kind, k: Kind)
    requires |Row(j)| == |Row(k)| > 1
    requires forall i :: 0 <= i < |Row(j)| ==> Agree(Row(j)[i], Row(k)[i])
    ensures j == k
  {
    assert Agree(Row(j)[0], Row(k)[0]) && Agree(Row(j)[1], Row(k)[1]);
    if |Row(j)| > 2 { assert Agree(Row(j)[2], Row(k)[2]); }
    if |Row(j)| > 3 { assert Agree(Row(j)[3], Row(k)[3]); }
  }

  /** No token list fits two rows. */
  lemma PhrasesDisjoint(j: Kind, k: Kind, tokens: seq<string>)
    requires Phrase(j, tokens) && Phrase(k, tokens)
    ensures j == k
  {
    forall i | 0 <= i < |tokens| ensures Agree(Row(j)[i], Row(k)[i]) {
      FitsBoth(Row(j)[i], Row(k)[i], tokens[i]);
    }
    hide *;
    hide Spelling, AuthTypeKnown, Row;
    RowsClash(j, k);
  }

  lemma SpellingIsToken(w: Keyword)
    ensures IsToken(Spelling(w)) && Tokens(Spelling(w)) == [Spelling(w)]
  {
    Spelled(w);
    hide Spelling;
    TokensOfWord(Spelling(w));
  }

  lemma SingleRow(k: Kind)
    ensures |Row(k)| > 0 && Row(k)[0].Fixed? && |Row(k)| < MAX_TOKENS
  {}

  lemma SingleRowsDiffer(j: Kind, k: Kind)
    requires |Row(j)| == |Row(k)| == 1 && Row(j) == Row(k)
    ensures j == k
  {}

  /** The tokens of an accepted line are as many as its row has. */
  lemma AcceptedLength(k: Kind, src: string)
    requires Accepts(k, src)
    ensures |Tokens(src)| == |Row(k)| < MAX_TOKENS
  {
    SingleRow(k);
    if |Row(k)| == 1 { SpellingIsToken(Row(k)[0].word); }
    hide Row, Spelling, Tokens;
  }

  /** Lines of six or more tokens are not commands. */
  lemma TooManyTokens(k: Kind, src: string)
    requires |Tokens(src)| >= MAX_TOKENS
    ensures !Accepts(k, src)
  {
    if Accepts(k, src) { AcceptedLength(k, src); }
  }

  /** No line is a command of two kinds. */
  lemma RowsDisjoint(j: Kind, k: Kind, src: string)
    requires Accepts(j, src) && Accepts(k, src)
    ensures j == k
  {
    AcceptedLength(j, src);
    AcceptedLength(k, src);
    SingleRow(j);
    SingleRow(k);
    if |Row(j)| == 1 {
      SpellingsDiffer(Row(j)[0].word, Row(k)[0].word);
      assert Row(j) == [Row(j)[0]] && Row(k) == [Row(k)[0]];
      SingleRowsDiffer(j, k);
    } else {
      PhrasesDisjoint(j, k, Tokens(src));
    }
    hide Row, Spelling, Tokens;
  }

  lemma ParsedIs(line: string, k: Kind)
    requires Accepts(k, SkipSpaces(line))
    ensures Parsed(line) == Some(Command(k, ArgsOf(k, SkipSpaces(line))))
  {
    hide Accepts, ArgsOf, SkipSpaces;
    forall j | Accepts(j, SkipSpaces(line)) ensures j == k { RowsDisjoint(j, k, SkipSpaces(line)); }
  }

  // --- the table in words ---

  /** What a line says, word by word, if it stands for the command. */
  ghost predicate InWords(line: string, cmd: Command) {
    var src := SkipSpaces(line);
    var t := Tokens(src);
    match cmd.kind
    case CmdHelp => src == "help" && cmd.args == [src]
    case CmdStatus => src == "status" && cmd.args == [src]
    case CmdReload => src == "reload" && cmd.args == [src]
    case CmdShutdown => src == "shutdown" && cmd.args == [src]
    case CmdAuth => cmd.args == t && |t| == 3 && t[0] == "auth" && (t[1] == "plain" || t[1] == "challenge")
    case CmdLogRotate => cmd.args == t == ["log", "rotate"]
    case CmdLogLevel => cmd.args == t && |t| == 3 && t[0] == "log" && t[1] == "level"
    case CmdLogEvents => cmd.args == t && |t| == 3 && t[0] == "log" && t[1] == "events"
    case CmdJailStatus => cmd.args == t && |t| == 3 && t[0] == "jail" && t[2] == "status"
    case CmdJailSet => cmd.args == t && |t| == 5 && t[0] == "jail" && t[2] == "set"
    case CmdJailIpStatus => cmd.args == t && |t| == 5 && t[0] == "jail" && t[2] == "ip" && t[3] == "status"
    case CmdJailIpBan => cmd.args == t && |t| == 5 && t[0] == "jail" && t[2] == "ip" && t[3] == "ban"
    case CmdJailIpRelease => cmd.args == t && |t| == 5 && t[0] == "jail" && t[2] == "ip" && t[3] == "release"
    case CmdJailSourceStats => cmd.args == t && |t| == 4 && t[0] == "jail" && t[2] == "source" && t[3] == "stats"
    case CmdJailFilterStats => cmd.args == t && |t| == 4 && t[0] == "jail" && t[2] == "filter" && t[3] == "stats"
    case CmdJailFilterReload => cmd.args == t && |t| == 4 && t[0] == "jail" && t[2] == "filter" && t[3] == "reload"
  }

  lemma WordsSpelled()
    ensures Spelling(Help) == "help" && Spelling(Status) == "status" && Spelling(Reload) == "reload"
    ensures Spelling(Shutdown) == "shutdown" && Spelling(Auth) == "auth" && Spelling(Plain) == "plain"
    ensures Spelling(Challenge) == "challenge" && Spelling(Log) == "log" && Spelling(Rotate) == "rotate"
    ensures Spelling(Level) == "level" && Spelling(Events) == "events" && Spelling(Jail) == "jail"
    ensures Spelling(Set) == "set" && Spelling(Ip) == "ip" && Spelling(Ban) == "ban"
    ensures Spelling(Release) == "release" && Spelling(Source) == "source" && Spelling(Stats) == "stats"
    ensures Spelling(Filter) == "filter"
  {}

  lemma RowOfKind(k: Kind, t: seq<string>)
    requires |Row(k)| > 1
    ensures RowFits(Row(k), t)
       <==> && |t| == |Row(k)| && Fits(Row(k)[0], t[0]) && Fits(Row(k)[1], t[1])
            && (|t| > 2 ==> Fits(Row(k)[2], t[2])) && (|t| > 3 ==> Fits(Row(k)[3], t[3]))
            && (|t| > 4 ==> Fits(Row(k)[4], t[4]))
  {
    hide Fits, Row;
    RowLength(k);
  }

  lemma RowLength(k: Kind)
    ensures |Row(k)| <= 5
  {}

  predicate AcceptedAs(line: string, cmd: Command) {
    Accepts(cmd.kind, SkipSpaces(line)) && cmd.args == ArgsOf(cmd.kind, SkipSpaces(line))
  }

  lemma WordInWords(line: string, cmd: Command)
    requires |Row(cmd.kind)| == 1
    ensures AcceptedAs(line, cmd) <==> InWords(line, cmd)
  {
    WordsSpelled();
    hide SkipSpaces, Tokens, Spelling, Phrase;
  }

  lemma PhraseInWords(line: string, cmd: Command)
    requires |Row(cmd.kind)| > 1
    ensures AcceptedAs(line, cmd) <==> InWords(line, cmd)
  {
    WordsSpelled();
    RowOfKind(cmd.kind, Tokens(SkipSpaces(line)));
    hide SkipSpaces, Tokens, Spelling, RowFits;
  }

  /** A line stands for a command exactly if it says so in words. */
  lemma ParsedInWords(line: string, cmd: Command)
    ensures Parsed(line) == Some(cmd) <==> InWords(line, cmd)
  {
    if |Row(cmd.kind)| == 1 { WordInWords(line, cmd); } else { SingleRow(cmd.kind); PhraseInWords(line, cmd); }
    hide Accepts, ArgsOf, SkipSpaces, InWords, Row;
    if Accepts(cmd.kind, SkipSpaces(line)) { ParsedIs(line, cmd.kind); }
  }

  // --- a command rendered and read again ---

  lemma {:induction false} SpacesSkipped(line: string)
    ensures var src := SkipSpaces(line); SkipSpaces(src) == src && (src != "" ==> !IsSpace(src[0]))
  {
    if line != "" && IsSpace(line[0]) { SpacesSkipped(line[1..]); }
  }

  lemma RenderFront(tokens: seq<string>)
    requires tokens != [] && IsToken(tokens[0])
    ensures Render(tokens) != "" && Render(tokens)[0] == tokens[0][0]
  {}

  lemma AcceptedStart(k: Kind, src: string)
    requires Accepts(k, src)
    ensures var args := ArgsOf(k, src); |args| == |Row(k)| > 0 && args[0] == Spelling(Row(k)[0].word)
  {
    SingleRow(k);
    hide Row, Spelling, Tokens;
    if |Row(k)| > 1 { assert Fits(Row(k)[0], Tokens(src)[0]); }
  }

  lemma RenderedAccepted(k: Kind, src: string)
    requires Accepts(k, src)
    ensures var text := Render(ArgsOf(k, src)); Accepts(k, text) && ArgsOf(k, text) == ArgsOf(k, src)
  {
    hide Row, Spelling, Tokens;
    SingleRow(k);
    TokensAreTokens(src);
    if |Row(k)| > 1 {
      hide Render;
      TokensOfRendered(Tokens(src));
    }
  }

  /** A command rendered with single blanks is the same command. */
  lemma RenderThenParse(line: string)
    requires Parsed(line).Some?
    ensures Parsed(Render(Parsed(line).value.args)) == Parsed(line)
  {
    hide Row, Spelling, Tokens, Render, ArgsOf, Accepts, SkipSpaces, IsToken;
    var src := SkipSpaces(line);
    var k := Parsed(line).value.kind;
    var args := ArgsOf(k, src);
    RenderedAccepted(k, src);
    AcceptedStart(k, src);
    SingleRow(k);
    Spelled(Row(k)[0].word);
    SpellingIsToken(Row(k)[0].word);
    RenderFront(args);
    NoSpacesInFront(Render(args));
    ParsedIs(Render(args), k);
    ParsedIs(line, k);
  }

  lemma NoSpacesInFront(s: string)
    requires s != "" && !IsSpace(s[0])
    ensures SkipSpaces(s) == s
  {}
}

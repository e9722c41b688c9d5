/** What one control connection does with its lines (csocket.c): authorization, events, commands. */
module Sessions {
  import opened Bits
  import opened Rfc1321
  import opened Md5Vectors
  import opened Sequences
  import opened Text
  import opened Framing
  import opened Commands

  /** The password, the random text of the n-th challenge, and the answer to the n-th command run. */
  datatype Env = Env(password: string, nonce: nat -> string, answer: nat -> string)

  datatype Session = Session(authOk: bool, events: bool, issued: nat, challenge: string, ran: seq<Command>)

  function Bytes(s: string): seq<Byte> {
    seq(|s|, i requires 0 <= i < |s| => s[i] as int % 256)
  }

  /** MD5 of a text, in hexadecimal digits. */
  function HashText(s: string): string {
    Hex(Digest(Bytes(s)))
  }

  /** A connection as accept leaves it: only a local one is trusted at once. */
  function Accepted(env: Env, local: bool): Session {
    Session(local, false, 1, HashText(env.nonce(0)), [])
  }

  function Reissued(env: Env, s: Session): Session {
    s.(issued := s.issued + 1, challenge := HashText(env.nonce(s.issued)))
  }

  function Refusal(s: Session): string {
    "-unauthorized: " + s.challenge + "\n"
  }

  /** The password itself, or the hash of the challenge in force followed by the password. */
  predicate Proves(env: Env, s: Session, scheme: string, proof: string) {
    || (scheme == Spelling(Plain) && proof == env.password)
    || (scheme == Spelling(Challenge) && proof == HashText(s.challenge + env.password))
  }

  predicate Complete(cmd: Command) { |cmd.args| == |Row(cmd.kind)| }

  lemma ParsedComplete(line: string)
    ensures Parsed(line).Some? ==> Complete(Parsed(line).value)
  {
    if Parsed(line).Some? {
      var k := Parsed(line).value.kind;
      AcceptedStart(k, SkipSpaces(line));
    }
    hide Row, Accepts, ArgsOf, SkipSpaces;
  }

  predicate SwitchedOn(value: string) { value == "on" || value == "yes" || value == "true" }

  function OnAuth(env: Env, s: Session, cmd: Command): (Session, string)
    requires Complete(cmd) && cmd.kind == CmdAuth
  {
    if s.authOk then (s, "+already authorized\n")
    else if Proves(env, s, cmd.args[1], cmd.args[2]) then (s.(authOk := true), "+ok\n")
    else (Reissued(env, s), Refusal(Reissued(env, s)))
  }

  function OnEvents(s: Session, cmd: Command): (Session, string)
    requires Complete(cmd) && cmd.kind == CmdLogEvents
  {
    if SwitchedOn(cmd.args[2]) then (s.(events := true), "+events on\n") else (s.(events := false), "+events off\n")
  }

  /** The session after a command, and what is sent in reply. */
  function OnCommand(env: Env, s: Session, cmd: Command): (Session, string)
    requires Complete(cmd)
  {
    if cmd.kind == CmdAuth then OnAuth(env, s, cmd)
    else if cmd.kind == CmdLogEvents then OnEvents(s, cmd)
    else if s.authOk then (s.(ran := s.ran + [cmd]), env.answer(|s.ran|))
    else (s, Refusal(s))
  }

  function StripReturn(line: string): string {
    if line != "" && line[|line| - 1] == '\r' then line[..|line| - 1] else line
  }

  const UNKNOWN := "-unknown command, try 'help'\n"

  /** The command that an extracted line stands for; an empty line stands for none. */
  ghost function Request(line: string): (r: Option<Command>)
    ensures r.Some? ==> Complete(r.value)
  {
    ParsedComplete(StripReturn(line));
    if line == "" then None else Parsed(StripReturn(line))
  }

  ghost function OnLine(env: Env, s: Session, line: string): (Session, string) {
    if line == "" then (s, "")
    else
      match Request(line)
      case Some(cmd) => OnCommand(env, s, cmd)
      case None => (s, if s.authOk then UNKNOWN else Refusal(s))
  }

  ghost function OnLines(env: Env, s: Session, lines: seq<string>): (Session, string) {
    if lines == [] then (s, "")
    else
      var (s1, sent) := OnLines(env, s, lines[..|lines| - 1]);
      var (s2, reply) := OnLine(env, s1, lines[|lines| - 1]);
      (s2, sent + reply)
  }

  // --- one line ---

  /** A command other than authorization and event switching. */
  predicate ForDaemon(cmd: Command) { cmd.kind != CmdAuth && cmd.kind != CmdLogEvents }

  /** The daemon is called for exactly the other commands of authorized connections. */
  lemma CalledExactly(env: Env, s: Session, line: string, cmd: Command)
    ensures var s' := OnLine(env, s, line).0;
            && (s'.ran == s.ran + [cmd] <==> s.authOk && Request(line) == Some(cmd) && ForDaemon(cmd))
            && (s'.ran == s.ran || exists c :: s'.ran == s.ran + [c])
  {
    hide Proves, HashText, Spelling, Parsed;
    var r := Request(line);
    assert |s.ran + [cmd]| == |s.ran| + 1;
    if r.Some? && s.ran + [cmd] == s.ran + [r.value] {
      assert (s.ran + [cmd])[|s.ran|] == (s.ran + [r.value])[|s.ran|];
    }
  }

  /** The line gives the password in plain, or the hash of the challenge in force and the password. */
  ghost predicate Authorizes(env: Env, s: Session, line: string) {
    var r := Request(line);
    && r.Some? && r.value.kind == CmdAuth
    && var args := r.value.args;
       || (args[1] == "plain" && args[2] == env.password)
       || (args[1] == "challenge" && args[2] == HashText(s.challenge + env.password))
  }

  /** An authorization line that does not prove anything, on a connection not yet authorized. */
  ghost predicate Fails(env: Env, s: Session, line: string) {
    var r := Request(line);
    !s.authOk && r.Some? && r.value.kind == CmdAuth && !Authorizes(env, s, line)
  }

  lemma SchemeNames()
    ensures Spelling(Plain) == "plain" && Spelling(Challenge) == "challenge"
  {}

  lemma LineAuth(env: Env, s: Session, line: string)
    ensures OnLine(env, s, line).0.authOk <==> s.authOk || Authorizes(env, s, line)
  {
    SchemeNames();
    hide HashText, Spelling, Parsed;
  }

  /** The command of a line, with or without the carriage return that telnet puts at its end. */
  lemma RequestOfLine(line: string)
    requires line != "" && line[|line| - 1] != '\r'
    ensures Request(line) == Request(line + "\r") == Parsed(line)
  {
    assert (line + "\r")[..|line|] == line;
    hide Parsed;
  }

  /** What a line is answered and what it changes, when it is no command or one of those that only the
      daemon can answer. */
  lemma OtherReplies(env: Env, s: Session, line: string)
    ensures var (s', reply) := OnLine(env, s, line);
            var r, refusal := Request(line), "-unauthorized: " + s.challenge + "\n";
            && (line == "" ==> s' == s && reply == "")
            && (line != "" && r == None ==>
                 s' == s && reply == if s.authOk then "-unknown command, try 'help'\n" else refusal)
            && (r.Some? && ForDaemon(r.value) && s.authOk ==>
                 s' == s.(ran := s.ran + [r.value]) && reply == env.answer(|s.ran|))
            && (r.Some? && ForDaemon(r.value) && !s.authOk ==> s' == s && reply == refusal)
  {
    hide HashText, Spelling, Parsed, Proves;
  }

  /** Replies to an authorization line, and what it changes. */
  lemma AuthReplies(env: Env, s: Session, line: string)
    requires Request(line).Some? && Request(line).value.kind == CmdAuth
    ensures var (s', reply) := OnLine(env, s, line);
            && (s.authOk ==> s' == s && reply == "+already authorized\n")
            && (!s.authOk && Authorizes(env, s, line) ==> s' == s.(authOk := true) && reply == "+ok\n")
            && (Fails(env, s, line) ==>
                 && s' == s.(issued := s.issued + 1, challenge := HashText(env.nonce(s.issued)))
                 && reply == "-unauthorized: " + HashText(env.nonce(s.issued)) + "\n")
  {
    SchemeNames();
    hide HashText, Spelling, Parsed;
  }

  /** Anyone can switch events, on with three words and off with any other. */
  lemma EventReplies(env: Env, s: Session, line: string)
    requires Request(line).Some? && Request(line).value.kind == CmdLogEvents
    ensures var (s', reply) := OnLine(env, s, line);
            var word := Request(line).value.args[2];
            var on := word == "on" || word == "yes" || word == "true";
            s' == s.(events := on) && reply == if on then "+events on\n" else "+events off\n"
  {
    hide Parsed;
  }

  /** A new connection is trusted exactly if it is local, and has a first challenge. */
  lemma AcceptedFresh(env: Env, local: bool)
    ensures var s := Accepted(env, local);
            (s.authOk <==> local) && !s.events && s.ran == [] && s.issued == 1 && Fresh(env, s)
  {
    hide HashText;
  }

  // --- the hash ---

  /** The bytes that are hashed are the characters. */
  lemma BytesOfText(s: string)
    requires forall i :: 0 <= i < |s| ==> s[i] as int < 256
    ensures |Bytes(s)| == |s| && forall i :: 0 <= i < |s| ==> Bytes(s)[i] == s[i] as int
  {}

  /** RFC 1321, section A.5. */
  lemma KnownHashes()
    ensures HashText("") == "d41d8cd98f00b204e9800998ecf8427e"
    ensures HashText("abc") == "900150983cd24fb0d6963f7d28e17f72"
  {
    assert Bytes("") == [] && Bytes("abc") == [0x61, 0x62, 0x63];
    EmptyDigest();
    AbcDigest();
    hide Hex, Digest;
  }

  lemma LineChallenge(env: Env, s: Session, line: string)
    ensures var s' := OnLine(env, s, line).0;
            if Fails(env, s, line)
            then s'.issued == s.issued + 1 && s'.challenge == HashText(env.nonce(s.issued))
            else s'.issued == s.issued && s'.challenge == s.challenge
  {
    SchemeNames();
    hide HashText, Spelling, Parsed;
  }

  // --- every sequence of lines ---

  lemma OnLinesMore(env: Env, s: Session, lines: seq<string>, line: string)
    ensures OnLines(env, s, lines + [line]).0 == OnLine(env, OnLines(env, s, lines).0, line).0
    ensures OnLines(env, s, lines + [line]).1
         == OnLines(env, s, lines).1 + OnLine(env, OnLines(env, s, lines).0, line).1
  {
    assert (lines + [line])[..|lines|] == lines;
  }

  /** The connection is authorized exactly when it was from the start, or one of the lines proved the
      password against the challenge in force at that line; nothing takes it away. */
  lemma {:induction false} AuthorizedExactly(env: Env, s: Session, lines: seq<string>)
    ensures OnLines(env, s, lines).0.authOk
       <==> s.authOk || exists k :: 0 <= k < |lines| && Authorizes(env, OnLines(env, s, lines[..k]).0, lines[k])
  {
    hide OnLine, Authorizes;
    if lines != [] {
      var init, line := lines[..|lines| - 1], lines[|lines| - 1];
      var s1 := OnLines(env, s, init).0;
      AuthorizedExactly(env, s, init);
      LineAuth(env, s1, line);
      if exists k :: 0 <= k < |init| && Authorizes(env, OnLines(env, s, init[..k]).0, init[k]) {
        var k :| 0 <= k < |init| && Authorizes(env, OnLines(env, s, init[..k]).0, init[k]);
        assert lines[..k] == init[..k] && lines[k] == init[k];
      }
      if exists k :: 0 <= k < |lines| && Authorizes(env, OnLines(env, s, lines[..k]).0, lines[k]) {
        var k :| 0 <= k < |lines| && Authorizes(env, OnLines(env, s, lines[..k]).0, lines[k]);
        if k < |init| { assert lines[..k] == init[..k] && lines[k] == init[k]; }
      }
    }
  }

  ghost function Failures(env: Env, s: Session, lines: seq<string>): nat {
    if lines == [] then 0
    else
      var init, line := lines[..|lines| - 1], lines[|lines| - 1];
      Failures(env, s, init) + if Fails(env, OnLines(env, s, init).0, line) then 1 else 0
  }

  /** The challenge in force is always the hash of the latest random text. */
  ghost predicate Fresh(env: Env, s: Session) {
    s.issued > 0 && s.challenge == HashText(env.nonce(s.issued - 1))
  }

  /** One new challenge for each failed attempt, and none otherwise. */
  lemma {:induction false} ChallengePerFailure(env: Env, s: Session, lines: seq<string>)
    requires Fresh(env, s)
    ensures var s' := OnLines(env, s, lines).0; Fresh(env, s') && s'.issued == s.issued + Failures(env, s, lines)
  {
    hide OnLine, Fails, HashText;
    if lines != [] {
      var init, line := lines[..|lines| - 1], lines[|lines| - 1];
      ChallengePerFailure(env, s, init);
      LineChallenge(env, OnLines(env, s, init).0, line);
    }
  }

  /** The commands for the daemon among some lines, in order. */
  ghost function Requests(lines: seq<string>): seq<Command> {
    if lines == [] then []
    else
      var r := Request(lines[|lines| - 1]);
      Requests(lines[..|lines| - 1]) + if r.Some? && ForDaemon(r.value) then [r.value] else []
  }

  lemma LineRuns(env: Env, s: Session, line: string)
    ensures var r := Request(line);
            OnLine(env, s, line).0.ran == s.ran + if s.authOk && r.Some? && ForDaemon(r.value) then [r.value] else []
  {
    hide HashText, Spelling, Parsed, Proves;
  }

  /** What runs is what follows the authorizing line: all of it, in order, and nothing before. */
  lemma {:induction false} RunsAfterAuthorization(env: Env, s: Session, lines: seq<string>, k: nat)
    requires k <= |lines| && OnLines(env, s, lines[..k]).0.authOk
    requires forall j :: 0 <= j < k ==> !OnLines(env, s, lines[..j]).0.authOk
    ensures OnLines(env, s, lines).0.ran == s.ran + Requests(lines[k..])
    decreases |lines|
  {
    hide OnLines, OnLine, ForDaemon, Request, Requests;
    if k == |lines| {
      NothingRuns(env, s, lines);
      NoRequests();
    } else {
      var init, line := lines[..|lines| - 1], lines[|lines| - 1];
      assert forall j :: 0 <= j <= k ==> init[..j] == lines[..j];
      RunsAfterAuthorization(env, s, init, k);
      StaysAuthorized(env, s, init, k);
      LineRuns(env, OnLines(env, s, init).0, line);
      assert lines == init + [line] && lines[k..] == init[k..] + [line];
      OnLinesMore(env, s, init, line);
      RequestsMore(init[k..], line);
    }
  }

  lemma NoRequests()
    ensures Requests([]) == []
  {}

  lemma RequestsMore(lines: seq<string>, line: string)
    ensures var r := Request(line);
            Requests(lines + [line]) == Requests(lines) + if r.Some? && ForDaemon(r.value) then [r.value] else []
  {
    hide Request, ForDaemon;
    assert (lines + [line])[..|lines|] == lines;
  }

  lemma {:induction false} StaysAuthorized(env: Env, s: Session, lines: seq<string>, k: nat)
    requires k <= |lines| && OnLines(env, s, lines[..k]).0.authOk
    ensures OnLines(env, s, lines).0.authOk
    decreases |lines|
  {
    hide OnLine;
    if k == |lines| {
      assert lines[..k] == lines;
    } else {
      var init := lines[..|lines| - 1];
      assert init[..k] == lines[..k];
      StaysAuthorized(env, s, init, k);
      LineAuth(env, OnLines(env, s, init).0, lines[|lines| - 1]);
    }
  }

  lemma {:induction false} NothingRuns(env: Env, s: Session, lines: seq<string>)
    requires forall j :: 0 <= j < |lines| ==> !OnLines(env, s, lines[..j]).0.authOk
    ensures OnLines(env, s, lines).0.ran == s.ran
  {
    hide OnLine;
    if lines != [] {
      var init := lines[..|lines| - 1];
      assert forall j :: 0 <= j <= |init| ==> init[..j] == lines[..j];
      assert init[..|init|] == init;
      NothingRuns(env, s, init);
      LineRuns(env, OnLines(env, s, init).0, lines[|lines| - 1]);
    }
  }

  // --- the password in plain ---

  ghost predicate PlainProof(env: Env, line: string) {
    var r := Request(line);
    r.Some? && r.value.kind == CmdAuth && r.value.args[1] == "plain" && r.value.args[2] == env.password
  }

  lemma PlainArgument(line: string)
    requires Request(line).Some? && Request(line).value.kind == CmdAuth
    ensures IsToken(Request(line).value.args[2])
  {
    hide Tokens, IsToken, Spelling, SkipSpaces, StripReturn;
    TokensAreTokens(SkipSpaces(StripReturn(line)));
  }

  /** Some line can give the password in plain exactly when the password is a single token. */
  lemma PlainPossible(env: Env)
    ensures (exists line :: PlainProof(env, line)) <==> IsToken(env.password)
  {
    if line :| PlainProof(env, line) {
      PlainArgument(line);
    }
    if IsToken(env.password) {
      PlainLine(env);
    }
  }

  lemma PlainLine(env: Env)
    requires IsToken(env.password)
    ensures PlainProof(env, Render([Spelling(Auth), Spelling(Plain), env.password]) + "\r")
  {
    var tokens := [Spelling(Auth), Spelling(Plain), env.password];
    var text := Render(tokens);
    SchemeNames();
    Spelled(Auth);
    SpellingIsToken(Auth);
    SpellingIsToken(Plain);
    hide Tokens, IsToken, Spelling, Render, SkipSpaces;
    TokensOfRendered(tokens);
    RenderFront(tokens);
    NoSpacesInFront(text);
    assert StripReturn(text + "\r") == text;
    AuthFits(tokens);
    ParsedIs(text, CmdAuth);
  }

  lemma AuthFits(tokens: seq<string>)
    requires |tokens| == 3 && tokens[0] == Spelling(Auth) && tokens[1] == Spelling(Plain)
    ensures Phrase(CmdAuth, tokens)
  {}

  // --- from bytes to effects ---

  /** A connection with the bytes it has not yet cut into lines. */
  datatype Link = Link(session: Session, tail: string, dropped: bool)

  ghost function OnChunk(env: Env, size: nat, l: Link, chunk: string): (Link, string) {
    if l.dropped then (l, "")
    else if !Clean(CString(chunk)) then (l.(dropped := true), "")
    else
      var s := l.tail + chunk;
      var (session, reply) := OnLines(env, l.session, Lines(s));
      (Link(session, Rest(s), |Rest(s)| >= size), reply)
  }

  ghost function OnChunks(env: Env, size: nat, s: Session, chunks: seq<string>): (Link, string) {
    if chunks == [] then (Link(s, "", false), "")
    else
      var (l, sent) := OnChunks(env, size, s, chunks[..|chunks| - 1]);
      var (l', reply) := OnChunk(env, size, l, chunks[|chunks| - 1]);
      (l', sent + reply)
  }

  lemma {:induction false} OnLinesAppend(env: Env, s: Session, a: seq<string>, b: seq<string>)
    ensures var (s1, sent) := OnLines(env, s, a);
            var (s2, more) := OnLines(env, s1, b);
            OnLines(env, s, a + b) == (s2, sent + more)
  {
    hide OnLine;
    if b == [] {
      assert a + b == a && forall t: string :: t + "" == t;
    } else {
      var init, line := b[..|b| - 1], b[|b| - 1];
      OnLinesAppend(env, s, a, init);
      assert a + b == (a + init) + [line] && init + [line] == b;
      OnLinesMore(env, s, a + init, line);
      var (s1, sent) := OnLines(env, s, a);
      var (s2, more) := OnLines(env, s1, init);
      OnLinesMore(env, s1, init, line);
      var reply := OnLine(env, s2, line).1;
      assert sent + (more + reply) == (sent + more) + reply;
    }
  }

  /** The framing of the bytes does not depend on the session. */
  lemma {:induction false} LinkIsFramed(env: Env, size: nat, s: Session, chunks: seq<string>)
    ensures var (l, sent) := OnChunks(env, size, s, chunks);
            var f := ReceiveAll(size, chunks);
            l.tail == f.tail && l.dropped == f.dropped && (l.session, sent) == OnLines(env, s, f.lines)
  {
    hide OnLines, Lines, Rest, Clean, CString;
    NoLines(env, s);
    if chunks != [] {
      var init, last := chunks[..|chunks| - 1], chunks[|chunks| - 1];
      LinkIsFramed(env, size, s, init);
      var f := ReceiveAll(size, init);
      OnLinesAppend(env, s, f.lines, Lines(f.tail + last));
      assert OnLines(env, s, f.lines).1 + "" == OnLines(env, s, f.lines).1;
    }
  }

  lemma NoLines(env: Env, s: Session)
    ensures OnLines(env, s, []) == (s, "")
  {}

  /** However recv cuts a clean stream, the lines of the stream decide who is authorized, what runs,
      what is answered, and when the connection is dropped. */
  lemma StreamDecides(env: Env, size: nat, s: Session, chunks: seq<string>)
    requires size > 0 && Offered(size, chunks) && Clean(Concat(chunks))
    ensures var text := Concat(chunks);
            var (session, sent) := OnLines(env, s, Lines(text));
            OnChunks(env, size, s, chunks) == (Link(session, Rest(text), Overflow(text, size)), sent)
  {
    hide *;
    LinkIsFramed(env, size, s, chunks);
    SlicesDoNotMatter(size, chunks);
  }
}

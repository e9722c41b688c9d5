/** One control connection (csocket.c) with its two buffers, updated in place. */
module Connection {
  import opened Bits
  import opened Rfc1321
  import opened Sequences
  import opened Text
  import opened Buffers
  import opened Framing
  import opened Commands
  import opened Sessions
  import CommandParser
  import Md5Context

  const RBUF_SIZE := 256
  const WBUF_SIZE := 32768

  ghost predicate Sound(env: Env) {
    && |env.password| < 32 && NulFree(env.password)
    && (forall n :: |env.nonce(n)| < 64 && NulFree(env.nonce(n)))
    && (forall n :: NulFree(env.answer(n)))
  }

  function Clip(size: nat, s: string): string { s[..Min(|s|, size)] }

  lemma ClipAppend(size: nat, a: string, b: string)
    ensures Clip(size, Clip(size, a) + b) == Clip(size, a + b)
  {}

  lemma BytesAppend(a: string, b: string)
    ensures Bytes(a) + Bytes(b) == Bytes(a + b)
  {}

  function AllBytes(texts: seq<string>): seq<seq<Byte>> {
    seq(|texts|, i requires 0 <= i < |texts| => Bytes(texts[i]))
  }

  lemma {:induction false} BytesOfAll(texts: seq<string>)
    ensures Concat(AllBytes(texts)) == Bytes(Concat(texts))
  {
    hide Bytes;
    if texts == [] {
      assert Bytes("") == [] by { BytesLength(""); }
    } else {
      var init, last := texts[..|texts| - 1], texts[|texts| - 1];
      BytesOfAll(init);
      assert AllBytes(texts)[..|texts| - 1] == AllBytes(init);
      BytesAppend(Concat(init), last);
    }
  }

  lemma BytesLength(s: string)
    ensures |Bytes(s)| == |s|
  {}

  /** MD5Init, one MD5Update per text, MD5Final. */
  method HashAll(texts: seq<string>) returns (hex: string)
    requires forall t :: t in texts ==> |t| < WORD
    ensures hex == HashText(Concat(texts))
  {
    hide Bytes, Hex, Digest, Concat;
    forall t | t in texts ensures |Bytes(t)| == |t| { BytesLength(t); }
    var digest;
    digest, hex := Md5Context.HashChunks(AllBytes(texts));
    BytesOfAll(texts);
  }

  lemma {:induction false} HexDigits(d: seq<Byte>)
    ensures NulFree(Hex(d))
  {
    if d != [] { HexDigits(d[..|d| - 1]); }
  }

  lemma HashShape(s: string)
    ensures |HashText(s)| == 32 && NulFree(HashText(s))
  {
    hide Hex, Digest, Bytes;
    HexDigits(Digest(Bytes(s)));
  }

  class Conn {
    const env: Env
    const recv: Buf
    const send: Buf
    var authOk: bool
    var events: bool
    var challenge: string
    var issued: nat
    var ran: seq<Command>

    ghost predicate Valid()
      reads this, recv, recv.data, send, send.data
    {
      && recv.Valid() && send.Valid() && recv != send && recv.data != send.data
      && Sound(env) && |challenge| == 32 && NulFree(challenge)
    }

    ghost function View(): Session
      reads this
    {
      Session(authOk, events, issued, challenge, ran)
    }

    /** A connection that has just been accepted. */
    constructor (env: Env, local: bool)
      requires Sound(env)
      ensures Valid() && fresh(recv) && fresh(recv.data) && fresh(send) && fresh(send.data)
      ensures View() == Accepted(env, local) && recv.size == 256 && send.size == 32768
      ensures recv.Contents() == "" && send.Contents() == ""
    {
      hide HashText;
      this.env := env;
      recv := new Buf(RBUF_SIZE);
      send := new Buf(WBUF_SIZE);
      authOk, events, issued, ran := local, false, 0, [];
      challenge := "";
      new;
      UpdateChallenge();
    }

    /** f2b_conn_update_challenge */
    method UpdateChallenge()
      requires Sound(env)
      modifies this`challenge, this`issued
      ensures |challenge| == 32 && NulFree(challenge)
      ensures View() == Reissued(env, old(View()))
    {
      hide HashText, Concat;
      var nonce := env.nonce(issued);
      issued := issued + 1;
      challenge := HashAll([nonce]);
      ConcatOne(nonce);
      HashShape(nonce);
    }

    /** Append a text to the send buffer. */
    method Put(text: string)
      requires send.Valid() && NulFree(text)
      modifies send, send.data
      ensures send.Valid() && send.Contents() == Clip(send.size, old(send.Contents()) + text)
    {
      CStringOf(text);
      hide CString;
      var _ := send.Append(text, 0);
    }

    /** f2b_conn_send_unauth */
    method SendUnauth()
      requires Valid()
      modifies send, send.data
      ensures Valid() && recv.Contents() == old(recv.Contents())
      ensures send.Contents() == Clip(send.size, old(send.Contents()) + Refusal(View()))
    {
      hide Clip;
      ghost var size, sent := send.size, send.Contents();
      Put("-unauthorized: ");
      Put(challenge);
      ClipAppend(size, sent + "-unauthorized: ", challenge);
      Put("\n");
      ClipAppend(size, sent + "-unauthorized: " + challenge, "\n");
      assert sent + Refusal(View()) == sent + "-unauthorized: " + challenge + "\n";
    }

    /** f2b_conn_check_auth */
    method CheckAuth(cmd: Command)
      requires Valid() && Complete(cmd) && cmd.kind == CmdAuth
      modifies this, send, send.data
      ensures Valid() && recv.Contents() == old(recv.Contents())
      ensures var (s, reply) := OnAuth(env, old(View()), cmd);
              View() == s && send.Contents() == Clip(send.size, old(send.Contents()) + reply)
    {
      hide HashText, Clip, Spelling, Concat, Refusal;
      if authOk {
        Put("+already authorized\n");
        return;
      }
      if cmd.args[1] == Spelling(Plain) {
        if cmd.args[2] == env.password {
          authOk := true;
          Put("+ok\n");
          return;
        }
      } else if cmd.args[1] == Spelling(Challenge) {
        var hexdigest := HashAll([challenge, env.password]);
        ConcatTwo(challenge, env.password);
        if cmd.args[2] == hexdigest {
          authOk := true;
          Put("+ok\n");
          return;
        }
      }
      SpellingsDiffer(Plain, Challenge);
      UpdateChallenge();
      SendUnauth();
    }

    /** f2b_conn_events */
    method SwitchEvents(cmd: Command)
      requires Valid() && Complete(cmd) && cmd.kind == CmdLogEvents
      modifies this, send, send.data
      ensures Valid() && recv.Contents() == old(recv.Contents())
      ensures var (s, reply) := OnEvents(old(View()), cmd);
              View() == s && send.Contents() == Clip(send.size, old(send.Contents()) + reply)
    {
      hide Clip;
      if SwitchedOn(cmd.args[2]) {
        events := true;
        Put("+events on\n");
      } else {
        events := false;
        Put("+events off\n");
      }
    }

    /** The daemon runs a command and writes its answer to the send buffer. */
    method CallDaemon(cmd: Command)
      requires Valid()
      modifies this, send, send.data
      ensures Valid() && recv.Contents() == old(recv.Contents())
      ensures View() == old(View()).(ran := old(ran) + [cmd])
      ensures send.Contents() == Clip(send.size, old(send.Contents()) + env.answer(|old(ran)|))
    {
      var answer := env.answer(|ran|);
      ran := ran + [cmd];
      Put(answer);
    }

    /** What a connection does with one extracted line that is not empty. */
    method HandleLine(extracted: string)
      requires Valid() && NulFree(extracted) && extracted != ""
      modifies this, send, send.data
      ensures Valid() && recv.Contents() == old(recv.Contents())
      ensures var (s, reply) := OnLine(env, old(View()), extracted);
              View() == s && send.Contents() == Clip(send.size, old(send.Contents()) + reply)
    {
      hide Clip, OnAuth, OnEvents, Parsed, Refusal;
      var line := extracted;
      if line[|line| - 1] == '\r' {
        line := line[..|line| - 1];
      }
      var cmd := CommandParser.Create(line);
      assert Request(extracted) == cmd;
      if cmd.Some? {
        if cmd.value.kind == CmdAuth {
          CheckAuth(cmd.value);
        } else if cmd.value.kind == CmdLogEvents {
          SwitchEvents(cmd.value);
        } else if authOk {
          CallDaemon(cmd.value);
        } else {
          SendUnauth();
        }
      } else if authOk {
        Put("-unknown command, try 'help'\n");
      } else {
        SendUnauth();
      }
    }

    /** The next complete line of the receive buffer. */
    method NextLine() returns (line: Option<string>)
      requires Valid()
      modifies recv, recv.data
      ensures Valid() && send.Contents() == old(send.Contents())
      ensures var s, s' := old(recv.Contents()), recv.Contents();
              match line
              case None => Lines(s) == [] && Rest(s) == s == s'
              case Some(l) => Lines(s) == [l] + Lines(s') && Rest(s) == Rest(s') && NulFree(l) && |s'| < |s|
    {
      hide Find, Lines, Rest;
      ghost var s := recv.Contents();
      line := recv.Extract('\n');
      if Find(s, '\n').Some? { FirstLine(s, Find(s, '\n').value); } else { NoLine(s); }
    }

    /** A line is handled; an empty one is skipped. */
    method HandleAny(line: string)
      requires Valid() && NulFree(line)
      modifies this, send, send.data
      ensures Valid() && recv.Contents() == old(recv.Contents())
      ensures var (s, reply) := OnLine(env, old(View()), line);
              View() == s && send.Contents() == Clip(send.size, old(send.Contents()) + reply)
    {
      ghost var sent := send.Contents();
      if line != "" {
        HandleLine(line);
      } else {
        assert sent + "" == sent;
        ClipWithin(send.size, sent);
      }
      hide OnCommand, Clip;
    }

    /** Extract and handle every complete line of the receive buffer. */
    method HandleLines()
      requires Valid()
      modifies this, recv, recv.data, send, send.data
      ensures Valid() && recv.Contents() == Rest(old(recv.Contents()))
      ensures var (s, reply) := OnLines(env, old(View()), Lines(old(recv.Contents())));
              View() == s && send.Contents() == Clip(send.size, old(send.Contents()) + reply)
    {
      hide Clip, OnLine, OnLines, Lines, Rest;
      ghost var s0, sent0, all := View(), send.Contents(), recv.Contents();
      ghost var done: seq<string> := [];
      NoLines(env, s0);
      assert sent0 + "" == sent0;
      ClipWithin(send.size, sent0);
      var line := NextLine();
      while line.Some?
        invariant Valid()
        invariant View() == OnLines(env, s0, done).0
        invariant send.Contents() == Clip(send.size, sent0 + OnLines(env, s0, done).1)
        invariant if line.Some? then Lines(all) == done + ([line.value] + Lines(recv.Contents())) && NulFree(line.value)
                  else Lines(all) == done && Rest(recv.Contents()) == recv.Contents()
        invariant Rest(all) == Rest(recv.Contents())
        decreases |recv.Contents()| + if line.Some? then 1 else 0
      {
        ghost var l, before := line.value, OnLines(env, s0, done).1;
        HandleAny(line.value);
        OnLinesMore(env, s0, done, l);
        ClipAppend(send.size, sent0 + before, OnLine(env, OnLines(env, s0, done).0, l).1);
        assert sent0 + (before + OnLine(env, OnLines(env, s0, done).0, l).1)
            == sent0 + before + OnLine(env, OnLines(env, s0, done).0, l).1;
        assert done + ([l] + Lines(recv.Contents())) == (done + [l]) + Lines(recv.Contents());
        done := done + [l];
        line := NextLine();
        assert done + [] == done;
      }
    }

    /** What came from recv: check it, append it, handle its lines. False drops the connection. */
    method Receive(chunk: string) returns (open: bool)
      requires Valid() && 0 < |chunk| <= recv.size - recv.used
      modifies this, recv, recv.data, send, send.data
      ensures Valid()
      ensures var (l, reply) := OnChunk(env, recv.size, Link(old(View()), old(recv.Contents()), false), chunk);
              && View() == l.session && recv.Contents() == l.tail && open == !l.dropped
              && send.Contents() == Clip(send.size, old(send.Contents()) + reply)
    {
      hide Lines, Rest, OnLines, Clip, Clean, CString;
      ghost var sent := send.Contents();
      assert sent + "" == sent;
      ClipWithin(send.size, sent);
      var clean := Printable(chunk);
      if !clean {
        return false;
      }
      var n := recv.Append(chunk, |chunk|);
      assert n == |chunk| && chunk[..n] == chunk;
      HandleLines();
      open := recv.used < recv.size;
    }

    /** send: as much as the system has room for leaves the buffer; a failure (negative room) drops the
        connection, unless it only asks to try again. */
    method Flush(room: int, again: bool) returns (open: bool)
      requires Valid()
      modifies send, send.data
      ensures Valid() && View() == old(View()) && recv.Contents() == old(recv.Contents())
      ensures open == Flushed(old(send.Contents()), room, again).0
      ensures send.Contents() == Flushed(old(send.Contents()), room, again).1
    {
      open := true;
      if send.used > 0 {
        if room > 0 {
          var _ := send.Splice(if room <= send.used then room else send.used);
        } else if room < 0 && !again {
          open := false;
        }
      }
    }

    /** f2b_conn_process: what has arrived, if anything, and then what is to be sent. */
    method Process(incoming: Option<Arrival>, room: int, again: bool) returns (open: bool)
      requires Valid()
      requires incoming.Some? && incoming.value.Chunk? ==> 0 < |incoming.value.text| <= recv.size - recv.used
      modifies this, recv, recv.data, send, send.data
      ensures Valid()
      ensures var l0, sent := Link(old(View()), old(recv.Contents()), false), old(send.Contents());
              var (l, reply) := OnArrival(env, recv.size, l0, incoming);
              var full := Clip(send.size, sent + reply);
              && View() == l.session && recv.Contents() == l.tail
              && open == (!l.dropped && Flushed(full, room, again).0)
              && send.Contents() == if l.dropped then full else Flushed(full, room, again).1
    {
      hide Clip, OnChunk, Flushed;
      ghost var sent := send.Contents();
      assert sent + "" == sent;
      ClipWithin(send.size, sent);
      if incoming.Some? {
        match incoming.value
        case Closed => return false;
        case Failed => return false;
        case Chunk(text) =>
          open := Receive(text);
          if !open {
            return;
          }
      }
      open := Flush(room, again);
    }
  }

  /** What recv reports: the peer has closed, an error, or bytes. */
  datatype Arrival = Closed | Failed | Chunk(text: string)

  ghost function OnArrival(env: Env, size: nat, l: Link, incoming: Option<Arrival>): (Link, string) {
    match incoming
    case None => (l, "")
    case Some(Closed) => (l.(dropped := true), "")
    case Some(Failed) => (l.(dropped := true), "")
    case Some(Chunk(text)) => OnChunk(env, size, l, text)
  }

  /** Nothing arrived: nothing changes. A peer that closed and an error drop the connection and leave
      what was received before unhandled. */
  lemma ArrivalEffects(env: Env, size: nat, l: Link)
    ensures OnArrival(env, size, l, None) == (l, "")
    ensures OnArrival(env, size, l, Some(Closed)) == OnArrival(env, size, l, Some(Failed))
         == (Link(l.session, l.tail, true), "")
  {}

  /** Whether the connection stays open, and what stays to be sent. */
  function Flushed(sent: string, room: int, again: bool): (bool, string) {
    if sent == "" || room == 0 then (true, sent)
    else if room < 0 then (again, sent)
    else (true, sent[if room <= |sent| then room else |sent|..])
  }

  /** The scan for characters that are neither printable nor space, up to the first NUL. */
  method Printable(chunk: string) returns (clean: bool)
    ensures clean == Clean(CString(chunk))
  {
    CStringChars(chunk);
    hide CString;
    var i := 0;
    while i < |chunk| && chunk[i] != '\0'
      invariant i <= |CString(chunk)| && Clean(CString(chunk)[..i])
    {
      if !IsGraph(chunk[i]) && !IsSpace(chunk[i]) {
        return false;
      }
      i := i + 1;
    }
    assert i == |CString(chunk)|;
    clean := true;
  }

  lemma {:induction false} CStringChars(s: string)
    ensures var t := CString(s);
            && |t| <= |s| && NulFree(t) && t == s[..|t|] && (|t| < |s| ==> s[|t|] == '\0')
  {
    if s != "" && s[0] != '\0' {
      CStringChars(s[1..]);
      var t := CString(s[1..]);
      assert CString(s) == [s[0]] + t;
      assert s == [s[0]] + s[1..];
    }
  }

  /** What was sent and what stays make up the buffer; only an error other than "try again" on a buffer
      that is not empty closes the connection. */
  lemma FlushedParts(sent: string, room: int, again: bool)
    ensures var (open, rest) := Flushed(sent, room, again);
            var n := if room <= 0 then 0 else if room < |sent| then room else |sent|;
            && sent == sent[..n] + rest && |rest| == |sent| - n
            && (open <==> sent == "" || room >= 0 || again)
  {}

  /** What does not fit is cut off at the end. */
  lemma ClipExact(size: nat, s: string)
    ensures Clip(size, s) <= s && |Clip(size, s)| == if |s| <= size then |s| else size
  {}

  lemma ClipWithin(size: nat, s: string)
    requires |s| <= size
    ensures Clip(size, s) == s
  {}
}

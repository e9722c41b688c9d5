/** How the receive side of a connection (csocket.c) cuts the byte stream into lines. */
module Framing {
  import opened Sequences
  import opened Text

  /** What has come of the stream so far: lines handed on, bytes kept, connection dropped. */
  datatype Stream = Stream(lines: seq<string>, tail: string, dropped: bool)

  const NEW: Stream := Stream([], "", false)

  predicate Clean(s: string) {
    forall i :: 0 <= i < |s| ==> IsGraph(s[i]) || IsSpace(s[i])
  }

  /** What passes the check: tabs, line ends, blanks and the printable characters. */
  lemma CleanExactly(s: string)
    ensures Clean(s) <==> forall i :: 0 <= i < |s| ==> 9 <= s[i] as int <= 13 || 32 <= s[i] as int <= 126
  {
    forall i | 0 <= i < |s| ensures IsGraph(s[i]) || IsSpace(s[i]) <==> 9 <= s[i] as int <= 13 || 32 <= s[i] as int <= 126 {
      Classes(s[i]);
    }
  }

  /** The lines that repeated extraction takes out of the buffer contents. */
  function Lines(s: string): seq<string>
    decreases |s|
  {
    match Find(s, '\n')
    case None => []
    case Some(k) => [s[..k]] + Lines(s[k + 1..])
  }

  /** What extraction leaves in the buffer. */
  function Rest(s: string): string
    decreases |s|
  {
    match Find(s, '\n')
    case None => s
    case Some(k) => Rest(s[k + 1..])
  }

  /** One chunk from recv: it is checked, appended and cut, and a full buffer drops the connection. */
  function Receive(size: nat, f: Stream, chunk: string): Stream {
    if f.dropped then f
    else if !Clean(CString(chunk)) then f.(dropped := true)
    else
      var s := f.tail + chunk;
      Stream(f.lines + Lines(s), Rest(s), |Rest(s)| >= size)
  }

  function ReceiveAll(size: nat, chunks: seq<string>): Stream {
    if chunks == [] then NEW
    else Receive(size, ReceiveAll(size, chunks[..|chunks| - 1]), chunks[|chunks| - 1])
  }

  /** A chunk with any other character before its first NUL drops the connection, and none of its lines
      is handed on. */
  lemma UncleanDrops(size: nat, f: Stream, chunk: string, i: nat)
    requires i < |chunk| && '\0' !in chunk[..i + 1] && !(9 <= chunk[i] as int <= 13 || 32 <= chunk[i] as int <= 126)
    ensures Receive(size, f, chunk) == f.(dropped := true)
  {
    var front, rest := chunk[..i + 1], chunk[i + 1..];
    assert chunk == front + rest && front[i] == chunk[i];
    CStringFront(front, rest);
    CleanExactly(CString(chunk));
    hide CString, Lines, Rest, Clean;
    assert CString(chunk)[i] == chunk[i];
  }

  /** recv is offered the room left in the buffer of a connection that is still open. */
  ghost predicate Offered(size: nat, chunks: seq<string>) {
    chunks == [] ||
    var init, last := chunks[..|chunks| - 1], chunks[|chunks| - 1];
    var f := ReceiveAll(size, init);
    Offered(size, init) && !f.dropped && |last| > 0 && |f.tail| + |last| <= size
  }

  // --- the lines of a text ---

  ghost predicate NoBreak(s: string) {
    forall k :: 0 <= k < |s| ==> s[k] != '\n'
  }

  /** The text is its lines, each with its newline, and then the rest. */
  function Joined(lines: seq<string>): string {
    if lines == [] then "" else lines[0] + "\n" + Joined(lines[1..])
  }

  lemma {:induction false} LinesSpell(s: string)
    ensures s == Joined(Lines(s)) + Rest(s)
    decreases |s|
  {
    match Find(s, '\n')
    case None =>
    case Some(k) =>
      FirstLine(s, k);
      hide Lines, Rest, Joined, Find;
      LinesSpell(s[k + 1..]);
      OneMoreLine(s[..k], Lines(s[k + 1..]));
      Spliced(s, k, Joined(Lines(s[k + 1..])), Rest(s));
  }

  lemma FirstLine(s: string, k: nat)
    requires Find(s, '\n') == Some(k)
    ensures k < |s| && s[k] == '\n'
    ensures Lines(s) == [s[..k]] + Lines(s[k + 1..]) && Rest(s) == Rest(s[k + 1..])
  {
    hide Find;
  }

  lemma NoLine(s: string)
    requires Find(s, '\n') == None
    ensures Lines(s) == [] && Rest(s) == s
  {
    hide Find;
  }

  lemma OneMoreLine(line: string, lines: seq<string>)
    ensures Joined([line] + lines) == line + "\n" + Joined(lines)
  {
    assert ([line] + lines)[1..] == lines;
  }

  lemma Spliced(s: string, k: nat, a: string, b: string)
    requires k < |s| && s[k] == '\n' && s[k + 1..] == a + b
    ensures s == s[..k] + "\n" + a + b
  {
    assert s == s[..k] + [s[k]] + s[k + 1..];
  }

  lemma {:induction false} LinesHaveNoBreak(s: string)
    requires NulFree(s)
    ensures NoBreak(Rest(s)) && forall l :: l in Lines(s) ==> NoBreak(l)
    decreases |s|
  {
    match Find(s, '\n')
    case None => FindMisses(s, '\n');
    case Some(k) => LinesHaveNoBreak(s[k + 1..]);
  }

  lemma {:induction false} FindInFront(s: string, t: string, c: char)
    requires Find(s, c).Some?
    ensures Find(s + t, c) == Find(s, c)
  {
    if s[0] != c {
      FindInFront(s[1..], t, c);
      assert (s + t)[1..] == s[1..] + t;
    }
  }

  /** Cutting what has come and then the rest with the next part is cutting it all. */
  lemma {:induction false} CutTwice(s: string, t: string)
    requires NulFree(s)
    ensures Lines(s + t) == Lines(s) + Lines(Rest(s) + t)
    ensures Rest(s + t) == Rest(Rest(s) + t)
    decreases |s|
  {
    match Find(s, '\n')
    case None =>
    case Some(k) =>
      FindInFront(s, t, '\n');
      assert (s + t)[..k] == s[..k] && (s + t)[k + 1..] == s[k + 1..] + t;
      CutTwice(s[k + 1..], t);
  }

  // --- overflow ---

  /** n consecutive bytes from the i-th on without a newline. */
  ghost predicate Window(s: string, i: nat, n: nat) {
    i + n <= |s| && forall k :: i <= k < i + n ==> s[k] != '\n'
  }

  ghost predicate Overflow(s: string, size: nat) {
    exists i :: Window(s, i, size)
  }

  lemma {:induction false} RestStarts(s: string)
    requires NulFree(s)
    ensures var r := |s| - |Rest(s)|; r >= 0 && s[r..] == Rest(s) && (r > 0 ==> s[r - 1] == '\n')
    decreases |s|
  {
    match Find(s, '\n')
    case None =>
    case Some(k) =>
      RestStarts(s[k + 1..]);
      var r := |s[k + 1..]| - |Rest(s)|;
      assert s[k + 1..][r..] == s[k + 1 + r..];
  }

  /** A text with no newline is its own rest. */
  lemma {:induction false} RestOfLine(s: string)
    requires NoBreak(s)
    ensures Rest(s) == s && Lines(s) == []
  {}

  /** The next part fills the buffer exactly when it completes a stretch without a newline. */
  lemma OverflowStep(s: string, t: string, size: nat)
    requires NulFree(s + t) && !Overflow(s, size) && |Rest(s)| + |t| <= size && size > 0
    ensures Overflow(s + t, size) <==> |Rest(s + t)| >= size
  {
    hide Rest, Lines;
    if |Rest(s + t)| >= size {
      LongRest(s + t, size);
    }
    if Overflow(s + t, size) {
      var i :| Window(s + t, i, size);
      FullBuffer(s, t, size, i);
    }
  }

  lemma LongRest(s: string, size: nat)
    requires NulFree(s) && |Rest(s)| >= size
    ensures Overflow(s, size)
  {
    hide Rest, Lines;
    LinesHaveNoBreak(s);
    RestStarts(s);
    var r := |s| - |Rest(s)|;
    forall k | r <= k < r + size ensures s[k] != '\n' {
      assert s[k] == Rest(s)[k - r];
    }
    assert Window(s, r, size);
  }

  lemma FullBuffer(s: string, t: string, size: nat, i: nat)
    requires NulFree(s + t) && !Overflow(s, size) && |Rest(s)| + |t| <= size && size > 0
    requires Window(s + t, i, size)
    ensures |Rest(s + t)| >= size
  {
    hide Rest, Lines;
    var all := s + t;
    assert forall k :: 0 <= k < |s| ==> s[k] == all[k];
    RestStarts(s);
    var r := |s| - |Rest(s)|;
    assert !Window(s, i, size);
    assert i + size > |s|;
    assert r > 0 ==> all[r - 1] == '\n';
    assert i == r;
    var full := Rest(s) + t;
    forall k | 0 <= k < |full| ensures full[k] != '\n' {
      assert full[k] == all[r + k];
    }
    RestOfLine(full);
    CutTwice(s, t);
  }

  // --- framing does not depend on the slices ---

  lemma CleanIsNulFree(s: string)
    requires Clean(s)
    ensures NulFree(s)
  {}

  lemma NothingReceived(size: nat)
    requires size > 0
    ensures Lines("") == [] && Rest("") == "" && !Overflow("", size)
  {}

  /** However the stream is cut, the lines are its newline-terminated segments in order, the buffer
      holds the rest, and the connection drops exactly when a full buffer's worth has no newline. */
  lemma {:induction false} SlicesDoNotMatter(size: nat, chunks: seq<string>)
    requires size > 0 && Offered(size, chunks) && Clean(Concat(chunks))
    ensures var s := Concat(chunks);
            ReceiveAll(size, chunks) == Stream(Lines(s), Rest(s), Overflow(s, size))
  {
    hide Find, Lines, Rest, CString, Overflow;
    if chunks == [] {
      NothingReceived(size);
    } else {
      var init, last := chunks[..|chunks| - 1], chunks[|chunks| - 1];
      var s, all := Concat(init), Concat(chunks);
      assert forall k :: 0 <= k < |s| ==> s[k] == all[k];
      assert forall k :: 0 <= k < |last| ==> last[k] == all[|s| + k];
      SlicesDoNotMatter(size, init);
      CleanIsNulFree(all);
      CStringOf(last);
      CutTwice(s, last);
      OverflowStep(s, last, size);
    }
  }
}

/** The state file (statefile.c): bans printed one per line, and read back. */
module StateFile {
  import opened Bits
  import opened Hosts
  import opened Text

  datatype Record = Record(text: string, bannedAt: Word, releaseAt: Word)

  const HEADER := "# address\tbanned_at\trelease_at\n"
  const LINE_MAX := 255

  // --- printing ---

  function DigitChar(d: nat): char
    requires d < 10
  {
    ('0' as int + d) as char
  }

  function Decimal(n: nat): string {
    if n < 10 then [DigitChar(n)] else Decimal(n / 10) + [DigitChar(n % 10)]
  }

  /** "%lu" of a time value: negative values print as their 64-bit wrap. */
  function Unsigned(t: int): nat { t % LANE }

  function PrintLine(h: Host): string {
    h.text + "\t" + Decimal(Unsigned(h.bannedAt)) + "\t" + Decimal(Unsigned(h.releaseAt)) + "\n"
  }

  function PrintHosts(hosts: seq<Host>): string {
    if hosts == [] then ""
    else PrintHosts(hosts[..|hosts| - 1]) + if hosts[|hosts| - 1].banned then PrintLine(hosts[|hosts| - 1]) else ""
  }

  function Print(hosts: seq<Host>): string {
    HEADER + PrintHosts(hosts)
  }

  // --- parsing ---

  /** "%48s": the length of the non-blank token at the start. */
  function TokenLength(s: string, max: nat): (n: nat)
    ensures n <= |s|
  {
    if s == "" || max == 0 || IsSpace(s[0]) then 0 else 1 + TokenLength(s[1..], max - 1)
  }

  function ScanDigits(s: string, acc: nat): (nat, string) {
    if s != "" && IsDigit(s[0]) then ScanDigits(s[1..], 10 * acc + (s[0] as int - '0' as int)) else (acc, s)
  }

  /** "%u": blanks, an optional sign, at least one digit; saturated at 64 bits, stored in 32. */
  function ScanNumber(s: string): Option<(Word, string)> {
    var p := SkipSpaces(s);
    var negative := p != "" && p[0] == '-';
    var q := if p != "" && (p[0] == '-' || p[0] == '+') then p[1..] else p;
    if q == "" || !IsDigit(q[0]) then None
    else
      var (v, rest) := ScanDigits(q, 0);
      var wide := if v >= LANE then LANE - 1 else if negative then LANE - v else v;
      Some((wide % WORD, rest))
  }

  function ParseLine(accepts: Acceptor, line: string): Option<Record> {
    var p := SkipSpaces(line);
    if p != "" && p[0] == '#' then None
    else
      var n := TokenLength(p, TEXT_MAX + 1);
      if n == 0 then None
      else
        match ScanNumber(p[n..])
        case None => None
        case Some((bannedAt, q)) =>
          match ScanNumber(q)
          case None => None
          case Some((releaseAt, _)) =>
            if ValidAddress(accepts, p[..n]) then Some(Record(p[..n], bannedAt, releaseAt)) else None
  }

  function Add(list: seq<Record>, r: Option<Record>): seq<Record> {
    match r
    case None => list
    case Some(v) => [v] + list
  }

  /** The records of the lines of a file, each put in front of the earlier ones. */
  function LoadOnto(accepts: Acceptor, file: string, list: seq<Record>): seq<Record>
    decreases |file|
  {
    if file == "" then list
    else
      var n := LineLength(file, LINE_MAX);
      LoadOnto(accepts, file[n..], Add(list, ParseLine(accepts, file[..n])))
  }

  function Load(accepts: Acceptor, file: string): seq<Record> {
    LoadOnto(accepts, file, [])
  }

  // --- what a saved list contains ---

  function RecordOf(h: Host): Record {
    Record(h.text, h.bannedAt % WORD, h.releaseAt % WORD)
  }

  function BannedReversed(hosts: seq<Host>): seq<Record> {
    if hosts == [] then []
    else
      var h := hosts[|hosts| - 1];
      (if h.banned then [RecordOf(h)] else []) + BannedReversed(hosts[..|hosts| - 1])
  }

  // --- decimal numbers read back ---

  lemma {:induction false} DecimalDigits(n: nat)
    ensures |Decimal(n)| > 0 && forall i :: 0 <= i < |Decimal(n)| ==> IsDigit(Decimal(n)[i])
  {
    if n >= 10 { DecimalDigits(n / 10); }
  }

  lemma {:induction false} ScanDecimal(n: nat, rest: string)
    ensures ScanDigits(Decimal(n) + rest, 0) == ScanDigits(rest, n)
  {
    if n < 10 {
      assert (Decimal(n) + rest)[1..] == rest;
    } else {
      var d := [DigitChar(n % 10)];
      assert Decimal(n) + rest == Decimal(n / 10) + (d + rest);
      ScanDecimal(n / 10, d + rest);
      assert (d + rest)[1..] == rest;
    }
  }

  /** A number and a file as they look. */
  lemma DecimalLooks()
    ensures Decimal(0) == "0" && Decimal(120) == "120" && Decimal(3720) == "3720"
  {
    assert Decimal(12) == "12" && Decimal(37) == "37";
    assert Decimal(372) == "372";
  }

  lemma FileLooks(h: Host)
    requires h.text == "192.0.2.1" && h.banned && h.bannedAt == 120 && h.releaseAt == 3720
    ensures Print([h])
         == "# address\tbanned_at\trelease_at\n" + ("192.0.2.1" + "\t" + "120" + "\t" + "3720" + "\n")
  {
    DecimalLooks();
    hide Decimal;
    OneHost(h);
  }

  lemma OneHost(h: Host)
    requires h.banned
    ensures PrintHosts([h]) == PrintLine(h)
  {
    assert [h][..0] == [];
    assert PrintHosts([h][..0]) == "";
    hide PrintLine;
    assert "" + PrintLine(h) == PrintLine(h);
  }

  lemma {:induction false} DecimalLength(n: nat, k: nat, p: nat)
    requires k > 0 && n < p && p == Power10(k)
    ensures |Decimal(n)| <= k
  {
    if n >= 10 { DecimalLength(n / 10, k - 1, Power10(k - 1)); }
  }

  function Power10(k: nat): nat {
    if k == 0 then 1 else 10 * Power10(k - 1)
  }

  lemma UnsignedLength(t: int)
    ensures |Decimal(Unsigned(t))| <= 20
  {
    assert Power10(4) == 10_000;
    assert Power10(8) == 100_000_000;
    assert Power10(12) == 1_000_000_000_000;
    assert Power10(16) == 10_000_000_000_000_000;
    DecimalLength(Unsigned(t), 20, Power10(20));
  }

  lemma ScanPrinted(t: int, rest: string)
    requires rest == "" || !IsDigit(rest[0])
    ensures ScanNumber("\t" + Decimal(Unsigned(t)) + rest) == Some((t % WORD, rest))
  {
    var d := Decimal(Unsigned(t));
    var s := "\t" + d + rest;
    DecimalDigits(Unsigned(t));
    assert s[1..] == d + rest;
    assert SkipSpaces(s) == d + rest;
    ScanDecimal(Unsigned(t), rest);
    UnsignedWord(t);
  }

  lemma UnsignedWord(t: int)
    ensures Unsigned(t) % WORD == t % WORD
  {
    var q := t / LANE;
    assert t == LANE * q + Unsigned(t);
    assert t == WORD * (WORD * q) + Unsigned(t);
  }

  // --- any number as it may be written ---

  /** A number as a user may write it: blanks, a sign or none, digits, and anything behind them. */
  function Written(blanks: string, sign: string, n: nat, rest: string): string {
    blanks + (sign + (Decimal(n) + rest))
  }

  predicate IsNumber(blanks: string, sign: string, rest: string) {
    AllSpaces(blanks) && (sign == "" || sign == "+" || sign == "-") && (rest == "" || !IsDigit(rest[0]))
  }

  function Signed(sign: string, n: nat): int {
    if sign == "-" then -(n as int) else n
  }

  lemma WrittenParts(blanks: string, sign: string, n: nat, rest: string)
    requires IsNumber(blanks, sign, rest)
    ensures var digits := Decimal(n) + rest;
            && digits != "" && IsDigit(digits[0]) && (sign + digits)[|sign|..] == digits
            && (sign == "" ==> sign + digits == digits)
            && SkipSpaces(Written(blanks, sign, n, rest)) == sign + digits
            && ScanDigits(digits, 0) == (n, rest)
  {
    var digits := Decimal(n) + rest;
    DecimalDigits(n);
    ScanDecimal(n, rest);
    hide Decimal, SkipSpaces;
    assert (sign + digits)[|sign|..] == digits;
    assert sign == "" ==> sign + digits == digits;
    SkipAllSpaces(blanks, sign + digits);
  }

  /** "%u" stores a number in 32 bits, after it has been held in 64: a larger one counts as 2^64 - 1, and
      a minus sign wraps around. */
  lemma NumberScanned(blanks: string, sign: string, n: nat, rest: string)
    requires IsNumber(blanks, sign, rest)
    ensures ScanNumber(Written(blanks, sign, n, rest))
         == Some(((if n >= 0x1_0000_0000_0000_0000 then 0xFFFF_FFFF_FFFF_FFFF else Signed(sign, n)) % 0x1_0000_0000, rest))
  {
    WrittenParts(blanks, sign, n, rest);
    if sign == "-" && n < LANE { WrapsAround(n); }
    hide Decimal, SkipSpaces, ScanDigits, Written, IsNumber;
  }

  lemma WrapsAround(n: nat)
    requires n < LANE
    ensures (LANE - n) % WORD == -(n as int) % WORD
  {
    DivModUnique(LANE - n, WORD, (LANE - n) / WORD, (LANE - n) % WORD);
    assert -(n as int) == WORD * ((LANE - n) / WORD - WORD) + (LANE - n) % WORD;
  }

  /** "%lu" of a time is its value modulo 2^64. */
  lemma UnsignedExact(t: int)
    ensures 0 <= Unsigned(t) < 0x1_0000_0000_0000_0000 && (t - Unsigned(t)) % 0x1_0000_0000_0000_0000 == 0
  {}

  // --- a printed line reads back as its record ---

  lemma {:induction false} TokenOfAddress(t: string, rest: string, max: nat)
    requires forall i :: 0 <= i < |t| ==> AddressChar(t[i])
    requires rest != "" && IsSpace(rest[0]) && |t| < max
    ensures TokenLength(t + rest, max) == |t|
  {
    if t == "" {
      assert t + rest == rest;
    } else {
      assert (t + rest)[1..] == t[1..] + rest;
      TokenOfAddress(t[1..], rest, max - 1);
    }
  }

  lemma ParsePrinted(accepts: Acceptor, h: Host)
    requires ValidAddress(accepts, h.text)
    ensures ParseLine(accepts, PrintLine(h)) == Some(RecordOf(h))
  {
    var line := PrintLine(h);
    var third := "\t" + Decimal(Unsigned(h.releaseAt)) + "\n";
    var second := "\t" + Decimal(Unsigned(h.bannedAt)) + third;
    assert line == h.text + second;
    assert line[0] == h.text[0] && AddressChar(h.text[0]);
    assert SkipSpaces(line) == line;
    TokenOfAddress(h.text, second, TEXT_MAX + 1);
    assert line[..|h.text|] == h.text && line[|h.text|..] == second;
    ScanPrinted(h.bannedAt, third);
    ScanPrinted(h.releaseAt, "\n");
  }

  // --- any line of a file ---

  /** What is stored of a number as it is written. */
  function Stored(sign: string, n: nat): Word {
    (if n >= 0x1_0000_0000_0000_0000 then 0xFFFF_FFFF_FFFF_FFFF else Signed(sign, n)) % 0x1_0000_0000
  }

  ghost predicate IsField(t: string) {
    1 <= |t| <= 48 && t[0] != '#' && forall i :: 0 <= i < |t| ==> !IsSpace(t[i])
  }

  lemma {:induction false} TokenOfField(t: string, rest: string, max: nat)
    requires (forall i :: 0 <= i < |t| ==> !IsSpace(t[i])) && rest != "" && IsSpace(rest[0]) && |t| <= max
    ensures TokenLength(t + rest, max) == |t|
  {
    if t == "" {
      assert t + rest == rest;
    } else {
      assert (t + rest)[1..] == t[1..] + rest;
      TokenOfField(t[1..], rest, max - 1);
    }
  }

  lemma StartsBlank(blanks: string, sign: string, n: nat, rest: string)
    requires AllSpaces(blanks) && blanks != ""
    ensures var w := Written(blanks, sign, n, rest); w != "" && IsSpace(w[0]) && !IsDigit(w[0])
  {}

  /** A line of an address and two numbers, whatever blanks and signs they have and whatever follows, is
      the record of them, if the address is one. */
  lemma LineRead(accepts: Acceptor, blanks: string, t: string, b1: string, s1: string, n1: nat,
                 b2: string, s2: string, n2: nat, rest: string)
    requires AllSpaces(blanks) && IsField(t) && b1 != "" && b2 != ""
    requires IsNumber(b1, s1, "") && IsNumber(b2, s2, rest)
    ensures ParseLine(accepts, blanks + (t + Written(b1, s1, n1, Written(b2, s2, n2, rest))))
         == if ValidAddress(accepts, t) then Some(Record(t, Stored(s1, n1), Stored(s2, n2))) else None
  {
    var second := Written(b2, s2, n2, rest);
    var first := Written(b1, s1, n1, second);
    StartsBlank(b2, s2, n2, rest);
    StartsBlank(b1, s1, n1, second);
    assert IsNumber(b1, s1, second);
    NumberScanned(b1, s1, n1, second);
    NumberScanned(b2, s2, n2, rest);
    hide Written, IsNumber, ScanNumber, SkipSpaces, ValidAddress, AllSpaces;
    SkipAllSpaces(blanks, t + first);
    TokenOfField(t, first, 48);
    assert (t + first)[..|t|] == t && (t + first)[|t|..] == first;
  }

  /** A line that starts with the mark of a comment, or is blank, holds no record. */
  lemma NoRecord(accepts: Acceptor, blanks: string, rest: string)
    requires AllSpaces(blanks) && (rest == "" || rest[0] == '#')
    ensures ParseLine(accepts, blanks + rest) == None
  {
    if rest == "" {
      assert blanks + rest == blanks;
      OnlySpaces(blanks);
    } else {
      SkipAllSpaces(blanks, rest);
    }
    hide ScanNumber;
  }

  // --- the lines of a printed file are found again ---

  predicate OneLine(s: string) {
    0 < |s| <= LINE_MAX && s[|s| - 1] == '\n' && forall i :: 0 <= i < |s| - 1 ==> s[i] != '\n'
  }

  lemma PrintedIsOneLine(h: Host)
    requires AddressShape(h.text)
    ensures OneLine(PrintLine(h))
  {
    DecimalDigits(Unsigned(h.bannedAt)); DecimalDigits(Unsigned(h.releaseAt));
    UnsignedLength(h.bannedAt); UnsignedLength(h.releaseAt);
    var b, r := Decimal(Unsigned(h.bannedAt)), Decimal(Unsigned(h.releaseAt));
    var line := PrintLine(h);
    assert line == h.text + ("\t" + b + "\t" + r + "\n");
    forall i | 0 <= i < |line| - 1 ensures line[i] != '\n' {
      if i < |h.text| { assert AddressChar(h.text[i]); }
    }
  }

  lemma LoadFirstLine(accepts: Acceptor, line: string, rest: string, list: seq<Record>)
    requires OneLine(line)
    ensures LoadOnto(accepts, line + rest, list) == LoadOnto(accepts, rest, Add(list, ParseLine(accepts, line)))
  {
    LineLengthOf(line, rest, LINE_MAX);
    assert (line + rest)[..|line|] == line && (line + rest)[|line|..] == rest;
  }

  /** What one more host at the end of a list adds to the file and to the loaded records. */
  lemma PrintOneMore(init: seq<Host>, h: Host)
    ensures PrintHosts(init + [h]) == PrintHosts(init) + if h.banned then PrintLine(h) else ""
    ensures BannedReversed(init + [h])
         == Add(BannedReversed(init), if h.banned then Some(RecordOf(h)) else None)
  {
    assert (init + [h])[..|init|] == init;
  }

  lemma AppendAssociates(a: string, b: string, c: string)
    ensures (a + b) + c == a + (b + c)
  {}

  lemma {:induction false} LoadPrinted(accepts: Acceptor, hosts: seq<Host>, rest: string)
    requires forall h :: h in hosts ==> ValidAddress(accepts, h.text)
    ensures LoadOnto(accepts, PrintHosts(hosts) + rest, []) == LoadOnto(accepts, rest, BannedReversed(hosts))
  {
    if hosts == [] {
      assert "" + rest == rest;
    } else {
      hide LoadOnto, PrintLine, ParseLine, OneLine, AddressShape, PrintHosts, BannedReversed;
      var init, h := hosts[..|hosts| - 1], hosts[|hosts| - 1];
      var line := if h.banned then PrintLine(h) else "";
      assert hosts == init + [h];
      PrintOneMore(init, h);
      AppendAssociates(PrintHosts(init), line, rest);
      LoadPrinted(accepts, init, line + rest);
      LoadLast(accepts, h, rest, BannedReversed(init));
    }
  }

  lemma LoadLast(accepts: Acceptor, h: Host, rest: string, list: seq<Record>)
    requires ValidAddress(accepts, h.text)
    ensures LoadOnto(accepts, (if h.banned then PrintLine(h) else "") + rest, list)
         == LoadOnto(accepts, rest, Add(list, if h.banned then Some(RecordOf(h)) else None))
  {
    if h.banned {
      PrintedIsOneLine(h);
      ParsePrinted(accepts, h);
      LoadFirstLine(accepts, PrintLine(h), rest, list);
    } else {
      assert "" + rest == rest;
    }
  }

  lemma HeaderIsOneLine()
    ensures OneLine(HEADER)
  {
    assert |HEADER| == 31;
  }

  lemma HeaderIsComment(accepts: Acceptor)
    ensures ParseLine(accepts, HEADER) == None
  {
    assert SkipSpaces(HEADER) == HEADER;
  }

  /** Reading a saved file yields the banned hosts in reverse order, times modulo 2^32. */
  lemma RoundTrip(accepts: Acceptor, hosts: seq<Host>)
    requires forall h :: h in hosts ==> ValidAddress(accepts, h.text)
    ensures Load(accepts, Print(hosts)) == BannedReversed(hosts)
  {
    HeaderIsOneLine();
    HeaderIsComment(accepts);
    hide OneLine, ParseLine, LoadOnto;
    LoadFirstLine(accepts, HEADER, PrintHosts(hosts), []);
    assert PrintHosts(hosts) + "" == PrintHosts(hosts);
    LoadPrinted(accepts, hosts, "");
    LoadNothing(accepts, BannedReversed(hosts));
  }

  /** The record of a line goes in front of those of the lines before it. */
  lemma RecordInFront(accepts: Acceptor, line: string, rest: string, list: seq<Record>)
    requires OneLine(line)
    ensures var r := ParseLine(accepts, line);
            && (r.None? ==> LoadOnto(accepts, line + rest, list) == LoadOnto(accepts, rest, list))
            && (r.Some? ==> LoadOnto(accepts, line + rest, list) == LoadOnto(accepts, rest, [r.value] + list))
  {
    hide OneLine, ParseLine, LoadOnto;
    LoadFirstLine(accepts, line, rest, list);
  }

  /** The records of a saved list come in the opposite order. */
  lemma {:induction false} ReversedJoin(a: seq<Host>, b: seq<Host>)
    ensures BannedReversed(a + b) == BannedReversed(b) + BannedReversed(a)
  {
    if b == [] {
      assert a + b == a && BannedReversed(b) == [];
    } else {
      hide BannedReversed;
      var init, h := b[..|b| - 1], b[|b| - 1];
      assert a + b == (a + init) + [h] && b == init + [h];
      ReversedJoin(a, init);
      ReversedMore(a + init, h);
      ReversedMore(init, h);
    }
  }

  lemma ReversedMore(init: seq<Host>, h: Host)
    ensures BannedReversed(init + [h]) == (if h.banned then [RecordOf(h)] else []) + BannedReversed(init)
  {
    assert (init + [h])[..|init|] == init;
    hide RecordOf;
  }

  lemma LoadNothing(accepts: Acceptor, list: seq<Record>)
    ensures LoadOnto(accepts, "", list) == list
  {}

  /** A time survives the round trip exactly when it fits 32 unsigned bits. */
  lemma TimeSurvives(h: Host)
    ensures RecordOf(h).releaseAt == h.releaseAt <==> 0 <= h.releaseAt < WORD
    ensures RecordOf(h).bannedAt == h.bannedAt <==> 0 <= h.bannedAt < WORD
  {}
}

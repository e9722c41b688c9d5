/** The text of configuration lines (config.c): parameters and section headers. */
module ConfigText {
  import opened Text
  import opened Configs

  // --- parameters ---

  /** The text up to the first of the given pairs of neighbours. */
  function CutBefore(t: string, pairs: set<(char, char)>): string {
    if |t| < 2 then t
    else if (t[0], t[1]) in pairs then ""
    else [t[0]] + CutBefore(t[1..], pairs)
  }

  /** What starts a comment behind a value: a blank and a mark. */
  const COMMENTS := {(' ', '#'), ('\t', '#'), (' ', ';'), ('\t', ';')}

  /** Without blanks at the end; the first character always stays. */
  function TrimBlanks(t: string): (r: string)
    ensures |r| <= |t|
  {
    if |t| > 1 && IsBlank(t[|t| - 1]) then TrimBlanks(t[..|t| - 1]) else t
  }

  /** Without white space at the end; the first character always stays. */
  function TrimSpaces(t: string): string {
    if |t| > 1 && IsSpace(t[|t| - 1]) then TrimSpaces(t[..|t| - 1]) else t
  }

  function Prefix(s: string, n: nat): string { s[..Min(|s|, n)] }

  function ValueText(after: string): string {
    TrimSpaces(CutBefore(after, COMMENTS))
  }

  /** What is between the leading blanks and the value. With nothing in front of the equals sign,
      two or more leading blanks keep the key from being cut off. */
  function KeyText(lead: nat, rest: string, e: nat, after: string): string
    requires e < |rest| && |after| <= |rest|
  {
    if e > 0 then TrimBlanks(rest[..e])
    else if lead >= 2 then rest[..|rest| - |after|] + ValueText(after)
    else ""
  }

  /** f2b_config_param_create */
  function ParseParam(src: string): Option<Param> {
    var line := Prefix(CString(src), LINE_MAX);
    var rest := SkipBlanks(line);
    SkipBlanksEnds(line);
    match Find(rest, '=')
    case None => None
    case Some(e) =>
      var after := SkipBlanks(rest[e + 1..]);
      SkipBlanksEnds(rest[e + 1..]);
      var key, value := KeyText(|line| - |rest|, rest, e, after), ValueText(after);
      if 1 <= |key| <= KEY_MAX && 1 <= |value| <= VALUE_MAX then Some(Param(key, value)) else None
  }

  /** The parts of a parameter line. */
  lemma Composed(src: string, text: string, rest: string)
    requires text == Prefix(CString(src), LINE_MAX) && rest == SkipBlanks(text) && |rest| <= |text|
    ensures match Find(rest, '=')
            case None => ParseParam(src) == None
            case Some(e) =>
              var after := SkipBlanks(rest[e + 1..]);
              && |after| <= |rest|
              && var key, value := KeyText(|text| - |rest|, rest, e, after), ValueText(after);
                 ParseParam(src) == if 1 <= |key| <= KEY_MAX && 1 <= |value| <= VALUE_MAX
                                    then Some(Param(key, value)) else None
  {
    hide CString, SkipBlanks, Find, KeyText, ValueText, Prefix;
    if Find(rest, '=').Some? { SkipBlanksEnds(rest[Find(rest, '=').value + 1..]); }
  }

  // --- section headers ---

  predicate StartsWith(s: string, word: string) {
    |word| <= |s| && s[..|word|] == word
  }

  function Named(t: SectionType, s: string, word: string): SectionId
    requires |word| <= |s|
  {
    SectionId(t, Prefix(s[|word|..], KEY_MAX))
  }

  /** The section that the text between the brackets names. */
  function SectionOf(s: string): Option<SectionId> {
    if StartsWith(s, "main") then Some(SectionId(Main, ""))
    else if StartsWith(s, "csocket") then Some(SectionId(Csocket, ""))
    else if StartsWith(s, "defaults") then Some(SectionId(Defaults, ""))
    else if StartsWith(s, "source:") then Some(Named(Source, s, "source:"))
    else if StartsWith(s, "backend:") then Some(Named(Backend, s, "backend:"))
    else if StartsWith(s, "filter:") then Some(Named(Filter, s, "filter:"))
    else if StartsWith(s, "jail:") then Some(Named(Jail, s, "jail:"))
    else None
  }

  /** f2b_config_section_create, of the text behind the bracket */
  function ParseHeader(src: string): Option<SectionId> {
    var line := Prefix(CString(src), LINE_MAX);
    match Find(line, ']')
    case None => None
    case Some(end) => SectionOf(line[..end])
  }

  // --- lines ---

  function CutAt(s: string, c: char): string {
    match Find(s, c)
    case None => s
    case Some(k) => s[..k]
  }

  /** One line as fgets gives it. */
  function ReadLine(raw: string): Line {
    var p := SkipBlanks(CutAt(CutAt(CString(raw), '\r'), '\n'));
    if p == "" || p[0] == ';' || p[0] == '#' then Nothing
    else if p[0] == '[' then Header(ParseHeader(p[1..]))
    else Pair(ParseParam(p))
  }

  function ReadLines(content: string): seq<Line>
    decreases |content|
  {
    if content == "" then []
    else
      var n := LineLength(content, LINE_MAX);
      [ReadLine(content[..n])] + ReadLines(content[n..])
  }

  // --- headers and lines by their first characters ---

  /** The text of a header ends at the first bracket. */
  lemma HeaderCut(s: string, more: string)
    requires NulFree(s) && ']' !in s && |s| < LINE_MAX
    ensures var line := Prefix(CString(s + ("]" + more)), LINE_MAX);
            Find(line, ']') == Some(|s|) && line[..|s|] == s
  {
    hide Find, CString;
    var tail := CString("]" + more);
    CStringFront(s, "]" + more);
    CStringFront("]", more);
    assert tail == "]" + CString(more) && tail[0] == ']';
    var line := Prefix(s + tail, LINE_MAX);
    assert forall i :: 0 <= i < |s| ==> line[i] == s[i] && s[i] in s;
    FindFrom(line, ']', |s|);
    assert line[|s|..][0] == ']';
    FindStart(line[|s|..], ']');
  }

  lemma FindStart(s: string, c: char)
    requires s != "" && s[0] == c != '\0'
    ensures Find(s, c) == Some(0)
  {}

  predicate HeaderName(name: string) {
    NulFree(name) && ']' !in name && |name| <= 200
  }

  lemma TextOfHeader(s: string, more: string)
    requires NulFree(s) && ']' !in s && |s| < LINE_MAX
    ensures ParseHeader(s + ("]" + more)) == SectionOf(s)
  {
    HeaderCut(s, more);
    hide CString, Find, SectionOf, Prefix;
  }

  lemma WordInFront(word: string, name: string)
    requires word != ""
    ensures StartsWith(word + name, word) && (word + name)[0] == word[0]
  {}

  lemma NameBehind(t: SectionType, word: string, name: string)
    ensures Named(t, word + name, word) == SectionId(t, if |name| <= 31 then name else name[..31])
  {
    assert (word + name)[|word|..] == name;
  }

  /** The words of the headers start with different letters. */
  lemma ByLetter(s: string)
    requires s != ""
    ensures s[0] != 'j' ==> !StartsWith(s, "jail:")
    ensures s[0] != 'f' ==> !StartsWith(s, "filter:")
    ensures s[0] != 'b' ==> !StartsWith(s, "backend:")
    ensures s[0] != 's' ==> !StartsWith(s, "source:")
    ensures s[0] != 'd' ==> !StartsWith(s, "defaults")
    ensures s[0] != 'c' ==> !StartsWith(s, "csocket")
    ensures s[0] != 'm' ==> !StartsWith(s, "main")
  {}

  lemma SectionTypes(name: string)
    ensures var kept := if |name| <= 31 then name else name[..31];
            && SectionOf("jail:" + name) == Some(SectionId(Jail, kept))
            && SectionOf("filter:" + name) == Some(SectionId(Filter, kept))
            && SectionOf("backend:" + name) == Some(SectionId(Backend, kept))
            && SectionOf("source:" + name) == Some(SectionId(Source, kept))
            && SectionOf("defaults" + name) == Some(SectionId(Defaults, ""))
            && SectionOf("csocket" + name) == Some(SectionId(Csocket, ""))
            && SectionOf("main" + name) == Some(SectionId(Main, ""))
  {
    WordInFront("jail:", name);
    NameBehind(Jail, "jail:", name);
    ByLetter("jail:" + name);
    WordInFront("filter:", name);
    NameBehind(Filter, "filter:", name);
    ByLetter("filter:" + name);
    WordInFront("backend:", name);
    NameBehind(Backend, "backend:", name);
    ByLetter("backend:" + name);
    WordInFront("source:", name);
    NameBehind(Source, "source:", name);
    ByLetter("source:" + name);
    WordInFront("defaults", name);
    ByLetter("defaults" + name);
    WordInFront("csocket", name);
    ByLetter("csocket" + name);
    WordInFront("main", name);
    ByLetter("main" + name);
    hide StartsWith, Named;
  }

  lemma HeaderShort(word: string, name: string)
    requires HeaderName(name) && NulFree(word) && ']' !in word && |word| <= 8
    ensures var s := word + name; NulFree(s) && ']' !in s && |s| < LINE_MAX
  {}

  /** The type and the name of a section, by what its header starts with; 31 characters of a name stay. */
  lemma HeaderTypes(name: string, more: string)
    requires HeaderName(name)
    ensures var kept := if |name| <= 31 then name else name[..31];
            && ParseHeader("jail:" + name + ("]" + more)) == Some(SectionId(Jail, kept))
            && ParseHeader("filter:" + name + ("]" + more)) == Some(SectionId(Filter, kept))
            && ParseHeader("backend:" + name + ("]" + more)) == Some(SectionId(Backend, kept))
            && ParseHeader("source:" + name + ("]" + more)) == Some(SectionId(Source, kept))
            && ParseHeader("defaults" + name + ("]" + more)) == Some(SectionId(Defaults, ""))
            && ParseHeader("csocket" + name + ("]" + more)) == Some(SectionId(Csocket, ""))
            && ParseHeader("main" + name + ("]" + more)) == Some(SectionId(Main, ""))
  {
    HeaderShort("jail:", name);
    HeaderShort("filter:", name);
    HeaderShort("backend:", name);
    HeaderShort("source:", name);
    HeaderShort("defaults", name);
    HeaderShort("csocket", name);
    HeaderShort("main", name);
    hide HeaderName, NulFree, ParseHeader, SectionOf;
    SectionTypes(name);
    TextOfHeader("jail:" + name, more);
    TextOfHeader("filter:" + name, more);
    TextOfHeader("backend:" + name, more);
    TextOfHeader("source:" + name, more);
    TextOfHeader("defaults" + name, more);
    TextOfHeader("csocket" + name, more);
    TextOfHeader("main" + name, more);
  }

  /** Without a closing bracket in the line, and with any other text in front, there is no section. */
  lemma NoSection(src: string)
    requires var line := Prefix(CString(src), LINE_MAX);
             Find(line, ']').None? || var s := line[..Find(line, ']').value];
             forall w :: w in {"main", "csocket", "defaults", "source:", "backend:", "filter:", "jail:"} ==> !StartsWith(s, w)
    ensures ParseHeader(src) == None
  {
    hide CString, Find, Prefix, StartsWith;
  }

  lemma CutMisses(s: string, c: char)
    requires NulFree(s) && c !in s
    ensures CutAt(s, c) == s
  {}

  lemma CutFront(s: string, rest: string, c: char)
    requires NulFree(s) && c !in s && rest != "" && rest[0] == c != '\0'
    ensures CutAt(s + rest, c) == s
  {
    hide Find;
    var t := s + rest;
    forall i | 0 <= i < |s| ensures t[i] != '\0' && t[i] != c { assert t[i] == s[i] && s[i] in s; }
    FindFrom(t, c, |s|);
    assert t[|s|..] == rest;
    FindStart(rest, c);
  }

  /** Line ends are cut off, with or without a carriage return. */
  lemma EndCut(s: string, end: string)
    requires NulFree(s) && '\r' !in s && '\n' !in s && (end == "" || end == "\n" || end == "\r\n")
    ensures CutAt(CutAt(CString(s + end), '\r'), '\n') == s
  {
    hide CString, CutAt;
    assert NulFree(s + end);
    CStringOf(s + end);
    CutMisses(s, '\n');
    if end == "" {
      assert s + end == s;
      CutMisses(s, '\r');
    } else if end == "\n" {
      CutMisses(s + end, '\r');
      CutFront(s, end, '\n');
    } else {
      CutFront(s, end, '\r');
    }
  }

  /** What a line is, by its first character behind the blanks. */
  lemma LineKinds(blanks: string, body: string, end: string)
    requires Blanks(blanks) && NulFree(body) && '\r' !in body && '\n' !in body
    requires (body != "" ==> !IsBlank(body[0])) && (end == "" || end == "\n" || end == "\r\n")
    ensures ReadLine(blanks + body + end)
         == if body == "" || body[0] == '#' || body[0] == ';' then Nothing
            else if body[0] == '[' then Header(ParseHeader(body[1..]))
            else Pair(ParseParam(body))
  {
    hide CString, Find, ParseHeader, ParseParam;
    var text := blanks + body;
    assert NulFree(text) && '\r' !in text && '\n' !in text;
    EndCut(text, end);
    BlanksPassed(text, |blanks|);
    assert text[|blanks|..] == body;
  }

  /** A file is read line by line, from its front. */
  lemma FirstLineFirst(line: string, rest: string)
    requires 0 < |line| <= 255 && line[|line| - 1] == '\n' && forall i :: 0 <= i < |line| - 1 ==> line[i] != '\n'
    ensures ReadLines(line + rest) == [ReadLine(line)] + ReadLines(rest)
  {
    hide ReadLine;
    LineLengthOf(line, rest, LINE_MAX);
    assert (line + rest)[..|line|] == line && (line + rest)[|line|..] == rest;
  }

  // --- comments ---

  ghost predicate Marks(pairs: set<(char, char)>) {
    forall p :: p in pairs ==> IsBlank(p.0) && !IsBlank(p.1)
  }

  /** Cutting at some marks and then at others is cutting at all of them. */
  lemma {:induction false} CutsJoin(t: string, p: set<(char, char)>, q: set<(char, char)>)
    requires Marks(p) && Marks(q)
    ensures CutBefore(CutBefore(t, p), q) == CutBefore(t, p + q)
  {
    if |t| >= 2 && (t[0], t[1]) !in p {
      CutsJoin(t[1..], p, q);
      var u := CutBefore(t[1..], p);
      assert CutBefore(t, p) == [t[0]] + u && ([t[0]] + u)[1..] == u;
      CutKeepsFirst(t[1..], p);
    }
  }

  lemma CutKeepsFirst(t: string, p: set<(char, char)>)
    requires t != ""
    ensures var u := CutBefore(t, p);
            if u == "" then |t| >= 2 && (t[0], t[1]) in p else u[0] == t[0]
  {}

  lemma {:induction false} NoPair(t: string, pairs: set<(char, char)>)
    requires forall k :: 0 <= k < |t| - 1 ==> (t[k], t[k + 1]) !in pairs
    ensures CutBefore(t, pairs) == t
  {
    if |t| >= 2 {
      assert (t[0], t[1]) !in pairs;
      var u := t[1..];
      forall k | 0 <= k < |u| - 1 ensures (u[k], u[k + 1]) !in pairs { assert (t[k + 1], t[k + 2]) !in pairs; }
      NoPair(u, pairs);
      assert t == [t[0]] + u;
    }
  }

  lemma {:induction false} FirstPair(t: string, pairs: set<(char, char)>, i: nat)
    requires i + 1 < |t| && (t[i], t[i + 1]) in pairs
    requires forall k :: 0 <= k < i ==> (t[k], t[k + 1]) !in pairs
    ensures CutBefore(t, pairs) == t[..i]
  {
    if i > 0 {
      assert (t[0], t[1]) !in pairs;
      var u := t[1..];
      forall k | 0 <= k < i - 1 ensures (u[k], u[k + 1]) !in pairs { assert (t[k + 1], t[k + 2]) !in pairs; }
      FirstPair(u, pairs, i - 1);
      assert t[..i] == [t[0]] + u[..i - 1];
    }
  }

  lemma {:induction false} TrimSpacesTo(t: string, n: nat)
    requires 0 < n <= |t| && (forall i :: n <= i < |t| ==> IsSpace(t[i])) && (n > 1 ==> !IsSpace(t[n - 1]))
    ensures TrimSpaces(t) == t[..n]
  {
    if n < |t| {
      TrimSpacesTo(t[..|t| - 1], n);
      assert t[..|t| - 1][..n] == t[..n];
    } else {
      assert t[..n] == t;
    }
  }

  lemma {:induction false} TrimBlanksTo(t: string, n: nat)
    requires 0 < n <= |t| && (forall i :: n <= i < |t| ==> IsBlank(t[i])) && (n > 1 ==> !IsBlank(t[n - 1]))
    ensures TrimBlanks(t) == t[..n]
  {
    if n < |t| {
      TrimBlanksTo(t[..|t| - 1], n);
      assert t[..|t| - 1][..n] == t[..n];
    } else {
      assert t[..n] == t;
    }
  }

  lemma {:induction false} BlanksPassed(s: string, n: nat)
    requires n <= |s| && (forall i :: 0 <= i < n ==> IsBlank(s[i])) && (n < |s| ==> !IsBlank(s[n]))
    ensures SkipBlanks(s) == s[n..]
  {
    if n > 0 {
      BlanksPassed(s[1..], n - 1);
      assert s[1..][n - 1..] == s[n..];
    }
  }

  lemma {:induction false} CStringClean(s: string)
    ensures NulFree(CString(s))
  {
    if s != "" && s[0] != '\0' { CStringClean(s[1..]); }
  }

  // --- a parameter written out and read back ---

  ghost predicate GoodKey(key: string) {
    && key != "" && NulFree(key) && '=' !in key
    && !IsBlank(key[0]) && !IsBlank(key[|key| - 1])
  }

  ghost predicate GoodValue(value: string) {
    && value != "" && NulFree(value) && !IsBlank(value[0])
    && (|value| > 1 ==> !IsSpace(value[|value| - 1]))
    && forall k :: 0 <= k < |value| - 1 ==> (value[k], value[k + 1]) !in COMMENTS
  }

  predicate Blanks(s: string) { forall i :: 0 <= i < |s| ==> IsBlank(s[i]) }

  /** Nothing, or a comment set off by a blank. */
  predicate Trailer(s: string) {
    s == "" || (|s| >= 2 && (s[0], s[1]) in COMMENTS && NulFree(s))
  }

  lemma ValueRead(value: string, more: string)
    requires GoodValue(value) && Trailer(more)
    ensures ValueText(value + more) == value
  {
    hide CutBefore, TrimSpaces;
    var t := value + more;
    forall k | 0 <= k < |value| && k + 1 < |t| ensures (t[k], t[k + 1]) !in COMMENTS {
      if k + 1 < |value| { assert (value[k], value[k + 1]) !in COMMENTS; }
    }
    if more == "" {
      assert t == value;
      NoPair(t, COMMENTS);
    } else {
      assert t[|value|] == more[0] && t[|value| + 1] == more[1];
      FirstPair(t, COMMENTS, |value|);
    }
    TrimSpacesTo(value, |value|);
  }

  lemma KeyRead(key: string, gap: string, rest: string)
    requires GoodKey(key) && Blanks(gap) && rest != "" && rest[0] == '='
    ensures var t := key + gap + rest;
            Find(t, '=') == Some(|key| + |gap|) && TrimBlanks(t[..|key| + |gap|]) == key && SkipBlanks(t) == t
  {
    hide TrimBlanks, Find;
    var t, e := key + gap + rest, |key| + |gap|;
    forall i | 0 <= i < e ensures t[i] != '\0' && t[i] != '=' {
      if i < |key| { assert t[i] == key[i] && key[i] in key; } else { assert t[i] == gap[i - |key|]; }
    }
    FindFrom(t, '=', e);
    assert t[e..] == rest;
    FindHere(rest, '=');
    assert t[..e] == key + gap && (key + gap)[..|key|] == key;
    TrimBlanksTo(key + gap, |key|);
    assert t[0] == key[0];
  }

  lemma FindHere(s: string, c: char)
    requires s != "" && s[0] == c != '\0'
    ensures Find(s, c) == Some(0)
  {}

  /** A parameter line reads as its key and value, whatever blanks surround the equals sign and
      whatever comment follows, unless the key has more than 31 characters or the value more than 191. */
  lemma ParamReadBack(key: string, gap: string, gap': string, value: string, more: string)
    requires GoodKey(key) && Blanks(gap) && Blanks(gap') && GoodValue(value) && Trailer(more)
    requires |key| + |gap| + 1 + |gap'| + |value| + |more| <= 255
    ensures ParseParam(key + gap + "=" + gap' + value + more)
         == if |key| <= 31 && |value| <= 191 then Some(Param(key, value)) else None
  {
    hide *;
    var rest := "=" + gap' + value + more;
    var line := key + gap + rest;
    var e := |key| + |gap|;
    LineShape(key, gap, gap', value, more);
    NotEmpty(key, value);
    Limits();
    NulFreeLine(key, gap, gap', value, more);
    CStringOf(line);
    PrefixAll(line, LINE_MAX);
    KeyRead(key, gap, rest);
    GapSkipped(gap', value, more);
    ValueRead(value, more);
    Composed(line, line, line);
    KeyKept(line, e, value + more);
  }

  /** A line without an equals sign is no parameter. */
  lemma NoEquals(src: string)
    requires NulFree(src) && '=' !in src && |src| <= 255
    ensures ParseParam(src) == None
  {
    CStringOf(src);
    SkipBlanksEnds(src);
    hide CString, SkipBlanks, KeyText, ValueText;
    var rest := SkipBlanks(src);
    assert Prefix(src, LINE_MAX) == src;
    assert forall i :: 0 <= i < |rest| ==> rest[i] == src[|src| - |rest| + i] && rest[i] in src;
  }

  /** With nothing in front of the equals sign there is no parameter, unless two or more blanks are: then
      the key is the line from the equals sign on. */
  lemma NoKey(lead: string, gap: string, value: string, more: string)
    requires Blanks(lead) && Blanks(gap) && GoodValue(value) && Trailer(more)
    requires |lead| + 1 + |gap| + |value| + |more| <= 255
    ensures ParseParam(lead + ("=" + gap + value + more))
         == if |lead| >= 2 && 1 + |gap| + |value| <= 31 then Some(Param("=" + gap + value, value)) else None
  {
    hide *;
    var rest := "=" + gap + value + more;
    var line := lead + rest;
    Limits();
    NoKeyShape(lead, gap, value, more);
    CStringOf(line);
    PrefixAll(line, LINE_MAX);
    BlanksPassed(line, |lead|);
    FindStart(rest, '=');
    GapSkipped(gap, value, more);
    ValueRead(value, more);
    Composed(line, line, rest);
    NoKeyText(|lead|, rest, value + more, gap);
  }

  lemma NoKeyShape(lead: string, gap: string, value: string, more: string)
    requires Blanks(lead) && Blanks(gap) && GoodValue(value) && Trailer(more)
    ensures var rest := "=" + gap + value + more;
            var line := lead + rest;
            && |line| == |lead| + 1 + |gap| + |value| + |more| && value != ""
            && rest != "" && rest[0] == '=' && !IsBlank(rest[0]) && rest[1..] == gap + (value + more)
            && NulFree(line) && line[|lead|..] == rest
            && (forall k :: 0 <= k < |lead| ==> IsBlank(line[k])) && line[|lead|] == '='
  {
    hide GoodValue, Trailer;
    var rest := "=" + gap + value + more;
    NulFreeParts(value, more);
    assert forall k :: 0 <= k < |lead| ==> IsBlank(lead[k]);
    assert (lead + rest)[|lead|] == rest[0];
  }

  lemma NulFreeParts(value: string, more: string)
    requires GoodValue(value) && Trailer(more)
    ensures value != "" && NulFree(value) && NulFree(more)
  {}

  lemma NoKeyText(lead: nat, rest: string, after: string, gap: string)
    requires rest == "=" + gap + after
    ensures KeyText(lead, rest, 0, after) == if lead >= 2 then "=" + gap + ValueText(after) else ""
  {
    hide ValueText;
    assert rest[..|rest| - |after|] == "=" + gap;
  }

  lemma LineShape(key: string, gap: string, gap': string, value: string, more: string)
    ensures var rest := "=" + gap' + value + more;
            var line := key + gap + rest;
            && key + gap + "=" + gap' + value + more == line
            && rest != "" && rest[0] == '='
            && |line| == |key| + |gap| + 1 + |gap'| + |value| + |more|
            && line[|key| + |gap| + 1..] == gap' + (value + more)
  {}

  lemma PrefixAll(s: string, n: nat)
    requires |s| <= n
    ensures Prefix(s, n) == s
  {}

  lemma GapSkipped(gap: string, value: string, more: string)
    requires Blanks(gap) && GoodValue(value)
    ensures SkipBlanks(gap + (value + more)) == value + more
  {
    hide SkipBlanks;
    var tail := gap + (value + more);
    assert tail[|gap|..] == value + more && tail[|gap|] == value[0];
    BlanksPassed(tail, |gap|);
  }

  lemma KeyKept(line: string, e: nat, after: string)
    requires 0 < e < |line| && |after| <= |line|
    ensures KeyText(|line| - |line|, line, e, after) == TrimBlanks(line[..e])
  {}

  lemma Limits()
    ensures LINE_MAX == 255 && KEY_MAX == 31 && VALUE_MAX == 191
  {}

  lemma NotEmpty(key: string, value: string)
    requires GoodKey(key) && GoodValue(value)
    ensures 1 <= |key| && 1 <= |value|
  {}

  lemma NulFreeLine(key: string, gap: string, gap': string, value: string, more: string)
    requires GoodKey(key) && Blanks(gap) && Blanks(gap') && GoodValue(value) && Trailer(more)
    ensures NulFree(key + gap + ("=" + gap' + value + more))
  {
    NulFreeJoin(key, gap);
    NulFreeJoin("=", gap');
    NulFreeJoin("=" + gap', value);
    NulFreeJoin("=" + gap' + value, more);
    NulFreeJoin(key + gap, "=" + gap' + value + more);
  }

  lemma NulFreeJoin(a: string, b: string)
    requires NulFree(a) && NulFree(b)
    ensures NulFree(a + b)
  {}
}

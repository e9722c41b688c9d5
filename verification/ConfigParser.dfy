/** f2b_config_param_create works on one line buffer: it cuts the key and the value out in place. */
module ConfigParser {
  import opened Text
  import opened Configs
  import opened ConfigText

  /** The text is a C string in the buffer. */
  ghost predicate Stored(line: array<char>, at: nat, text: string)
    reads line
  {
    && at + |text| < line.Length && line[at + |text|] == '\0' && NulFree(text)
    && forall i :: 0 <= i < |text| ==> line[at + i] == text[i]
  }

  /** End the text after n characters. */
  method EndAt(line: array<char>, at: nat, n: nat, ghost text: string)
    requires Stored(line, at, text) && n <= |text|
    modifies line
    ensures Stored(line, at, text[..n])
    ensures forall i :: 0 <= i < line.Length && i != at + n ==> line[i] == old(line[i])
  {
    line[at + n] := '\0';
  }

  /** strstr(value, pair), and the end of the value there. */
  method CutPair(line: array<char>, at: nat, a: char, b: char, ghost text: string)
    requires Stored(line, at, text) && a != '\0' && b != '\0'
    modifies line
    ensures Stored(line, at, CutBefore(text, {(a, b)}))
    ensures forall i :: 0 <= i < at ==> line[i] == old(line[i])
  {
    hide CutBefore;
    ghost var pairs := {(a, b)};
    var i := 0;
    while line[at + i] != '\0' && !(line[at + i] == a && line[at + i + 1] == b)
      invariant i <= |text|
      invariant forall k :: 0 <= k < i && k + 1 < |text| ==> (text[k], text[k + 1]) !in pairs
      decreases |text| - i
    {
      i := i + 1;
    }
    assert i < |text| ==> text[i] == line[at + i];
    assert i + 1 < |text| ==> text[i + 1] == line[at + (i + 1)];
    if line[at + i] == '\0' {
      NoPair(text, pairs);
    } else {
      FirstPair(text, pairs, i);
      EndAt(line, at, i, text);
    }
  }

  /** All four comment marks, one after the other. */
  method CutComment(line: array<char>, at: nat, ghost text: string)
    requires Stored(line, at, text)
    modifies line
    ensures Stored(line, at, CutBefore(text, COMMENTS))
    ensures forall i :: 0 <= i < at ==> line[i] == old(line[i])
  {
    hide CutBefore, Stored;
    ghost var p1, p2, p3, p4 := {(' ', '#')}, {('\t', '#')}, {(' ', ';')}, {('\t', ';')};
    CutPair(line, at, ' ', '#', text);
    CutPair(line, at, '\t', '#', CutBefore(text, p1));
    CutsJoin(text, p1, p2);
    CutPair(line, at, ' ', ';', CutBefore(text, p1 + p2));
    CutsJoin(text, p1 + p2, p3);
    CutPair(line, at, '\t', ';', CutBefore(text, p1 + p2 + p3));
    CutsJoin(text, p1 + p2 + p3, p4);
    assert p1 + p2 + p3 + p4 == COMMENTS;
  }

  /** Cut white space from the end of the value. */
  method TrimValue(line: array<char>, at: nat, ghost text: string)
    requires Stored(line, at, text) && at + 1 < line.Length
    modifies line
    ensures Stored(line, at, TrimSpaces(text))
    ensures forall i :: 0 <= i < at ==> line[i] == old(line[i])
  {
    hide TrimSpaces;
    ghost var n := |text|;
    var p := EndOf(line, at, text);
    if p > at {
      p := p - 1;
    }
    while p > at && IsSpace(line[p])
      invariant at <= p && (text == "" ==> p == at) && (text != "" ==> p < at + |text|)
      invariant forall i :: p - at < i < |text| ==> IsSpace(text[i])
    {
      p := p - 1;
    }
    p := p + 1;
    line[p] := '\0';
    if text == "" {
      TrimNothing();
    } else {
      TrimSpacesTo(text, p - at);
    }
  }

  lemma TrimNothing()
    ensures TrimSpaces("") == ""
  {}

  /** strlen */
  method EndOf(line: array<char>, at: nat, ghost text: string) returns (p: nat)
    requires Stored(line, at, text)
    ensures p == at + |text|
  {
    var n := 0;
    while line[at + n] != '\0'
      invariant n <= |text| && (n < |text| ==> line[at + n] == text[n])
      decreases |text| - n
    {
      n := n + 1;
    }
    p := at + n;
  }

  /** The first character that is not blank. */
  method SkipBlanksAt(line: array<char>, at: nat, ghost text: string) returns (p: nat)
    requires Stored(line, at, text)
    ensures at <= p <= at + |text| && SkipBlanks(text) == text[p - at..]
  {
    hide SkipBlanks;
    var n := 0;
    while IsBlank(line[at + n])
      invariant n <= |text| && forall i :: 0 <= i < n ==> IsBlank(text[i])
      decreases |text| - n
    {
      n := n + 1;
    }
    BlanksPassed(text, n);
    p := at + n;
  }

  /** strchr */
  method FindAt(line: array<char>, at: nat, c: char, ghost text: string) returns (p: Option<nat>)
    requires Stored(line, at, text) && c != '\0'
    ensures match Find(text, c)
            case None => p == None
            case Some(k) => p == Some(at + k)
  {
    var n := 0;
    while line[at + n] != '\0' && line[at + n] != c
      invariant n <= |text| && forall i :: 0 <= i < n ==> text[i] != c
      decreases |text| - n
    {
      n := n + 1;
    }
    FindFrom(text, c, n);
    p := if line[at + n] == c then Some(at + n) else None;
  }

  /** Cut blanks from the end of the key, going back from the equals sign at the given place. */
  method TrimKey(line: array<char>, key: nat, at: nat, ghost text: string)
    requires key <= at && Stored(line, 0, text) && at < |text| && text[at] == '='
    requires (forall i :: 0 <= i < key ==> IsBlank(text[i])) && (key < at ==> !IsBlank(text[key]))
    modifies line
    ensures forall i :: at < i < line.Length ==> line[i] == old(line[i])
    ensures key < at ==> Stored(line, key, TrimBlanks(text[key..at]))
    ensures key == at < 2 ==> line[key] == '\0'
    ensures key == at >= 2 ==> forall i :: 2 <= i < line.Length ==> line[i] == old(line[i])
  {
    hide TrimBlanks;
    var p: int := at - 1;
    while p > 0 && IsBlank(line[p])
      invariant -1 <= p < at && (at > 0 ==> p >= 0) && (key < at ==> p >= key)
      invariant (forall i :: p < i < at ==> IsBlank(text[i])) && (p >= 0 ==> line[p] == text[p])
    {
      p := p - 1;
    }
    assert key == at ==> p == if at == 0 then -1 else 0;
    p := p + 1;
    line[p] := '\0';
    if key < at {
      assert text[key..at][..p - key] == text[key..p];
      TrimBlanksTo(text[key..at], p - key);
    }
  }

  /** strlcpy into a buffer of LINE_MAX characters and a terminator, with one cell to spare. */
  method LineBuffer(src: string) returns (line: array<char>, ghost text: string)
    ensures fresh(line) && line.Length == LINE_MAX + 2
    ensures text == Prefix(CString(src), LINE_MAX) && |text| <= LINE_MAX
    ensures Stored(line, 0, text)
  {
    CStringClean(src);
    hide CString;
    var s := Prefix(CString(src), LINE_MAX);
    line := new char[LINE_MAX + 2](_ => '\0');
    forall i | 0 <= i < |s| { line[i] := s[i]; }
    text := s;
  }

  /** The C string at a place of the buffer. */
  method TextAt(line: array<char>, at: nat, ghost text: string) returns (s: string)
    requires Stored(line, at, text)
    ensures s == text
  {
    hide CString;
    var rest := line[at..];
    assert rest[..|text|] == text;
    CStringPrefix(rest, |text|);
    s := CString(rest);
  }

  lemma StoredTail(line: array<char>, text: string, k: nat)
    requires Stored(line, 0, text) && k <= |text|
    ensures Stored(line, k, text[k..])
  {}

  /** The value behind the equals sign, cut out in place. */
  method TakeValue(line: array<char>, behind: nat, ghost tail: string) returns (value: nat, ghost after: string)
    requires Stored(line, behind, tail) && behind + |tail| + 1 < line.Length
    modifies line
    ensures after == SkipBlanks(tail) && value + |after| == behind + |tail|
    ensures Stored(line, value, ValueText(after)) && behind <= value
    ensures forall i :: 0 <= i < value ==> line[i] == old(line[i])
  {
    hide SkipBlanks, CutBefore, TrimSpaces;
    value := SkipBlanksAt(line, behind, tail);
    after := tail[value - behind..];
    assert Stored(line, value, after);
    CutComment(line, value, after);
    TrimValue(line, value, CutBefore(after, COMMENTS));
  }

  /** The key as the final comparison of lengths finds it. */
  method TakeKey(line: array<char>, key: nat, e: nat, value: nat, ghost text: string, ghost after: string)
    returns (s: string)
    requires key <= e < value && value + |after| == |text| && NulFree(text)
    requires Stored(line, value, ValueText(after))
    requires key < e ==> Stored(line, key, TrimBlanks(text[key..e]))
    requires key == e < 2 ==> line[key] == '\0'
    requires key == e >= 2 ==> forall i :: key <= i < value ==> line[i] == text[i]
    ensures s == KeyText(key, text[key..], e - key, after)
  {
    hide CString, ValueText, TrimBlanks;
    ghost var rest := text[key..];
    if key < e {
      assert rest[..e - key] == text[key..e];
      s := TextAt(line, key, TrimBlanks(text[key..e]));
    } else if key < 2 {
      s := TextAt(line, key, "");
    } else {
      ghost var all := text[key..value] + ValueText(after);
      assert rest[..|rest| - |after|] == text[key..value];
      forall i | 0 <= i < |all| ensures line[key + i] == all[i] && all[i] != '\0' {
        if i < value - key {
          assert line[key + i] == text[key + i];
        } else {
          assert line[value + (i - (value - key))] == ValueText(after)[i - (value - key)];
        }
      }
      s := TextAt(line, key, all);
    }
  }

  /** Cut key and value out of the buffer, around the equals sign at the given place. */
  method TakePair(line: array<char>, key: nat, e: nat, ghost text: string) returns (keyText: string, valueText: string)
    requires key <= e < |text| && Stored(line, 0, text) && |text| + 1 < line.Length && text[e] == '='
    requires (forall i :: 0 <= i < key ==> IsBlank(text[i])) && (key < e ==> !IsBlank(text[key]))
    modifies line
    ensures var after := SkipBlanks(text[e + 1..]);
            && |after| <= |text| - key
            && keyText == KeyText(key, text[key..], e - key, after) && valueText == ValueText(after)
  {
    hide CString, SkipBlanks, CutBefore, TrimSpaces, TrimBlanks, KeyText, ValueText;
    StoredTail(line, text, e + 1);
    ghost var tail := text[e + 1..];
    TrimKey(line, key, e, text);
    var value;
    ghost var after;
    value, after := TakeValue(line, e + 1, tail);
    keyText := TakeKey(line, key, e, value, text, after);
    valueText := TextAt(line, value, ValueText(after));
  }

  /** f2b_config_param_create */
  method CreateParam(src: string) returns (param: Option<Param>)
    ensures param == ParseParam(src)
  {
    hide CString, SkipBlanks, CutBefore, TrimSpaces, TrimBlanks, Find, KeyText, ValueText, ParseParam, Prefix;
    var line;
    ghost var text;
    line, text := LineBuffer(src);
    var key := SkipBlanksAt(line, 0, text);
    ghost var rest := SkipBlanks(text);
    SkipBlanksEnds(text);
    BlankLead(text);
    StoredTail(line, text, key);
    var equals := FindAt(line, key, '=', rest);
    Composed(src, text, rest);
    if equals.None? {
      return None;
    }
    var keyText, valueText := TakePair(line, key, equals.value, text);
    assert rest[equals.value - key + 1..] == text[equals.value + 1..];
    if |keyText| < 1 || |keyText| > KEY_MAX || |valueText| < 1 || |valueText| > VALUE_MAX {
      return None;
    }
    param := Some(Param(keyText, valueText));
  }

  lemma {:induction false} BlankLead(s: string)
    ensures var k := |s| - |SkipBlanks(s)|; k >= 0 && forall i :: 0 <= i < k ==> IsBlank(s[i])
  {
    SkipBlanksEnds(s);
    if s != "" && IsBlank(s[0]) {
      BlankLead(s[1..]);
      var k := |s[1..]| - |SkipBlanks(s[1..])|;
      forall i | 0 <= i < k + 1 ensures IsBlank(s[i]) {
        if i > 0 { assert s[1..][i - 1] == s[i]; }
      }
    }
  }
}

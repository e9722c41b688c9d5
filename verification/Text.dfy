/** Characters and strings as the C library sees them in its default locale. */
module Text {
  datatype Option<T> = None | Some(value: T)

  predicate IsBlank(c: char) { c == ' ' || c == '\t' }

  predicate IsSpace(c: char) {
    IsBlank(c) || c == '\n' || c == '\r' || c == 11 as char || c == 12 as char
  }

  predicate IsGraph(c: char) { '!' <= c <= '~' }

  predicate IsDigit(c: char) { '0' <= c <= '9' }

  /** The classes of the C library as ranges of codes. */
  lemma Classes(c: char)
    ensures IsBlank(c) <==> c as int == 9 || c as int == 32
    ensures IsSpace(c) <==> 9 <= c as int <= 13 || c as int == 32
    ensures IsGraph(c) <==> 33 <= c as int <= 126
    ensures IsDigit(c) <==> 48 <= c as int <= 57
  {}

  function SkipSpaces(s: string): string {
    if s != "" && IsSpace(s[0]) then SkipSpaces(s[1..]) else s
  }

  predicate AllSpaces(s: string) {
    forall i :: 0 <= i < |s| ==> IsSpace(s[i])
  }

  lemma {:induction false} SkipAllSpaces(s: string, rest: string)
    requires AllSpaces(s) && rest != "" && !IsSpace(rest[0])
    ensures SkipSpaces(s + rest) == rest
  {
    if s == "" {
      assert s + rest == rest;
    } else {
      assert (s + rest)[1..] == s[1..] + rest;
      SkipAllSpaces(s[1..], rest);
    }
  }

  lemma {:induction false} OnlySpaces(s: string)
    requires AllSpaces(s)
    ensures SkipSpaces(s) == ""
  {
    if s != "" { OnlySpaces(s[1..]); }
  }

  function SkipBlanks(s: string): string {
    if s != "" && IsBlank(s[0]) then SkipBlanks(s[1..]) else s
  }

  lemma {:induction false} SkipBlanksEnds(s: string)
    ensures var p := SkipBlanks(s);
            |p| <= |s| && p == s[|s| - |p|..] && (p != "" ==> !IsBlank(p[0]))
  {
    if s != "" && IsBlank(s[0]) {
      SkipBlanksEnds(s[1..]);
      var p := SkipBlanks(s[1..]);
      assert s[1..][|s[1..]| - |p|..] == s[|s| - |p|..];
    }
  }

  /** fgets: up to and including the newline, at most max characters. */
  function LineLength(file: string, max: nat): (n: nat)
    ensures n <= |file|
    ensures file != "" && max > 0 ==> n > 0
  {
    if file == "" || max == 0 then 0
    else if file[0] == '\n' then 1
    else 1 + LineLength(file[1..], max - 1)
  }

  /** The length of a line: no newline before its last character, and it ends with a newline, at the
      limit, or with the file. */
  lemma {:induction false} LineLengthExact(file: string, max: nat)
    ensures var n := LineLength(file, max);
            && n <= max && n <= |file| && (forall i :: 0 <= i < n - 1 ==> file[i] != '\n')
            && (n == max || n == |file| || (n > 0 && file[n - 1] == '\n'))
  {
    if file != "" && max > 0 && file[0] != '\n' { LineLengthExact(file[1..], max - 1); }
  }

  lemma {:induction false} LineLengthOf(s: string, rest: string, max: nat)
    requires 0 < |s| <= max && s[|s| - 1] == '\n' && forall i :: 0 <= i < |s| - 1 ==> s[i] != '\n'
    ensures LineLength(s + rest, max) == |s|
  {
    if |s| > 1 {
      assert (s + rest)[1..] == s[1..] + rest;
      LineLengthOf(s[1..], rest, max - 1);
    }
  }

  /** The C string in a stretch of memory: what precedes the first NUL. */
  function CString(s: string): string {
    if s == "" || s[0] == '\0' then "" else [s[0]] + CString(s[1..])
  }

  predicate NulFree(s: string) {
    forall i :: 0 <= i < |s| ==> s[i] != '\0'
  }

  lemma {:induction false} CStringOf(s: string)
    requires NulFree(s)
    ensures CString(s) == s
  {
    if s != "" { CStringOf(s[1..]); }
  }

  lemma {:induction false} CStringFront(s: string, rest: string)
    requires NulFree(s)
    ensures CString(s + rest) == s + CString(rest)
  {
    if s == "" {
      assert s + rest == rest && s + CString(rest) == CString(rest);
    } else {
      CStringFront(s[1..], rest);
      assert (s + rest)[1..] == s[1..] + rest;
      assert [s[0]] + (s[1..] + CString(rest)) == s + CString(rest);
    }
  }

  lemma {:induction false} CStringPrefix(s: string, n: nat)
    requires n < |s| && s[n] == '\0' && NulFree(s[..n])
    ensures CString(s) == s[..n]
  {
    if n > 0 {
      assert s[..n][0] == s[0] && s[1..][..n - 1] == s[..n][1..];
      CStringPrefix(s[1..], n - 1);
    }
  }

  /** The first c of a C string. */
  function Find(s: string, c: char): (r: Option<nat>)
    ensures r.Some? ==> r.value < |s| && s[r.value] == c
    ensures r.Some? ==> forall i :: 0 <= i < r.value ==> s[i] != c && s[i] != '\0'
  {
    if s == "" || s[0] == '\0' then None
    else if s[0] == c then Some(0)
    else
      match Find(s[1..], c)
      case None => None
      case Some(k) => Some(k + 1)
  }

  lemma {:induction false} FindMisses(s: string, c: char)
    requires NulFree(s) && Find(s, c) == None
    ensures c !in s
  {
    if s != "" {
      FindMisses(s[1..], c);
      assert s == [s[0]] + s[1..];
    }
  }

  function Shifted(r: Option<nat>, k: nat): Option<nat> {
    match r
    case None => None
    case Some(i) => Some(k + i)
  }

  lemma FindSkip(s: string, c: char)
    requires s != "" && s[0] != '\0' && s[0] != c
    ensures Find(s, c) == Shifted(Find(s[1..], c), 1)
  {}

  /** Where a scan that has passed k characters stands. */
  lemma {:induction false} FindFrom(s: string, c: char, k: nat)
    requires k <= |s| && forall i :: 0 <= i < k ==> s[i] != '\0' && s[i] != c
    ensures Find(s, c) == Shifted(Find(s[k..], c), k)
  {
    hide Find;
    if k == 0 {
      assert s[k..] == s;
    } else {
      FindSkip(s, c);
      FindFrom(s[1..], c, k - 1);
      assert s[1..][k - 1..] == s[k..];
    }
  }

  function Min(a: nat, b: nat): nat { if a <= b then a else b }
}

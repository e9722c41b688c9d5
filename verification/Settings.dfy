/** The tunable parameters of a jail (jail.c). */
module Settings {
  import opened Jail
  import opened StateFile
  import opened Text

  const DEFAULT_BANTIME := 3600
  const DEFAULT_FINDTIME := 300
  const DEFAULT_EXPIRETIME := 14400
  const DEFAULT_BANSCORE := 50

  /** atoi for values that fit an int. */
  function Atoi(s: string): int {
    var p := SkipSpaces(s);
    if p != "" && p[0] == '-' then -(ScanDigits(p[1..], 0).0 as int)
    else if p != "" && p[0] == '+' then ScanDigits(p[1..], 0).0
    else ScanDigits(p, 0).0
  }

  function Positive(n: int, default: int): int {
    if n <= 0 then default else n
  }

  datatype Parameter =
    | Enabled | Bantime | Findtime | Expiretime | Banscore
    | BantimeExtend | FindtimeExtend | ExpiretimeExtend
    | Deprecated | Unknown

  function ParameterOf(name: string): Parameter {
    if name == "enabled" then Enabled
    else if name == "bantime" then Bantime
    else if name == "findtime" then Findtime
    else if name == "expiretime" then Expiretime
    else if name == "banscore" then Banscore
    else if name == "bantime_extend" then BantimeExtend
    else if name == "findtime_extend" then FindtimeExtend
    else if name == "expiretime_extend" then ExpiretimeExtend
    else if name == "incr_bantime" || name == "incr_findtime" || name == "maxretry" then Deprecated
    else Unknown
  }

  /** The configuration after a parameter is set. The number is the value as the C library reads
      it as a floating literal. Deprecated names are accepted without effect. */
  function SetParam(c: Config, param: Parameter, value: string, number: real): Config {
    match param
    case Enabled => c.(enabled := value == "yes")
    case Bantime => c.(bantime := Positive(Atoi(value), DEFAULT_BANTIME))
    case Findtime => c.(findtime := Positive(Atoi(value), DEFAULT_FINDTIME))
    case Expiretime => c.(expiretime := Positive(Atoi(value), DEFAULT_EXPIRETIME))
    case Banscore =>
      var n := Int16(Atoi(value));
      c.(banscore := if n == 0 then DEFAULT_BANSCORE else n)
    case BantimeExtend => c.(bantimeExtend := number)
    case FindtimeExtend => c.(findtimeExtend := number)
    case ExpiretimeExtend => c.(expiretimeExtend := number)
    case Deprecated => c
    case Unknown => c
  }

  /** What no parameter value can break. */
  predicate Sane(c: Config) {
    c.bantime > 0 && c.findtime > 0 && c.expiretime > 0 && -0x8000 <= c.banscore < 0x8000 && c.banscore != 0
  }

  lemma SetParamSane(c: Config, param: Parameter, value: string, number: real)
    requires Sane(c)
    ensures Sane(SetParam(c, param, value, number))
  {
    Int16Range(Atoi(value));
    hide Atoi, Int16;
  }

  /** The 16-bit number that differs from n by a multiple of 2^16. */
  lemma Int16Range(n: int)
    ensures -0x8000 <= Int16(n) < 0x8000 && (n - Int16(n)) % 0x1_0000 == 0
    ensures Int16(n) == n <==> -0x8000 <= n < 0x8000
  {}

  // --- what a value sets, as a number ---

  lemma AtoiWritten(blanks: string, sign: string, n: nat, rest: string)
    requires IsNumber(blanks, sign, rest)
    ensures Atoi(Written(blanks, sign, n, rest)) == Signed(sign, n)
  {
    WrittenParts(blanks, sign, n, rest);
    hide Decimal, SkipSpaces, ScanDigits, Written, IsNumber;
  }

  /** Text that does not start with a number counts as zero. */
  lemma AtoiNoNumber(value: string)
    requires value == "" || !(IsSpace(value[0]) || IsDigit(value[0]) || value[0] == '-' || value[0] == '+')
    ensures Atoi(value) == 0
  {}

  /** A time is the number of the value if that is positive, and otherwise 3600, 300 or 14400 seconds; the
      score limit is the number if it fits 16 bits and is not zero, and 50 in the place of zero. Nothing
      else changes. */
  ghost predicate SetsNumber(c: Config, value: string, x: real, n: int) {
    && SetParam(c, Bantime, value, x) == c.(bantime := if n > 0 then n else 3600)
    && SetParam(c, Findtime, value, x) == c.(findtime := if n > 0 then n else 300)
    && SetParam(c, Expiretime, value, x) == c.(expiretime := if n > 0 then n else 14400)
    && (var c' := SetParam(c, Banscore, value, x);
        && c' == c.(banscore := c'.banscore)
        && (n % 0x1_0000 == 0 ==> c'.banscore == 50)
        && (n % 0x1_0000 != 0 ==> (n - c'.banscore) % 0x1_0000 == 0 && -0x8000 <= c'.banscore < 0x8000)
        && (-0x8000 <= n < 0x8000 && n != 0 ==> c'.banscore == n))
  }

  lemma Narrowed(n: int)
    ensures n % 0x1_0000 == 0 <==> Int16(n) == 0
  {}

  lemma AtoiSets(c: Config, value: string, x: real)
    ensures SetsNumber(c, value, x, Atoi(value))
  {
    hide Atoi, Int16;
    Int16Range(Atoi(value));
    Narrowed(Atoi(value));
  }

  lemma NumberSets(c: Config, blanks: string, sign: string, n: nat, rest: string, x: real)
    requires IsNumber(blanks, sign, rest)
    ensures SetsNumber(c, Written(blanks, sign, n, rest), x, Signed(sign, n))
  {
    hide *;
    AtoiWritten(blanks, sign, n, rest);
    AtoiSets(c, Written(blanks, sign, n, rest), x);
  }

  lemma TextSets(c: Config, value: string, x: real)
    requires value == "" || !(IsSpace(value[0]) || IsDigit(value[0]) || value[0] == '-' || value[0] == '+')
    ensures SetsNumber(c, value, x, 0)
  {
    AtoiNoNumber(value);
    hide *;
    AtoiSets(c, value, x);
  }

  /** Only "yes" enables a jail; the extension factors are the values as floating numbers; and deprecated
      or unknown names change nothing. */
  lemma OthersSet(c: Config, value: string, x: real)
    ensures SetParam(c, Enabled, value, x) == c.(enabled := |value| == 3 && value[0] == 'y' && value[1] == 'e' && value[2] == 's')
    ensures SetParam(c, BantimeExtend, value, x) == c.(bantimeExtend := x)
    ensures SetParam(c, FindtimeExtend, value, x) == c.(findtimeExtend := x)
    ensures SetParam(c, ExpiretimeExtend, value, x) == c.(expiretimeExtend := x)
    ensures SetParam(c, Deprecated, value, x) == SetParam(c, Unknown, value, x) == c
  {
    assert |value| == 3 && value[0] == 'y' && value[1] == 'e' && value[2] == 's' ==> value == "yes";
  }

  /** The names of the parameters. */
  lemma ParameterNames()
    ensures ParameterOf("enabled") == Enabled
    ensures ParameterOf("bantime") == Bantime && ParameterOf("bantime_extend") == BantimeExtend
    ensures ParameterOf("findtime") == Findtime && ParameterOf("findtime_extend") == FindtimeExtend
    ensures ParameterOf("expiretime") == Expiretime && ParameterOf("expiretime_extend") == ExpiretimeExtend
    ensures ParameterOf("banscore") == Banscore
    ensures ParameterOf("incr_bantime") == ParameterOf("incr_findtime") == ParameterOf("maxretry") == Deprecated
  {}
}

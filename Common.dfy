/** Values shared by every part of the model: Java's null as `Option`, the
    exceptions the spell checker can raise as `Result`, and the few
    `java.lang.String` / `Integer` operations the core relies on. */
module Common {

  datatype Option<+T> = None | Some(value: T)

  /** Why an `IOException` was raised; only the kind matters, not the text. */
  datatype IOReason =
    | DuplicateTry
    | DuplicateCompoundFlag
    | DuplicateCompoundMin
    | ReplacementCountMismatch
    | RuleCountMismatch
    | BadFlagType
    | MissingCondition
    | UnknownFlag
    | MissingWordCount

  /** The Java exceptions that decide an outcome of the core. */
  datatype Exception =
    | IOException(reason: IOReason)
    | NumberFormat          // Integer.parseInt on a non-number
    | NoSuchElement         // StringTokenizer.nextToken past the last token
    | IndexOutOfBounds      // String.charAt / substring / array index out of range
    | NullPointer           // a member read through a null reference
    | PatternSyntax         // a condition that Java's regex compiler rejects

  /** Normal completion with a value, or an exception. */
  datatype Result<+T> = Ok(value: T) | Err(error: Exception) {
    predicate IsFailure() { Err? }

    function PropagateFailure<U>(): Result<U>
      requires Err?
    {
      Err(error)
    }

    function Extract(): T
      requires Ok?
    {
      value
    }
  }

  predicate NoDuplicates<T(==)>(s: seq<T>) {
    forall i, j :: 0 <= i < j < |s| ==> s[i] != s[j]
  }

  /** `list.add(x)` guarded by `!list.contains(x)`. */
  function AddNew<T(==,!new)>(s: seq<T>, x: T): (r: seq<T>)
    ensures x in r
    ensures forall y :: y in r <==> y in s || y == x
    ensures NoDuplicates(s) ==> NoDuplicates(r)
  {
    if x in s then s else s + [x]
  }

  // ---------------------------------------------------------------------
  // Whitespace, strip and tokens
  // ---------------------------------------------------------------------

  /** The two separator sets that split the lines of an affix file. */
  datatype Separators =
    | RegexSpace      // `\s` in a regular expression: space, \t, \n, \x0B, \f, \r
    | TokenizerSpace  // the default delimiters of `StringTokenizer`: space, \t, \n, \r, \f

  predicate IsSeparator(d: Separators, c: char) {
    match d
    case RegexSpace => c == ' ' || c == '\t' || c == '\n' || c == '\U{B}' || c == '\U{C}' || c == '\r'
    case TokenizerSpace => c == ' ' || c == '\t' || c == '\n' || c == '\r' || c == '\U{C}'
  }

  /** `Character.isWhitespace`, the test `String.strip` trims by: the separators
      above, the four information separators U+001C..U+001F, and the Unicode
      space, line and paragraph separators other than the non-breaking ones. */
  predicate IsJavaWhitespace(c: char) {
    || IsSeparator(RegexSpace, c)
    || ('\U{1C}' <= c <= '\U{1F}')
    || c == '\U{1680}'
    || ('\U{2000}' <= c <= '\U{2006}')
    || ('\U{2008}' <= c <= '\U{200A}')
    || c == '\U{2028}' || c == '\U{2029}' || c == '\U{205F}' || c == '\U{3000}'
  }

  /** `s` without its leading whitespace. */
  function StripStart(s: string): (r: string)
    ensures |r| <= |s|
    ensures r == [] || !IsJavaWhitespace(r[0])
  {
    if s != [] && IsJavaWhitespace(s[0]) then StripStart(s[1..]) else s
  }

  /** `s` without its trailing whitespace. */
  function StripEnd(s: string): (r: string)
    ensures |r| <= |s| && (r != [] ==> r[0] == s[0])
    ensures r == [] || !IsJavaWhitespace(r[|r| - 1])
  {
    if s != [] && IsJavaWhitespace(s[|s| - 1]) then StripEnd(s[..|s| - 1]) else s
  }

  /** `String.strip`: the text neither starts nor ends with whitespace. */
  function Strip(s: string): (r: string)
    ensures |r| <= |s|
    ensures r == [] || (!IsJavaWhitespace(r[0]) && !IsJavaWhitespace(r[|r| - 1]))
  {
    StripEnd(StripStart(s))
  }

  predicate IsToken(d: Separators, t: string) {
    t != [] && forall k :: 0 <= k < |t| ==> !IsSeparator(d, t[k])
  }

  /** Index of the first separator at or after `i`, or `|s|`. */
  function TokenEnd(d: Separators, s: string, i: nat): (k: nat)
    requires i <= |s|
    ensures i <= k <= |s|
    ensures forall m :: i <= m < k ==> !IsSeparator(d, s[m])
    ensures k < |s| ==> IsSeparator(d, s[k])
    decreases |s| - i
  {
    if i == |s| || IsSeparator(d, s[i]) then i else TokenEnd(d, s, i + 1)
  }

  /** The maximal runs of non-separators of `s`, in order: the successive
      `StringTokenizer.nextToken()` results for `TokenizerSpace`. */
  function Tokens(d: Separators, s: string): (r: seq<string>)
    ensures forall k :: 0 <= k < |r| ==> IsToken(d, r[k])
    decreases |s|
  {
    if s == [] then []
    else if IsSeparator(d, s[0]) then Tokens(d, s[1..])
    else
      var k := TokenEnd(d, s, 0);
      [s[..k]] + Tokens(d, s[k..])
  }

  /** A text that starts with a non-separator starts with its first token. */
  lemma FirstTokenIsPrefix(d: Separators, s: string)
    requires s != [] && !IsSeparator(d, s[0])
    ensures var t := Tokens(d, s); t != [] && |t[0]| <= |s| && t[0] == s[..|t[0]|]
  {
  }

  /** `line.strip().split("\\s+")`. The stripped line neither starts nor ends with
      a `\s` character, so the split yields exactly its tokens, or the single
      empty string for a blank line. */
  function LineParts(line: string): (parts: seq<string>)
    ensures |parts| >= 1
    ensures |parts| > 1 ==> |parts[0]| <= |Strip(line)| && parts[0] == Strip(line)[..|parts[0]|]
    ensures |parts| > 1 ==> forall k :: 0 <= k < |parts| ==> IsToken(RegexSpace, parts[k])
  {
    var s := Strip(line);
    if s == [] then [""]
    else
      FirstTokenIsPrefix(RegexSpace, s);
      Tokens(RegexSpace, s)
  }

  // ---------------------------------------------------------------------
  // Integer.parseInt
  // ---------------------------------------------------------------------

  const IntMin: int := -0x8000_0000
  const IntMax: int := 0x7FFF_FFFF

  predicate IsDigit(c: char) { '0' <= c <= '9' }

  predicate AllDigits(s: string) {
    forall k :: 0 <= k < |s| ==> IsDigit(s[k])
  }

  /** Decimal value of a string of digits. */
  function DigitsValue(s: string): (n: nat)
    requires AllDigits(s)
  {
    if s == [] then 0
    else DigitsValue(s[..|s| - 1]) * 10 + (s[|s| - 1] as int - '0' as int)
  }

  /** `Integer.parseInt(s)`: an optional sign, at least one digit, and a value that fits
      in 32 bits; `None` stands for `NumberFormatException`. */
  function ParseInt(s: string): (r: Option<int>)
    ensures r.Some? ==> IntMin <= r.value <= IntMax
    ensures r.Some? ==> s != [] && (s[0] == '-' || s[0] == '+' || IsDigit(s[0]))
    ensures r.Some? ==> var digits := if s[0] == '-' || s[0] == '+' then s[1..] else s;
              digits != [] && AllDigits(digits) &&
              r.value == (if s[0] == '-' then 0 - DigitsValue(digits) else DigitsValue(digits))
    ensures s != [] && AllDigits(s) && DigitsValue(s) <= IntMax ==> r == Some(DigitsValue(s))
  {
    if s == [] then None
    else
      var negative := s[0] == '-';
      var digits := if s[0] == '-' || s[0] == '+' then s[1..] else s;
      if digits == [] || !AllDigits(digits) then None
      else
        var v: int := if negative then 0 - DigitsValue(digits) as int else DigitsValue(digits);
        if IntMin <= v <= IntMax then Some(v) else None
  }

  /** A leading zero adds nothing to the value of a digit string. */
  lemma {:induction false} DigitsValueLeadingZero(s: string)
    requires AllDigits(s)
    ensures AllDigits(['0'] + s) && DigitsValue(['0'] + s) == DigitsValue(s)
  {
    if s != [] {
      var z := ['0'] + s;
      assert z[..|z| - 1] == ['0'] + s[..|s| - 1];
      DigitsValueLeadingZero(s[..|s| - 1]);
    }
  }

  /** `Integer.parseInt` on a sign (or none) followed by digits. */
  lemma ParseIntSigned(sign: string, digits: string)
    requires sign == [] || sign == "-" || sign == "+"
    requires digits != [] && AllDigits(digits)
    ensures var v := if sign == "-" then 0 - DigitsValue(digits) else DigitsValue(digits);
            ParseInt(sign + digits) == if IntMin <= v <= IntMax then Some(v) else None
  {
    if sign != [] {
      assert (sign + digits)[0] == sign[0] && (sign + digits)[1..] == digits;
    } else {
      assert sign + digits == digits;
    }
  }

  /** `Integer.parseInt` reads `"007"` as 7: leading zeros after the sign change
      nothing. */
  lemma ParseIntLeadingZero(sign: string, digits: string)
    requires sign == [] || sign == "-" || sign == "+"
    requires digits != [] && AllDigits(digits)
    ensures ParseInt(sign + ['0'] + digits) == ParseInt(sign + digits)
  {
    DigitsValueLeadingZero(digits);
    var x := ['0'] + digits;
    assert sign + ['0'] + digits == sign + x;
    ParseIntSigned(sign, x);
    ParseIntSigned(sign, digits);
  }

  /** Decimal text of a natural number, as `"" + n` prints it. */
  function NatToString(n: nat): (s: string)
    ensures s != [] && AllDigits(s)
  {
    if n < 10 then [('0' as int + n) as char]
    else NatToString(n / 10) + [('0' as int + n % 10) as char]
  }

  lemma {:induction false} DigitsValueOfNatToString(n: nat)
    ensures DigitsValue(NatToString(n)) == n
  {
    if n >= 10 {
      DigitsValueOfNatToString(n / 10);
      var s := NatToString(n);
      assert s[..|s| - 1] == NatToString(n / 10);
    }
  }

  /** Every count the source can write back is read again by `Integer.parseInt`. */
  lemma ParseIntRoundTrip(n: nat)
    requires n <= IntMax
    ensures ParseInt(NatToString(n)) == Some(n)
  {
    DigitsValueOfNatToString(n);
  }

  /** `s.indexOf(c, i)` for a single character, or `|s|` when there is none: the
      end of the piece a `split` on `c` starts at `i`. */
  function CharIndex(s: string, c: char, i: nat): (k: nat)
    requires i <= |s|
    ensures i <= k <= |s|
    ensures k < |s| ==> s[k] == c
    ensures forall m :: i <= m < k ==> s[m] != c
    decreases |s| - i
  {
    if i == |s| || s[i] == c then i else CharIndex(s, c, i + 1)
  }

  // ---------------------------------------------------------------------
  // String.indexOf
  // ---------------------------------------------------------------------

  predicate OccursAt(s: string, key: string, i: int) {
    0 <= i && i + |key| <= |s| && s[i..i + |key|] == key
  }

  /** `s.indexOf(key, from)` for a non-empty `key`: the first occurrence at or after
      `from`, or -1. */
  function IndexOf(s: string, key: string, from: int): (r: int)
    requires key != []
    ensures r == -1 || (from <= r && OccursAt(s, key, r))
    ensures r != -1 ==> r + |key| <= |s| && r < |s|
    ensures forall i :: from <= i && (r == -1 || i < r) ==> !OccursAt(s, key, i)
    decreases |s| - from
  {
    if from < 0 then IndexOf(s, key, 0)
    else if from + |key| > |s| then -1
    else if s[from..from + |key|] == key then from
    else IndexOf(s, key, from + 1)
  }
}

/** The Hunspell condition of a rule, as `matchesCondition` tests it: the
    condition is pasted into a Java regular expression, `^cond.*` for a prefix
    and `.*cond$` for a suffix, which must match the whole word. Only the part
    of the regex language that conditions use is modelled: literal characters,
    `.`, `[...]` and `[^...]`. */
module Conditions {
  import opened Common
  import opened AffixRules

  /** One position of a condition. */
  datatype CharClass =
    | AnyChar                 // `.`
    | Literal(c: char)        // a character that stands for itself
    | OneOf(cs: seq<char>)    // `[...]`
    | NoneOf(cs: seq<char>)   // `[^...]`

  /** What Java's regex compiler makes of a condition. */
  datatype Compiled =
    | Classes(slots: seq<CharClass>)
    | Unclosed                // an opening `[` without `]`: PatternSyntaxException
    | Unsupported             // regex syntax outside the modelled subset

  /** Characters Java's `.` does not match. */
  predicate IsLineTerminator(c: char) {
    c == '\n' || c == '\r' || c == '\U{85}' || c == '\U{2028}' || c == '\U{2029}'
  }

  predicate InClass(k: CharClass, c: char) {
    match k
    case AnyChar => !IsLineTerminator(c)
    case Literal(d) => c == d
    case OneOf(cs) => c in cs
    case NoneOf(cs) => c !in cs
  }

  /** Regex metacharacters outside a bracket group that are not modelled. */
  predicate IsOtherMeta(c: char) {
    c in "\\$|?*+(){}^]"
  }

  /** Characters with a special meaning inside a bracket group that are not modelled. */
  predicate IsBracketMeta(c: char) {
    c in "\\[&-"
  }

  /** Index of the first `]` at or after `i`, or `|p|` when there is none. */
  function CloseIndex(p: string, i: nat): (k: nat)
    requires i <= |p|
    ensures i <= k <= |p|
    ensures k < |p| ==> p[k] == ']'
    ensures forall m :: i <= m < k ==> p[m] != ']'
    decreases |p| - i
  {
    if i == |p| || p[i] == ']' then i else CloseIndex(p, i + 1)
  }

  /** Compiles a condition left to right, one slot per character or bracket group. */
  function Compile(p: string): (r: Compiled)
    ensures r.Classes? ==> |r.slots| <= |p|
    decreases |p|
  {
    if p == [] then Classes([])
    else if p[0] == '[' then
      var start := if |p| > 1 && p[1] == '^' then 2 else 1;
      var close := CloseIndex(p, start);
      var body := p[start..close];
      if exists m :: 0 <= m < |body| && IsBracketMeta(body[m]) then Unsupported
      else if close == |p| then Unclosed
      else if body == [] then Unsupported
      else
        var slot := if start == 2 then NoneOf(body) else OneOf(body);
        match Compile(p[close + 1..])
        case Classes(rest) => Classes([slot] + rest)
        case other => other
    else if IsOtherMeta(p[0]) then Unsupported
    else
      var slot := if p[0] == '.' then AnyChar else Literal(p[0]);
      match Compile(p[1..])
      case Classes(rest) => Classes([slot] + rest)
      case other => other
  }

  /** A condition the model can interpret. */
  predicate Supported(condition: string) {
    condition == "." || !Compile(condition).Unsupported?
  }

  /** `word.matches("^" + cond + ".*")` for the compiled condition. */
  predicate MatchesAtStart(slots: seq<CharClass>, word: string) {
    && |slots| <= |word|
    && (forall i :: 0 <= i < |slots| ==> InClass(slots[i], word[i]))
    && (forall i :: |slots| <= i < |word| ==> !IsLineTerminator(word[i]))
  }

  /** `word.matches(".*" + cond + "$")` for the compiled condition. */
  predicate MatchesAtEnd(slots: seq<CharClass>, word: string) {
    && |slots| <= |word|
    && (forall i :: 0 <= i < |word| - |slots| ==> !IsLineTerminator(word[i]))
    && (forall i :: 0 <= i < |slots| ==> InClass(slots[i], word[|word| - |slots| + i]))
  }

  /** `matchesCondition(type, word, condition)`: the condition `.` always holds;
      any other condition is matched at the start of the word for a prefix and
      at the end for a suffix; an unclosed bracket raises PatternSyntaxException. */
  function MatchesCondition(affixType: AffixType, word: string, condition: string): (r: Result<bool>)
    requires Supported(condition)
    ensures condition == "." ==> r == Ok(true)
    ensures condition != "." && Compile(condition).Unclosed? ==> r == Err(PatternSyntax)
    ensures r == Ok(true) && condition != "." ==> |Compile(condition).slots| <= |word|
  {
    if condition == "." then Ok(true)
    else match Compile(condition)
      case Unclosed => Err(PatternSyntax)
      case Classes(slots) =>
        Ok(if affixType == PFX then MatchesAtStart(slots, word) else MatchesAtEnd(slots, word))
  }

  /** A word shorter than its condition never matches, at either end. */
  lemma ShortWordNeverMatches(affixType: AffixType, word: string, condition: string)
    requires Supported(condition) && condition != "."
    requires Compile(condition).Classes? && |word| < |Compile(condition).slots|
    ensures MatchesCondition(affixType, word, condition) == Ok(false)
  {
  }

  /** A literal condition `s` (no metacharacters) compiles to one literal slot per character. */
  lemma {:induction false} LiteralCompiles(s: string)
    requires forall k :: 0 <= k < |s| ==> s[k] != '[' && s[k] != '.' && !IsOtherMeta(s[k])
    ensures Compile(s) == Classes(seq(|s|, k requires 0 <= k < |s| => Literal(s[k])))
  {
    if s != [] {
      LiteralCompiles(s[1..]);
      assert seq(|s|, k requires 0 <= k < |s| => Literal(s[k]))
          == [Literal(s[0])] + seq(|s| - 1, k requires 0 <= k < |s| - 1 => Literal(s[1..][k]));
    }
  }

  /** A suffix rule with a literal condition applies exactly to words that end
      with that text (and have no line terminator before it). */
  lemma LiteralSuffixCondition(word: string, s: string)
    requires s != "." && s != []
    requires forall k :: 0 <= k < |s| ==> s[k] != '[' && s[k] != '.' && !IsOtherMeta(s[k])
    requires forall k :: 0 <= k < |word| ==> !IsLineTerminator(word[k])
    ensures Supported(s)
    ensures MatchesCondition(SFX, word, s) == Ok(|s| <= |word| && word[|word| - |s|..] == s)
  {
    LiteralCompiles(s);
    var slots := Compile(s).slots;
    if |s| <= |word| && word[|word| - |s|..] == s {
      forall i | 0 <= i < |slots| ensures InClass(slots[i], word[|word| - |slots| + i]) {
        assert word[|word| - |s|..][i] == s[i];
      }
    }
    if MatchesAtEnd(slots, word) {
      forall i | 0 <= i < |s| ensures word[|word| - |s|..][i] == s[i] {
        assert InClass(slots[i], word[|word| - |slots| + i]);
      }
      assert word[|word| - |s|..] == s;
    }
  }
}

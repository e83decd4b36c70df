/** The case helpers of `SpellCorrector`. Locale-sensitive `toUpperCase` and
    `toLowerCase` are not interpreted: they are given as two string functions,
    and every property below holds for any pair. */
module CaseMapping {
  import opened Common

  /** `word.toUpperCase(locale)` and `word.toLowerCase(locale)`. */
  datatype CaseMap = CaseMap(upper: string -> string, lower: string -> string)

  /** `capitalize`: the first character upper-cased, the rest lower-cased. The
      empty word has no first character (`substring(0, 1)` raises). */
  function Capitalize(cm: CaseMap, word: string): (r: Result<string>)
    ensures r.Err? <==> word == []
    ensures r.Err? ==> r.error == IndexOutOfBounds
  {
    if word == [] then Err(IndexOutOfBounds)
    else Ok(cm.upper(word[..1]) + cm.lower(word[1..]))
  }

  predicate IsUppercase(cm: CaseMap, word: string) {
    word == cm.upper(word)
  }

  predicate IsLowercase(cm: CaseMap, word: string) {
    word == cm.lower(word)
  }

  /** `isCapitalized`: the word is its own capitalization. */
  function IsCapitalized(cm: CaseMap, word: string): (r: Result<bool>)
    ensures r.Err? <==> word == []
  {
    var c :- Capitalize(cm, word);
    Ok(word == c)
  }

  /** `isMixedCase`: not lowercase, not uppercase and not capitalized, tested in
      that order, so the capitalization is only computed for a word that is
      neither all lower nor all upper case. */
  function IsMixedCase(cm: CaseMap, word: string): Result<bool> {
    if IsLowercase(cm, word) || IsUppercase(cm, word) then Ok(false)
    else
      var capitalized :- IsCapitalized(cm, word);
      Ok(!capitalized)
  }

  /** A mixed-case word is exactly one that is none of the other three shapes,
      and asking fails only for an empty word that is neither all lower nor all
      upper case. */
  lemma MixedCaseIsNoneOfTheOthers(cm: CaseMap, word: string)
    ensures IsMixedCase(cm, word).Err? <==>
              word == [] && !IsLowercase(cm, word) && !IsUppercase(cm, word)
    ensures IsMixedCase(cm, word) == Ok(true) <==>
              !IsLowercase(cm, word) && !IsUppercase(cm, word) && IsCapitalized(cm, word) == Ok(false)
    ensures IsMixedCase(cm, word) == Ok(false) <==>
              IsLowercase(cm, word) || IsUppercase(cm, word) || IsCapitalized(cm, word) == Ok(true)
  {
  }

  /** Case maps that keep a one-character string one character long and that
      give the same result when applied twice. */
  predicate WellBehavedOn(cm: CaseMap, word: string)
    requires word != []
  {
    |cm.upper(word[..1])| == 1 &&
    cm.upper(cm.upper(word[..1])) == cm.upper(word[..1]) &&
    cm.lower(cm.lower(word[1..])) == cm.lower(word[1..])
  }

  /** With such case maps, a capitalized word is its own capitalization:
      capitalizing twice is capitalizing once. */
  lemma CapitalizeIdempotent(cm: CaseMap, word: string)
    requires word != [] && WellBehavedOn(cm, word)
    ensures Capitalize(cm, word).Ok? && IsCapitalized(cm, Capitalize(cm, word).value) == Ok(true)
  {
    var u := cm.upper(word[..1]);
    var l := cm.lower(word[1..]);
    var c := u + l;
    assert c[..1] == u && c[1..] == l;
  }
}

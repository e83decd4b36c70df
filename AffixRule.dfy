/** One parsed PFX/SFX body line. The record keeps its three tokens exactly as
    they were read: a strip token `0` stays `"0"` and an append token `0` stays
    `"0"`; what they mean is decided where the rule is applied. */
module AffixRules {

  /** Which end of a word an affix group works on. */
  datatype AffixType = PFX | SFX

  /** Immutable strip/append/condition record; the field names are the getters
      `getStripChars`, `getAffix` and `getCondition`. */
  datatype AffixRule = AffixRule(stripChars: string, affix: string, condition: string)

  /** A rule that strips nothing: the literal token `0`. */
  predicate StripsNothing(rule: AffixRule) {
    rule.stripChars == "0"
  }

  /** Number of characters a rule removes from its end of the word. */
  function StripLength(rule: AffixRule): (n: nat)
    ensures StripsNothing(rule) ==> n == 0
    ensures !StripsNothing(rule) ==> n == |rule.stripChars|
  {
    if StripsNothing(rule) then 0 else |rule.stripChars|
  }
}

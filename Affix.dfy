/** A rule group of the affix file: the header line `PFX|SFX flag cross count`
    and the rule lines parsed after it. */
module Affixes {
  import opened AffixRules

  /** The value of an `Affix` object: everything it holds at one moment. */
  datatype AffixGroup = AffixGroup(
    affixType: AffixType,
    flag: string,
    isCrossProduct: bool,
    rulesCount: int,
    rules: seq<AffixRule>)
  {
    /** `hasAllRules`: exactly the declared number of rules, no fewer and no more. */
    predicate HasAllRules() {
      |rules| == rulesCount
    }
  }

  /** The cross-product token of a header: only `Y` means yes; anything else
      means no and is not an error. */
  function IsCrossProduct(token: string): (b: bool)
    ensures b <==> token == "Y"
  {
    token == "Y"
  }

  /** The group a header line opens. */
  function NewGroup(affixType: AffixType, flag: string, crossProduct: string, count: int): (g: AffixGroup)
    ensures g.affixType == affixType && g.flag == flag && g.rulesCount == count
    ensures g.isCrossProduct <==> crossProduct == "Y"
    ensures g.rules == []
    ensures g.HasAllRules() <==> count == 0
  {
    AffixGroup(affixType, flag, IsCrossProduct(crossProduct), count, [])
  }

  /** A rule group whose list of rules grows in place while the file is read.
      Type, flag, cross product and declared count never change. */
  class Affix {
    const affixType: AffixType
    const flag: string
    const isCrossProduct: bool
    const rulesCount: int
    var rules: seq<AffixRule>

    function Value(): AffixGroup
      reads this
    {
      AffixGroup(affixType, flag, isCrossProduct, rulesCount, rules)
    }

    /** The count has already been read with `Integer.parseInt` by the caller, which
        is where a non-numeric count raises `NumberFormatException`. */
    constructor (affixType: AffixType, flag: string, crossProduct: string, count: int)
      ensures Value() == NewGroup(affixType, flag, crossProduct, count)
    {
      this.affixType := affixType;
      this.flag := flag;
      this.isCrossProduct := IsCrossProduct(crossProduct);
      this.rulesCount := count;
      this.rules := [];
    }

    function GetType(): (t: AffixType)
      reads this
      ensures t == Value().affixType
    {
      affixType
    }

    function GetRules(): (rs: seq<AffixRule>)
      reads this
      ensures rs == Value().rules
    {
      rules
    }

    /** Appends at the end; earlier rules and every other field stay as they were. */
    method AddRule(rule: AffixRule)
      modifies this
      ensures rules == old(rules) + [rule]
      ensures Value() == old(Value()).(rules := old(Value()).rules + [rule])
    {
      rules := rules + [rule];
    }

    function HasAllRules(): (b: bool)
      reads this
      ensures b <==> Value().HasAllRules()
    {
      |rules| == rulesCount
    }
  }
}

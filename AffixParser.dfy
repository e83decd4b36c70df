/** The `AffixParser` object: its fields are updated line by line while the
    affix file is read, and each `Affix` group object grows in place. Every
    method is proved to do what the functions of AffixGrammar and WordForms
    say, through the abstraction `State()`. */
module AffixParsers {
  import opened Common
  import opened AffixRules
  import opened Affixes
  import opened Conditions
  import opened AffixGrammar
  import opened WordForms

  class AffixParser {
    var affixMap: map<string, Affix>
    var tryCharacters: Option<string>
    var flagType: string
    var compoundFlag: Option<string>
    var compoundMinimalChars: int
    var replacementMap: Option<map<string, string>>
    var replacementSize: int

    /** Distinct flags own distinct `Affix` objects, so adding a rule to one
        group leaves every other group as it was. */
    ghost predicate Valid()
      reads this
    {
      forall f, g :: f in affixMap && g in affixMap && f != g ==> affixMap[f] != affixMap[g]
    }

    /** The fields as a value, each `Affix` object replaced by its value. */
    ghost function State(): ParserState
      reads this, affixMap.Values
    {
      ParserState(
        map f | f in affixMap :: affixMap[f].Value(),
        tryCharacters, flagType, compoundFlag, compoundMinimalChars,
        replacementMap, replacementSize)
    }

    /** The method returned what `spec` says: on success the new fields are
        `spec`'s, on failure the same exception. */
    ghost predicate Follows(r: Result<()>, spec: Result<ParserState>)
      reads this, affixMap.Values
    {
      match spec
      case Ok(st) => r.Ok? && State() == st
      case Err(e) => r == Err(e)
    }

    /** The fields before the first line: no groups, flag type ASCII,
        COMPOUNDMIN unset (-1), no TRY, no REP map. */
    constructor ()
      ensures Valid() && State() == Initial && affixMap == map[]
    {
      affixMap := map[];
      tryCharacters := None;
      flagType := ASCII;
      compoundFlag := None;
      compoundMinimalChars := -1;
      replacementMap := None;
      replacementSize := 0;
    }

    /** `handleFlag`. */
    method HandleFlag(rest: string) returns (r: Result<()>)
      requires Valid()
      modifies this
      ensures Valid() && affixMap == old(affixMap)
      ensures Follows(r, AffixGrammar.HandleFlag(old(State()), rest))
    {
      var tokens := Tokens(TokenizerSpace, rest);
      if tokens == [] {
        return Err(NoSuchElement);
      }
      flagType := tokens[0];
      if !IsFlagType(flagType) {
        return Err(IOException(BadFlagType));
      }
      return Ok(());
    }

    /** `handleReplacement`. */
    method HandleReplacement(parts: seq<string>) returns (r: Result<()>)
      requires Valid() && |parts| >= 2
      modifies this
      ensures Valid() && affixMap == old(affixMap)
      ensures Follows(r, AffixGrammar.HandleReplacement(old(State()), parts))
    {
      if replacementMap.None? {
        var n := ParseInt(parts[1]);
        if n.None? {
          return Err(NumberFormat);
        }
        replacementSize := n.value;
        replacementMap := Some(map[]);
      } else {
        if |parts| < 3 {
          return Err(IndexOutOfBounds);
        }
        replacementMap := Some(replacementMap.value[parts[1] := parts[2]]);
      }
      return Ok(());
    }

    /** `affixMap.get(flag).addRule(rule)`: only the group of `flag` changes. */
    method AddRuleTo(flag: string, rule: AffixRule)
      requires Valid() && flag in affixMap
      modifies affixMap[flag]
      ensures State() == old(State()).(affixes := old(State()).affixes[flag :=
                old(State()).affixes[flag].(rules := old(State()).affixes[flag].rules + [rule])])
    {
      var group := affixMap[flag];
      ghost var before := State().affixes;
      group.AddRule(rule);
      assert State().affixes == before[flag := group.Value()];
    }

    /** `affixMap.put(flag, new Affix(...))`: a new group object under `flag`. */
    method OpenGroup(affixType: AffixType, flag: string, crossProduct: string, count: int)
      requires Valid() && flag !in affixMap
      modifies this
      ensures Valid()
      ensures forall a :: a in affixMap.Values ==> a in old(affixMap.Values) || fresh(a)
      ensures State() == old(State()).(affixes := old(State()).affixes[flag := NewGroup(affixType, flag, crossProduct, count)])
    {
      var group := new Affix(affixType, flag, crossProduct, count);
      ghost var before := State().affixes;
      affixMap := affixMap[flag := group];
      assert State().affixes == before[flag := group.Value()];
    }

    /** `handleAffix`: a rule line adds its rule to the group object in place;
        a header line puts a new group object into the map. */
    method HandleAffix(affixType: AffixType, rest: string) returns (r: Result<()>)
      requires Valid()
      modifies this, affixMap.Values
      ensures Valid()
      ensures forall a :: a in affixMap.Values ==> a in old(affixMap.Values) || fresh(a)
      ensures Follows(r, AffixGrammar.HandleAffix(old(State()), affixType, rest))
    {
      var tokens := Tokens(TokenizerSpace, rest);
      if tokens == [] {
        return Err(NoSuchElement);
      }
      var flag := tokens[0];
      if flag in affixMap {
        if |tokens| < 3 {
          return Err(NoSuchElement);
        }
        var rule :- RuleOf(tokens[1], tokens[2], tokens[3..]);
        AddRuleTo(flag, rule);
      } else {
        if |tokens| < 3 {
          return Err(NoSuchElement);
        }
        var count := ParseInt(tokens[2]);
        if count.None? {
          return Err(NumberFormat);
        }
        OpenGroup(affixType, flag, tokens[1], count.value);
      }
      return Ok(());
    }

    /** The `switch` of `parseAffixFile` for one line that has a tag and at least
        one more part. */
    method HandleDirective(parts: seq<string>, s: string) returns (r: Result<()>)
      requires Valid() && |parts| > 1 && |parts[0]| <= |s|
      modifies this, affixMap.Values
      ensures Valid()
      ensures forall a :: a in affixMap.Values ==> a in old(affixMap.Values) || fresh(a)
      ensures Follows(r, AffixGrammar.HandleDirective(old(State()), parts, s))
    {
      var tag := parts[0];
      if tag == "TRY" {
        if tryCharacters.Some? {
          return Err(IOException(DuplicateTry));
        }
        tryCharacters := Some(parts[1]);
        r := Ok(());
      } else if tag == "COMPOUNDFLAG" {
        if compoundFlag.Some? {
          return Err(IOException(DuplicateCompoundFlag));
        }
        compoundFlag := Some(parts[1]);
        r := Ok(());
      } else if tag == "COMPOUNDMIN" {
        if compoundMinimalChars >= 0 {
          return Err(IOException(DuplicateCompoundMin));
        }
        var n := ParseInt(parts[1]);
        if n.None? {
          return Err(NumberFormat);
        }
        compoundMinimalChars := n.value;
        if compoundMinimalChars < 1 || compoundMinimalChars > 50 {
          compoundMinimalChars := 3;
        }
        r := Ok(());
      } else if tag == "REP" {
        r := HandleReplacement(parts);
      } else if tag == "SFX" {
        r := HandleAffix(SFX, s[3..]);
      } else if tag == "PFX" {
        r := HandleAffix(PFX, s[3..]);
      } else if tag == "FLAG" {
        r := HandleFlag(s[4..]);
      } else {
        // comments, SET and the directives the parser only recognises
        r := Ok(());
      }
    }

    /** One iteration of `parseAffixFile`'s loop. */
    method HandleLine(line: string) returns (r: Result<()>)
      requires Valid()
      modifies this, affixMap.Values
      ensures Valid()
      ensures forall a :: a in affixMap.Values ==> a in old(affixMap.Values) || fresh(a)
      ensures Follows(r, AffixGrammar.HandleLine(old(State()), line))
    {
      var stripped := Strip(line);
      var parts := LineParts(line);
      if |parts| > 1 {
        r := HandleDirective(parts, stripped);
      } else {
        r := Ok(());
      }
    }

    /** The checks after the loop of `parseAffixFile`: the REP count, then the
        rule count of every group, in whatever order the map yields its keys. */
    method Finish() returns (r: Result<()>)
      requires Valid()
      ensures Follows(r, AffixGrammar.Finish(State()))
    {
      if replacementMap.Some? && replacementSize != |replacementMap.value| {
        return Err(IOException(ReplacementCountMismatch));
      }
      var keys := affixMap.Keys;
      while keys != {}
        invariant keys <= affixMap.Keys
        invariant forall f :: f in affixMap && f !in keys ==> affixMap[f].Value().HasAllRules()
        decreases keys
      {
        var key :| key in keys;
        if !affixMap[key].HasAllRules() {
          assert !State().affixes[key].HasAllRules();
          return Err(IOException(RuleCountMismatch));
        }
        keys := keys - {key};
      }
      return Ok(());
    }

    /** `parseAffixFile`: every line in order, stopping at the first exception,
        then the final checks. */
    method ParseAffixFile(lines: seq<string>) returns (r: Result<()>)
      requires Valid()
      modifies this, affixMap.Values
      ensures Valid()
      ensures Follows(r, ParseFrom(old(State()), lines))
    {
      var i := 0;
      while i < |lines|
        invariant 0 <= i <= |lines|
        invariant Valid()
        invariant forall a :: a in affixMap.Values ==> a in old(affixMap.Values) || fresh(a)
        invariant ParseFrom(State(), lines[i..]) == ParseFrom(old(State()), lines)
      {
        ghost var before := State();
        assert lines[i..][0] == lines[i] && lines[i..][1..] == lines[i + 1..];
        var res := HandleLine(lines[i]);
        if res.Err? {
          return res;
        }
        i := i + 1;
      }
      r := Finish();
    }

    /** `getFlags`: one flag per character for ASCII and UTF-8; for "long", an
        array of half the length whose even slots hold the two characters
        starting there and whose odd slots stay null; for "num" the
        comma-separated pieces; for any other type an empty array. */
    method GetFlags(affix: string) returns (flags: array<Option<string>>)
      ensures flags[..] == FlagsOf(flagType, affix)
    {
      if flagType == UTF8 || flagType == ASCII {
        flags := new Option<string>[|affix|](_ => None);
        for i := 0 to |affix|
          invariant forall j :: 0 <= j < i ==> flags[j] == Some([affix[j]])
        {
          flags[i] := Some([affix[i]]);
        }
        return;
      }
      if flagType == LONG {
        var n := |affix| / 2;
        flags := new Option<string>[n](_ => None);
        var i := 0;
        while i < n
          invariant 0 <= i <= n + 1 && i % 2 == 0
          invariant forall j :: 0 <= j < n ==>
                      flags[j] == if j < i && j % 2 == 0 then Some(affix[j..j + 2]) else None
        {
          flags[i] := Some(affix[i..i + 2]);
          i := i + 2;
        }
        return;
      }
      if flagType == NUM {
        var parts := SplitComma(affix);
        flags := new Option<string>[|parts|](j requires 0 <= j < |parts| => Some(parts[j]));
        return;
      }
      flags := new Option<string>[0];
    }

    /** The strip-and-append step of `processRules` for one matching rule. */
    method FormOf(affixType: AffixType, word: string, rule: AffixRule) returns (r: Result<string>)
      ensures r == ApplyRule(affixType, word, rule)
    {
      var stripped := word;
      assert word[..|word|] == word && word[0..] == word;
      if !StripsNothing(rule) {
        var length := |rule.stripChars|;
        if length > |word| {
          return Err(IndexOutOfBounds);
        }
        if affixType == PFX {
          stripped := word[length..];
        } else {
          stripped := stripped[..|stripped| - length];
        }
      }
      if affixType == PFX {
        stripped := rule.affix + stripped;
      } else {
        stripped := stripped + rule.affix;
      }
      return Ok(stripped);
    }

    /** `processRules`: each rule whose condition matches makes one form, added
        unless it is already in the list. */
    method ProcessRules(affixType: AffixType, word: string, rules: seq<AffixRule>) returns (r: Result<seq<string>>)
      requires RulesSupported(rules)
      ensures r == WordForms.ProcessRules(affixType, word, rules)
    {
      var result: seq<string> := [];
      var i := 0;
      while i < |rules|
        invariant 0 <= i <= |rules|
        invariant WordForms.ProcessRules(affixType, word, rules[..i]) == Ok(result)
      {
        var rule := rules[i];
        assert rules[..i + 1][..i] == rules[..i] && rules[..i + 1][i] == rule;
        var matches := MatchesCondition(affixType, word, rule.condition);
        if matches.Err? {
          ProcessRulesErrPersists(affixType, word, rules, i + 1);
          return Err(matches.error);
        }
        if matches.value {
          var form := FormOf(affixType, word, rule);
          if form.Err? {
            ProcessRulesErrPersists(affixType, word, rules, i + 1);
            return Err(form.error);
          }
          if form.value !in result {
            result := result + [form.value];
          }
        }
        i := i + 1;
      }
      assert rules[..i] == rules;
      return Ok(result);
    }

    /** `getWords`: the forms of every flag's group, in flag order; a flag with
        no group (null included) raises IOException. */
    method GetWords(word: string, flags: seq<Option<string>>) returns (r: Result<seq<string>>)
      requires AllSupported(State().affixes)
      ensures r == WordForms.GetWords(State().affixes, word, flags)
    {
      ghost var groups := State().affixes;
      var result: seq<string> := [];
      var i := 0;
      while i < |flags|
        invariant 0 <= i <= |flags|
        invariant WordForms.GetWords(groups, word, flags[..i]) == Ok(result)
      {
        var flag := flags[i];
        assert flags[..i + 1][..i] == flags[..i] && flags[..i + 1][i] == flag;
        if flag.None? || flag.value !in affixMap {
          GetWordsErrPersists(groups, word, flags, i + 1);
          return Err(IOException(UnknownFlag));
        }
        var affix := affixMap[flag.value];
        assert groups[flag.value] == affix.Value();
        assert RulesSupported(affix.GetRules());
        var processed := ProcessRules(affix.GetType(), word, affix.GetRules());
        if processed.Err? {
          GetWordsErrPersists(groups, word, flags, i + 1);
          return processed;
        }
        result := result + processed.value;
        i := i + 1;
      }
      assert flags[..i] == flags;
      return Ok(result);
    }
  }

  /** The `AffixParser(File, Charset)` constructor over the lines of the file:
      the fields of a fresh parser after `parseAffixFile`, or the exception that
      ended it. */
  method Load(lines: seq<string>) returns (r: Result<AffixParser>)
    ensures r.Ok? ==> Parse(lines).Ok? && r.value.Valid() && r.value.State() == Parse(lines).value
    ensures r.Err? ==> Parse(lines).Err? && r.error == Parse(lines).error
  {
    var parser := new AffixParser();
    var res := parser.ParseAffixFile(lines);
    if res.Err? {
      return Err(res.error);
    }
    return Ok(parser);
  }
}

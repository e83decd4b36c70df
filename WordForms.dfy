/** Flag strings and word-form expansion: `AffixParser.getFlags`, `getWords`
    and `processRules` as functions of the parsed affix table. The
    `AffixParser` class computes them with loops and is proved equal to them. */
module WordForms {
  import opened Common
  import opened AffixRules
  import opened Affixes
  import opened Conditions
  import opened AffixGrammar

  // ---------------------------------------------------------------------
  // String.split(",")
  // ---------------------------------------------------------------------

  /** The text between commas, empty pieces included. */
  function CommaPieces(s: string): (ps: seq<string>)
    ensures |ps| >= 1
    ensures forall k :: 0 <= k < |ps| ==> ',' !in ps[k]
    decreases |s|
  {
    var k := CharIndex(s, ',', 0);
    if k == |s| then [s] else [s[..k]] + CommaPieces(s[k + 1..])
  }

  /** The pieces put back together with a comma between neighbours. */
  function JoinWithCommas(ps: seq<string>): string
    requires |ps| >= 1
  {
    if |ps| == 1 then ps[0] else ps[0] + "," + JoinWithCommas(ps[1..])
  }

  /** Splitting on commas loses nothing: joining the pieces gives the text back. */
  lemma {:induction false} CommaPiecesJoin(s: string)
    ensures JoinWithCommas(CommaPieces(s)) == s
    decreases |s|
  {
    var k := CharIndex(s, ',', 0);
    if k < |s| {
      CommaPiecesJoin(s[k + 1..]);
      assert s == s[..k] + "," + s[k + 1..];
    }
  }

  function DropTrailingEmpty(ps: seq<string>): (r: seq<string>)
    ensures |r| <= |ps| && r == ps[..|r|]
    ensures r == [] || r[|r| - 1] != ""
    ensures forall k :: |r| <= k < |ps| ==> ps[k] == ""
  {
    if ps != [] && ps[|ps| - 1] == "" then DropTrailingEmpty(ps[..|ps| - 1]) else ps
  }

  /** `s.split(",")`: without a comma the whole text; otherwise the pieces
      between commas with the empty pieces at the end removed (so `","`
      gives no pieces at all). */
  function SplitComma(s: string): (r: seq<string>)
    ensures forall k :: 0 <= k < |r| ==> ',' !in r[k]
    ensures ',' !in s ==> r == [s]
    ensures ',' in s ==> r == [] || r[|r| - 1] != ""
  {
    if ',' !in s then [s] else DropTrailingEmpty(CommaPieces(s))
  }

  // ---------------------------------------------------------------------
  // getFlags
  // ---------------------------------------------------------------------

  /** `getFlags(affix)` for the current flag type, null slots as `None`. */
  function FlagsOf(flagType: string, s: string): (r: seq<Option<string>>)
    ensures flagType == ASCII || flagType == UTF8 ==>
              |r| == |s| && forall i :: 0 <= i < |s| ==> r[i] == Some([s[i]])
    ensures flagType == LONG ==>
              |r| == |s| / 2 &&
              forall i :: 0 <= i < |r| ==> (r[i].Some? <==> i % 2 == 0)
    ensures flagType == LONG ==>
              forall i :: 0 <= i < |r| && i % 2 == 0 ==> r[i] == Some(s[i..i + 2])
    ensures flagType == NUM ==>
              |r| == |SplitComma(s)| && forall i :: 0 <= i < |r| ==> r[i] == Some(SplitComma(s)[i])
    ensures !IsFlagType(flagType) ==> r == []
  {
    if flagType == UTF8 || flagType == ASCII then
      seq(|s|, i requires 0 <= i < |s| => Some([s[i]]))
    else if flagType == LONG then
      seq(|s| / 2, i requires 0 <= i < |s| / 2 => if i % 2 == 0 then Some(s[i..i + 2]) else None)
    else if flagType == NUM then
      var parts := SplitComma(s);
      seq(|parts|, i requires 0 <= i < |parts| => Some(parts[i]))
    else []
  }

  // ---------------------------------------------------------------------
  // processRules and getWords
  // ---------------------------------------------------------------------

  /** Every condition in the table lies in the regex subset the model interprets. */
  predicate AllSupported(groups: map<string, AffixGroup>) {
    forall f, k :: f in groups && 0 <= k < |groups[f].rules| ==> Supported(groups[f].rules[k].condition)
  }

  predicate RulesSupported(rules: seq<AffixRule>) {
    forall k :: 0 <= k < |rules| ==> Supported(rules[k].condition)
  }

  /** The form one rule makes of a word whose condition it matches: strip `0`
      removes nothing; any other strip token removes as many characters as it
      has from the affix's end, without comparing them; the append token is
      attached verbatim, so an append `0` adds the character `0`. */
  function ApplyRule(affixType: AffixType, word: string, rule: AffixRule): (r: Result<string>)
    ensures r.Err? <==> StripLength(rule) > |word|
    ensures r.Err? ==> r.error == IndexOutOfBounds
    ensures r.Ok? ==> |r.value| == |word| - StripLength(rule) + |rule.affix|
  {
    var n := StripLength(rule);
    if n > |word| then Err(IndexOutOfBounds)
    else if affixType == PFX then Ok(rule.affix + word[n..])
    else Ok(word[..|word| - n] + rule.affix)
  }

  /** A suffix form ends with the append text, and dropping it and putting the
      stripped characters back gives the word again. */
  lemma SuffixFormInverse(word: string, rule: AffixRule)
    requires ApplyRule(SFX, word, rule).Ok?
    ensures var x := ApplyRule(SFX, word, rule).value;
            var n := StripLength(rule);
            |rule.affix| <= |x| && x[|x| - |rule.affix|..] == rule.affix &&
            x[..|x| - |rule.affix|] + word[|word| - n..] == word
  {
    var x := ApplyRule(SFX, word, rule).value;
    var n := StripLength(rule);
    assert x[..|x| - |rule.affix|] == word[..|word| - n];
  }

  /** A prefix form starts with the append text, and dropping it and putting the
      stripped characters back gives the word again. */
  lemma PrefixFormInverse(word: string, rule: AffixRule)
    requires ApplyRule(PFX, word, rule).Ok?
    ensures var x := ApplyRule(PFX, word, rule).value;
            var n := StripLength(rule);
            |rule.affix| <= |x| && x[..|rule.affix|] == rule.affix &&
            word[..n] + x[|rule.affix|..] == word
  {
    var x := ApplyRule(PFX, word, rule).value;
    var n := StripLength(rule);
    assert x[|rule.affix|..] == word[n..];
  }

  /** The append token `0` is not special: it adds the character `0`. */
  lemma AppendZeroIsLiteral(affixType: AffixType, word: string, strip: string)
    requires |strip| <= |word|
    ensures var r := ApplyRule(affixType, word, AffixRule(strip, "0", "."));
            r.Ok? && '0' in r.value && |r.value| == |word| - StripLength(AffixRule(strip, "0", ".")) + 1
  {
    var rule := AffixRule(strip, "0", ".");
    var x := ApplyRule(affixType, word, rule).value;
    if affixType == PFX {
      assert x[0] == '0';
    } else {
      assert x[|x| - 1] == '0';
    }
  }

  /** The rule matches the word and turns it into `x`. */
  predicate Produces(affixType: AffixType, word: string, rule: AffixRule, x: string)
    requires Supported(rule.condition)
  {
    MatchesCondition(affixType, word, rule.condition) == Ok(true) && ApplyRule(affixType, word, rule) == Ok(x)
  }

  /** Some rule of `rules` turns the word into `x`. */
  ghost predicate Produced(affixType: AffixType, word: string, rules: seq<AffixRule>, x: string)
    requires RulesSupported(rules)
  {
    exists k :: 0 <= k < |rules| && Produces(affixType, word, rules[k], x)
  }

  lemma ProducedSnoc(affixType: AffixType, word: string, rules: seq<AffixRule>, x: string)
    requires rules != [] && RulesSupported(rules)
    ensures Produced(affixType, word, rules, x) <==>
            Produced(affixType, word, rules[..|rules| - 1], x) || Produces(affixType, word, rules[|rules| - 1], x)
  {
    var front := rules[..|rules| - 1];
    if Produced(affixType, word, rules, x) && !Produces(affixType, word, rules[|rules| - 1], x) {
      var k :| 0 <= k < |rules| && Produces(affixType, word, rules[k], x);
      assert front[k] == rules[k];
    }
    if Produced(affixType, word, front, x) {
      var k :| 0 <= k < |front| && Produces(affixType, word, front[k], x);
      assert rules[k] == front[k];
    }
  }

  /** `processRules(type, word, rules)`: the rules in order, each one whose
      condition matches adding its form unless the form is already there. A
      condition Java cannot compile, or a strip longer than the word, ends it
      with that exception. */
  function ProcessRules(affixType: AffixType, word: string, rules: seq<AffixRule>): Result<seq<string>>
    requires RulesSupported(rules)
    decreases |rules|
  {
    if rules == [] then Ok([])
    else
      var acc :- ProcessRules(affixType, word, rules[..|rules| - 1]);
      var rule := rules[|rules| - 1];
      var matches :- MatchesCondition(affixType, word, rule.condition);
      if !matches then Ok(acc)
      else
        var form :- ApplyRule(affixType, word, rule);
        Ok(AddNew(acc, form))
  }

  /** What `processRules` returns: each form once, and exactly the forms that
      some rule whose condition matches makes of the word. */
  lemma {:induction false} ProcessRulesForms(affixType: AffixType, word: string, rules: seq<AffixRule>)
    requires RulesSupported(rules)
    requires ProcessRules(affixType, word, rules).Ok?
    ensures var r := ProcessRules(affixType, word, rules).value;
            NoDuplicates(r) && forall x :: x in r <==> Produced(affixType, word, rules, x)
    decreases |rules|
  {
    if rules != [] {
      var front := rules[..|rules| - 1];
      ProcessRulesForms(affixType, word, front);
      forall x { ProducedSnoc(affixType, word, rules, x); }
    }
  }

  /** `x` is a form some rule of the group filed under `flag` makes of the word. */
  ghost predicate Licenses(groups: map<string, AffixGroup>, word: string, flag: string, x: string)
    requires AllSupported(groups)
  {
    flag in groups && Produced(groups[flag].affixType, word, groups[flag].rules, x)
  }

  /** `getWords(word, flags)`: the forms of each flag's group, concatenated in
      flag order. A null flag or one without a group raises IOException. */
  function GetWords(groups: map<string, AffixGroup>, word: string, flags: seq<Option<string>>): (r: Result<seq<string>>)
    requires AllSupported(groups)
    ensures r.Ok? ==> forall i :: 0 <= i < |flags| ==> flags[i].Some? && flags[i].value in groups
    decreases |flags|
  {
    if flags == [] then Ok([])
    else
      var acc :- GetWords(groups, word, flags[..|flags| - 1]);
      var flag := flags[|flags| - 1];
      if flag.None? || flag.value !in groups then Err(IOException(UnknownFlag))
      else
        var g := groups[flag.value];
        assert RulesSupported(g.rules);
        var forms :- ProcessRules(g.affixType, word, g.rules);
        Ok(acc + forms)
  }

  /** What `getWords` returns: exactly the forms that the group of one of the
      flags licenses. */
  lemma {:induction false} GetWordsForms(groups: map<string, AffixGroup>, word: string, flags: seq<Option<string>>)
    requires AllSupported(groups)
    requires GetWords(groups, word, flags).Ok?
    ensures forall x :: x in GetWords(groups, word, flags).value <==>
              exists i :: 0 <= i < |flags| && flags[i].Some? && Licenses(groups, word, flags[i].value, x)
    decreases |flags|
  {
    if flags != [] {
      var front := flags[..|flags| - 1];
      var flag := flags[|flags| - 1];
      GetWordsForms(groups, word, front);
      var g := groups[flag.value];
      assert RulesSupported(g.rules);
      ProcessRulesForms(g.affixType, word, g.rules);
      forall x | x in GetWords(groups, word, flags).value
        ensures exists i :: 0 <= i < |flags| && flags[i].Some? && Licenses(groups, word, flags[i].value, x)
      {
        if x in GetWords(groups, word, front).value {
          var i :| 0 <= i < |front| && front[i].Some? && Licenses(groups, word, front[i].value, x);
          assert flags[i] == front[i];
        } else {
          assert Licenses(groups, word, flags[|flags| - 1].value, x);
        }
      }
      forall x, i | 0 <= i < |flags| && flags[i].Some? && Licenses(groups, word, flags[i].value, x)
        ensures x in GetWords(groups, word, flags).value
      {
        if i < |front| {
          assert front[i] == flags[i];
        }
      }
    }
  }

  /** One more rule: what `processRules` does with rule `i` given the forms of
      the rules before it. */
  lemma ProcessRulesStep(affixType: AffixType, word: string, rules: seq<AffixRule>, i: nat)
    requires RulesSupported(rules) && i < |rules|
    requires ProcessRules(affixType, word, rules[..i]).Ok?
    ensures var acc := ProcessRules(affixType, word, rules[..i]).value;
            ProcessRules(affixType, word, rules[..i + 1]) ==
              match MatchesCondition(affixType, word, rules[i].condition)
              case Err(e) => Err(e)
              case Ok(m) =>
                if !m then Ok(acc)
                else match ApplyRule(affixType, word, rules[i])
                  case Err(e) => Err(e)
                  case Ok(form) => Ok(AddNew(acc, form))
  {
    assert rules[..i + 1][..i] == rules[..i] && rules[..i + 1][i] == rules[i];
  }

  /** `processRules` stops at its first exception: once the rules read so far
      raise one, the whole list raises the same one. */
  lemma {:induction false} ProcessRulesErrPersists(affixType: AffixType, word: string, rules: seq<AffixRule>, n: nat)
    requires RulesSupported(rules) && n <= |rules|
    requires ProcessRules(affixType, word, rules[..n]).Err?
    ensures ProcessRules(affixType, word, rules) == ProcessRules(affixType, word, rules[..n])
    decreases |rules| - n
  {
    if n < |rules| {
      assert rules[..n + 1][..n] == rules[..n];
      ProcessRulesErrPersists(affixType, word, rules, n + 1);
    } else {
      assert rules[..n] == rules;
    }
  }

  /** `getWords` stops at its first exception in the same way. */
  lemma {:induction false} GetWordsErrPersists(groups: map<string, AffixGroup>, word: string, flags: seq<Option<string>>, n: nat)
    requires AllSupported(groups) && n <= |flags|
    requires GetWords(groups, word, flags[..n]).Err?
    ensures GetWords(groups, word, flags) == GetWords(groups, word, flags[..n])
    decreases |flags| - n
  {
    if n < |flags| {
      assert flags[..n + 1][..n] == flags[..n];
      GetWordsErrPersists(groups, word, flags, n + 1);
    } else {
      assert flags[..n] == flags;
    }
  }

  /** A "long" flag string of four or more characters always leaves a null slot
      at index 1, so expanding it always fails. */
  lemma LongFlagsFailBeyondOnePair(groups: map<string, AffixGroup>, word: string, s: string)
    requires AllSupported(groups)
    requires |s| >= 4
    ensures GetWords(groups, word, FlagsOf(LONG, s)).Err?
  {
    assert FlagsOf(LONG, s)[1].None?;
  }

  /** The worked example of the format: `SFX A Y 1` / `SFX A 0 s .` makes "cats"
      of "cat". */
  lemma PluralExample()
    ensures var groups := map["A" := AffixGroup(SFX, "A", true, 1, [AffixRule("0", "s", ".")])];
            AllSupported(groups) && GetWords(groups, "cat", [Some("A")]) == Ok(["cats"])
  {
    var rule := AffixRule("0", "s", ".");
    assert StripLength(rule) == 0;
    assert "cat"[..3] + "s" == "cats";
    assert ApplyRule(SFX, "cat", rule) == Ok("cats");
    assert [rule][..0] == [];
    assert MatchesCondition(SFX, "cat", ".") == Ok(true);
    assert AddNew([], "cats") == ["cats"];
    assert ProcessRules(SFX, "cat", [rule]) == Ok(["cats"]);
  }
}

/** What `AffixParser.parseAffixFile` computes, as a function of the lines of an
    affix file: the fields the parser fills in, or the exception that ends the
    parse. The `AffixParser` class in AffixParser.dfy is proved to compute
    exactly this. */
module AffixGrammar {
  import opened Common
  import opened AffixRules
  import opened Affixes

  // The FLAG types the parser accepts.
  const ASCII: string := "ASCII"
  const UTF8: string := "UTF-8"
  const NUM: string := "num"
  const LONG: string := "long"

  predicate IsFlagType(t: string) {
    t == ASCII || t == UTF8 || t == NUM || t == LONG
  }

  /** The fields of an `AffixParser`, with Java's null as `None`. Each `Affix`
      object is represented by its value. */
  datatype ParserState = ParserState(
    affixes: map<string, AffixGroup>,
    tryCharacters: Option<string>,
    flagType: string,
    compoundFlag: Option<string>,
    compoundMinimalChars: int,
    replacementMap: Option<map<string, string>>,
    replacementSize: int)

  /** The fields before the first line is read. */
  const Initial: ParserState := ParserState(map[], None, ASCII, None, -1, None, 0)

  /** The line is a directive with this tag that the parser acts on: it has at
      least two parts and the first is the tag. */
  predicate IsDirective(line: string, tag: string) {
    var parts := LineParts(line);
    |parts| > 1 && parts[0] == tag
  }

  /** COMPOUNDMIN keeps a value in 1..50 and replaces any other by 3. */
  function CompoundMin(n: int): (m: int)
    ensures 1 <= m <= 50
    ensures 1 <= n <= 50 ==> m == n
    ensures !(1 <= n <= 50) ==> m == 3
  {
    if n < 1 || n > 50 then 3 else n
  }

  /** `handleFlag`: the first token after `FLAG` becomes the flag type, which must
      be one of the four known types. */
  function HandleFlag(st: ParserState, rest: string): (r: Result<ParserState>)
    ensures var tokens := Tokens(TokenizerSpace, rest);
            r.Ok? <==> tokens != [] && IsFlagType(tokens[0])
    ensures r.Ok? ==> r.value == st.(flagType := Tokens(TokenizerSpace, rest)[0])
    ensures Tokens(TokenizerSpace, rest) == [] ==> r == Err(NoSuchElement)
    ensures r.Err? ==> r.error == NoSuchElement || r.error == IOException(BadFlagType)
  {
    var tokens := Tokens(TokenizerSpace, rest);
    if tokens == [] then Err(NoSuchElement)
    else if IsFlagType(tokens[0]) then Ok(st.(flagType := tokens[0]))
    else Err(IOException(BadFlagType))
  }

  /** `handleReplacement`: the first REP line declares the number of pairs and
      creates the map; every later one puts `parts[1] -> parts[2]` into it, so a
      repeated pattern overwrites the earlier pair. */
  function HandleReplacement(st: ParserState, parts: seq<string>): (r: Result<ParserState>)
    requires |parts| >= 2
    ensures st.replacementMap.None? && r.Ok? ==>
              ParseInt(parts[1]).Some? &&
              r.value == st.(replacementMap := Some(map[]), replacementSize := ParseInt(parts[1]).value)
    ensures st.replacementMap.Some? && r.Ok? ==>
              |parts| >= 3 &&
              r.value == st.(replacementMap := Some(st.replacementMap.value[parts[1] := parts[2]]))
    ensures st.replacementMap.None? ==> (r.Ok? <==> ParseInt(parts[1]).Some?)
    ensures st.replacementMap.Some? ==> (r.Ok? <==> |parts| >= 3)
  {
    if st.replacementMap.None? then
      match ParseInt(parts[1])
      case None => Err(NumberFormat)
      case Some(n) => Ok(st.(replacementSize := n, replacementMap := Some(map[])))
    else if |parts| < 3 then Err(IndexOutOfBounds)
    else Ok(st.(replacementMap := Some(st.replacementMap.value[parts[1] := parts[2]])))
  }

  /** The rule a rule line describes: with a fourth token the tokens are taken
      verbatim; without one the line is accepted only when the append token is
      `.`, and is then read as append "" with condition `.`. */
  function RuleOf(strip: string, affix: string, more: seq<string>): (r: Result<AffixRule>)
    ensures r.Ok? <==> more != [] || affix == "."
    ensures r.Ok? ==> r.value.stripChars == strip
    ensures more != [] ==> r == Ok(AffixRule(strip, affix, more[0]))
    ensures more == [] && r.Ok? ==> r.value == AffixRule(strip, "", ".")
    ensures r.Err? ==> r.error == IOException(MissingCondition)
  {
    if more != [] then Ok(AffixRule(strip, affix, more[0]))
    else if affix == "." then Ok(AffixRule(strip, "", "."))
    else Err(IOException(MissingCondition))
  }

  /** `handleAffix`: the first token after the tag is the flag. A flag not yet in
      the map opens a group from the cross-product and count tokens; for a known
      flag the line is a rule of that group, whichever of PFX or SFX it says. */
  function HandleAffix(st: ParserState, affixType: AffixType, rest: string): (r: Result<ParserState>)
    ensures r.Ok? ==> r.value == st.(affixes := r.value.affixes)
  {
    var tokens := Tokens(TokenizerSpace, rest);
    if tokens == [] then Err(NoSuchElement)
    else
      var flag := tokens[0];
      if flag in st.affixes then
        if |tokens| < 3 then Err(NoSuchElement)
        else
          var rule :- RuleOf(tokens[1], tokens[2], tokens[3..]);
          var g := st.affixes[flag];
          Ok(st.(affixes := st.affixes[flag := g.(rules := g.rules + [rule])]))
      else if |tokens| < 3 then Err(NoSuchElement)
      else
        match ParseInt(tokens[2])
        case None => Err(NumberFormat)
        case Some(count) =>
          Ok(st.(affixes := st.affixes[flag := NewGroup(affixType, flag, tokens[1], count)]))
  }

  /** One directive: `parts` is the stripped line `s` split on whitespace, and
      the tag `parts[0]` decides what the line does. Tags the parser does not
      handle leave the fields alone. */
  function HandleDirective(st: ParserState, parts: seq<string>, s: string): (r: Result<ParserState>)
    requires |parts| > 1 && |parts[0]| <= |s|
    ensures r.Ok? && st.tryCharacters.Some? ==> r.value.tryCharacters == st.tryCharacters
    ensures r.Ok? && st.compoundFlag.Some? ==> r.value.compoundFlag == st.compoundFlag
    ensures r.Ok? && st.compoundMinimalChars >= 0 ==>
              r.value.compoundMinimalChars == st.compoundMinimalChars
    ensures r.Ok? && st.replacementMap.Some? ==>
              r.value.replacementMap.Some? && r.value.replacementSize == st.replacementSize
  {
    var tag := parts[0];
    if tag == "TRY" then
      if st.tryCharacters.Some? then Err(IOException(DuplicateTry))
      else Ok(st.(tryCharacters := Some(parts[1])))
    else if tag == "COMPOUNDFLAG" then
      if st.compoundFlag.Some? then Err(IOException(DuplicateCompoundFlag))
      else Ok(st.(compoundFlag := Some(parts[1])))
    else if tag == "COMPOUNDMIN" then
      if st.compoundMinimalChars >= 0 then Err(IOException(DuplicateCompoundMin))
      else
        match ParseInt(parts[1])
        case None => Err(NumberFormat)
        case Some(n) => Ok(st.(compoundMinimalChars := CompoundMin(n)))
    else if tag == "REP" then HandleReplacement(st, parts)
    else if tag == "SFX" then HandleAffix(st, SFX, s[3..])
    else if tag == "PFX" then HandleAffix(st, PFX, s[3..])
    else if tag == "FLAG" then HandleFlag(st, s[4..])
    else Ok(st)
  }

  /** One line of `parseAffixFile`'s loop: the line is stripped and split on
      whitespace, and lines with fewer than two parts are skipped. */
  function HandleLine(st: ParserState, line: string): (r: Result<ParserState>)
    ensures |LineParts(line)| <= 1 ==> r == Ok(st)
    ensures |LineParts(line)| > 1 ==> r == HandleDirective(st, LineParts(line), Strip(line))
  {
    var parts := LineParts(line);
    if |parts| <= 1 then Ok(st) else HandleDirective(st, parts, Strip(line))
  }

  /** The loop of `parseAffixFile` over the remaining lines; the first exception ends it. */
  function ParseLines(st: ParserState, lines: seq<string>): (r: Result<ParserState>)
    decreases |lines|
  {
    if lines == [] then Ok(st)
    else
      var next :- HandleLine(st, lines[0]);
      ParseLines(next, lines[1..])
  }

  /** Parsing `a + b` is parsing `a` and then, unless that failed, `b`. */
  lemma {:induction false} ParseLinesAppend(st: ParserState, a: seq<string>, b: seq<string>)
    ensures ParseLines(st, a + b) ==
              match ParseLines(st, a)
              case Ok(mid) => ParseLines(mid, b)
              case Err(e) => Err(e)
    decreases |a|
  {
    if a == [] {
      assert a + b == b;
    } else {
      assert (a + b)[0] == a[0] && (a + b)[1..] == a[1..] + b;
      if HandleLine(st, a[0]).Ok? {
        ParseLinesAppend(HandleLine(st, a[0]).value, a[1..], b);
      }
    }
  }

  /** The checks after the last line: the REP map must hold the declared number
      of pairs, and every group exactly its declared number of rules. */
  function Finish(st: ParserState): (r: Result<ParserState>)
    ensures r.Ok? <==>
              (st.replacementMap.Some? ==> |st.replacementMap.value| == st.replacementSize) &&
              (forall f :: f in st.affixes ==> st.affixes[f].HasAllRules())
    ensures r.Ok? ==> r.value == st
  {
    if st.replacementMap.Some? && st.replacementSize != |st.replacementMap.value| then
      Err(IOException(ReplacementCountMismatch))
    else if exists f :: f in st.affixes && !st.affixes[f].HasAllRules() then
      Err(IOException(RuleCountMismatch))
    else Ok(st)
  }

  /** `parseAffixFile` run from the fields `st`. */
  function ParseFrom(st: ParserState, lines: seq<string>): Result<ParserState> {
    var end :- ParseLines(st, lines);
    Finish(end)
  }

  /** The whole affix file, parsed by a freshly constructed parser. */
  function Parse(lines: seq<string>): Result<ParserState> {
    ParseFrom(Initial, lines)
  }

  // ---------------------------------------------------------------------
  // Invariants of the parse
  // ---------------------------------------------------------------------

  /** What every parser state reached from `Initial` satisfies: a known flag
      type; COMPOUNDMIN unset or in 1..50; REP patterns and replacements are
      whitespace-free tokens; every group is filed under its own flag, a token. */
  predicate Consistent(st: ParserState) {
    && IsFlagType(st.flagType)
    && (st.compoundMinimalChars == -1 || 1 <= st.compoundMinimalChars <= 50)
    && (st.replacementMap.Some? ==>
          forall p :: p in st.replacementMap.value ==>
            IsToken(RegexSpace, p) && IsToken(RegexSpace, st.replacementMap.value[p]))
    && (forall f :: f in st.affixes ==> st.affixes[f].flag == f && IsToken(TokenizerSpace, f))
  }

  lemma HandleAffixConsistent(st: ParserState, affixType: AffixType, rest: string)
    requires Consistent(st)
    requires HandleAffix(st, affixType, rest).Ok?
    ensures Consistent(HandleAffix(st, affixType, rest).value)
  {
  }

  lemma HandleReplacementConsistent(st: ParserState, parts: seq<string>)
    requires |parts| >= 2
    requires forall k :: 0 <= k < |parts| ==> IsToken(RegexSpace, parts[k])
    requires Consistent(st)
    requires HandleReplacement(st, parts).Ok?
    ensures Consistent(HandleReplacement(st, parts).value)
  {
    if st.replacementMap.Some? {
      assert IsToken(RegexSpace, parts[1]) && IsToken(RegexSpace, parts[2]);
    }
  }

  lemma HandleDirectiveConsistent(st: ParserState, parts: seq<string>, s: string)
    requires |parts| > 1 && |parts[0]| <= |s|
    requires forall k :: 0 <= k < |parts| ==> IsToken(RegexSpace, parts[k])
    requires Consistent(st)
    requires HandleDirective(st, parts, s).Ok?
    ensures Consistent(HandleDirective(st, parts, s).value)
  {
    var tag := parts[0];
    if tag == "REP" {
      HandleReplacementConsistent(st, parts);
    } else if tag == "SFX" {
      HandleAffixConsistent(st, SFX, s[3..]);
    } else if tag == "PFX" {
      HandleAffixConsistent(st, PFX, s[3..]);
    }
  }

  lemma HandleLineConsistent(st: ParserState, line: string)
    requires Consistent(st)
    requires HandleLine(st, line).Ok?
    ensures Consistent(HandleLine(st, line).value)
  {
    var parts := LineParts(line);
    if |parts| > 1 {
      HandleDirectiveConsistent(st, parts, Strip(line));
    }
  }

  lemma {:induction false} ParseLinesConsistent(st: ParserState, lines: seq<string>)
    requires Consistent(st)
    requires ParseLines(st, lines).Ok?
    ensures Consistent(ParseLines(st, lines).value)
    decreases |lines|
  {
    if lines != [] {
      HandleLineConsistent(st, lines[0]);
      ParseLinesConsistent(HandleLine(st, lines[0]).value, lines[1..]);
    }
  }

  /** A successful parse leaves: a known flag type, a COMPOUNDMIN unset or in
      1..50, exactly the declared number of REP pairs with non-empty patterns,
      and every group holding exactly its declared number of rules. */
  lemma ParseSound(lines: seq<string>)
    requires Parse(lines).Ok?
    ensures Consistent(Parse(lines).value)
    ensures var st := Parse(lines).value;
            && (st.replacementMap.Some? ==> |st.replacementMap.value| == st.replacementSize)
            && (forall f :: f in st.affixes ==> st.affixes[f].HasAllRules())
  {
    ParseLinesConsistent(Initial, lines);
  }

  // ---------------------------------------------------------------------
  // Directives that may appear once
  // ---------------------------------------------------------------------

  predicate IsOnceOnly(tag: string) {
    tag == "TRY" || tag == "COMPOUNDFLAG" || tag == "COMPOUNDMIN"
  }

  /** The directive `tag` has already been read into `st`. */
  predicate IsSet(st: ParserState, tag: string) {
    if tag == "TRY" then st.tryCharacters.Some?
    else if tag == "COMPOUNDFLAG" then st.compoundFlag.Some?
    else st.compoundMinimalChars >= 0
  }

  lemma HandleLineSets(st: ParserState, line: string, tag: string)
    requires IsOnceOnly(tag) && IsDirective(line, tag)
    requires HandleLine(st, line).Ok?
    ensures IsSet(HandleLine(st, line).value, tag)
  {
  }

  lemma HandleLineRejectsRepeat(st: ParserState, line: string, tag: string)
    requires IsOnceOnly(tag) && IsDirective(line, tag) && IsSet(st, tag)
    ensures HandleLine(st, line).Err?
  {
  }

  lemma HandleLineKeepsSet(st: ParserState, line: string, tag: string)
    requires IsOnceOnly(tag) && IsSet(st, tag)
    requires HandleLine(st, line).Ok?
    ensures IsSet(HandleLine(st, line).value, tag)
  {
    if |LineParts(line)| > 1 {
      var r := HandleDirective(st, LineParts(line), Strip(line));
      assert r == HandleLine(st, line);
    }
  }

  /** One iteration of the loop, from line `k` on: the line is handled, and
      unless that raised, the new state goes on to the lines after it. */
  lemma ParseLinesStep(st: ParserState, lines: seq<string>, k: nat)
    requires k < |lines|
    ensures ParseLines(st, lines[k..]) ==
              match HandleLine(st, lines[k])
              case Ok(next) => ParseLines(next, lines[k + 1..])
              case Err(e) => Err(e)
  {
    assert lines[k..][0] == lines[k] && lines[k..][1..] == lines[k + 1..];
  }

  /** Once the directive is set, a later line of it makes the loop raise. */
  lemma {:induction false} RepeatAfterSetFails(st: ParserState, lines: seq<string>, k: nat, j: int, tag: string)
    requires IsOnceOnly(tag) && IsSet(st, tag)
    requires k <= j < |lines| && IsDirective(lines[j], tag)
    ensures ParseLines(st, lines[k..]).Err?
    decreases j - k
  {
    ParseLinesStep(st, lines, k);
    if k == j {
      HandleLineRejectsRepeat(st, lines[j], tag);
    } else if HandleLine(st, lines[k]).Ok? {
      HandleLineKeepsSet(st, lines[k], tag);
      RepeatAfterSetFails(HandleLine(st, lines[k]).value, lines, k + 1, j, tag);
    }
  }

  /** From any state, a line of such a directive followed later by another
      makes the loop raise. */
  lemma {:induction false} DirectiveTwiceFails(st: ParserState, lines: seq<string>, k: nat, i: int, j: int, tag: string)
    requires IsOnceOnly(tag)
    requires k <= i < j < |lines| && IsDirective(lines[i], tag) && IsDirective(lines[j], tag)
    ensures ParseLines(st, lines[k..]).Err?
    decreases i - k
  {
    ParseLinesStep(st, lines, k);
    if HandleLine(st, lines[k]).Ok? {
      var next := HandleLine(st, lines[k]).value;
      if k == i {
        HandleLineSets(st, lines[i], tag);
        RepeatAfterSetFails(next, lines, k + 1, j, tag);
      } else {
        DirectiveTwiceFails(next, lines, k + 1, i, j, tag);
      }
    }
  }

  /** A second TRY, COMPOUNDFLAG or COMPOUNDMIN line makes the parse fail. */
  lemma RepeatedDirectiveFails(lines: seq<string>, i: int, j: int, tag: string)
    requires IsOnceOnly(tag)
    requires 0 <= i < j < |lines| && IsDirective(lines[i], tag) && IsDirective(lines[j], tag)
    ensures Parse(lines).Err?
  {
    DirectiveTwiceFails(Initial, lines, 0, i, j, tag);
    assert lines[0..] == lines;
  }

  // ---------------------------------------------------------------------
  // Affix groups
  // ---------------------------------------------------------------------

  /** PFX and SFX groups share one map: once a flag is known, a line with that
      flag is a rule of its group whether it says PFX or SFX. */
  lemma RuleLineIgnoresTag(st: ParserState, rest: string)
    requires Tokens(TokenizerSpace, rest) != [] && Tokens(TokenizerSpace, rest)[0] in st.affixes
    ensures HandleAffix(st, PFX, rest) == HandleAffix(st, SFX, rest)
  {
  }

  /** A rule line for a known flag appends exactly one rule to that group, with
      the strip, append and condition tokens stored verbatim. */
  lemma RuleLineAppends(st: ParserState, affixType: AffixType, rest: string)
    requires var t := Tokens(TokenizerSpace, rest); |t| >= 4 && t[0] in st.affixes
    ensures var t := Tokens(TokenizerSpace, rest);
            var g := st.affixes[t[0]];
            HandleAffix(st, affixType, rest) ==
              Ok(st.(affixes := st.affixes[t[0] := g.(rules := g.rules + [AffixRule(t[1], t[2], t[3])])]))
  {
  }

  /** An affix line adds at most its own flag to the map, and a group already
      there keeps its header and its earlier rules, in order. */
  lemma AffixLineExtends(st: ParserState, affixType: AffixType, rest: string)
    requires HandleAffix(st, affixType, rest).Ok?
    ensures var t := Tokens(TokenizerSpace, rest);
            var after := HandleAffix(st, affixType, rest).value.affixes;
            t != [] && after.Keys == st.affixes.Keys + {t[0]}
    ensures var after := HandleAffix(st, affixType, rest).value.affixes;
            forall f :: f in st.affixes ==>
              after[f].(rules := st.affixes[f].rules) == st.affixes[f] &&
              |after[f].rules| >= |st.affixes[f].rules| &&
              after[f].rules[..|st.affixes[f].rules|] == st.affixes[f].rules
  {
    var t := Tokens(TokenizerSpace, rest);
    if t[0] in st.affixes {
      var g := st.affixes[t[0]];
      var rule := RuleOf(t[1], t[2], t[3..]).value;
      assert (g.rules + [rule])[..|g.rules|] == g.rules;
    }
  }

  /** A header line for a new flag opens an empty group of the line's type. */
  lemma HeaderLineOpens(st: ParserState, affixType: AffixType, rest: string)
    requires var t := Tokens(TokenizerSpace, rest); |t| >= 3 && t[0] !in st.affixes
    ensures var t := Tokens(TokenizerSpace, rest);
            var r := HandleAffix(st, affixType, rest);
            (r.Ok? <==> ParseInt(t[2]).Some?) &&
            (r.Ok? ==> t[0] in r.value.affixes &&
                       r.value.affixes[t[0]] == NewGroup(affixType, t[0], t[1], ParseInt(t[2]).value))
  {
  }
}

/** `SpellCorrector.suggest`: the word is looked up, then candidates one edit
    away are looked up in order, and a candidate whose affixed forms include the
    word proves the word correct. The answer is an empty array for a correct
    word and the word itself otherwise; the candidates found along the way only
    decide whether the last, truncating pass runs. */
module SpellCorrectors {
  import opened Common
  import opened AffixRules
  import opened Affixes
  import opened DictionaryEntries
  import opened WordForms
  import opened CaseMapping
  import opened Candidates

  /** What `suggest` reads: the dictionary's word map, the affix groups and the
      REP and TRY settings of the affix file, and the locale's case maps.
      `repOrder` is the order in which the REP map's key set is iterated;
      `None` stands for a null map or a null TRY array. */
  datatype Corrector = Corrector(
    words: map<string, DictionaryEntry>,
    groups: map<string, AffixGroup>,
    replacement: Option<map<string, string>>,
    repOrder: seq<string>,
    tryCharacters: Option<string>,
    cases: CaseMap)

  /** The affix conditions are in the modelled regular-expression subset, REP
      keys are non-empty (they are whitespace-separated tokens of the affix
      file) and `repOrder` lists each key once. */
  predicate Valid(c: Corrector) {
    && AllSupported(c.groups)
    && (c.replacement.Some? ==> IsKeyOrder(c.replacement.value, c.repOrder))
    && (c.replacement.None? ==> c.repOrder == [])
  }

  /** `getWords(entry)`: the forms the entry's flags produce; an entry without
      flags has none. */
  function Expand(c: Corrector, entry: DictionaryEntry): (r: Result<seq<string>>)
    requires AllSupported(c.groups)
    ensures entry.flags.None? ==> r == Ok([])
    ensures entry.flags.Some? ==> r == GetWords(c.groups, entry.word, entry.flags.value)
  {
    if entry.flags.None? then Ok([]) else GetWords(c.groups, entry.word, entry.flags.value)
  }

  /** The block each pass repeats for one candidate: `Ok(true)` when the
      candidate is a dictionary word one of whose forms is the word. An
      IOException from `getWords` is caught and counts as no; any other
      exception escapes. */
  function Confirms(c: Corrector, w: string, cand: string): (r: Result<bool>)
    requires Valid(c)
    ensures cand !in c.words ==> r == Ok(false)
    ensures r.Err? ==> !r.error.IOException?
  {
    if cand !in c.words then Ok(false)
    else match Expand(c, c.words[cand])
      case Ok(forms) => Ok(w in forms)
      case Err(e) => if e.IOException? then Ok(false) else Err(e)
  }

  /** A candidate confirms the word exactly when it is a dictionary word whose
      flags license the word, every flag being known. */
  lemma ConfirmsLicensed(c: Corrector, w: string, cand: string)
    requires Valid(c)
    ensures Confirms(c, w, cand) == Ok(true) <==>
              && cand in c.words
              && c.words[cand].flags.Some?
              && var flags := c.words[cand].flags.value;
                 && GetWords(c.groups, c.words[cand].word, flags).Ok?
                 && exists i :: 0 <= i < |flags| && flags[i].Some? && Licenses(c.groups, c.words[cand].word, flags[i].value, w)
  {
    if cand in c.words && c.words[cand].flags.Some? {
      var e := c.words[cand];
      if GetWords(c.groups, e.word, e.flags.value).Ok? {
        GetWordsForms(c.groups, e.word, e.flags.value);
      }
    }
  }

  // ---------------------------------------------------------------------
  // Scanning a list of candidates
  // ---------------------------------------------------------------------

  /** How a scan ends: every candidate said no, one confirmed the word (return
      an empty array), or an exception escaped. */
  datatype Outcome = Continue | Confirmed | Crashed(e: Exception)

  function Step(c: Corrector, w: string, cand: string): Outcome
    requires Valid(c)
  {
    match Confirms(c, w, cand)
    case Ok(b) => if b then Confirmed else Continue
    case Err(e) => Crashed(e)
  }

  /** The candidates tried in order; the first that does not say no ends the
      scan. */
  function Scan(c: Corrector, w: string, cands: seq<string>): Outcome
    requires Valid(c)
    decreases |cands|
  {
    if cands == [] then Continue
    else
      var o := Scan(c, w, cands[..|cands| - 1]);
      if o.Continue? then Step(c, w, cands[|cands| - 1]) else o
  }

  /** Scanning two lists in turn is scanning their concatenation. */
  lemma {:induction false} ScanAppend(c: Corrector, w: string, a: seq<string>, b: seq<string>)
    requires Valid(c)
    ensures Scan(c, w, a + b) == if Scan(c, w, a).Continue? then Scan(c, w, b) else Scan(c, w, a)
    decreases |b|
  {
    if b == [] {
      assert a + b == a;
    } else {
      assert (a + b)[..|a + b| - 1] == a + b[..|b| - 1];
      ScanAppend(c, w, a, b[..|b| - 1]);
    }
  }

  /** A scan that has stopped within a prefix has stopped for the whole list. */
  lemma ScanPrefix(c: Corrector, w: string, a: seq<string>, b: seq<string>)
    requires Valid(c) && a <= b && !Scan(c, w, a).Continue?
    ensures Scan(c, w, b) == Scan(c, w, a)
  {
    assert b == a + b[|a|..];
    ScanAppend(c, w, a, b[|a|..]);
  }

  /** A scan runs to the end exactly when every candidate says no. */
  lemma {:induction false} ScanContinues(c: Corrector, w: string, cands: seq<string>)
    requires Valid(c)
    ensures Scan(c, w, cands).Continue? <==> forall i :: 0 <= i < |cands| ==> Confirms(c, w, cands[i]) == Ok(false)
    decreases |cands|
  {
    if cands != [] {
      var front := cands[..|cands| - 1];
      ScanContinues(c, w, front);
      assert forall i :: 0 <= i < |front| ==> front[i] == cands[i];
    }
  }

  /** An IOException never ends a scan: it is caught at every candidate. */
  lemma {:induction false} ScanNeverRaisesIOException(c: Corrector, w: string, cands: seq<string>)
    requires Valid(c)
    ensures Scan(c, w, cands).Crashed? ==> !Scan(c, w, cands).e.IOException?
    decreases |cands|
  {
    if cands != [] {
      ScanNeverRaisesIOException(c, w, cands[..|cands| - 1]);
    }
  }

  // ---------------------------------------------------------------------
  // The candidates found along the way
  // ---------------------------------------------------------------------

  /** The `result` list of the candidate passes: each candidate that is a
      dictionary word, added the first time it is met. */
  function KeysOf(words: map<string, DictionaryEntry>, cands: seq<string>): seq<string>
    decreases |cands|
  {
    if cands == [] then []
    else
      var acc := KeysOf(words, cands[..|cands| - 1]);
      var x := cands[|cands| - 1];
      if x in words then AddNew(acc, x) else acc
  }

  /** The list holds each dictionary word among the candidates, once. */
  lemma {:induction false} KeysOfMembers(words: map<string, DictionaryEntry>, cands: seq<string>)
    ensures NoDuplicates(KeysOf(words, cands))
    ensures forall x :: x in KeysOf(words, cands) <==> x in cands && x in words
    decreases |cands|
  {
    if cands != [] {
      var front := cands[..|cands| - 1];
      KeysOfMembers(words, front);
      assert cands == front + [cands[|cands| - 1]];
    }
  }

  /** The two-word splits: `word1 + " " + word2` for each cut after position
      1 .. k - 1 whose halves are both dictionary words. */
  function SplitsBelow(words: map<string, DictionaryEntry>, w: string, k: nat): seq<string>
    requires k <= |w|
    decreases k
  {
    if k <= 1 then []
    else
      var i := k - 1;
      SplitsBelow(words, w, i) + (if w[..i] in words && w[i..] in words then [w[..i] + " " + w[i..]] else [])
  }

  /** Only words longer than three characters are split, and the second half
      keeps at least three characters. */
  function Splits(words: map<string, DictionaryEntry>, w: string): seq<string> {
    if |w| > 3 then SplitsBelow(words, w, |w| - 2) else []
  }

  /** The same with both halves capitalized, tried for capitalized words. */
  function CapSplitsBelow(cm: CaseMap, words: map<string, DictionaryEntry>, w: string, k: nat): seq<string>
    requires k <= |w|
    decreases k
  {
    if k <= 1 then []
    else
      var i := k - 1;
      var w1 := Capitalize(cm, w[..i]).value;
      var w2 := Capitalize(cm, w[i..]).value;
      CapSplitsBelow(cm, words, w, i) + (if w1 in words && w2 in words then [w1 + " " + w2] else [])
  }

  function CapSplits(cm: CaseMap, words: map<string, DictionaryEntry>, w: string): seq<string> {
    if |w| > 3 && Capitalize(cm, w) == Ok(w) then CapSplitsBelow(cm, words, w, |w| - 2) else []
  }

  /** A split is offered exactly for each cut into two dictionary words. */
  lemma {:induction false} SplitsBelowMembers(words: map<string, DictionaryEntry>, w: string, k: nat, x: string)
    requires k <= |w|
    ensures x in SplitsBelow(words, w, k) <==>
              exists i :: 1 <= i < k && w[..i] in words && w[i..] in words && x == w[..i] + " " + w[i..]
    decreases k
  {
    if k > 1 {
      SplitsBelowMembers(words, w, k - 1, x);
    }
  }

  // ---------------------------------------------------------------------
  // suggest
  // ---------------------------------------------------------------------

  /** The deletion pass, then the REP pass when the affix file has a REP table. */
  function EarlyCandidates(c: Corrector, w: string): seq<string>
    requires Valid(c)
  {
    Deletions(w) + if c.replacement.Some? then RepCandidates(w, c.replacement.value, c.repOrder) else []
  }

  /** The passes that use the TRY characters, then the transpositions. */
  function TryCandidates(w: string, tryChars: string): seq<string> {
    Substitutions(w, tryChars) + Insertions(w, tryChars) + Transpositions(w)
  }

  /** `suggest` from the first candidate pass on. */
  function SuggestByEdits(c: Corrector, w: string): (r: Result<seq<string>>)
    requires Valid(c)
    ensures r.Ok? ==> r.value == [] || r.value == [w]
  {
    var early := EarlyCandidates(c, w);
    match Scan(c, w, early)
    case Confirmed => Ok([])
    case Crashed(e) => Err(e)
    case Continue =>
      if c.tryCharacters.None? then Err(NullPointer)
      else
        var edits := TryCandidates(w, c.tryCharacters.value);
        match Scan(c, w, edits)
        case Confirmed => Ok([])
        case Crashed(e) => Err(e)
        case Continue =>
          if KeysOf(c.words, early + edits) + Splits(c.words, w) + CapSplits(c.cases, c.words, w) != [] then Ok([w])
          else match Scan(c, w, Truncations(w))
            case Confirmed => Ok([])
            case Crashed(e) => Err(e)
            case Continue => Ok([w])
  }

  /** `suggest`: an empty array when the word, or for an upper-case or
      capitalized word its lower-case form, is in the dictionary, or when a
      candidate confirms it; otherwise the word alone. Capitalizing an empty
      word raises. */
  function Suggest(c: Corrector, w: string): (r: Result<seq<string>>)
    requires Valid(c)
    ensures r.Ok? ==> r.value == [] || r.value == [w]
  {
    if w in c.words then Ok([])
    else if IsUppercase(c.cases, w) && c.cases.lower(w) in c.words then Ok([])
    else
      var capitalized :- IsCapitalized(c.cases, w);
      if capitalized && c.cases.lower(w) in c.words then Ok([])
      else SuggestByEdits(c, w)
  }

  /** The word is reported as misspelt exactly when it is not in the
      dictionary (nor its lower-case form, for an upper-case or capitalized
      word), the TRY characters are set, every candidate of the edit passes
      says no, and, when none of them and no split is a dictionary word, every
      truncation says no too. */
  lemma SuggestMisspelt(c: Corrector, w: string)
    requires Valid(c)
    ensures Suggest(c, w) == Ok([w]) <==>
              && w !in c.words
              && !(IsUppercase(c.cases, w) && c.cases.lower(w) in c.words)
              && IsCapitalized(c.cases, w).Ok?
              && !(IsCapitalized(c.cases, w).value && c.cases.lower(w) in c.words)
              && c.tryCharacters.Some?
              && var cands := EarlyCandidates(c, w) + TryCandidates(w, c.tryCharacters.value);
                 && (forall i :: 0 <= i < |cands| ==> Confirms(c, w, cands[i]) == Ok(false))
                 && (KeysOf(c.words, cands) + Splits(c.words, w) + CapSplits(c.cases, c.words, w) == [] ==>
                       forall i :: 0 <= i < |Truncations(w)| ==> Confirms(c, w, Truncations(w)[i]) == Ok(false))
  {
    var early := EarlyCandidates(c, w);
    ScanContinues(c, w, early);
    ScanContinues(c, w, Truncations(w));
    if c.tryCharacters.Some? {
      var edits := TryCandidates(w, c.tryCharacters.value);
      ScanContinues(c, w, edits);
      ScanContinues(c, w, early + edits);
      ScanAppend(c, w, early, edits);
    }
  }

  /** An IOException raised while expanding a candidate never escapes
      `suggest`. */
  lemma SuggestNeverRaisesIOException(c: Corrector, w: string)
    requires Valid(c)
    ensures Suggest(c, w).Err? ==> !Suggest(c, w).error.IOException?
  {
    ScanNeverRaisesIOException(c, w, EarlyCandidates(c, w));
    if c.tryCharacters.Some? {
      ScanNeverRaisesIOException(c, w, TryCandidates(w, c.tryCharacters.value));
    }
    ScanNeverRaisesIOException(c, w, Truncations(w));
  }

  /** An empty word not in the dictionary makes `suggest` raise, because it
      cannot be capitalized. */
  lemma SuggestEmptyWordRaises(c: Corrector)
    requires Valid(c) && [] !in c.words
    requires !(IsUppercase(c.cases, []) && c.cases.lower([]) in c.words)
    ensures Suggest(c, []) == Err(IndexOutOfBounds)
  {
    assert Capitalize(c.cases, []) == Err(IndexOutOfBounds);
  }

  // ---------------------------------------------------------------------
  // The passes as the loops of `suggest`
  // ---------------------------------------------------------------------

  /** `result` lists the dictionary words among the candidates probed so far,
      and `checkList` holds the same words. */
  ghost predicate Tracks(words: map<string, DictionaryEntry>, probed: seq<string>, result: seq<string>, checkList: set<string>) {
    result == KeysOf(words, probed) && forall x :: x in checkList <==> x in result
  }

  /** Lookup, `getWords` and `contains` for one candidate. */
  method Confirm(c: Corrector, w: string, cand: string) returns (o: Outcome)
    requires Valid(c)
    ensures o == Step(c, w, cand)
  {
    if cand !in c.words {
      return Continue;
    }
    var entry := c.words[cand];
    var forms := Expand(c, entry);
    if forms.Err? {
      if forms.error.IOException? {
        return Continue;
      }
      return Crashed(forms.error);
    }
    if w in forms.value {
      return Confirmed;
    }
    return Continue;
  }

  /** One candidate of the passes that collect results: confirm it, and file a
      dictionary word in `result` and `checkList` if it is not there yet. */
  method Probe(c: Corrector, w: string, cand: string, ghost probed: seq<string>, result: seq<string>, checkList: set<string>)
    returns (o: Outcome, result': seq<string>, checkList': set<string>)
    requires Valid(c) && Tracks(c.words, probed, result, checkList)
    ensures o == Step(c, w, cand)
    ensures o.Continue? ==> Tracks(c.words, probed + [cand], result', checkList')
  {
    result', checkList' := result, checkList;
    o := Confirm(c, w, cand);
    assert (probed + [cand])[..|probed|] == probed;
    if o.Continue? && cand in c.words && cand !in checkList {
      result' := result + [cand];
      checkList' := checkList + {cand};
    }
  }

  /** Removing one character at a time. */
  method DeletionPass(c: Corrector, w: string, ghost probed: seq<string>, result: seq<string>, checkList: set<string>)
    returns (o: Outcome, result': seq<string>, checkList': set<string>)
    requires Valid(c) && Tracks(c.words, probed, result, checkList)
    ensures o == Scan(c, w, Deletions(w))
    ensures o.Continue? ==> Tracks(c.words, probed + Deletions(w), result', checkList')
  {
    result', checkList' := result, checkList;
    var ds := Deletions(w);
    assert probed + ds[..0] == probed;
    for i := 0 to |w|
      invariant Scan(c, w, ds[..i]) == Continue
      invariant Tracks(c.words, probed + ds[..i], result', checkList')
    {
      var candidate := BuildDeletion(w, i);
      assert ds[..i + 1] == ds[..i] + [candidate];
      assert probed + ds[..i + 1] == probed + ds[..i] + [candidate];
      o, result', checkList' := Probe(c, w, candidate, probed + ds[..i], result', checkList');
      if !o.Continue? {
        ScanPrefix(c, w, ds[..i + 1], ds);
        return;
      }
    }
    assert ds[..|w|] == ds;
    o := Continue;
  }

  /** Regrouping a concatenation. A call puts this one instance into a method's
      context; asserting the equation inline costs the solver far more there. */
  lemma AppendAssociative(a: seq<string>, b: seq<string>, c: seq<string>)
    ensures a + b + c == a + (b + c)
  {
  }

  /** One step of the `indexOf` chain. */
  lemma RepFromStep(w: string, key: string, value: string, from: nat)
    requires key != []
    ensures var index := IndexOf(w, key, from);
            RepFrom(w, key, value, from) ==
              if index == -1 then [] else [ReplaceAt(w, index, key, value)] + RepFrom(w, key, value, index + 1)
  {
  }

  /** One occurrence of a REP key: build the candidate and probe it. */
  method RepProbe(c: Corrector, w: string, key: string, value: string, index: int,
                  ghost probed: seq<string>, ghost done: seq<string>, result: seq<string>, checkList: set<string>)
    returns (o: Outcome, result': seq<string>, checkList': set<string>, ghost done': seq<string>)
    requires Valid(c) && key != [] && index != -1 && OccursAt(w, key, index)
    requires Scan(c, w, done) == Continue && Tracks(c.words, probed + done, result, checkList)
    ensures done' == done + [ReplaceAt(w, index, key, value)]
    ensures o == Scan(c, w, done')
    ensures o.Continue? ==> Tracks(c.words, probed + done', result', checkList')
  {
    var candidate := ReplaceAt(w, index, key, value);
    done' := done + [candidate];
    assert done'[..|done|] == done;
    AppendAssociative(probed, done, [candidate]);
    o, result', checkList' := Probe(c, w, candidate, probed + done, result, checkList);
  }

  /** Every occurrence of one REP key, found by `indexOf` from the start and
      then from one past the last occurrence. */
  method RepKeyPass(c: Corrector, w: string, key: string, value: string, ghost probed: seq<string>,
                    result: seq<string>, checkList: set<string>)
    returns (o: Outcome, result': seq<string>, checkList': set<string>)
    requires Valid(c) && key != [] && Tracks(c.words, probed, result, checkList)
    ensures o == Scan(c, w, RepFrom(w, key, value, 0))
    ensures o.Continue? ==> Tracks(c.words, probed + RepFrom(w, key, value, 0), result', checkList')
  {
    result', checkList' := result, checkList;
    var index := IndexOf(w, key, 0);
    ghost var from: nat := 0;
    ghost var done: seq<string> := [];
    ghost var all := RepFrom(w, key, value, 0);
    assert probed + done == probed && done + all == all;
    while index != -1
      invariant from <= |w| && index == IndexOf(w, key, from)
      invariant done + RepFrom(w, key, value, from) == all
      invariant Scan(c, w, done) == Continue
      invariant Tracks(c.words, probed + done, result', checkList')
      decreases |w| - from
    {
      RepFromStep(w, key, value, from);
      AppendAssociative(done, [ReplaceAt(w, index, key, value)], RepFrom(w, key, value, index + 1));
      o, result', checkList', done := RepProbe(c, w, key, value, index, probed, done, result', checkList');
      from := index + 1;
      if !o.Continue? {
        break;
      }
      index := IndexOf(w, key, index + 1);
    }
    ScanAppend(c, w, done, RepFrom(w, key, value, from));
    if index == -1 {
      RepFromStep(w, key, value, from);
      assert done == all;
      o := Continue;
    }
  }

  /** The REP candidates of the keys before `n` in the iteration order come
      first among all REP candidates. */
  lemma {:induction false} RepCandidatesPrefix(w: string, m: map<string, string>, order: seq<string>, n: nat)
    requires forall i :: 0 <= i < |order| ==> order[i] in m && order[i] != []
    requires n <= |order|
    ensures RepCandidates(w, m, order[..n]) <= RepCandidates(w, m, order)
    decreases |order|
  {
    if n < |order| {
      var front := order[..|order| - 1];
      assert front[..n] == order[..n];
      RepCandidatesPrefix(w, m, front, n);
    } else {
      assert order[..n] == order;
    }
  }

  /** The candidates of the first `k + 1` keys are those of the first `k`
      followed by those of key `k`. */
  lemma RepCandidatesStep(w: string, m: map<string, string>, order: seq<string>, k: nat)
    requires forall i :: 0 <= i < |order| ==> order[i] in m && order[i] != []
    requires k < |order|
    ensures RepCandidates(w, m, order[..k + 1]) ==
              RepCandidates(w, m, order[..k]) + RepFrom(w, order[k], m[order[k]], 0)
  {
    assert order[..k + 1][..k] == order[..k];
  }

  /** The REP table, key by key in iteration order. */
  method RepPass(c: Corrector, w: string, ghost probed: seq<string>, result: seq<string>, checkList: set<string>)
    returns (o: Outcome, result': seq<string>, checkList': set<string>)
    requires Valid(c) && c.replacement.Some? && Tracks(c.words, probed, result, checkList)
    ensures o == Scan(c, w, RepCandidates(w, c.replacement.value, c.repOrder))
    ensures o.Continue? ==> Tracks(c.words, probed + RepCandidates(w, c.replacement.value, c.repOrder), result', checkList')
  {
    result', checkList' := result, checkList;
    var m := c.replacement.value;
    var order := c.repOrder;
    ghost var all := RepCandidates(w, m, order);
    assert probed + RepCandidates(w, m, order[..0]) == probed;
    for k := 0 to |order|
      invariant Scan(c, w, RepCandidates(w, m, order[..k])) == Continue
      invariant Tracks(c.words, probed + RepCandidates(w, m, order[..k]), result', checkList')
    {
      var key := order[k];
      ghost var done := RepCandidates(w, m, order[..k]);
      ghost var reps := RepFrom(w, key, m[key], 0);
      RepCandidatesStep(w, m, order, k);
      o, result', checkList' := RepKeyPass(c, w, key, m[key], probed + done, result', checkList');
      ScanAppend(c, w, done, reps);
      if !o.Continue? {
        RepCandidatesPrefix(w, m, order, k + 1);
        ScanPrefix(c, w, done + reps, all);
        return;
      }
      AppendAssociative(probed, done, reps);
    }
    assert order[..|order|] == order;
    o := Continue;
  }

  /** One TRY character in place of each character of the word in turn. */
  method SubstitutionRowPass(c: Corrector, w: string, ch: char, ghost probed: seq<string>, result: seq<string>, checkList: set<string>)
    returns (o: Outcome, result': seq<string>, checkList': set<string>)
    requires Valid(c) && Tracks(c.words, probed, result, checkList)
    ensures o == Scan(c, w, SubstitutionRow(w, ch))
    ensures o.Continue? ==> Tracks(c.words, probed + SubstitutionRow(w, ch), result', checkList')
  {
    result', checkList' := result, checkList;
    var row := SubstitutionRow(w, ch);
    assert probed + row[..0] == probed;
    for j := 0 to |w|
      invariant Scan(c, w, row[..j]) == Continue
      invariant Tracks(c.words, probed + row[..j], result', checkList')
    {
      var candidate := BuildSubstitution(w, j, ch);
      assert row[..j + 1] == row[..j] + [candidate];
      AppendAssociative(probed, row[..j], [candidate]);
      o, result', checkList' := Probe(c, w, candidate, probed + row[..j], result', checkList');
      if !o.Continue? {
        ScanPrefix(c, w, row[..j + 1], row);
        return;
      }
    }
    assert row[..|w|] == row;
    o := Continue;
  }

  /** Each TRY character in place of each character of the word. */
  method SubstitutionPass(c: Corrector, w: string, tryChars: string, ghost probed: seq<string>, result: seq<string>, checkList: set<string>)
    returns (o: Outcome, result': seq<string>, checkList': set<string>)
    requires Valid(c) && Tracks(c.words, probed, result, checkList)
    ensures o == Scan(c, w, Substitutions(w, tryChars))
    ensures o.Continue? ==> Tracks(c.words, probed + Substitutions(w, tryChars), result', checkList')
  {
    result', checkList' := result, checkList;
    assert probed + Substitutions(w, tryChars[..0]) == probed;
    for i := 0 to |tryChars|
      invariant Scan(c, w, Substitutions(w, tryChars[..i])) == Continue
      invariant Tracks(c.words, probed + Substitutions(w, tryChars[..i]), result', checkList')
    {
      ghost var done := Substitutions(w, tryChars[..i]);
      assert tryChars[..i + 1][..i] == tryChars[..i];
      assert Substitutions(w, tryChars[..i + 1]) == done + SubstitutionRow(w, tryChars[i]);
      o, result', checkList' := SubstitutionRowPass(c, w, tryChars[i], probed + done, result', checkList');
      ScanAppend(c, w, done, SubstitutionRow(w, tryChars[i]));
      if !o.Continue? {
        SubstitutionsPrefix(w, tryChars, i + 1);
        ScanPrefix(c, w, Substitutions(w, tryChars[..i + 1]), Substitutions(w, tryChars));
        return;
      }
      AppendAssociative(probed, done, SubstitutionRow(w, tryChars[i]));
    }
    assert tryChars[..|tryChars|] == tryChars;
    o := Continue;
  }

  /** One TRY character in front of each character of the word in turn. */
  method InsertionRowPass(c: Corrector, w: string, ch: char, ghost probed: seq<string>, result: seq<string>, checkList: set<string>)
    returns (o: Outcome, result': seq<string>, checkList': set<string>)
    requires Valid(c) && Tracks(c.words, probed, result, checkList)
    ensures o == Scan(c, w, InsertionRow(w, ch))
    ensures o.Continue? ==> Tracks(c.words, probed + InsertionRow(w, ch), result', checkList')
  {
    result', checkList' := result, checkList;
    var row := InsertionRow(w, ch);
    assert probed + row[..0] == probed;
    for j := 0 to |w|
      invariant Scan(c, w, row[..j]) == Continue
      invariant Tracks(c.words, probed + row[..j], result', checkList')
    {
      var candidate := BuildInsertion(w, j, ch);
      assert row[..j + 1] == row[..j] + [candidate];
      AppendAssociative(probed, row[..j], [candidate]);
      o, result', checkList' := Probe(c, w, candidate, probed + row[..j], result', checkList');
      if !o.Continue? {
        ScanPrefix(c, w, row[..j + 1], row);
        return;
      }
    }
    assert row[..|w|] == row;
    o := Continue;
  }

  /** Each TRY character in front of each character of the word. */
  method InsertionPass(c: Corrector, w: string, tryChars: string, ghost probed: seq<string>, result: seq<string>, checkList: set<string>)
    returns (o: Outcome, result': seq<string>, checkList': set<string>)
    requires Valid(c) && Tracks(c.words, probed, result, checkList)
    ensures o == Scan(c, w, Insertions(w, tryChars))
    ensures o.Continue? ==> Tracks(c.words, probed + Insertions(w, tryChars), result', checkList')
  {
    result', checkList' := result, checkList;
    assert probed + Insertions(w, tryChars[..0]) == probed;
    for i := 0 to |tryChars|
      invariant Scan(c, w, Insertions(w, tryChars[..i])) == Continue
      invariant Tracks(c.words, probed + Insertions(w, tryChars[..i]), result', checkList')
    {
      ghost var done := Insertions(w, tryChars[..i]);
      assert tryChars[..i + 1][..i] == tryChars[..i];
      assert Insertions(w, tryChars[..i + 1]) == done + InsertionRow(w, tryChars[i]);
      o, result', checkList' := InsertionRowPass(c, w, tryChars[i], probed + done, result', checkList');
      ScanAppend(c, w, done, InsertionRow(w, tryChars[i]));
      if !o.Continue? {
        InsertionsPrefix(w, tryChars, i + 1);
        ScanPrefix(c, w, Insertions(w, tryChars[..i + 1]), Insertions(w, tryChars));
        return;
      }
      AppendAssociative(probed, done, InsertionRow(w, tryChars[i]));
    }
    assert tryChars[..|tryChars|] == tryChars;
    o := Continue;
  }

  /** Swapping each pair of neighbouring characters. */
  method TranspositionPass(c: Corrector, w: string, ghost probed: seq<string>, result: seq<string>, checkList: set<string>)
    returns (o: Outcome, result': seq<string>, checkList': set<string>)
    requires Valid(c) && Tracks(c.words, probed, result, checkList)
    ensures o == Scan(c, w, Transpositions(w))
    ensures o.Continue? ==> Tracks(c.words, probed + Transpositions(w), result', checkList')
  {
    result', checkList' := result, checkList;
    var ts := Transpositions(w);
    assert probed + ts[..0] == probed;
    var i := 0;
    while i < |w| - 1
      invariant 0 <= i <= |ts|
      invariant Scan(c, w, ts[..i]) == Continue
      invariant Tracks(c.words, probed + ts[..i], result', checkList')
    {
      var candidate := BuildTransposition(w, i);
      assert ts[..i + 1] == ts[..i] + [candidate];
      AppendAssociative(probed, ts[..i], [candidate]);
      o, result', checkList' := Probe(c, w, candidate, probed + ts[..i], result', checkList');
      if !o.Continue? {
        ScanPrefix(c, w, ts[..i + 1], ts);
        return;
      }
      i := i + 1;
    }
    assert ts[..i] == ts;
    o := Continue;
  }

  /** The deletion pass, then the REP table when there is one. */
  method EarlyPasses(c: Corrector, w: string) returns (o: Outcome, result: seq<string>, checkList: set<string>)
    requires Valid(c)
    ensures o == Scan(c, w, EarlyCandidates(c, w))
    ensures o.Continue? ==> Tracks(c.words, EarlyCandidates(c, w), result, checkList)
  {
    ghost var reps := if c.replacement.Some? then RepCandidates(w, c.replacement.value, c.repOrder) else [];
    ScanAppend(c, w, Deletions(w), reps);
    assert [] + Deletions(w) == Deletions(w);
    o, result, checkList := DeletionPass(c, w, [], [], {});
    if !o.Continue? {
      return;
    }
    if c.replacement.Some? {
      o, result, checkList := RepPass(c, w, Deletions(w), result, checkList);
    } else {
      assert Deletions(w) + reps == Deletions(w);
    }
  }

  /** The passes that use the TRY characters, then the transpositions. */
  method TryPasses(c: Corrector, w: string, tryChars: string, ghost probed: seq<string>, result: seq<string>, checkList: set<string>)
    returns (o: Outcome, result': seq<string>, checkList': set<string>)
    requires Valid(c) && Tracks(c.words, probed, result, checkList)
    ensures o == Scan(c, w, TryCandidates(w, tryChars))
    ensures o.Continue? ==> Tracks(c.words, probed + TryCandidates(w, tryChars), result', checkList')
  {
    var subs := Substitutions(w, tryChars);
    var ins := Insertions(w, tryChars);
    ScanAppend(c, w, subs, ins);
    ScanAppend(c, w, subs + ins, Transpositions(w));
    o, result', checkList' := SubstitutionPass(c, w, tryChars, probed, result, checkList);
    if !o.Continue? {
      return;
    }
    o, result', checkList' := InsertionPass(c, w, tryChars, probed + subs, result', checkList');
    if !o.Continue? {
      return;
    }
    AppendAssociative(probed, subs, ins);
    o, result', checkList' := TranspositionPass(c, w, probed + (subs + ins), result', checkList');
    AppendAssociative(probed, subs + ins, Transpositions(w));
  }

  /** Each cut into two dictionary words, for words longer than three
      characters. */
  method SplitPass(c: Corrector, w: string, result: seq<string>, checkList: set<string>)
    returns (result': seq<string>, checkList': set<string>)
    ensures result' == result + Splits(c.words, w)
    ensures forall x :: x in checkList' <==> x in checkList || x in Splits(c.words, w)
  {
    result', checkList' := result, checkList;
    if |w| > 3 {
      assert result + SplitsBelow(c.words, w, 1) == result;
      for i := 1 to |w| - 2
        invariant result' == result + SplitsBelow(c.words, w, i)
        invariant forall x :: x in checkList' <==> x in checkList || x in SplitsBelow(c.words, w, i)
      {
        var word1 := w[..i];
        var word2 := w[i..];
        if word1 in c.words && word2 in c.words {
          result' := result' + [word1 + " " + word2];
          checkList' := checkList' + {word1 + " " + word2};
        }
      }
    }
  }

  /** The same with both halves capitalized, for a capitalized word. */
  method CapSplitPass(c: Corrector, w: string, result: seq<string>, checkList: set<string>)
    returns (result': seq<string>, checkList': set<string>)
    ensures result' == result + CapSplits(c.cases, c.words, w)
    ensures forall x :: x in checkList' <==> x in checkList || x in CapSplits(c.cases, c.words, w)
  {
    result', checkList' := result, checkList;
    if |w| > 3 && Capitalize(c.cases, w) == Ok(w) {
      assert result + CapSplitsBelow(c.cases, c.words, w, 1) == result;
      for i := 1 to |w| - 2
        invariant result' == result + CapSplitsBelow(c.cases, c.words, w, i)
        invariant forall x :: x in checkList' <==> x in checkList || x in CapSplitsBelow(c.cases, c.words, w, i)
      {
        var word1 := Capitalize(c.cases, w[..i]).value;
        var word2 := Capitalize(c.cases, w[i..]).value;
        if word1 in c.words && word2 in c.words {
          result' := result' + [word1 + " " + word2];
          checkList' := checkList' + {word1 + " " + word2};
        }
      }
    }
  }

  /** Removing characters at the end, longest prefix first. */
  method PrefixPass(c: Corrector, w: string) returns (o: Outcome)
    requires Valid(c)
    ensures o == Scan(c, w, ShorterPrefixes(w))
  {
    var ps := ShorterPrefixes(w);
    var i := |w| - 1;
    ghost var k := 0;
    while i > 0
      invariant 0 <= k <= |ps| && i == |w| - 1 - k
      invariant Scan(c, w, ps[..k]) == Continue
    {
      var candidate := w[..i];
      assert ps[..k + 1] == ps[..k] + [candidate];
      o := Confirm(c, w, candidate);
      if !o.Continue? {
        ScanPrefix(c, w, ps[..k + 1], ps);
        return;
      }
      i := i - 1;
      k := k + 1;
    }
    assert ps[..k] == ps;
    o := Continue;
  }

  /** Removing characters at the beginning, longest suffix first. */
  method SuffixPass(c: Corrector, w: string) returns (o: Outcome)
    requires Valid(c)
    ensures o == Scan(c, w, ShorterSuffixes(w))
  {
    var ss := ShorterSuffixes(w);
    var i := 1;
    while i < |w|
      invariant 1 <= i && i - 1 <= |ss|
      invariant Scan(c, w, ss[..i - 1]) == Continue
    {
      var candidate := w[i..];
      assert ss[..i] == ss[..i - 1] + [candidate];
      o := Confirm(c, w, candidate);
      if !o.Continue? {
        ScanPrefix(c, w, ss[..i], ss);
        return;
      }
      i := i + 1;
    }
    assert ss[..i - 1] == ss;
    o := Continue;
  }

  /** `suggest` from the first candidate pass on. */
  method SuggestFromCandidates(c: Corrector, w: string) returns (r: Result<seq<string>>)
    requires Valid(c)
    ensures r == SuggestByEdits(c, w)
  {
    var o, result, checkList := EarlyPasses(c, w);
    if o.Confirmed? {
      return Ok([]);
    } else if o.Crashed? {
      return Err(o.e);
    }
    if c.tryCharacters.None? {
      return Err(NullPointer);
    }
    o, result, checkList := TryPasses(c, w, c.tryCharacters.value, EarlyCandidates(c, w), result, checkList);
    if o.Confirmed? {
      return Ok([]);
    } else if o.Crashed? {
      return Err(o.e);
    }
    result, checkList := SplitPass(c, w, result, checkList);
    result, checkList := CapSplitPass(c, w, result, checkList);
    if |result| == 0 {
      ScanAppend(c, w, ShorterPrefixes(w), ShorterSuffixes(w));
      o := PrefixPass(c, w);
      if o.Confirmed? {
        return Ok([]);
      } else if o.Crashed? {
        return Err(o.e);
      }
      o := SuffixPass(c, w);
      if o.Confirmed? {
        return Ok([]);
      } else if o.Crashed? {
        return Err(o.e);
      }
    }
    return Ok([w]);
  }

  /** `suggest`. */
  method SuggestWords(c: Corrector, w: string) returns (r: Result<seq<string>>)
    requires Valid(c)
    ensures r == Suggest(c, w)
    ensures r.Ok? ==> r.value == [] || r.value == [w]
  {
    if w in c.words {
      return Ok([]);
    }
    if IsUppercase(c.cases, w) {
      var lower := c.cases.lower(w);
      if lower in c.words {
        return Ok([]);
      }
    }
    var capitalized := IsCapitalized(c.cases, w);
    if capitalized.Err? {
      return Err(capitalized.error);
    }
    if capitalized.value {
      var lower := c.cases.lower(w);
      if lower in c.words {
        return Ok([]);
      }
    }
    r := SuggestFromCandidates(c, w);
  }
}

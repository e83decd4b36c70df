/** `SpellChecker`: the case-retry layer over `SpellCorrector.suggest`, the
    tokenizer of `checkString`, and the mapping from a dictionary archive's
    file name to its language key. `Character.isLetter` is a parameter. */
module SpellCheckers {
  import opened Common
  import opened DictionaryEntries
  import opened WordForms
  import opened CaseMapping
  import opened Candidates
  import opened SpellCorrectors

  // ---------------------------------------------------------------------
  // suggest
  // ---------------------------------------------------------------------

  /** `checkUppercase`: an upper-case word whose lower-case form the corrector
      accepts. */
  function CheckUppercase(c: Corrector, w: string): (r: Result<bool>)
    requires Valid(c)
    ensures r == Ok(true) <==> IsUppercase(c.cases, w) && Suggest(c, c.cases.lower(w)) == Ok([])
    ensures r.Err? ==> IsUppercase(c.cases, w) && Suggest(c, c.cases.lower(w)).Err?
  {
    if IsUppercase(c.cases, w) then
      var alternatives :- Suggest(c, c.cases.lower(w));
      Ok(|alternatives| == 0)
    else Ok(false)
  }

  /** `checkCapitalized`: a capitalized word whose lower-case form the
      corrector accepts. Asking about the empty word raises. */
  function CheckCapitalized(c: Corrector, w: string): (r: Result<bool>)
    requires Valid(c)
    ensures r == Ok(true) <==> IsCapitalized(c.cases, w) == Ok(true) && Suggest(c, c.cases.lower(w)) == Ok([])
    ensures w == [] ==> r == Err(IndexOutOfBounds)
  {
    var capitalized :- IsCapitalized(c.cases, w);
    if capitalized then
      var alternatives :- Suggest(c, c.cases.lower(w));
      Ok(|alternatives| == 0)
    else Ok(false)
  }

  /** `checkMixedCase`: a mixed-case word whose lower-case form the corrector
      accepts. */
  function CheckMixedCase(c: Corrector, w: string): (r: Result<bool>)
    requires Valid(c)
    ensures r == Ok(true) <==> IsMixedCase(c.cases, w) == Ok(true) && Suggest(c, c.cases.lower(w)) == Ok([])
    ensures r == Ok(true) ==> w != []
  {
    var mixed :- IsMixedCase(c.cases, w);
    if mixed then
      var alternatives :- Suggest(c, c.cases.lower(w));
      Ok(|alternatives| == 0)
    else Ok(false)
  }

  /** One candidate of the refinement loop over the single-character
      deletions: its upper-case form is added when that form is correct, its
      capitalized form when that form is correct, and the candidate itself
      when it is correct, each only when not yet listed. */
  function OtherChoicesStep(c: Corrector, cand: string, acc: seq<string>): (r: Result<seq<string>>)
    requires Valid(c)
    ensures r.Ok? ==> acc <= r.value && forall x :: x in acc ==> x in r.value
    ensures r.Ok? && NoDuplicates(acc) ==> NoDuplicates(r.value)
    ensures r.Ok? ==> forall x :: x in r.value ==>
              x in acc || x == cand || x == c.cases.upper(cand) || Capitalize(c.cases, cand) == Ok(x)
    ensures r.Ok? && Suggest(c, cand) == Ok([]) ==> cand in r.value
  {
    var upper :- CheckUppercase(c, cand);
    var acc1 := if upper then AddNew(acc, c.cases.upper(cand)) else acc;
    var capitalized :- CheckCapitalized(c, cand);
    var acc2 := if capitalized then AddNew(acc1, Capitalize(c.cases, cand).value) else acc1;
    var alternatives :- Suggest(c, cand);
    Ok(if |alternatives| == 0 then AddNew(acc2, cand) else acc2)
  }

  /** The refinement loop: every candidate in order, stopping at the first
      that raises. */
  function OtherChoices(c: Corrector, cands: seq<string>): Result<seq<string>>
    requires Valid(c)
    decreases |cands|
  {
    if cands == [] then Ok([])
    else
      var acc :- OtherChoices(c, cands[..|cands| - 1]);
      OtherChoicesStep(c, cands[|cands| - 1], acc)
  }

  /** `SpellChecker.suggest`. */
  function CheckerSuggest(c: Corrector, w: string): (r: Result<seq<string>>)
    requires Valid(c)
  {
    var suggestions :- Suggest(c, w);
    if !(|suggestions| == 1 && suggestions[0] == w) then Ok(suggestions)
    else
      var upper :- CheckUppercase(c, w);
      if upper then Ok([])
      else
        var capitalized :- CheckCapitalized(c, w);
        if capitalized then Ok([])
        else
          var mixed :- CheckMixedCase(c, w);
          if mixed then Ok([Capitalize(c.cases, w).value, c.cases.lower(w)])
          else
            var others :- OtherChoices(c, Deletions(w));
            if others == [] then Ok(suggestions) else Ok(others)
  }

  /** Whatever the corrector answers other than the word alone is passed on
      unchanged, and so is its exception. */
  lemma CheckerPassesOtherAnswers(c: Corrector, w: string)
    requires Valid(c)
    ensures Suggest(c, w).Err? ==> CheckerSuggest(c, w) == Suggest(c, w)
    ensures Suggest(c, w) == Ok([]) ==> CheckerSuggest(c, w) == Ok([])
  {
  }

  /** An unknown word that is upper case or capitalized and whose lower-case
      form the corrector accepts gets no suggestions. */
  lemma CheckerAcceptsLowerCaseForm(c: Corrector, w: string)
    requires Valid(c) && Suggest(c, w) == Ok([w])
    requires Suggest(c, c.cases.lower(w)) == Ok([])
    requires IsUppercase(c.cases, w) || IsCapitalized(c.cases, w) == Ok(true)
    ensures CheckerSuggest(c, w) == Ok([])
  {
  }

  /** An unknown mixed-case word whose lower-case form the corrector accepts
      gets exactly its capitalized and its lower-case form. */
  lemma CheckerMixedCasePair(c: Corrector, w: string)
    requires Valid(c) && Suggest(c, w) == Ok([w])
    requires Suggest(c, c.cases.lower(w)) == Ok([])
    requires IsMixedCase(c.cases, w) == Ok(true)
    ensures w != [] && CheckerSuggest(c, w) == Ok([Capitalize(c.cases, w).value, c.cases.lower(w)])
  {
    assert !IsUppercase(c.cases, w);
    assert IsCapitalized(c.cases, w) == Ok(false);
  }

  /** `x` is `cand`, its upper-case form or its capitalized form. */
  predicate Refines(c: Corrector, cand: string, x: string) {
    x == cand || x == c.cases.upper(cand) || Capitalize(c.cases, cand) == Ok(x)
  }

  /** Every refinement is a candidate or its upper-case or capitalized form,
      and none is listed twice. */
  lemma {:induction false} OtherChoicesShape(c: Corrector, cands: seq<string>)
    requires Valid(c) && OtherChoices(c, cands).Ok?
    ensures NoDuplicates(OtherChoices(c, cands).value)
    ensures forall x :: x in OtherChoices(c, cands).value ==>
              exists i :: 0 <= i < |cands| && Refines(c, cands[i], x)
    decreases |cands|
  {
    if cands != [] {
      var front := cands[..|cands| - 1];
      var cand := cands[|cands| - 1];
      OtherChoicesShape(c, front);
      var acc := OtherChoices(c, front).value;
      var r := OtherChoices(c, cands).value;
      assert r == OtherChoicesStep(c, cand, acc).value;
      forall x | x in r
        ensures exists i :: 0 <= i < |cands| && Refines(c, cands[i], x)
      {
        if x in acc {
          var i :| 0 <= i < |front| && Refines(c, front[i], x);
          assert front[i] == cands[i];
        } else {
          assert Refines(c, cands[|cands| - 1], x);
        }
      }
    }
  }

  /** The refinements of a non-empty list are those of all but its last
      candidate, extended by the last one. */
  lemma OtherChoicesLast(c: Corrector, cands: seq<string>)
    requires Valid(c) && cands != [] && OtherChoices(c, cands).Ok?
    ensures OtherChoices(c, cands[..|cands| - 1]).Ok?
    ensures OtherChoices(c, cands) ==
            OtherChoicesStep(c, cands[|cands| - 1], OtherChoices(c, cands[..|cands| - 1]).value)
  {
  }

  /** A list whose refinements exist has refinements for each of its prefixes. */
  lemma OtherChoicesPrefixOk(c: Corrector, cands: seq<string>, n: nat)
    requires Valid(c) && n <= |cands| && OtherChoices(c, cands).Ok?
    ensures OtherChoices(c, cands[..n]).Ok?
  {
    if OtherChoices(c, cands[..n]).Err? {
      OtherChoicesErrPersists(c, cands, n);
    }
  }

  /** Whatever the refinements of a prefix hold, those of the whole list hold. */
  lemma {:induction false} OtherChoicesPrefixKept(c: Corrector, cands: seq<string>, n: nat, x: string)
    requires Valid(c) && n <= |cands| && OtherChoices(c, cands).Ok?
    requires OtherChoices(c, cands[..n]).Ok? && x in OtherChoices(c, cands[..n]).value
    ensures x in OtherChoices(c, cands).value
    decreases |cands| - n
  {
    if n == |cands| {
      assert cands[..n] == cands;
    } else {
      var front := cands[..|cands| - 1];
      OtherChoicesLast(c, cands);
      assert front[..n] == cands[..n];
      OtherChoicesPrefixKept(c, front, n, x);
    }
  }

  /** Every candidate the corrector accepts is among the refinements. */
  lemma OtherChoicesKeepsAccepted(c: Corrector, cands: seq<string>, cand: string)
    requires Valid(c) && OtherChoices(c, cands).Ok?
    requires cand in cands && Suggest(c, cand) == Ok([])
    ensures cand in OtherChoices(c, cands).value
  {
    var k :| 0 <= k < |cands| && cands[k] == cand;
    OtherChoicesPrefixOk(c, cands, k);
    OtherChoicesStepAt(c, cands, k);
    OtherChoicesPrefixOk(c, cands, k + 1);
    OtherChoicesPrefixKept(c, cands, k + 1, cand);
  }

  /** The refinements of the single-character deletions of `w`. */
  lemma DeletionRefinements(c: Corrector, w: string)
    requires Valid(c) && OtherChoices(c, Deletions(w)).Ok?
    ensures var r := OtherChoices(c, Deletions(w)).value;
            NoDuplicates(r) && forall x :: x in r ==> exists i :: 0 <= i < |w| && Refines(c, DeleteAt(w, i), x)
  {
    var ds := Deletions(w);
    OtherChoicesShape(c, ds);
    forall x | x in OtherChoices(c, ds).value
      ensures exists i :: 0 <= i < |w| && Refines(c, DeleteAt(w, i), x)
    {
      var i :| 0 <= i < |ds| && Refines(c, ds[i], x);
      assert ds[i] == DeleteAt(w, i);
    }
  }

  /** What `suggest` answers: nothing for a correct word, the word alone, the
      capitalized and lower-case pair for a mixed-case word, or refinements of
      its single-character deletions, none twice. */
  lemma CheckerSuggestAnswers(c: Corrector, w: string)
    requires Valid(c) && CheckerSuggest(c, w).Ok?
    ensures var r := CheckerSuggest(c, w).value;
            || r == [] || r == [w]
            || (w != [] && r == [Capitalize(c.cases, w).value, c.cases.lower(w)])
            || (NoDuplicates(r) && forall x :: x in r ==> exists i :: 0 <= i < |w| && Refines(c, DeleteAt(w, i), x))
  {
    var s := Suggest(c, w).value;
    if s == [w] && CheckUppercase(c, w) == Ok(false) && CheckCapitalized(c, w) == Ok(false) &&
       CheckMixedCase(c, w) == Ok(false) {
      CheckerSuggestRefines(c, w);
      DeletionRefinements(c, w);
    }
  }

  /** When no case check applies, `suggest` answers the refinements of the
      deletions, or the word alone when there are none. */
  lemma CheckerSuggestRefines(c: Corrector, w: string)
    requires Valid(c) && CheckerSuggest(c, w).Ok? && Suggest(c, w) == Ok([w])
    requires CheckUppercase(c, w) == Ok(false) && CheckCapitalized(c, w) == Ok(false) && CheckMixedCase(c, w) == Ok(false)
    ensures OtherChoices(c, Deletions(w)).Ok?
    ensures var others := OtherChoices(c, Deletions(w)).value;
            CheckerSuggest(c, w).value == if others == [] then [w] else others
  {
  }

  /** When no deletion helps, the answer is the corrector's: the word alone. */
  lemma CheckerFallsBackToWord(c: Corrector, w: string)
    requires Valid(c) && Suggest(c, w) == Ok([w])
    requires CheckUppercase(c, w) == Ok(false) && CheckCapitalized(c, w) == Ok(false) && CheckMixedCase(c, w) == Ok(false)
    requires OtherChoices(c, Deletions(w)) == Ok([])
    ensures CheckerSuggest(c, w) == Ok([w])
  {
  }

  /** An unknown one-character word that is neither upper case, capitalized
      nor mixed case makes the refinement loop ask about the empty deletion,
      whose upper-case form cannot be capitalized: with case maps that keep
      the empty string empty, `suggest` raises instead of answering. */
  lemma CheckerRaisesOnOneCharacterWord(c: Corrector, ch: char)
    requires Valid(c) && Suggest(c, [ch]) == Ok([[ch]])
    requires CheckUppercase(c, [ch]) == Ok(false) && CheckCapitalized(c, [ch]) == Ok(false)
    requires CheckMixedCase(c, [ch]) == Ok(false)
    requires c.cases.upper([]) == [] && c.cases.lower([]) == []
    ensures CheckerSuggest(c, [ch]) == Err(IndexOutOfBounds)
  {
    var ds := Deletions([ch]);
    assert DeleteAt([ch], 0) == [];
    assert ds == [[]];
    assert ds[..0] == [] && ds[..1] == ds;
    assert IsUppercase(c.cases, []);
    if [] in c.words {
      // A blank word-list line files the empty word: it is accepted in upper
      // case, and the capitalization test that follows raises.
      assert CheckUppercase(c, []) == Ok(true);
    } else {
      SuggestEmptyWordRaises(c);
      assert CheckUppercase(c, []) == Err(IndexOutOfBounds);
    }
    assert OtherChoicesStep(c, [], []) == Err(IndexOutOfBounds);
    assert OtherChoices(c, ds) == Err(IndexOutOfBounds);
  }

  // ---------------------------------------------------------------------
  // checkString
  // ---------------------------------------------------------------------

  /** The end of the run of spaces that starts at `i`. */
  function RunEnd(s: string, i: nat): (j: nat)
    requires i <= |s|
    ensures i <= j <= |s|
    ensures j < |s| ==> s[j] != ' '
    ensures forall m :: i <= m < j ==> s[m] == ' '
    decreases |s| - i
  {
    if i < |s| && s[i] == ' ' then RunEnd(s, i + 1) else i
  }

  /** The text between runs of spaces; an empty first piece when the text
      starts with a space, an empty last piece when it ends with one. */
  function SpacePieces(s: string): (ps: seq<string>)
    ensures |ps| >= 1
    ensures forall k :: 0 <= k < |ps| ==> ' ' !in ps[k]
    ensures forall k :: 0 < k < |ps| - 1 ==> ps[k] != ""
    decreases |s|
  {
    var i := CharIndex(s, ' ', 0);
    if i == |s| then [s]
    else [s[..i]] + SpacePieces(s[RunEnd(s, i)..])
  }

  /** `text.split(" +")`: without a space the whole text; otherwise the pieces
      between runs of spaces with the empty pieces at the end removed. */
  function SplitSpaces(s: string): (r: seq<string>)
    ensures forall k :: 0 <= k < |r| ==> ' ' !in r[k]
    ensures forall k :: 0 < k < |r| ==> r[k] != ""
    ensures ' ' !in s ==> r == [s]
  {
    if ' ' !in s then [s] else DropTrailingEmpty(SpacePieces(s))
  }

  /** The words put back together with one space between neighbours. */
  function JoinWithSpaces(ws: seq<string>): string
    requires |ws| >= 1
  {
    if |ws| == 1 then ws[0] else ws[0] + " " + JoinWithSpaces(ws[1..])
  }

  /** Splitting words joined by single spaces gives the words back. */
  lemma {:induction false} SplitSpacesJoin(ws: seq<string>)
    requires |ws| >= 1
    requires forall k :: 0 <= k < |ws| ==> ws[k] != "" && ' ' !in ws[k]
    ensures SplitSpaces(JoinWithSpaces(ws)) == ws
  {
    SpacePiecesJoin(ws);
    var s := JoinWithSpaces(ws);
    if |ws| > 1 {
      assert s[|ws[0]|] == ' ';
    } else {
      assert s == ws[0];
    }
  }

  lemma {:induction false} SpacePiecesJoin(ws: seq<string>)
    requires |ws| >= 1
    requires forall k :: 0 <= k < |ws| ==> ws[k] != "" && ' ' !in ws[k]
    ensures SpacePieces(JoinWithSpaces(ws)) == ws
    decreases |ws|
  {
    var s := JoinWithSpaces(ws);
    var n := |ws[0]|;
    if |ws| == 1 {
      assert CharIndex(s, ' ', 0) == |s|;
    } else {
      var rest := JoinWithSpaces(ws[1..]);
      assert s == ws[0] + " " + rest;
      assert forall m :: 0 <= m < n ==> s[m] == ws[0][m];
      assert s[n] == ' ';
      assert CharIndex(s, ' ', 0) == n;
      assert ws[1..][0] == ws[1];
      assert JoinWithSpaces(ws[1..]) == ws[1] || JoinWithSpaces(ws[1..])[..|ws[1]|] == ws[1];
      assert rest[0] == ws[1][0];
      assert s[n + 1] == rest[0];
      assert RunEnd(s, n) == n + 1;
      assert s[n + 1..] == rest;
      assert s[..n] == ws[0];
      SpacePiecesJoin(ws[1..]);
    }
  }

  /** Where the first loop of `checkString` stops when it starts at `i`: the
      first letter from `i` on, or the last character. */
  function LeadingStart(isLetter: char -> bool, w: string, i: nat): (j: nat)
    requires i < |w|
    ensures i <= j < |w|
    ensures isLetter(w[j]) || j == |w| - 1
    ensures forall k :: i <= k < j ==> !isLetter(w[k])
    decreases |w| - i
  {
    if !isLetter(w[i]) && i < |w| - 1 then LeadingStart(isLetter, w, i + 1) else i
  }

  /** The first loop of `checkString`: non-letters dropped from the front while
      more than one character is left. */
  function TrimLeading(isLetter: char -> bool, w: string): (r: string)
    requires w != []
    ensures r != [] && |r| <= |w| && r == w[|w| - |r|..]
    ensures isLetter(r[0]) || |r| == 1
    ensures forall k :: 0 <= k < |w| - |r| ==> !isLetter(w[k])
  {
    w[LeadingStart(isLetter, w, 0)..]
  }

  /** Where the second loop stops when `w[..j]` is left: just after the last
      letter before `j`, or after the first character. */
  function TrailingEnd(isLetter: char -> bool, w: string, j: nat): (e: nat)
    requires 0 < j <= |w|
    ensures 0 < e <= j
    ensures isLetter(w[e - 1]) || e == 1
    ensures forall k :: e <= k < j ==> !isLetter(w[k])
    decreases j
  {
    if !isLetter(w[j - 1]) && j > 1 then TrailingEnd(isLetter, w, j - 1) else j
  }

  /** The second loop: non-letters dropped from the end while more than one
      character is left. */
  function TrimTrailing(isLetter: char -> bool, w: string): (r: string)
    requires w != []
    ensures r != [] && |r| <= |w| && r == w[..|r|]
    ensures isLetter(r[|r| - 1]) || |r| == 1
    ensures forall k :: |r| <= k < |w| ==> !isLetter(w[k])
  {
    w[..TrailingEnd(isLetter, w, |w|)]
  }

  function Trim(isLetter: char -> bool, w: string): string
    requires w != []
  {
    TrimTrailing(isLetter, TrimLeading(isLetter, w))
  }

  /** A token left as one non-letter is not checked. */
  predicate Skipped(isLetter: char -> bool, t: string) {
    |t| == 1 && !isLetter(t[0])
  }

  /** `t` is `w[i..j]` and everything cut off on either side is a non-letter. */
  predicate CutFrom(isLetter: char -> bool, w: string, t: string, i: int, j: int) {
    0 <= i <= j <= |w| && |t| == j - i && (forall k :: 0 <= k < |t| ==> t[k] == w[i + k]) &&
    (forall k :: 0 <= k < i ==> !isLetter(w[k])) &&
    (forall k :: j <= k < |w| ==> !isLetter(w[k]))
  }

  /** Cutting non-letters off the front and then off the back of what is left
      cuts `w` at both ends. */
  lemma CutBothEnds(isLetter: char -> bool, w: string, l: string, t: string)
    requires |l| <= |w| && l == w[|w| - |l|..]
    requires forall k :: 0 <= k < |w| - |l| ==> !isLetter(w[k])
    requires |t| <= |l| && t == l[..|t|]
    requires forall k :: |t| <= k < |l| ==> !isLetter(l[k])
    ensures CutFrom(isLetter, w, t, |w| - |l|, |w| - |l| + |t|)
  {
    var i := |w| - |l|;
    var j := i + |t|;
    assert w[i..j] == l[..|t|];
    forall k | j <= k < |w| ensures !isLetter(w[k]) {
      assert w[k] == l[k - i];
    }
  }

  /** Trimming removes only non-letters, and only from the two ends: the
      first loop cuts off the first `|w| - |TrimLeading(w)|` characters. */
  lemma {:induction false} TrimShape(isLetter: char -> bool, w: string)
    requires w != []
    ensures var i := |w| - |TrimLeading(isLetter, w)|;
            CutFrom(isLetter, w, Trim(isLetter, w), i, i + |Trim(isLetter, w)|)
  {
    var l := TrimLeading(isLetter, w);
    var t := TrimTrailing(isLetter, l);
    assert t == Trim(isLetter, w);
    CutBothEnds(isLetter, w, l, t);
  }

  /** A trimmed token that is checked starts and ends with a letter. */
  lemma TrimEnds(isLetter: char -> bool, w: string)
    requires w != []
    ensures var t := Trim(isLetter, w);
            !Skipped(isLetter, t) ==> isLetter(t[0]) && isLetter(t[|t| - 1])
  {
    var l := TrimLeading(isLetter, w);
    var t := TrimTrailing(isLetter, l);
    assert t[0] == l[0];
  }

  /** The answer `checkString` gets for each word: its own `suggest`. The
      token loop below is stated for any such answer function. */
  function Ask(c: Corrector): string -> Result<seq<string>>
    requires Valid(c)
  {
    w => CheckerSuggest(c, w)
  }

  /** An entry of the map `checkString` returns: a word that starts and ends
      with a letter, filed with the non-empty suggestions `ask` gives it. */
  predicate Entry(ask: string -> Result<seq<string>>, isLetter: char -> bool, t: string, suggestions: seq<string>) {
    t != [] && isLetter(t[0]) && isLetter(t[|t| - 1]) &&
    ask(t) == Ok(suggestions) && |suggestions| > 0
  }

  /** What `checkString` does with a trimmed token: one non-letter is
      skipped, and any other word is put in the map when the suggestion array
      `ask` gives it is not empty. */
  function FileWord(ask: string -> Result<seq<string>>, isLetter: char -> bool, m: map<string, seq<string>>, t: string): (r: Result<map<string, seq<string>>>)
    ensures r.Ok? ==> forall u :: u in m ==> u in r.value
  {
    if Skipped(isLetter, t) then Ok(m)
    else
      var suggestions :- ask(t);
      Ok(if |suggestions| > 0 then m[t := suggestions] else m)
  }

  /** Filing a word leaves the map as it was, or adds the one entry for the
      word with the non-empty suggestions `ask` gives it. */
  lemma FileWordFiles(ask: string -> Result<seq<string>>, isLetter: char -> bool, m: map<string, seq<string>>, t: string)
    requires FileWord(ask, isLetter, m, t).Ok?
    ensures var r := FileWord(ask, isLetter, m, t).value;
            r == m || (!Skipped(isLetter, t) && t in r && r == m[t := r[t]] && ask(t) == Ok(r[t]) && |r[t]| > 0)
  {
    if !Skipped(isLetter, t) {
      match ask(t)
      case Ok(s) =>
      case Err(e) =>
    }
  }

  /** One token of the loop of `checkString`: an empty token raises (its first
      character does not exist), and any other token is filed under its
      trimmed form. */
  function CheckToken(ask: string -> Result<seq<string>>, isLetter: char -> bool, m: map<string, seq<string>>, token: string): (r: Result<map<string, seq<string>>>)
    ensures token == [] ==> r == Err(IndexOutOfBounds)
    ensures r.Ok? ==> forall t :: t in m ==> t in r.value
  {
    if token == [] then Err(IndexOutOfBounds)
    else FileWord(ask, isLetter, m, Trim(isLetter, token))
  }

  /** What one token files: the map is left as it was, or it gains one entry,
      the trimmed token, starting and ending with a letter, with the non-empty
      suggestions `ask` gives it. */
  lemma CheckTokenFiles(ask: string -> Result<seq<string>>, isLetter: char -> bool, m: map<string, seq<string>>, token: string)
    requires CheckToken(ask, isLetter, m, token).Ok?
    ensures token != []
    ensures var r := CheckToken(ask, isLetter, m, token).value;
            var t := Trim(isLetter, token);
            r == m || (t in r && r == m[t := r[t]] && Entry(ask, isLetter, t, r[t]))
  {
    FileWordFiles(ask, isLetter, m, Trim(isLetter, token));
    TrimEnds(isLetter, token);
  }

  /** The loop of `checkString` over the tokens, stopping at the first that
      raises. */
  function CheckTokens(ask: string -> Result<seq<string>>, isLetter: char -> bool, tokens: seq<string>): Result<map<string, seq<string>>>
    decreases |tokens|
  {
    if tokens == [] then Ok(map[])
    else
      var m :- CheckTokens(ask, isLetter, tokens[..|tokens| - 1]);
      CheckToken(ask, isLetter, m, tokens[|tokens| - 1])
  }

  /** `checkString`. */
  function CheckString(c: Corrector, isLetter: char -> bool, text: string): Result<map<string, seq<string>>>
    requires Valid(c)
  {
    CheckTokens(Ask(c), isLetter, SplitSpaces(text))
  }

  /** `t` is one of the tokens, trimmed. */
  predicate Trimmed(isLetter: char -> bool, tokens: seq<string>, t: string) {
    exists i :: 0 <= i < |tokens| && tokens[i] != [] && t == Trim(isLetter, tokens[i])
  }

  lemma TrimmedGrows(isLetter: char -> bool, tokens: seq<string>, t: string)
    requires tokens != [] && Trimmed(isLetter, tokens[..|tokens| - 1], t)
    ensures Trimmed(isLetter, tokens, t)
  {
    var i :| 0 <= i < |tokens| - 1 && tokens[..|tokens| - 1][i] != [] &&
             t == Trim(isLetter, tokens[..|tokens| - 1][i]);
    assert tokens[i] == tokens[..|tokens| - 1][i];
  }

  lemma TrimmedLast(isLetter: char -> bool, tokens: seq<string>)
    requires tokens != [] && tokens[|tokens| - 1] != []
    ensures Trimmed(isLetter, tokens, Trim(isLetter, tokens[|tokens| - 1]))
  {
    var i := |tokens| - 1;
    assert 0 <= i < |tokens| && tokens[i] != [] && Trim(isLetter, tokens[i]) == Trim(isLetter, tokens[i]);
  }

  /** A key of a map that is `m`, or `m` with `key` set, is `key` or keeps
      its value from `m`. */
  lemma UpdatedOrSame<K, V>(m: map<K, V>, r: map<K, V>, key: K, x: K)
    requires x in r && (r == m || (key in r && r == m[key := r[key]]))
    ensures (x in m && r[x] == m[x]) || x == key
  { }

  /** Every entry of the map is a trimmed token that starts and ends with a
      letter, filed with the non-empty suggestions `ask` gives it. */
  lemma {:induction false} CheckTokensEntries(ask: string -> Result<seq<string>>, isLetter: char -> bool, tokens: seq<string>)
    requires CheckTokens(ask, isLetter, tokens).Ok?
    ensures forall t :: t in CheckTokens(ask, isLetter, tokens).value ==>
              && Entry(ask, isLetter, t, CheckTokens(ask, isLetter, tokens).value[t])
              && Trimmed(isLetter, tokens, t)
    decreases |tokens|
  {
    if tokens != [] {
      var front := tokens[..|tokens| - 1];
      var last := tokens[|tokens| - 1];
      CheckTokensEntries(ask, isLetter, front);
      var m := CheckTokens(ask, isLetter, front).value;
      var r := CheckTokens(ask, isLetter, tokens).value;
      assert CheckTokens(ask, isLetter, tokens) == CheckToken(ask, isLetter, m, last);
      CheckTokenFiles(ask, isLetter, m, last);
      var key := Trim(isLetter, last);
      TrimmedLast(isLetter, tokens);
      forall t | t in r
        ensures Entry(ask, isLetter, t, r[t]) && Trimmed(isLetter, tokens, t)
      {
        UpdatedOrSame(m, r, key, t);
        if t in m && r[t] == m[t] {
          TrimmedGrows(isLetter, tokens, t);
        }
      }
    }
  }

  /** `t` is skipped, or its answer is `Ok` and, when that answer is not empty,
      `m` files `t` with it. */
  predicate Filed(ask: string -> Result<seq<string>>, isLetter: char -> bool, m: map<string, seq<string>>, t: string) {
    Skipped(isLetter, t) || (ask(t).Ok? && (|ask(t).value| > 0 ==> t in m && m[t] == ask(t).value))
  }

  /** Filing a word files it, and keeps every word the map already filed. */
  lemma FileWordKeeps(ask: string -> Result<seq<string>>, isLetter: char -> bool, m: map<string, seq<string>>, t: string, u: string)
    requires FileWord(ask, isLetter, m, t).Ok?
    ensures Filed(ask, isLetter, FileWord(ask, isLetter, m, t).value, t)
    ensures Filed(ask, isLetter, m, u) ==> Filed(ask, isLetter, FileWord(ask, isLetter, m, t).value, u)
  {
    if !Skipped(isLetter, t) {
      match ask(t)
      case Ok(s) =>
      case Err(e) =>
    }
  }

  /** When the loop succeeds, every token is non-empty and was filed: its
      trimmed form is skipped, or it has an `Ok` answer and, when that answer
      is not empty, the map holds the trimmed form with that answer. */
  lemma {:induction false} CheckTokensComplete(ask: string -> Result<seq<string>>, isLetter: char -> bool, tokens: seq<string>)
    requires CheckTokens(ask, isLetter, tokens).Ok?
    ensures forall i :: 0 <= i < |tokens| ==>
              tokens[i] != [] && Filed(ask, isLetter, CheckTokens(ask, isLetter, tokens).value, Trim(isLetter, tokens[i]))
    decreases |tokens|
  {
    if tokens != [] {
      var front := tokens[..|tokens| - 1];
      var last := tokens[|tokens| - 1];
      CheckTokensComplete(ask, isLetter, front);
      var m := CheckTokens(ask, isLetter, front).value;
      var r := CheckTokens(ask, isLetter, tokens).value;
      assert CheckTokens(ask, isLetter, tokens) == CheckToken(ask, isLetter, m, last);
      var key := Trim(isLetter, last);
      forall i | 0 <= i < |tokens|
        ensures tokens[i] != [] && Filed(ask, isLetter, r, Trim(isLetter, tokens[i]))
      {
        if i < |tokens| - 1 {
          assert tokens[i] == front[i];
          FileWordKeeps(ask, isLetter, m, key, Trim(isLetter, tokens[i]));
        } else {
          FileWordKeeps(ask, isLetter, m, key, key);
        }
      }
    }
  }

  /** The first token that raises ends the loop. */
  lemma {:induction false} CheckTokensErrPersists(ask: string -> Result<seq<string>>, isLetter: char -> bool, tokens: seq<string>, n: nat)
    requires n <= |tokens| && CheckTokens(ask, isLetter, tokens[..n]).Err?
    ensures CheckTokens(ask, isLetter, tokens) == CheckTokens(ask, isLetter, tokens[..n])
    decreases |tokens|
  {
    if n < |tokens| {
      var front := tokens[..|tokens| - 1];
      assert front[..n] == tokens[..n];
      CheckTokensErrPersists(ask, isLetter, front, n);
    } else {
      assert tokens[..n] == tokens;
    }
  }

  /** Text that starts with a space and holds a non-space character splits
      into an empty first token, so `checkString` raises; so does empty text. */
  lemma CheckStringLeadingSpaceRaises(c: Corrector, isLetter: char -> bool, text: string, k: nat)
    requires Valid(c)
    requires text == [] || (text[0] == ' ' && k < |text| && text[k] != ' ')
    ensures CheckString(c, isLetter, text) == Err(IndexOutOfBounds)
  {
    if text != [] {
      var ps := SpacePieces(text);
      var i := CharIndex(text, ' ', 0);
      assert i == 0 && ps[0] == [];
      var j := RunEnd(text, 0);
      assert j <= k;
      var rest := text[j..];
      assert rest != [] && rest[0] != ' ';
      var tail := SpacePieces(rest);
      assert CharIndex(rest, ' ', 0) > 0;
      assert tail[0] != [];
      assert ps == [[]] + tail;
      var r := SplitSpaces(text);
      assert ps[1] == tail[0] && ps[1] != "";
      assert |r| >= 2;
      assert r[0] == [];
      assert r[..1] == [[]];
      assert r[..1][..0] == [];
      CheckTokensErrPersists(Ask(c), isLetter, r, 1);
    } else {
      var r := SplitSpaces(text);
      assert r == [[]] && r[..0] == [];
      assert CheckTokens(Ask(c), isLetter, r[..0]) == Ok(map[]);
      assert CheckToken(Ask(c), isLetter, map[], r[0]) == Err(IndexOutOfBounds);
    }
  }

  // ---------------------------------------------------------------------
  // The loops as methods
  // ---------------------------------------------------------------------

  /** `checkUppercase`, asking the corrector. */
  method IsUppercaseCorrect(c: Corrector, w: string) returns (r: Result<bool>)
    requires Valid(c)
    ensures r == CheckUppercase(c, w)
  {
    if IsUppercase(c.cases, w) {
      var alternatives := SuggestWords(c, c.cases.lower(w));
      if alternatives.Err? {
        return Err(alternatives.error);
      }
      return Ok(|alternatives.value| == 0);
    }
    return Ok(false);
  }

  /** `checkCapitalized`, asking the corrector. */
  method IsCapitalizedCorrect(c: Corrector, w: string) returns (r: Result<bool>)
    requires Valid(c)
    ensures r == CheckCapitalized(c, w)
  {
    var capitalized := IsCapitalized(c.cases, w);
    if capitalized.Err? {
      return Err(capitalized.error);
    }
    if capitalized.value {
      var alternatives := SuggestWords(c, c.cases.lower(w));
      if alternatives.Err? {
        return Err(alternatives.error);
      }
      return Ok(|alternatives.value| == 0);
    }
    return Ok(false);
  }

  /** `checkMixedCase`, asking the corrector. */
  method IsMixedCaseCorrect(c: Corrector, w: string) returns (r: Result<bool>)
    requires Valid(c)
    ensures r == CheckMixedCase(c, w)
  {
    var mixed := IsMixedCase(c.cases, w);
    if mixed.Err? {
      return Err(mixed.error);
    }
    if mixed.value {
      var alternatives := SuggestWords(c, c.cases.lower(w));
      if alternatives.Err? {
        return Err(alternatives.error);
      }
      return Ok(|alternatives.value| == 0);
    }
    return Ok(false);
  }

  /** One iteration of the refinement loop. */
  method RefineWith(c: Corrector, cand: string, otherChoices: seq<string>) returns (r: Result<seq<string>>)
    requires Valid(c)
    ensures r == OtherChoicesStep(c, cand, otherChoices)
  {
    var choices := otherChoices;
    var upper := IsUppercaseCorrect(c, cand);
    if upper.Err? {
      return Err(upper.error);
    }
    if upper.value {
      var uppercase := c.cases.upper(cand);
      if uppercase !in choices {
        choices := choices + [uppercase];
      }
    }
    var capitalized := IsCapitalizedCorrect(c, cand);
    if capitalized.Err? {
      return Err(capitalized.error);
    }
    if capitalized.value {
      var capital := Capitalize(c.cases, cand).value;
      if capital !in choices {
        choices := choices + [capital];
      }
    }
    var alternatives := SuggestWords(c, cand);
    if alternatives.Err? {
      return Err(alternatives.error);
    }
    if |alternatives.value| == 0 && cand !in choices {
      choices := choices + [cand];
    }
    return Ok(choices);
  }

  /** `SpellChecker.suggest`, with its loop over the deletions. */
  method SuggestFor(c: Corrector, w: string) returns (r: Result<seq<string>>)
    requires Valid(c)
    ensures r == CheckerSuggest(c, w)
  {
    var suggestions := SuggestWords(c, w);
    if suggestions.Err? {
      return suggestions;
    }
    if !(|suggestions.value| == 1 && suggestions.value[0] == w) {
      return suggestions;
    }
    var upper := IsUppercaseCorrect(c, w);
    if upper.Err? {
      return Err(upper.error);
    }
    if upper.value {
      return Ok([]);
    }
    var capitalized := IsCapitalizedCorrect(c, w);
    if capitalized.Err? {
      return Err(capitalized.error);
    }
    if capitalized.value {
      return Ok([]);
    }
    var mixed := IsMixedCaseCorrect(c, w);
    if mixed.Err? {
      return Err(mixed.error);
    }
    if mixed.value {
      return Ok([Capitalize(c.cases, w).value, c.cases.lower(w)]);
    }
    var otherChoices := RefineDeletions(c, w);
    if otherChoices.Err? {
      return otherChoices;
    }
    if otherChoices.value == [] {
      return suggestions;
    }
    return otherChoices;
  }

  /** The loop of `suggest` over the single-character deletions. */
  method RefineDeletions(c: Corrector, w: string) returns (r: Result<seq<string>>)
    requires Valid(c)
    ensures r == OtherChoices(c, Deletions(w))
  {
    var otherChoices: seq<string> := [];
    ghost var ds := Deletions(w);
    for i := 0 to |w|
      invariant OtherChoices(c, ds[..i]) == Ok(otherChoices)
    {
      var candidate := BuildDeletion(w, i);
      OtherChoicesStepAt(c, ds, i);
      var next := RefineWith(c, candidate, otherChoices);
      if next.Err? {
        OtherChoicesErrPersists(c, ds, i + 1);
        return next;
      }
      otherChoices := next.value;
    }
    assert ds[..|w|] == ds;
    return Ok(otherChoices);
  }

  /** A candidate that raises ends the refinement loop. */
  lemma {:induction false} OtherChoicesErrPersists(c: Corrector, cands: seq<string>, n: nat)
    requires Valid(c) && n <= |cands| && OtherChoices(c, cands[..n]).Err?
    ensures OtherChoices(c, cands) == OtherChoices(c, cands[..n])
    decreases |cands|
  {
    if n < |cands| {
      var front := cands[..|cands| - 1];
      assert front[..n] == cands[..n];
      OtherChoicesErrPersists(c, front, n);
    } else {
      assert cands[..n] == cands;
    }
  }

  /** The first loop of `checkString`: non-letters dropped from the front. */
  method TrimFront(isLetter: char -> bool, token: string) returns (word: string)
    requires token != []
    ensures word == TrimLeading(isLetter, token)
  {
    word := token;
    var first := word[0];
    ghost var n := 0;
    while !isLetter(first) && |word| > 1
      invariant n < |token| && word == token[n..] && first == word[0]
      invariant LeadingStart(isLetter, token, n) == LeadingStart(isLetter, token, 0)
      decreases |word|
    {
      word := word[1..];
      first := word[0];
      n := n + 1;
    }
  }

  /** The second loop: non-letters dropped from the end. */
  method TrimBack(isLetter: char -> bool, token: string) returns (word: string)
    requires token != []
    ensures word == TrimTrailing(isLetter, token)
  {
    word := token;
    var last := word[|word| - 1];
    while !isLetter(last) && |word| > 1
      invariant 0 < |word| <= |token| && word == token[..|word|] && last == word[|word| - 1]
      invariant TrailingEnd(isLetter, token, |word|) == TrailingEnd(isLetter, token, |token|)
      decreases |word|
    {
      word := word[..|word| - 1];
      last := word[|word| - 1];
    }
  }

  /** The tokens up to `i` inclusive are those before `i`, then token `i`. */
  lemma CheckTokensStep(ask: string -> Result<seq<string>>, isLetter: char -> bool, tokens: seq<string>, i: nat)
    requires i < |tokens| && CheckTokens(ask, isLetter, tokens[..i]).Ok?
    ensures CheckTokens(ask, isLetter, tokens[..i + 1]) ==
            CheckToken(ask, isLetter, CheckTokens(ask, isLetter, tokens[..i]).value, tokens[i])
  {
    assert tokens[..i + 1][..i] == tokens[..i];
  }

  /** The candidates up to `i` inclusive are those before `i`, then `i`. */
  lemma OtherChoicesStepAt(c: Corrector, cands: seq<string>, i: nat)
    requires Valid(c) && i < |cands| && OtherChoices(c, cands[..i]).Ok?
    ensures OtherChoices(c, cands[..i + 1]) ==
            OtherChoicesStep(c, cands[i], OtherChoices(c, cands[..i]).value)
  {
    assert cands[..i + 1][..i] == cands[..i];
  }

  /** One iteration of the loop of `checkString`. */
  method CheckWord(c: Corrector, isLetter: char -> bool, result: map<string, seq<string>>, token: string)
    returns (r: Result<map<string, seq<string>>>)
    requires Valid(c)
    ensures r == CheckToken(Ask(c), isLetter, result, token)
  {
    if token == [] {
      return Err(IndexOutOfBounds);
    }
    var leading := TrimFront(isLetter, token);
    var word := TrimBack(isLetter, leading);
    if |word| == 1 && !isLetter(word[0]) {
      return Ok(result);
    }
    var suggestions := SuggestFor(c, word);
    if suggestions.Err? {
      return Err(suggestions.error);
    }
    if |suggestions.value| > 0 {
      return Ok(result[word := suggestions.value]);
    }
    return Ok(result);
  }

  /** `checkString`: the loop over the tokens, filling the map. */
  method CheckText(c: Corrector, isLetter: char -> bool, text: string) returns (r: Result<map<string, seq<string>>>)
    requires Valid(c)
    ensures r == CheckString(c, isLetter, text)
  {
    var result: map<string, seq<string>> := map[];
    var words := SplitSpaces(text);
    for i := 0 to |words|
      invariant CheckTokens(Ask(c), isLetter, words[..i]) == Ok(result)
    {
      CheckTokensStep(Ask(c), isLetter, words, i);
      var next := CheckWord(c, isLetter, result, words[i]);
      if next.Err? {
        CheckTokensErrPersists(Ask(c), isLetter, words, i + 1);
        return next;
      }
      result := next.value;
    }
    assert words[..|words|] == words;
    return Ok(result);
  }

  // ---------------------------------------------------------------------
  // Dictionary archives
  // ---------------------------------------------------------------------

  /** `name.replace('_', '-')`. */
  function Hyphenate(s: string): (r: string)
    ensures |r| == |s| && '_' !in r
    ensures forall i :: 0 <= i < |s| ==> r[i] == if s[i] == '_' then '-' else s[i]
  {
    seq(|s|, i requires 0 <= i < |s| => if s[i] == '_' then '-' else s[i])
  }

  /** The language key of a file in the dictionary folder: a `.zip` file's
      name without the suffix, with `_` written as `-`; other files have none. */
  function LanguageKey(fileName: string): (r: Option<string>)
    ensures r.Some? <==> |fileName| >= 4 && fileName[|fileName| - 4..] == ".zip"
  {
    if |fileName| >= 4 && fileName[|fileName| - 4..] == ".zip" then Some(Hyphenate(fileName[..|fileName| - 4]))
    else None
  }

  /** `en_US.zip` is filed under `en-US`: the key of `name + ".zip"` is the
      hyphenated name, and writing its `-` back as `_` gives the name again
      when the name had no `-` of its own. */
  lemma LanguageKeyOfArchive(name: string)
    ensures LanguageKey(name + ".zip") == Some(Hyphenate(name))
    ensures '-' !in name ==> seq(|name|, i requires 0 <= i < |name| => if Hyphenate(name)[i] == '-' then '_' else Hyphenate(name)[i]) == name
  {
    var f := name + ".zip";
    assert f[|f| - 4..] == ".zip";
    assert f[..|f| - 4] == name;
  }
}

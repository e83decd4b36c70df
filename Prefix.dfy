/** `Prefix.checkConditions`: the condition slots are walked left to right,
    slot k against the character at index k. */
module Prefixes {
  import opened Conditions
  import opened ConditionTables

  /** The walk stops with `false` at slot k: the word reaches index k, every
      character up to k lies inside the table, and the entry of character k lacks
      bit k. (The first such k is where the Java loop returns.) */
  ghost predicate RejectsAt(condition: seq<bv32>, numconds: int, word: string, k: int) {
    && 0 <= k < numconds
    && k < |word|
    && (forall j :: 0 <= j <= k ==> InTable(condition, word[j]))
    && !HasSlot(condition[Code(word[k])], k)
  }

  ghost predicate Rejects(condition: seq<bv32>, numconds: int, word: string) {
    exists k :: RejectsAt(condition, numconds, word, k)
  }

  /** Returns false exactly when some slot rejects its character before the walk
      runs off the word or off the table; running off either end (the
      IndexOutOfBoundsException that the source catches) gives true. */
  method CheckConditions(condition: seq<bv32>, numconds: int, word: string) returns (ok: bool)
    ensures ok <==> !Rejects(condition, numconds, word)
    ensures numconds <= 0 ==> ok
  {
    var charidx := 0;
    var cond := 0;
    while cond < numconds
      invariant 0 <= cond && charidx == cond
      invariant forall j :: 0 <= j < cond ==>
                  j < |word| && InTable(condition, word[j]) && HasSlot(condition[Code(word[j])], j)
    {
      if charidx >= |word| || !InTable(condition, word[charidx]) {
        // charAt or the table index is out of bounds
        return true;
      }
      if !HasSlot(condition[Code(word[charidx])], cond) {
        assert RejectsAt(condition, numconds, word, cond);
        return false;
      }
      charidx := charidx + 1;
      cond := cond + 1;
    }
    return true;
  }

  /** Characters at index `numconds` and beyond are never read: appending text
      to a word at least `numconds` long does not change the outcome. */
  lemma IgnoresTail(condition: seq<bv32>, numconds: int, word: string, tail: string)
    requires |word| >= numconds
    ensures Rejects(condition, numconds, word + tail) <==> Rejects(condition, numconds, word)
  {
    if Rejects(condition, numconds, word + tail) {
      var k :| RejectsAt(condition, numconds, word + tail, k);
      assert forall j :: 0 <= j <= k ==> (word + tail)[j] == word[j];
      assert RejectsAt(condition, numconds, word, k);
    }
    if Rejects(condition, numconds, word) {
      var k :| RejectsAt(condition, numconds, word, k);
      assert forall j :: 0 <= j <= k ==> (word + tail)[j] == word[j];
      assert RejectsAt(condition, numconds, word + tail, k);
    }
  }

  /** On a word at least as long as the condition whose characters all lie in the
      table, the bitmask walk agrees with the regular expression `^cond.*`. */
  lemma AgreesWithRegexOnLongWords(condition: seq<bv32>, slots: seq<CharClass>, word: string)
    requires |slots| <= 32 && Encodes(condition, slots)
    requires |slots| <= |word|
    requires forall j :: 0 <= j < |word| ==> InTable(condition, word[j]) && !IsLineTerminator(word[j])
    ensures !Rejects(condition, |slots|, word) <==> MatchesAtStart(slots, word)
  {
    if Rejects(condition, |slots|, word) {
      var k :| RejectsAt(condition, |slots|, word, k);
      assert !InClass(slots[k], word[k]);
    }
    if !MatchesAtStart(slots, word) {
      var k :| 0 <= k < |slots| && !InClass(slots[k], word[k]);
      assert !HasSlot(condition[Code(word[k])], k);
      assert RejectsAt(condition, |slots|, word, k);
    }
  }

  /** A word shorter than the condition is accepted by the bitmask walk as soon as
      the slots it reaches accept its characters, while the regular expression
      rejects it: the two checks differ exactly on such words. */
  lemma AcceptsShortWordsUnlikeRegex(condition: seq<bv32>, slots: seq<CharClass>, word: string)
    requires |slots| <= 32 && Encodes(condition, slots)
    requires |word| < |slots|
    requires forall j :: 0 <= j < |word| ==> InTable(condition, word[j]) && InClass(slots[j], word[j])
    ensures !Rejects(condition, |slots|, word)
    ensures !MatchesAtStart(slots, word)
  {
    forall k | 0 <= k < |word|
      ensures HasSlot(condition[Code(word[k])], k)
    {
      assert InClass(slots[k], word[k]);
    }
  }
}

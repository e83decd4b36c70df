/** `Suffix.checkConditions`: the condition slots are walked right to left, the
    last slot against the last character, both moving inward together. */
module Suffixes {
  import opened Conditions
  import opened ConditionTables

  /** Index of the character that step t of the walk reads. */
  function CharAt(word: string, t: int): int {
    |word| - 1 - t
  }

  /** The walk stops with `false` at step t: slot `numconds - 1 - t` rejects the
      character `t` places from the end, and every character read up to then lies
      inside the table. */
  ghost predicate RejectsAt(condition: seq<bv32>, numconds: int, word: string, t: int) {
    && 0 <= t < numconds
    && t < |word|
    && (forall s :: 0 <= s <= t ==> InTable(condition, word[CharAt(word, s)]))
    && !HasSlot(condition[Code(word[CharAt(word, t)])], numconds - 1 - t)
  }

  ghost predicate Rejects(condition: seq<bv32>, numconds: int, word: string) {
    exists t :: RejectsAt(condition, numconds, word, t)
  }

  /** Returns false exactly when some slot rejects its character; a word shorter
      than the condition ends the walk with true, and so does a character outside
      the table (the IndexOutOfBoundsException that the source catches). */
  method CheckConditions(condition: seq<bv32>, numconds: int, word: string) returns (ok: bool)
    ensures ok <==> !Rejects(condition, numconds, word)
    ensures numconds <= 0 ==> ok
  {
    var charidx := |word| - 1;
    var cond := numconds - 1;
    while cond >= 0 && charidx >= 0
      invariant cond - numconds == charidx - |word|
      invariant cond <= numconds - 1 && charidx <= |word| - 1
      invariant cond >= -1 || cond == numconds - 1
      invariant forall s :: 0 <= s < numconds - 1 - cond ==>
                  s < |word| && InTable(condition, word[CharAt(word, s)]) &&
                  HasSlot(condition[Code(word[CharAt(word, s)])], numconds - 1 - s)
    {
      if !InTable(condition, word[charidx]) {
        // the table index is out of bounds
        assert CharAt(word, numconds - 1 - cond) == charidx;
        return true;
      }
      if !HasSlot(condition[Code(word[charidx])], cond) {
        assert RejectsAt(condition, numconds, word, numconds - 1 - cond);
        return false;
      }
      charidx := charidx - 1;
      cond := cond - 1;
    }
    return true;
  }

  /** Characters before index `|word| - numconds` are never read: putting text in
      front of a word at least `numconds` long does not change the outcome. */
  lemma IgnoresFront(condition: seq<bv32>, numconds: int, front: string, word: string)
    requires |word| >= numconds
    ensures Rejects(condition, numconds, front + word) <==> Rejects(condition, numconds, word)
  {
    var w := front + word;
    if Rejects(condition, numconds, w) {
      var t :| RejectsAt(condition, numconds, w, t);
      assert forall s :: 0 <= s <= t ==> w[CharAt(w, s)] == word[CharAt(word, s)];
      assert RejectsAt(condition, numconds, word, t);
    }
    if Rejects(condition, numconds, word) {
      var t :| RejectsAt(condition, numconds, word, t);
      assert forall s :: 0 <= s <= t ==> w[CharAt(w, s)] == word[CharAt(word, s)];
      assert RejectsAt(condition, numconds, w, t);
    }
  }

  /** On a word at least as long as the condition whose characters all lie in the
      table, the bitmask walk agrees with the regular expression `.*cond$`. */
  lemma AgreesWithRegexOnLongWords(condition: seq<bv32>, slots: seq<CharClass>, word: string)
    requires |slots| <= 32 && Encodes(condition, slots)
    requires |slots| <= |word|
    requires forall j :: 0 <= j < |word| ==> InTable(condition, word[j]) && !IsLineTerminator(word[j])
    ensures !Rejects(condition, |slots|, word) <==> MatchesAtEnd(slots, word)
  {
    var n := |slots|;
    if Rejects(condition, n, word) {
      var t :| RejectsAt(condition, n, word, t);
      var i := n - 1 - t;
      assert |word| - n + i == CharAt(word, t);
      assert !InClass(slots[i], word[|word| - n + i]);
    }
    if !MatchesAtEnd(slots, word) {
      var i :| 0 <= i < n && !InClass(slots[i], word[|word| - n + i]);
      var t := n - 1 - i;
      assert CharAt(word, t) == |word| - n + i;
      assert !HasSlot(condition[Code(word[CharAt(word, t)])], n - 1 - t);
      assert RejectsAt(condition, n, word, t);
    }
  }

  /** A word shorter than the condition is accepted once the slots it reaches
      accept its characters, while the regular expression rejects it. */
  lemma AcceptsShortWordsUnlikeRegex(condition: seq<bv32>, slots: seq<CharClass>, word: string)
    requires |slots| <= 32 && Encodes(condition, slots)
    requires |word| < |slots|
    requires forall s :: 0 <= s < |word| ==>
               InTable(condition, word[CharAt(word, s)]) &&
               InClass(slots[|slots| - 1 - s], word[CharAt(word, s)])
    ensures !Rejects(condition, |slots|, word)
    ensures !MatchesAtEnd(slots, word)
  {
    forall t | 0 <= t < |word|
      ensures HasSlot(condition[Code(word[CharAt(word, t)])], |slots| - 1 - t)
    {
      assert InClass(slots[|slots| - 1 - t], word[CharAt(word, t)]);
    }
  }
}

/** The candidate words `SpellCorrector.suggest` tries, one edit each: the
    edits as functions with their properties, the lists of candidates each pass
    tries in order, and the StringBuilder loops that build one candidate. */
module Candidates {
  import opened Common

  // ---------------------------------------------------------------------
  // One edit
  // ---------------------------------------------------------------------

  /** The word without the character at `i`. */
  function DeleteAt(w: string, i: nat): string
    requires i < |w|
  {
    w[..i] + w[i + 1..]
  }

  /** The word with the character at `j` replaced by `c`. */
  function Substitute(w: string, j: nat, c: char): string
    requires j < |w|
  {
    w[..j] + [c] + w[j + 1..]
  }

  /** The word with `c` put in front of the character at `j`. */
  function InsertBefore(w: string, j: nat, c: char): string
    requires j < |w|
  {
    w[..j] + [c] + w[j..]
  }

  /** The word with the characters at `i` and `i + 1` exchanged. */
  function SwapAdjacent(w: string, i: nat): string
    requires i + 1 < |w|
  {
    w[..i] + [w[i + 1], w[i]] + w[i + 2..]
  }

  /** The word with the occurrence of `key` at `i` replaced by `value`. */
  function ReplaceAt(w: string, i: nat, key: string, value: string): string
    requires OccursAt(w, key, i)
  {
    w[..i] + value + w[i + |key|..]
  }

  /** A replacement keeps the text before the occurrence, puts `value` where the
      key was, and keeps the text after the key. */
  lemma ReplaceAtShape(w: string, i: nat, key: string, value: string)
    requires OccursAt(w, key, i)
    ensures |ReplaceAt(w, i, key, value)| == |w| - |key| + |value|
    ensures forall k :: 0 <= k < i ==> ReplaceAt(w, i, key, value)[k] == w[k]
    ensures forall k :: 0 <= k < |value| ==> ReplaceAt(w, i, key, value)[i + k] == value[k]
    ensures forall k :: i + |key| <= k < |w| ==> ReplaceAt(w, i, key, value)[k - |key| + |value|] == w[k]
  {
  }

  /** Replacing the value back by the key restores the word. */
  lemma ReplaceAtUndo(w: string, i: nat, key: string, value: string)
    requires OccursAt(w, key, i)
    ensures OccursAt(ReplaceAt(w, i, key, value), value, i)
    ensures ReplaceAt(ReplaceAt(w, i, key, value), i, value, key) == w
  {
    var r := ReplaceAt(w, i, key, value);
    assert r[..i] == w[..i] && r[i..i + |value|] == value && r[i + |value|..] == w[i + |key|..];
    assert w == w[..i] + key + w[i + |key|..];
  }

  /** A deletion is one character shorter and keeps the characters on both sides
      of the gap in order. */
  lemma DeleteAtShape(w: string, i: nat)
    requires i < |w|
    ensures |DeleteAt(w, i)| == |w| - 1
    ensures forall k :: 0 <= k < i ==> DeleteAt(w, i)[k] == w[k]
    ensures forall k :: i <= k < |w| - 1 ==> DeleteAt(w, i)[k] == w[k + 1]
  {
  }

  /** Putting the deleted character back in front of the character that moved
      into its place restores the word. */
  lemma DeleteThenInsert(w: string, i: nat)
    requires i + 1 < |w|
    ensures InsertBefore(DeleteAt(w, i), i, w[i]) == w
  {
    var d := DeleteAt(w, i);
    assert d[..i] == w[..i] && d[i..] == w[i + 1..];
    assert w == w[..i] + [w[i]] + w[i + 1..];
  }

  /** Deleting an inserted character restores the word. */
  lemma InsertThenDelete(w: string, j: nat, c: char)
    requires j < |w|
    ensures DeleteAt(InsertBefore(w, j, c), j) == w
  {
    var s := InsertBefore(w, j, c);
    assert s[..j] == w[..j] && s[j + 1..] == w[j..];
  }

  /** A substitution keeps the length and changes at most the character at `j`. */
  lemma SubstituteShape(w: string, j: nat, c: char)
    requires j < |w|
    ensures |Substitute(w, j, c)| == |w| && Substitute(w, j, c)[j] == c
    ensures forall k :: 0 <= k < |w| && k != j ==> Substitute(w, j, c)[k] == w[k]
  {
  }

  /** An insertion adds one character, in front of position `j` and never after
      the last character, which stays last. */
  lemma InsertBeforeShape(w: string, j: nat, c: char)
    requires j < |w|
    ensures var s := InsertBefore(w, j, c);
            |s| == |w| + 1 && s[j] == c && s[|s| - 1] == w[|w| - 1] &&
            s[..j] == w[..j] && s[j + 1..] == w[j..]
  {
  }

  /** A transposition keeps the length and the characters, and undoes itself. */
  lemma SwapAdjacentShape(w: string, i: nat)
    requires i + 1 < |w|
    ensures var s := SwapAdjacent(w, i);
            |s| == |w| && multiset(s) == multiset(w) && s[i] == w[i + 1] && s[i + 1] == w[i] &&
            SwapAdjacent(s, i) == w
  {
    var s := SwapAdjacent(w, i);
    assert w == w[..i] + [w[i], w[i + 1]] + w[i + 2..];
    assert s[..i] == w[..i] && s[i + 2..] == w[i + 2..];
    assert multiset([w[i + 1], w[i]]) == multiset([w[i], w[i + 1]]);
  }

  // ---------------------------------------------------------------------
  // The candidates of each pass, in the order they are tried
  // ---------------------------------------------------------------------

  function Deletions(w: string): seq<string> {
    seq(|w|, i requires 0 <= i < |w| => DeleteAt(w, i))
  }

  function SubstitutionRow(w: string, c: char): seq<string> {
    seq(|w|, j requires 0 <= j < |w| => Substitute(w, j, c))
  }

  /** For each try character in order, each position in order. */
  function Substitutions(w: string, tryChars: string): seq<string>
    decreases |tryChars|
  {
    if tryChars == [] then []
    else Substitutions(w, tryChars[..|tryChars| - 1]) + SubstitutionRow(w, tryChars[|tryChars| - 1])
  }

  function InsertionRow(w: string, c: char): seq<string> {
    seq(|w|, j requires 0 <= j < |w| => InsertBefore(w, j, c))
  }

  function Insertions(w: string, tryChars: string): seq<string>
    decreases |tryChars|
  {
    if tryChars == [] then []
    else Insertions(w, tryChars[..|tryChars| - 1]) + InsertionRow(w, tryChars[|tryChars| - 1])
  }

  function Transpositions(w: string): seq<string> {
    seq(if |w| == 0 then 0 else |w| - 1, i requires 0 <= i < |w| - 1 => SwapAdjacent(w, i))
  }

  /** The REP candidates of one pair: one for every occurrence of `key` found by
      searching from `from` and then from one past each occurrence, so
      overlapping occurrences count. */
  function RepFrom(w: string, key: string, value: string, from: nat): seq<string>
    requires key != []
    decreases |w| - from
  {
    var index := IndexOf(w, key, from);
    if index == -1 then []
    else [ReplaceAt(w, index, key, value)] + RepFrom(w, key, value, index + 1)
  }

  /** The REP pairs visited in `order`, the map's key order. */
  predicate IsKeyOrder(m: map<string, string>, order: seq<string>) {
    && NoDuplicates(order)
    && (forall i :: 0 <= i < |order| ==> order[i] in m)
    && (forall k :: k in m ==> k in order && k != [])
  }

  function RepCandidates(w: string, m: map<string, string>, order: seq<string>): seq<string>
    requires forall i :: 0 <= i < |order| ==> order[i] in m && order[i] != []
    decreases |order|
  {
    if order == [] then []
    else
      var key := order[|order| - 1];
      RepCandidates(w, m, order[..|order| - 1]) + RepFrom(w, key, m[key], 0)
  }

  /** The proper prefixes, from the longest down to one character. */
  function ShorterPrefixes(w: string): seq<string> {
    var n := if |w| == 0 then 0 else |w| - 1;
    seq(n, k requires 0 <= k < n => w[..|w| - 1 - k])
  }

  /** The proper suffixes, from the longest down to one character. */
  function ShorterSuffixes(w: string): seq<string> {
    var n := if |w| == 0 then 0 else |w| - 1;
    seq(n, k requires 0 <= k < n => w[k + 1..])
  }

  /** The fallback scan: the proper prefixes, then the proper suffixes. */
  function Truncations(w: string): seq<string> {
    ShorterPrefixes(w) + ShorterSuffixes(w)
  }

  // ---------------------------------------------------------------------
  // What each list holds
  // ---------------------------------------------------------------------

  /** Every REP candidate replaces an occurrence of `key` at or after `from`. */
  lemma {:induction false} RepFromSound(w: string, key: string, value: string, from: nat, x: string)
    requires key != [] && x in RepFrom(w, key, value, from)
    ensures exists i: nat :: from <= i && OccursAt(w, key, i) && x == ReplaceAt(w, i, key, value)
    decreases |w| - from
  {
    var index := IndexOf(w, key, from);
    if x != ReplaceAt(w, index, key, value) {
      RepFromSound(w, key, value, index + 1, x);
    }
  }

  /** Every occurrence of `key` at or after `from` gives a REP candidate,
      overlapping occurrences included. */
  lemma {:induction false} RepFromComplete(w: string, key: string, value: string, from: nat, i: nat)
    requires key != [] && from <= i && OccursAt(w, key, i)
    ensures ReplaceAt(w, i, key, value) in RepFrom(w, key, value, from)
    decreases |w| - from
  {
    var index := IndexOf(w, key, from);
    if index != i {
      RepFromComplete(w, key, value, index + 1, i);
    }
  }

  /** The substitution pass tries exactly the substitutions of a try character
      at a position of the word. */
  lemma {:induction false} SubstitutionsMembers(w: string, tryChars: string, x: string)
    ensures x in Substitutions(w, tryChars) <==>
              exists i, j :: 0 <= i < |tryChars| && 0 <= j < |w| && x == Substitute(w, j, tryChars[i])
    decreases |tryChars|
  {
    if tryChars != [] {
      var front := tryChars[..|tryChars| - 1];
      var c := tryChars[|tryChars| - 1];
      SubstitutionsMembers(w, front, x);
      if x in Substitutions(w, front) {
        var i, j :| 0 <= i < |front| && 0 <= j < |w| && x == Substitute(w, j, front[i]);
        assert tryChars[i] == front[i];
      }
      if x in SubstitutionRow(w, c) {
        var j :| 0 <= j < |w| && SubstitutionRow(w, c)[j] == x;
        assert x == Substitute(w, j, tryChars[|tryChars| - 1]);
      }
      if exists i, j :: 0 <= i < |tryChars| && 0 <= j < |w| && x == Substitute(w, j, tryChars[i]) {
        var i, j :| 0 <= i < |tryChars| && 0 <= j < |w| && x == Substitute(w, j, tryChars[i]);
        if i < |front| {
          assert front[i] == tryChars[i];
        } else {
          assert SubstitutionRow(w, c)[j] == x;
        }
      }
    }
  }

  /** The insertion pass tries exactly the insertions of a try character in
      front of a position of the word. */
  lemma {:induction false} InsertionsMembers(w: string, tryChars: string, x: string)
    ensures x in Insertions(w, tryChars) <==>
              exists i, j :: 0 <= i < |tryChars| && 0 <= j < |w| && x == InsertBefore(w, j, tryChars[i])
    decreases |tryChars|
  {
    if tryChars != [] {
      var front := tryChars[..|tryChars| - 1];
      var c := tryChars[|tryChars| - 1];
      InsertionsMembers(w, front, x);
      if x in Insertions(w, front) {
        var i, j :| 0 <= i < |front| && 0 <= j < |w| && x == InsertBefore(w, j, front[i]);
        assert tryChars[i] == front[i];
      }
      if x in InsertionRow(w, c) {
        var j :| 0 <= j < |w| && InsertionRow(w, c)[j] == x;
        assert x == InsertBefore(w, j, tryChars[|tryChars| - 1]);
      }
      if exists i, j :: 0 <= i < |tryChars| && 0 <= j < |w| && x == InsertBefore(w, j, tryChars[i]) {
        var i, j :| 0 <= i < |tryChars| && 0 <= j < |w| && x == InsertBefore(w, j, tryChars[i]);
        if i < |front| {
          assert front[i] == tryChars[i];
        } else {
          assert InsertionRow(w, c)[j] == x;
        }
      }
    }
  }

  /** The substitutions of the first `n` try characters come first. */
  lemma {:induction false} SubstitutionsPrefix(w: string, tryChars: string, n: nat)
    requires n <= |tryChars|
    ensures Substitutions(w, tryChars[..n]) <= Substitutions(w, tryChars)
    decreases |tryChars|
  {
    if n < |tryChars| {
      var front := tryChars[..|tryChars| - 1];
      assert front[..n] == tryChars[..n];
      SubstitutionsPrefix(w, front, n);
    } else {
      assert tryChars[..n] == tryChars;
    }
  }

  /** The insertions of the first `n` try characters come first. */
  lemma {:induction false} InsertionsPrefix(w: string, tryChars: string, n: nat)
    requires n <= |tryChars|
    ensures Insertions(w, tryChars[..n]) <= Insertions(w, tryChars)
    decreases |tryChars|
  {
    if n < |tryChars| {
      var front := tryChars[..|tryChars| - 1];
      assert front[..n] == tryChars[..n];
      InsertionsPrefix(w, front, n);
    } else {
      assert tryChars[..n] == tryChars;
    }
  }

  /** Every substitution keeps the word's length. */
  lemma SubstitutionsKeepLength(w: string, tryChars: string, x: string)
    requires x in Substitutions(w, tryChars)
    ensures |x| == |w|
  {
    SubstitutionsMembers(w, tryChars, x);
  }

  /** Every insertion is one character longer than the word. */
  lemma InsertionsAddOne(w: string, tryChars: string, x: string)
    requires x in Insertions(w, tryChars)
    ensures |x| == |w| + 1
  {
    InsertionsMembers(w, tryChars, x);
  }

  /** Every transposition is a rearrangement of the word's characters. */
  lemma TranspositionsPermute(w: string, x: string)
    requires x in Transpositions(w)
    ensures |x| == |w| && multiset(x) == multiset(w)
  {
    var i :| 0 <= i < |Transpositions(w)| && Transpositions(w)[i] == x;
    SwapAdjacentShape(w, i);
  }

  // ---------------------------------------------------------------------
  // The StringBuilder loops
  // ---------------------------------------------------------------------

  /** Appends every character but the one at `i`. */
  method BuildDeletion(w: string, i: nat) returns (s: string)
    requires i < |w|
    ensures s == DeleteAt(w, i)
  {
    s := [];
    for j := 0 to |w|
      invariant s == if j <= i then w[..j] else w[..i] + w[i + 1..j]
    {
      if i != j {
        s := s + [w[j]];
      }
    }
    assert w[i + 1..|w|] == w[i + 1..];
  }

  /** Appends each character, `c` in place of the one at `j`. */
  method BuildSubstitution(w: string, j: nat, c: char) returns (s: string)
    requires j < |w|
    ensures s == Substitute(w, j, c)
  {
    s := [];
    for h := 0 to |w|
      invariant s == if h <= j then w[..h] else w[..j] + [c] + w[j + 1..h]
    {
      if h != j {
        s := s + [w[h]];
      } else {
        s := s + [c];
      }
    }
    assert w[j + 1..|w|] == w[j + 1..];
  }

  /** Appends each character, `c` first in front of the one at `j`. */
  method BuildInsertion(w: string, j: nat, c: char) returns (s: string)
    requires j < |w|
    ensures s == InsertBefore(w, j, c)
  {
    s := [];
    for h := 0 to |w|
      invariant s == if h <= j then w[..h] else w[..j] + [c] + w[j..h]
    {
      if h != j {
        s := s + [w[h]];
      } else {
        s := s + [c, w[h]];
      }
    }
    assert w[j..|w|] == w[j..];
  }

  /** Appends each character; at `i` appends the next one and then this one,
      and skips ahead past both. */
  method BuildTransposition(w: string, i: nat) returns (s: string)
    requires i + 1 < |w|
    ensures s == SwapAdjacent(w, i)
  {
    s := [];
    var j := 0;
    while j < |w|
      invariant 0 <= j <= |w| && j != i + 1
      invariant j <= i ==> s == w[..j]
      invariant j > i ==> s == w[..i] + [w[i + 1], w[i]] + w[i + 2..j]
    {
      if i != j {
        s := s + [w[j]];
      } else {
        s := s + [w[j + 1], w[j]];
        j := j + 1;
      }
      j := j + 1;
    }
    assert w[i + 2..|w|] == w[i + 2..];
  }
}

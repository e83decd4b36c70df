/** `DictionaryEntry`: a word and its flag array (null when the word list gave
    no flags), compared by `equals` and ordered by `compareTo`. */
module DictionaryEntries {
  import opened Common

  /** `flags` is `None` for a null array; a slot of the array may itself be null. */
  datatype DictionaryEntry = DictionaryEntry(word: string, flags: Option<seq<Option<string>>>)

  /** The three-argument constructor: the third argument is not stored. */
  function NewEntry(word: string, flags: Option<seq<Option<string>>>, other: string): DictionaryEntry {
    DictionaryEntry(word, flags)
  }

  /** Two entries built from the same word and flags are the same entry,
      whatever third argument each was given. */
  lemma ConstructorIgnoresOther(word: string, flags: Option<seq<Option<string>>>, o1: string, o2: string)
    ensures NewEntry(word, flags, o1) == NewEntry(word, flags, o2)
    ensures NewEntry(word, flags, o1).word == word && NewEntry(word, flags, o1).flags == flags
  {
  }

  // ---------------------------------------------------------------------
  // equals
  // ---------------------------------------------------------------------

  /** `Arrays.equals` on two flag arrays: null equals only null; otherwise the
      same length and equal slots, a null slot equal only to a null slot. */
  predicate ArraysEqual(a: Option<seq<Option<string>>>, b: Option<seq<Option<string>>>) {
    match (a, b)
    case (None, None) => true
    case (Some(x), Some(y)) => |x| == |y| && forall i :: 0 <= i < |x| ==> x[i] == y[i]
    case _ => false
  }

  /** `equals`: same word and `Arrays.equals` flags. */
  predicate Equals(a: DictionaryEntry, b: DictionaryEntry) {
    a.word == b.word && ArraysEqual(a.flags, b.flags)
  }

  /** `equals` is equality of the entries' values. */
  lemma EqualsIsValueEquality(a: DictionaryEntry, b: DictionaryEntry)
    ensures Equals(a, b) <==> a == b
  {
    if Equals(a, b) && a.flags.Some? {
      assert a.flags.value == b.flags.value;
    }
  }

  // ---------------------------------------------------------------------
  // compareTo
  // ---------------------------------------------------------------------

  /** `String.compareTo`: the difference of the first differing characters, or
      else the difference of the lengths. */
  function StrCompare(a: string, b: string): int
    decreases |a|
  {
    if a == [] || b == [] then |a| - |b|
    else if a[0] != b[0] then a[0] as int - b[0] as int
    else StrCompare(a[1..], b[1..])
  }

  lemma {:induction false} StrCompareZero(a: string, b: string)
    ensures StrCompare(a, b) == 0 <==> a == b
    decreases |a|
  {
    if a != [] && b != [] && a[0] == b[0] {
      StrCompareZero(a[1..], b[1..]);
      if a[1..] == b[1..] {
        assert a == [a[0]] + a[1..] && b == [b[0]] + b[1..];
      }
    }
  }

  lemma {:induction false} StrCompareAntisymmetric(a: string, b: string)
    ensures StrCompare(a, b) == -StrCompare(b, a)
    decreases |a|
  {
    if a != [] && b != [] && a[0] == b[0] {
      StrCompareAntisymmetric(a[1..], b[1..]);
    }
  }

  lemma {:induction false} StrCompareTransitive(a: string, b: string, c: string)
    requires StrCompare(a, b) < 0 && StrCompare(b, c) < 0
    ensures StrCompare(a, c) < 0
    decreases |a|
  {
    if a != [] && b != [] && c != [] && a[0] == b[0] && b[0] == c[0] {
      StrCompareTransitive(a[1..], b[1..], c[1..]);
    }
  }

  /** One slot of `Arrays.compare`: a null slot sorts before a non-null one. */
  function SlotCompare(x: Option<string>, y: Option<string>): int {
    match (x, y)
    case (None, None) => 0
    case (None, Some(_)) => -1
    case (Some(_), None) => 1
    case (Some(s), Some(t)) => StrCompare(s, t)
  }

  lemma SlotCompareZero(x: Option<string>, y: Option<string>)
    ensures SlotCompare(x, y) == 0 <==> x == y
  {
    if x.Some? && y.Some? {
      StrCompareZero(x.value, y.value);
    }
  }

  lemma SlotCompareAntisymmetric(x: Option<string>, y: Option<string>)
    ensures SlotCompare(x, y) == -SlotCompare(y, x)
  {
    if x.Some? && y.Some? {
      StrCompareAntisymmetric(x.value, y.value);
    }
  }

  lemma SlotCompareTransitive(x: Option<string>, y: Option<string>, z: Option<string>)
    requires SlotCompare(x, y) < 0 && SlotCompare(y, z) < 0
    ensures SlotCompare(x, z) < 0
  {
    if x.Some? && y.Some? && z.Some? {
      StrCompareTransitive(x.value, y.value, z.value);
    }
  }

  /** The loop of `Arrays.compare` over two non-null arrays: the first slot that
      differs decides, or else the difference of the lengths. */
  function SlotsCompare(a: seq<Option<string>>, b: seq<Option<string>>): int
    decreases |a|
  {
    if a == [] || b == [] then |a| - |b|
    else if SlotCompare(a[0], b[0]) != 0 then SlotCompare(a[0], b[0])
    else SlotsCompare(a[1..], b[1..])
  }

  lemma {:induction false} SlotsCompareZero(a: seq<Option<string>>, b: seq<Option<string>>)
    ensures SlotsCompare(a, b) == 0 <==> a == b
    decreases |a|
  {
    if a != [] && b != [] {
      SlotCompareZero(a[0], b[0]);
      SlotsCompareZero(a[1..], b[1..]);
      if a[0] == b[0] && a[1..] == b[1..] {
        assert a == [a[0]] + a[1..] && b == [b[0]] + b[1..];
      }
    }
  }

  lemma {:induction false} SlotsCompareAntisymmetric(a: seq<Option<string>>, b: seq<Option<string>>)
    ensures SlotsCompare(a, b) == -SlotsCompare(b, a)
    decreases |a|
  {
    if a != [] && b != [] {
      SlotCompareAntisymmetric(a[0], b[0]);
      SlotsCompareAntisymmetric(a[1..], b[1..]);
    }
  }

  lemma {:induction false} SlotsCompareTransitive(a: seq<Option<string>>, b: seq<Option<string>>, c: seq<Option<string>>)
    requires SlotsCompare(a, b) < 0 && SlotsCompare(b, c) < 0
    ensures SlotsCompare(a, c) < 0
    decreases |a|
  {
    if a != [] && b != [] && c != [] {
      SlotCompareZero(a[0], b[0]);
      SlotCompareZero(b[0], c[0]);
      var ab := SlotCompare(a[0], b[0]);
      var bc := SlotCompare(b[0], c[0]);
      if ab < 0 && bc < 0 {
        SlotCompareTransitive(a[0], b[0], c[0]);
      } else if ab == 0 && bc == 0 {
        SlotsCompareTransitive(a[1..], b[1..], c[1..]);
      }
    }
  }

  /** `Arrays.compare` on two flag arrays: a null array sorts first. */
  function ArraysCompare(a: Option<seq<Option<string>>>, b: Option<seq<Option<string>>>): int {
    match (a, b)
    case (None, None) => 0
    case (None, Some(_)) => -1
    case (Some(_), None) => 1
    case (Some(x), Some(y)) => SlotsCompare(x, y)
  }

  /** `compareTo`: 0 for equal entries; otherwise by word, then by flags. */
  function CompareTo(a: DictionaryEntry, b: DictionaryEntry): int {
    if Equals(a, b) then 0
    else
      var i := StrCompare(a.word, b.word);
      if i != 0 then i else ArraysCompare(a.flags, b.flags)
  }

  /** `compareTo` is consistent with `equals`. */
  lemma CompareToZeroIffEquals(a: DictionaryEntry, b: DictionaryEntry)
    ensures CompareTo(a, b) == 0 <==> Equals(a, b)
  {
    EqualsIsValueEquality(a, b);
    StrCompareZero(a.word, b.word);
    if a.flags.Some? && b.flags.Some? {
      SlotsCompareZero(a.flags.value, b.flags.value);
    }
  }

  /** Swapping the entries negates the result. */
  lemma CompareToAntisymmetric(a: DictionaryEntry, b: DictionaryEntry)
    ensures CompareTo(a, b) == -CompareTo(b, a)
  {
    EqualsIsValueEquality(a, b);
    EqualsIsValueEquality(b, a);
    StrCompareAntisymmetric(a.word, b.word);
    if a.flags.Some? && b.flags.Some? {
      SlotsCompareAntisymmetric(a.flags.value, b.flags.value);
    }
  }

  /** Entries with different words are ordered by their words alone; a null flag
      array sorts before any array for the same word. */
  lemma CompareToOrdersByWordThenFlags(a: DictionaryEntry, b: DictionaryEntry)
    ensures a.word != b.word ==> CompareTo(a, b) == StrCompare(a.word, b.word)
    ensures a.word == b.word && a.flags.None? && b.flags.Some? ==> CompareTo(a, b) == -1
  {
    StrCompareZero(a.word, b.word);
  }

  /** The order is transitive, so `compareTo` is a total order on entries. */
  lemma CompareToTransitive(a: DictionaryEntry, b: DictionaryEntry, c: DictionaryEntry)
    requires CompareTo(a, b) < 0 && CompareTo(b, c) < 0
    ensures CompareTo(a, c) < 0
  {
    StrCompareZero(a.word, b.word);
    StrCompareZero(b.word, c.word);
    StrCompareZero(a.word, c.word);
    EqualsIsValueEquality(a, c);
    if a.word != b.word && b.word != c.word {
      StrCompareTransitive(a.word, b.word, c.word);
    } else if a.word == b.word && b.word == c.word {
      if a.flags.Some? && b.flags.Some? && c.flags.Some? {
        SlotsCompareTransitive(a.flags.value, b.flags.value, c.flags.value);
        SlotsCompareZero(a.flags.value, c.flags.value);
      }
    }
  }
}

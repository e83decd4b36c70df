/** The bitmask form of a condition that `Prefix.checkConditions` and
    `Suffix.checkConditions` walk: a table indexed by character code whose entry
    has bit k set when the character is allowed in slot k of the condition. */
module ConditionTables {
  import opened Conditions

  /** The code Java indexes the table with (`condition[word.charAt(i)]`). */
  function Code(c: char): nat {
    c as int
  }

  /** `1 << slot` on a Java int: the shift distance is taken modulo 32. */
  function SlotBit(slot: nat): bv32 {
    (1 as bv32) << (slot % 32)
  }

  /** `(mask & 1 << slot) != 0`. */
  predicate HasSlot(mask: bv32, slot: nat) {
    mask & SlotBit(slot) != 0
  }

  /** A character whose code lies inside the table; any other makes the walk
      raise IndexOutOfBoundsException. */
  predicate InTable(table: seq<bv32>, c: char) {
    Code(c) < |table|
  }

  /** The table holds the compiled condition `slots`: bit k of the entry for a
      character is set exactly when the character belongs to class k. */
  ghost predicate Encodes(table: seq<bv32>, slots: seq<CharClass>) {
    forall c: char, k: nat {:trigger HasSlot(table[Code(c)], k)} ::
      Code(c) < |table| && k < |slots| ==> (HasSlot(table[Code(c)], k) <==> InClass(slots[k], c))
  }
}

/** `Dictionary`: the word list read line by line into a map from word to
    entry, and `lookup`. The list's lines arrive already read and decoded; the
    zip archive and the files are not part of this model. */
module Dictionaries {
  import opened Common
  import opened DictionaryEntries
  import opened WordForms
  import opened AffixParsers

  /** The entry one line of the word list makes: when the first `/` is at
      index 1 or later, the text before it is the word and `getFlags` of all
      the text after it gives the flags; otherwise the whole line is the word
      and the flags are null. */
  function EntryOf(flagType: string, line: string): DictionaryEntry {
    var index := IndexOf(line, "/", 0);
    if index > 0 then DictionaryEntry(line[..index], Some(FlagsOf(flagType, line[index + 1..])))
    else DictionaryEntry(line, None)
  }

  lemma SlashOccursAt(line: string, i: int)
    requires 0 <= i < |line|
    ensures OccursAt(line, "/", i) <==> line[i] == '/'
  {
    assert line[i..i + 1] == [line[i]];
  }

  /** A line with a `/` after its first character splits at the first `/`:
      the word is everything before it and holds no `/`, and word, `/` and
      flag text put together give the line back. */
  lemma EntryOfSplitsAtFirstSlash(flagType: string, line: string, i: nat)
    requires 0 < i < |line| && line[i] == '/'
    requires forall k :: 0 <= k < i ==> line[k] != '/'
    ensures var e := EntryOf(flagType, line);
            e.word == line[..i] && '/' !in e.word &&
            e.flags == Some(FlagsOf(flagType, line[i + 1..])) &&
            line == e.word + "/" + line[i + 1..]
  {
    SlashOccursAt(line, i);
    forall k | 0 <= k < i ensures !OccursAt(line, "/", k) {
      SlashOccursAt(line, k);
    }
    assert IndexOf(line, "/", 0) == i;
  }

  /** A line without `/`, or whose first character is `/`, is a word with null
      flags, the whole line included. */
  lemma EntryOfWithoutFlags(flagType: string, line: string)
    requires '/' !in line || line[0] == '/'
    ensures EntryOf(flagType, line) == DictionaryEntry(line, None)
  {
    var index := IndexOf(line, "/", 0);
    if index > 0 {
      SlashOccursAt(line, index);
      if '/' in line {
        SlashOccursAt(line, 0);
      }
    }
  }

  /** The loop of `loadWords` after the count line: each line puts its entry
      under its word, so a later line replaces an earlier entry for the same
      word. */
  function LoadLines(flagType: string, words: map<string, DictionaryEntry>, lines: seq<string>): map<string, DictionaryEntry>
    decreases |lines|
  {
    if lines == [] then words
    else
      var e := EntryOf(flagType, lines[0]);
      LoadLines(flagType, words[e.word := e], lines[1..])
  }

  /** Every entry is filed under its own word. */
  predicate KeyedByWord(words: map<string, DictionaryEntry>) {
    forall w :: w in words ==> words[w].word == w
  }

  /** The words of the loaded map are the words already there and the word of
      every line, and each stays filed under its own word. */
  lemma {:induction false} LoadLinesWords(flagType: string, words: map<string, DictionaryEntry>, lines: seq<string>)
    requires KeyedByWord(words)
    ensures KeyedByWord(LoadLines(flagType, words, lines))
    ensures forall w :: w in LoadLines(flagType, words, lines) <==>
              w in words || exists i :: 0 <= i < |lines| && EntryOf(flagType, lines[i]).word == w
    decreases |lines|
  {
    if lines != [] {
      var e := EntryOf(flagType, lines[0]);
      LoadLinesWords(flagType, words[e.word := e], lines[1..]);
      forall w | exists i :: 0 <= i < |lines| && EntryOf(flagType, lines[i]).word == w
        ensures w in LoadLines(flagType, words, lines)
      {
        var i :| 0 <= i < |lines| && EntryOf(flagType, lines[i]).word == w;
        if i > 0 {
          assert lines[1..][i - 1] == lines[i];
        }
      }
      forall w | w in LoadLines(flagType, words, lines) && w !in words && w != e.word
        ensures exists i :: 0 <= i < |lines| && EntryOf(flagType, lines[i]).word == w
      {
        var i :| 0 <= i < |lines[1..]| && EntryOf(flagType, lines[1..][i]).word == w;
        assert lines[i + 1] == lines[1..][i];
      }
    }
  }

  /** The last line for a word decides its entry. */
  lemma {:induction false} LoadLinesLastWins(flagType: string, words: map<string, DictionaryEntry>, lines: seq<string>, i: nat)
    requires i < |lines|
    requires forall j :: i < j < |lines| ==> EntryOf(flagType, lines[j]).word != EntryOf(flagType, lines[i]).word
    ensures var e := EntryOf(flagType, lines[i]);
            e.word in LoadLines(flagType, words, lines) && LoadLines(flagType, words, lines)[e.word] == e
    decreases |lines|
  {
    var e := EntryOf(flagType, lines[i]);
    var first := EntryOf(flagType, lines[0]);
    if i == 0 {
      LoadLinesUntouched(flagType, words[first.word := first], lines[1..], e.word);
    } else {
      assert lines[1..][i - 1] == lines[i];
      forall j | i - 1 < j < |lines[1..]|
        ensures EntryOf(flagType, lines[1..][j]).word != e.word
      {
        assert lines[1..][j] == lines[j + 1];
      }
      LoadLinesLastWins(flagType, words[first.word := first], lines[1..], i - 1);
    }
  }

  /** A word that no line names keeps the entry it had. */
  lemma {:induction false} LoadLinesUntouched(flagType: string, words: map<string, DictionaryEntry>, lines: seq<string>, w: string)
    requires w in words
    requires forall j :: 0 <= j < |lines| ==> EntryOf(flagType, lines[j]).word != w
    ensures w in LoadLines(flagType, words, lines) && LoadLines(flagType, words, lines)[w] == words[w]
    decreases |lines|
  {
    if lines != [] {
      var e := EntryOf(flagType, lines[0]);
      forall j | 0 <= j < |lines[1..]| ensures EntryOf(flagType, lines[1..][j]).word != w {
        assert lines[1..][j] == lines[j + 1];
      }
      LoadLinesUntouched(flagType, words[e.word := e], lines[1..], w);
    }
  }

  /** `loadWords` on a fresh dictionary: the first line (`None` when the file is
      empty) must be a number, or loading fails with IOException. The flag says
      whether the number equals the count of distinct words; a mismatch is only
      logged. */
  function LoadWords(flagType: string, first: Option<string>, lines: seq<string>): (r: Result<(map<string, DictionaryEntry>, bool)>)
    ensures r.Err? <==> first.None? || ParseInt(first.value).None?
    ensures r.Err? ==> r.error == IOException(MissingWordCount)
    ensures r.Ok? ==> r.value.1 == (ParseInt(first.value).value == |r.value.0|)
  {
    if first.None? then Err(IOException(MissingWordCount))
    else match ParseInt(first.value)
      case None => Err(IOException(MissingWordCount))
      case Some(entries) =>
        var words := LoadLines(flagType, map[], lines);
        Ok((words, entries == |words|))
  }

  /** Loading never fails over the count: any number is accepted, and every line
      after it is read. */
  lemma CountMismatchStillLoads(flagType: string, first: string, lines: seq<string>)
    requires ParseInt(first).Some?
    ensures LoadWords(flagType, Some(first), lines).Ok?
    ensures LoadWords(flagType, Some(first), lines).value.0 == LoadLines(flagType, map[], lines)
  {
  }

  /** The map is filled from the word list and only read afterwards. */
  class Dictionary {
    const parser: AffixParser
    var wordsMap: map<string, DictionaryEntry>

    ghost predicate Valid()
      reads this
    {
      KeyedByWord(wordsMap)
    }

    /** The part of the `Dictionary` constructor that the model keeps: an
        empty word map next to an already parsed affix file. */
    constructor (parser: AffixParser)
      ensures this.parser == parser && wordsMap == map[] && Valid()
    {
      this.parser := parser;
      wordsMap := map[];
    }

    /** One iteration of the loop of `loadWords`. */
    method AddLine(line: string)
      requires Valid()
      modifies this
      ensures Valid()
      ensures wordsMap == old(wordsMap)[EntryOf(parser.flagType, line).word := EntryOf(parser.flagType, line)]
    {
      var index := IndexOf(line, "/", 0);
      if index > 0 {
        var word := line[..index];
        var affix := line[index + 1..];
        var flags := parser.GetFlags(affix);
        wordsMap := wordsMap[word := DictionaryEntry(word, Some(flags[..]))];
      } else {
        wordsMap := wordsMap[line := DictionaryEntry(line, None)];
      }
    }

    /** `loadWords`: the count line, then every line into the map in order. */
    method LoadWords(first: Option<string>, lines: seq<string>) returns (r: Result<bool>)
      requires Valid()
      modifies this
      ensures Valid()
      ensures r.Err? <==> first.None? || ParseInt(first.value).None?
      ensures r.Err? ==> r.error == IOException(MissingWordCount) && wordsMap == old(wordsMap)
      ensures r.Ok? ==> wordsMap == LoadLines(parser.flagType, old(wordsMap), lines)
      ensures r.Ok? ==> r.value == (ParseInt(first.value).value == |wordsMap|)
    {
      if first.None? {
        return Err(IOException(MissingWordCount));
      }
      var count := ParseInt(first.value);
      if count.None? {
        return Err(IOException(MissingWordCount));
      }
      var entries := count.value;
      var i := 0;
      while i < |lines|
        invariant 0 <= i <= |lines|
        invariant KeyedByWord(wordsMap)
        invariant LoadLines(parser.flagType, wordsMap, lines[i..]) == LoadLines(parser.flagType, old(wordsMap), lines)
      {
        assert lines[i..][0] == lines[i] && lines[i..][1..] == lines[i + 1..];
        AddLine(lines[i]);
        i := i + 1;
      }
      return Ok(entries == |wordsMap|);
    }

    /** `lookup`: exact, case-sensitive; `None` for Java's null. */
    function Lookup(word: string): (r: Option<DictionaryEntry>)
      reads this
      ensures r.Some? <==> word in wordsMap
      ensures r.Some? && Valid() ==> r.value.word == word
    {
      if word in wordsMap then Some(wordsMap[word]) else None
    }
  }

  /** The `Dictionary` constructor after the zip has been unpacked: the parsed
      affix file and the lines of the word list. */
  method Open(parser: AffixParser, first: Option<string>, lines: seq<string>) returns (r: Result<Dictionary>)
    ensures r.Err? <==> LoadWords(parser.flagType, first, lines).Err?
    ensures r.Ok? ==> r.value.Valid() && r.value.parser == parser
    ensures r.Ok? ==> r.value.wordsMap == LoadWords(parser.flagType, first, lines).value.0
  {
    var dictionary := new Dictionary(parser);
    var loaded := dictionary.LoadWords(first, lines);
    if loaded.Err? {
      return Err(loaded.error);
    }
    return Ok(dictionary);
  }
}

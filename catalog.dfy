/** The word catalog: the records read from the CSV file, their stable
    hardest-first order, and the case-insensitive lookup behind the three
    hint actions. */
module Catalog {
  import opened Options
  import opened Text

  /** One CSV row as the reader produces it. `difficulty` is None when the
      column is absent or its text does not parse as an int; an absent text
      column reads as "". */
  datatype Row = Row(word: string, difficulty: Option<int>, definition: string, origin: string, sentence: string)

  /** One catalog entry once the difficulty has been defaulted. */
  datatype WordRecord = WordRecord(word: string, difficulty: int, definition: string, origin: string, sentence: string)

  const DefaultDifficulty := 5

  /** A row with its difficulty defaulted to 5 when missing or unparsable. */
  function ToRecord(row: Row): (r: WordRecord)
    ensures r.word == row.word && r.definition == row.definition
    ensures r.origin == row.origin && r.sentence == row.sentence
    ensures r.difficulty == (if row.difficulty.Some? then row.difficulty.value else DefaultDifficulty)
  {
    WordRecord(row.word, if row.difficulty.Some? then row.difficulty.value else DefaultDifficulty, row.definition, row.origin, row.sentence)
  }

  // ---------------------------------------------------------------------
  // Hardest first, stable on ties
  // ---------------------------------------------------------------------

  /** Each record is at least as hard as the one after it. */
  ghost predicate HardestFirst(rs: seq<WordRecord>) {
    forall i :: 0 < i < |rs| ==> rs[i - 1].difficulty >= rs[i].difficulty
  }

  /** In a hardest-first list, every record is at least as hard as any later one. */
  lemma {:induction false} HardestFirstOrdersAll(rs: seq<WordRecord>, i: nat, j: nat)
    requires HardestFirst(rs) && i <= j < |rs|
    ensures rs[i].difficulty >= rs[j].difficulty
    decreases j - i
  {
    if i < j {
      HardestFirstOrdersAll(rs, i + 1, j);
    }
  }

  lemma HardestFirstTail(rs: seq<WordRecord>)
    requires HardestFirst(rs) && rs != []
    ensures HardestFirst(rs[1..])
  {
    var rest := rs[1..];
    forall i | 0 < i < |rest| ensures rest[i - 1].difficulty >= rest[i].difficulty {
      assert rest[i - 1] == rs[i] && rest[i] == rs[i + 1];
    }
  }

  /** The records of difficulty d, in their order in rs. */
  function WithDifficulty(rs: seq<WordRecord>, d: int): seq<WordRecord> {
    if rs == [] then []
    else (if rs[0].difficulty == d then [rs[0]] else []) + WithDifficulty(rs[1..], d)
  }

  /** Puts r into the hardest-first list rs, after every strictly harder
      record and before every record of the same or lower difficulty. */
  function Insert(r: WordRecord, rs: seq<WordRecord>): (out: seq<WordRecord>)
    requires HardestFirst(rs)
    ensures HardestFirst(out)
    ensures |out| == |rs| + 1
    ensures out[0] == r || (rs != [] && out[0] == rs[0])
  {
    if rs == [] then [r]
    else if rs[0].difficulty > r.difficulty then
      assert rs == [rs[0]] + rs[1..];
      [rs[0]] + Insert(r, rs[1..])
    else
      [r] + rs
  }

  /** Inserting adds exactly r: the result is a permutation of rs and r. */
  lemma {:induction false} InsertPermutes(r: WordRecord, rs: seq<WordRecord>)
    requires HardestFirst(rs)
    ensures multiset(Insert(r, rs)) == multiset(rs) + multiset{r}
  {
    if rs != [] && rs[0].difficulty > r.difficulty {
      HardestFirstTail(rs);
      InsertPermutes(r, rs[1..]);
      assert rs == [rs[0]] + rs[1..];
    }
  }

  /** Python's `words.sort(key=difficulty, reverse=True)`: hardest first, a
      permutation of the input. Stability is SortKeepsTies below. */
  function SortHardestFirst(rs: seq<WordRecord>): (out: seq<WordRecord>)
    ensures HardestFirst(out)
    ensures multiset(out) == multiset(rs)
  {
    if rs == [] then []
    else
      assert rs == [rs[0]] + rs[1..];
      InsertPermutes(rs[0], SortHardestFirst(rs[1..]));
      Insert(rs[0], SortHardestFirst(rs[1..]))
  }

  /** The catalog the tutor quizzes from: every row defaulted, then sorted. */
  function Load(rows: seq<Row>): (words: seq<WordRecord>)
    ensures |words| == |rows|
    ensures HardestFirst(words)
    ensures multiset(words) == multiset(seq(|rows|, i requires 0 <= i < |rows| => ToRecord(rows[i])))
  {
    var records := seq(|rows|, i requires 0 <= i < |rows| => ToRecord(rows[i]));
    assert |multiset(SortHardestFirst(records))| == |records|;
    SortHardestFirst(records)
  }

  lemma {:induction false} InsertKeepsTies(r: WordRecord, rs: seq<WordRecord>, d: int)
    requires HardestFirst(rs)
    ensures WithDifficulty(Insert(r, rs), d)
         == (if r.difficulty == d then [r] else []) + WithDifficulty(rs, d)
  {
    var mine := if r.difficulty == d then [r] else [];
    if rs == [] {
      assert Insert(r, rs) == [r] && [r][1..] == [];
      assert WithDifficulty([r], d) == mine + WithDifficulty([], d);
    } else if rs[0].difficulty > r.difficulty {
      var rest := rs[1..];
      HardestFirstTail(rs);
      InsertKeepsTies(r, rest, d);
      var tail := Insert(r, rest);
      var out := [rs[0]] + tail;
      assert Insert(r, rs) == out;
      assert out[0] == rs[0] && out[1..] == tail;
      assert WithDifficulty(out, d) == (if rs[0].difficulty == d then [rs[0]] else []) + WithDifficulty(tail, d);
      assert WithDifficulty(rs, d) == (if rs[0].difficulty == d then [rs[0]] else []) + WithDifficulty(rest, d);
      if rs[0].difficulty == d {
        assert mine == [];
        assert mine + WithDifficulty(rs, d) == WithDifficulty(rs, d);
      } else {
        assert [] + WithDifficulty(tail, d) == WithDifficulty(tail, d);
        assert [] + WithDifficulty(rest, d) == WithDifficulty(rest, d);
      }
    } else {
      var out := [r] + rs;
      assert Insert(r, rs) == out;
      assert out[0] == r && out[1..] == rs;
      assert WithDifficulty(out, d) == mine + WithDifficulty(rs, d);
    }
  }

  /** The sort is stable: for every difficulty, the records of that
      difficulty keep their relative order. */
  lemma {:induction false} SortKeepsTies(rs: seq<WordRecord>, d: int)
    ensures WithDifficulty(SortHardestFirst(rs), d) == WithDifficulty(rs, d)
  {
    if rs != [] {
      SortKeepsTies(rs[1..], d);
      InsertKeepsTies(rs[0], SortHardestFirst(rs[1..]), d);
    }
  }

  // ---------------------------------------------------------------------
  // Lookup by word (`_get_row`) and the hint actions
  // ---------------------------------------------------------------------

  /** The catalog's notion of "the same word": equal once stripped and lower-cased. */
  predicate SameWord(a: string, b: string) {
    Normalize(a) == Normalize(b)
  }

  /** Record k is the first one whose word matches a non-empty query. */
  ghost predicate IsFirstMatch(words: seq<WordRecord>, query: string, k: nat) {
    && query != ""
    && k < |words|
    && SameWord(words[k].word, query)
    && forall j :: 0 <= j < k ==> !SameWord(words[j].word, query)
  }

  /** Some record matches a non-empty query. */
  ghost predicate Known(words: seq<WordRecord>, query: string) {
    query != "" && exists k :: 0 <= k < |words| && SameWord(words[k].word, query)
  }

  /** The first position at or after `from` whose record's key equals `key`. */
  function FirstKeyFrom(words: seq<WordRecord>, key: string, from: nat): (r: Option<nat>)
    requires from <= |words|
    ensures r.Some? ==> from <= r.value < |words|
    decreases |words| - from
  {
    if from == |words| then None
    else if Normalize(words[from].word) == key then Some(from)
    else FirstKeyFrom(words, key, from + 1)
  }

  /** The scan finds the first matching position from `from` on, or reports
      that no later word matches. */
  lemma {:induction false} FirstKeyFromFinds(words: seq<WordRecord>, key: string, from: nat)
    requires from <= |words|
    ensures var r := FirstKeyFrom(words, key, from);
      && (r.Some? ==> Normalize(words[r.value].word) == key)
      && (r.Some? ==> forall j :: from <= j < r.value ==> Normalize(words[j].word) != key)
      && (r.None? ==> forall j :: from <= j < |words| ==> Normalize(words[j].word) != key)
    decreases |words| - from
  {
    if from < |words| && Normalize(words[from].word) != key {
      FirstKeyFromFinds(words, key, from + 1);
      var r := FirstKeyFrom(words, key, from);
      assert r == FirstKeyFrom(words, key, from + 1);
      var stop := if r.Some? then r.value else |words|;
      forall j | from <= j < stop ensures Normalize(words[j].word) != key {
        if j == from {
        } else {
          assert from + 1 <= j < stop;
        }
      }
    }
  }

  /** Python's `_get_row(word)`: the first record matching the query, or none
      for an empty query or an unknown word. */
  function FindRow(words: seq<WordRecord>, query: string): (r: Option<nat>)
    ensures r.Some? ==> IsFirstMatch(words, query, r.value)
    ensures r.None? <==> !Known(words, query)
  {
    if query == "" then None
    else
      var r := FirstKeyFrom(words, Normalize(query), 0);
      FirstKeyFromFinds(words, Normalize(query), 0);
      assert r.Some? ==> SameWord(words[r.value].word, query);
      assert r.None? ==> forall j :: 0 <= j < |words| ==> !SameWord(words[j].word, query);
      r
  }

  /** The three hint kinds and their text fields. */
  datatype Field = Definition | Origin | Sentence

  function FieldOf(r: WordRecord, f: Field): string {
    match f
    case Definition => r.definition
    case Origin => r.origin
    case Sentence => r.sentence
  }

  /** The fixed reply when a hint is not available. */
  function Placeholder(f: Field): (p: string)
    ensures p != ""
  {
    match f
    case Definition => "No definition found."
    case Origin => "No origin found."
    case Sentence => "No example available."
  }

  /** `get_definition` / `get_origin` / `get_sentence`: the field of the
      matching record if it is non-empty, the placeholder otherwise. Never
      empty, and the field is only returned when it is non-empty. */
  function Hint(words: seq<WordRecord>, query: string, f: Field): (h: string)
    ensures h != ""
    ensures h == Placeholder(f) || exists k :: 0 <= k < |words| && h == FieldOf(words[k], f)
  {
    match FindRow(words, query)
    case Some(k) => if FieldOf(words[k], f) != "" then FieldOf(words[k], f) else Placeholder(f)
    case None => Placeholder(f)
  }

  /** A hint for a known word is taken from the first matching record. */
  lemma HintOfKnownWord(words: seq<WordRecord>, query: string, k: nat, f: Field)
    requires IsFirstMatch(words, query, k)
    ensures Hint(words, query, f) == (if FieldOf(words[k], f) != "" then FieldOf(words[k], f) else Placeholder(f))
  {
    assert Known(words, query);
    var r := FindRow(words, query);
    assert IsFirstMatch(words, query, r.value);
  }

  /** An empty query or an unknown word gets the placeholder. */
  lemma HintOfUnknownWord(words: seq<WordRecord>, query: string, f: Field)
    requires !Known(words, query)
    ensures Hint(words, query, f) == Placeholder(f)
  {}
}

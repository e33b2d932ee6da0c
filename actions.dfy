/** The quiz session state and the seven actions registered with the
    interpreter, as functions from the state before a call to the reply and
    the state after it. The class Tutor.Quiz runs them in place. */
module Actions {
  import opened Options
  import opened Text
  import opened Catalog

  /** Words per round. */
  const RoundSize := 5

  /** The process-wide `state` record: catalog cursor, words served this
      round, the word under test (None before the first advance) and the
      number of correct attempts. */
  datatype Session = Session(index: nat, inRound: nat, current: Option<string>, correct: nat)

  /** The state at process start. */
  const Initial := Session(0, 0, None, 0)

  /** The round is over: five words served, or the catalog used up. */
  predicate Exhausted(words: seq<WordRecord>, s: Session) {
    s.inRound >= RoundSize || s.index >= |words|
  }

  /** What every reachable state satisfies. The cursor and the round counter
      move together (the counter is never reset), neither passes its bound,
      and the current word is the last one served. */
  ghost predicate Inv(words: seq<WordRecord>, s: Session) {
    && s.inRound == s.index
    && s.index <= |words|
    && s.inRound <= RoundSize
    && s.current == (if s.index == 0 then None else Some(words[s.index - 1].word))
  }

  /** `get_next_word`: the next catalog word and the state that has served
      it, or "" and the unchanged state once the round is over. */
  function NextWord(words: seq<WordRecord>, s: Session): (string, Session) {
    if Exhausted(words, s) then ("", s)
    else
      var w := words[s.index].word;
      (w, s.(current := Some(w), index := s.index + 1, inRound := s.inRound + 1))
  }

  /** `get_current`: the current word, "" when there is none. */
  function Current(s: Session): string {
    match s.current
    case Some(w) => w
    case None => ""
  }

  /** `check_spelling(word, attempt)`: the verdict, and the state with one
      more correct answer when the verdict is true. */
  function CheckSpelling(s: Session, word: string, attempt: string): (bool, Session) {
    var ok := SameWord(attempt, word);
    (ok, if ok then s.(correct := s.correct + 1) else s)
  }

  /** The verdict as the action returns it to its caller. */
  function Verdict(ok: bool): string {
    if ok then "true" else "false"
  }

  /** `get_progress`: "Score this round: <correct>/<inRound>." */
  function Progress(s: Session): string {
    "Score this round: " + NatToString(s.correct) + "/" + NatToString(s.inRound) + "."
  }

  /** The progress text names the score and the round count: two states
      with the same text agree on both. */
  lemma ProgressShowsScore(s: Session, t: Session)
    ensures Progress(s) == Progress(t) <==> s.correct == t.correct && s.inRound == t.inRound
  {
    if Progress(s) == Progress(t) {
      var a, b := NatToString(s.correct), NatToString(s.inRound);
      var c, d := NatToString(t.correct), NatToString(t.inRound);
      ProgressParts(a, b);
      ProgressParts(c, d);
      DigitsThenSeparator(a, b + ".", c, d + ".", '/');
      assert b == (b + ".")[..|b|];
      assert d == (d + ".")[..|d|];
    }
  }

  /** The progress text for numerals a and b, with its fixed head removed. */
  lemma ProgressParts(a: string, b: string)
    ensures var p := "Score this round: ";
      (p + a + "/" + b + ".")[|p|..] == a + ['/'] + (b + ".")
  {
    var p := "Score this round: ";
    assert p + a + "/" + b + "." == p + (a + ['/'] + (b + "."));
  }

  /** One call of a registered action, with its arguments. */
  datatype ActionCall =
    | GetNextWord
    | GetCurrent
    | Check(word: string, attempt: string)
    | GetDefinition(query: string)
    | GetOrigin(query: string)
    | GetSentence(query: string)
    | GetProgress

  /** The reply of one action call and the state after it. */
  function Perform(words: seq<WordRecord>, s: Session, call: ActionCall): (string, Session) {
    match call
    case GetNextWord => NextWord(words, s)
    case GetCurrent => (Current(s), s)
    case Check(word, attempt) =>
      var (ok, s') := CheckSpelling(s, word, attempt);
      (Verdict(ok), s')
    case GetDefinition(q) => (Hint(words, q, Definition), s)
    case GetOrigin(q) => (Hint(words, q, Origin), s)
    case GetSentence(q) => (Hint(words, q, Sentence), s)
    case GetProgress => (Progress(s), s)
  }

  /** The state after a sequence of action calls. */
  function PerformAll(words: seq<WordRecord>, s: Session, calls: seq<ActionCall>): Session
    decreases calls
  {
    if calls == [] then s else PerformAll(words, Perform(words, s, calls[0]).1, calls[1..])
  }

  /** The words returned by n successive `get_next_word` calls. */
  function Serve(words: seq<WordRecord>, s: Session, n: nat): seq<string>
    decreases n
  {
    if n == 0 then []
    else
      var (w, s') := NextWord(words, s);
      [w] + Serve(words, s', n - 1)
  }

  /** The words of the catalog, in catalog order. */
  function Titles(words: seq<WordRecord>): (ts: seq<string>)
    ensures |ts| == |words|
    ensures forall k :: 0 <= k < |words| ==> ts[k] == words[k].word
  {
    seq(|words|, k requires 0 <= k < |words| => words[k].word)
  }

  /** n empty strings. */
  function Blanks(n: nat): (bs: seq<string>)
    ensures |bs| == n && forall k :: 0 <= k < n ==> bs[k] == ""
  {
    seq(n, _ => "")
  }

  function Min(a: int, b: int): int {
    if a <= b then a else b
  }

  // ---------------------------------------------------------------------
  // get_next_word
  // ---------------------------------------------------------------------

  /** Once the round is over, get_next_word returns "" and leaves the state
      as it is, so every further call does the same. */
  lemma {:induction false} ExhaustedStaysExhausted(words: seq<WordRecord>, s: Session, n: nat)
    requires Exhausted(words, s)
    ensures NextWord(words, s) == ("", s)
    ensures Serve(words, s, n) == Blanks(n)
  {
    if n > 0 {
      ExhaustedStaysExhausted(words, s, n - 1);
      assert Serve(words, s, n) == [""] + Blanks(n - 1);
    }
  }

  /** Before the round is over, get_next_word serves the word under the
      cursor, makes it current, moves cursor and round counter on by one and
      leaves the score alone. */
  lemma NextWordAdvances(words: seq<WordRecord>, s: Session)
    requires !Exhausted(words, s)
    ensures var (w, s') := NextWord(words, s);
      && w == words[s.index].word && s'.current == Some(w)
      && s'.index == s.index + 1 && s'.inRound == s.inRound + 1 && s'.correct == s.correct
  {}

  /** get_next_word keeps the state invariant: the bounds hold and the cursor
      never moves back. */
  lemma NextWordKeepsInv(words: seq<WordRecord>, s: Session)
    requires Inv(words, s)
    ensures Inv(words, NextWord(words, s).1)
    ensures NextWord(words, s).1.index >= s.index
  {}

  /** In a reachable state get_current returns the word served last, or ""
      before the first advance. */
  lemma CurrentIsLastServed(words: seq<WordRecord>, s: Session)
    requires Inv(words, s)
    ensures Current(s) == (if s.index == 0 then "" else words[s.index - 1].word)
  {}

  /** From a reachable state, n calls of get_next_word serve the next words of
      the catalog in order -- no more than the round and the catalog have
      left -- and "" for every further call. */
  lemma {:induction false} ServeInOrder(words: seq<WordRecord>, s: Session, n: nat)
    requires Inv(words, s)
    ensures var m := Min(n, Min(RoundSize, |words|) - s.index);
      Serve(words, s, n) == Titles(words)[s.index..s.index + m] + Blanks(n - m)
    decreases n
  {
    if n == 0 {
    } else if Exhausted(words, s) {
      ServeWhenExhausted(words, s, n);
    } else {
      var s' := NextWord(words, s).1;
      ServeInOrder(words, s', n - 1);
      ServeOneMore(words, s, n);
    }
  }

  /** The exhausted case of ServeInOrder: nothing is left to serve. */
  lemma ServeWhenExhausted(words: seq<WordRecord>, s: Session, n: nat)
    requires Inv(words, s) && Exhausted(words, s)
    ensures var m := Min(n, Min(RoundSize, |words|) - s.index);
      Serve(words, s, n) == Titles(words)[s.index..s.index + m] + Blanks(n - m)
  {
    var m := Min(n, Min(RoundSize, |words|) - s.index);
    ExhaustedStaysExhausted(words, s, n);
    assert m == 0;
    assert Titles(words)[s.index..s.index] == [];
    assert [] + Blanks(n) == Blanks(n);
  }

  /** The step case of ServeInOrder: the word under the cursor comes first,
      then what the advanced state serves. */
  lemma ServeOneMore(words: seq<WordRecord>, s: Session, n: nat)
    requires Inv(words, s) && !Exhausted(words, s) && n > 0
    requires var s' := NextWord(words, s).1;
      var m' := Min(n - 1, Min(RoundSize, |words|) - s'.index);
      Serve(words, s', n - 1) == Titles(words)[s'.index..s'.index + m'] + Blanks(n - 1 - m')
    ensures var m := Min(n, Min(RoundSize, |words|) - s.index);
      Serve(words, s, n) == Titles(words)[s.index..s.index + m] + Blanks(n - m)
  {
    var m := Min(n, Min(RoundSize, |words|) - s.index);
    var (w, s') := NextWord(words, s);
    var ts, i := Titles(words), s.index;
    assert m >= 1 && s'.index == i + 1 && ts[i] == w;
    assert Min(n - 1, Min(RoundSize, |words|) - s'.index) == m - 1;
    assert Serve(words, s', n - 1) == ts[i + 1..i + m] + Blanks(n - m);
    SliceFront(ts, i, m, Blanks(n - m));
    assert Serve(words, s, n) == [w] + Serve(words, s', n - 1);
  }

  /** A non-empty slice followed by b is its first element, then the rest of
      the slice followed by b. */
  lemma SliceFront(ts: seq<string>, i: nat, m: nat, b: seq<string>)
    requires 1 <= m && i + m <= |ts|
    ensures ts[i..i + m] + b == [ts[i]] + (ts[i + 1..i + m] + b)
  {
    assert ts[i..i + m] == [ts[i]] + ts[i + 1..i + m];
  }

  /** A fresh session serves the catalog's first min(n, 5, |words|) words. */
  lemma FirstRoundServesCatalogPrefix(words: seq<WordRecord>, n: nat)
    ensures var m := Min(n, Min(RoundSize, |words|));
      Serve(words, Initial, n) == Titles(words)[..m] + Blanks(n - m)
  {
    ServeInOrder(words, Initial, n);
  }

  // ---------------------------------------------------------------------
  // check_spelling
  // ---------------------------------------------------------------------

  /** check_spelling answers true exactly when attempt and word agree once
      both are stripped and lower-cased; the score goes up by one exactly
      then, and nothing else in the state ever changes. */
  lemma CheckSpellingCounts(s: Session, word: string, attempt: string)
    ensures var (ok, s') := CheckSpelling(s, word, attempt);
      && (ok <==> Normalize(attempt) == Normalize(word))
      && s'.correct == (if ok then s.correct + 1 else s.correct)
      && s'.index == s.index && s'.inRound == s.inRound && s'.current == s.current
  {}

  /** check_spelling keeps the state invariant and never lowers the score. */
  lemma CheckSpellingKeepsInv(words: seq<WordRecord>, s: Session, word: string, attempt: string)
    requires Inv(words, s)
    ensures var s' := CheckSpelling(s, word, attempt).1;
      && Inv(words, s') && s'.index == s.index && s'.inRound == s.inRound && s'.correct >= s.correct
  {
    var ok := SameWord(attempt, word);
    if ok {
      assert CheckSpelling(s, word, attempt).1 == s.(correct := s.correct + 1);
    } else {
      assert CheckSpelling(s, word, attempt).1 == s;
    }
  }

  lemma StripExample()
    ensures Strip(" beautiful ") == "beautiful"
  {
    assert " beautiful "[1..] == "beautiful ";
    assert LeadingSpace("beautiful ") == 0;
    assert LeadingSpace(" beautiful ") == 1;
    assert "beautiful "[..9] == "beautiful";
    assert TrailingSpace("beautiful") == 0;
    assert TrailingSpace("beautiful ") == 1;
  }

  lemma LowerExample()
    ensures Lower("Beautiful") == "beautiful" && Lower("beautiful") == "beautiful"
  {}

  /** The comparison ignores case and surrounding whitespace ... */
  lemma CheckSpellingIgnoresCaseAndSpace(s: Session)
    ensures CheckSpelling(s, "Beautiful", " beautiful ").0
  {
    StripExample();
    StripOfTrimmed("Beautiful");
    LowerExample();
  }

  /** ... but a misspelling is rejected. */
  lemma CheckSpellingRejectsMisspelling(s: Session)
    ensures !CheckSpelling(s, "beautiful", "beatiful").0
  {
    StripOfTrimmed("beautiful");
    StripOfTrimmed("beatiful");
    assert |Normalize("beatiful")| != |Normalize("beautiful")|;
  }

  // ---------------------------------------------------------------------
  // The action set as a whole
  // ---------------------------------------------------------------------

  /** The read-only actions leave the state unchanged. */
  lemma ReadOnlyActions(words: seq<WordRecord>, s: Session, call: ActionCall)
    requires !call.GetNextWord? && !call.Check?
    ensures Perform(words, s, call).1 == s
  {}

  /** Whatever actions the interpreter calls, in whatever order, the state
      stays reachable and the cursor, the round counter and the score never
      go down. */
  lemma {:induction false} ActionsKeepInv(words: seq<WordRecord>, s: Session, calls: seq<ActionCall>)
    requires Inv(words, s)
    ensures var s' := PerformAll(words, s, calls);
      && Inv(words, s')
      && s'.index >= s.index && s'.inRound >= s.inRound && s'.correct >= s.correct
    decreases calls
  {
    if calls != [] {
      var s1 := Perform(words, s, calls[0]).1;
      PerformKeepsInv(words, s, calls[0]);
      ActionsKeepInv(words, s1, calls[1..]);
    }
  }

  /** One action call keeps the state reachable and lowers no counter. */
  lemma PerformKeepsInv(words: seq<WordRecord>, s: Session, call: ActionCall)
    requires Inv(words, s)
    ensures var s' := Perform(words, s, call).1;
      && Inv(words, s')
      && s'.index >= s.index && s'.inRound >= s.inRound && s'.correct >= s.correct
  {
    match call
    case GetNextWord => NextWordKeepsInv(words, s);
    case Check(word, attempt) => CheckSpellingKeepsInv(words, s, word, attempt);
    case _ => ReadOnlyActions(words, s, call);
  }
}

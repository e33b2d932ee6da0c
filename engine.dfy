/** The deterministic local engine (`run_local_engine`) and one turn of the
    session loop: which reply is shown, the state after it, and whether the
    loop ends. */
module Engine {
  import opened Options
  import opened Text
  import opened Catalog
  import opened Actions
  import opened Responses

  // ---------------------------------------------------------------------
  // Reply texts
  // ---------------------------------------------------------------------

  /** The two phrases the session loop watches for. */
  const RoundComplete := "Round complete"
  const StoppingQuiz := "Stopping the quiz"

  const StartBanner := "Okay! We'll do 5 words this round, " + "hardest to easiest. " + "Ready?\n" + "Spell this word: "
  const NextWordLabel := "Next word: "
  const CorrectMark := "\U{2705} Correct!\n"
  const RetryPrompt := "\U{274C} Not quite. Try again " + "or ask for definition/origin/sentence."

  /** "Round complete. <progress>" */
  function RoundOver(s: Session): string {
    RoundComplete + ". " + Progress(s)
  }

  /** "Stopping the quiz. <progress>" */
  function Stopping(s: Session): string {
    StoppingQuiz + ". " + Progress(s)
  }

  function HintLabel(f: Field): string {
    match f
    case Definition => "Definition: "
    case Origin => "Origin: "
    case Sentence => "Example: "
  }

  // ---------------------------------------------------------------------
  // Dispatch
  // ---------------------------------------------------------------------

  const StartWords := ["start", "start quiz", "begin", "quiz me"]
  const StopWords := ["stop", "end", "finish"]

  /** What the local engine makes of an input, tried in this order. */
  datatype Command = Begin | AskHint(field: Field) | Skip | Quit | Attempt

  function Classify(user: string): Command {
    var u := Normalize(user);
    if u in StartWords then Begin
    else if u == "definition" then AskHint(Definition)
    else if u == "origin" then AskHint(Origin)
    else if u == "sentence" then AskHint(Sentence)
    else if u == "next" then Skip
    else if u in StopWords then Quit
    else Attempt
  }

  /** `run_local_engine(user)`: the reply and the state after it. */
  function LocalEngine(words: seq<WordRecord>, s: Session, user: string): (string, Session) {
    match Classify(user)
    case Begin => AdvanceWith(words, s, StartBanner)
    case AskHint(f) => (HintLabel(f) + Hint(words, Current(s), f), s)
    case Skip => AdvanceWith(words, s, NextWordLabel)
    case Quit => (Stopping(s), s)
    case Attempt => Judge(words, s, user)
  }

  /** Serve the next word and announce it after `intro`, or report the round
      complete when get_next_word returns "". */
  function AdvanceWith(words: seq<WordRecord>, s: Session, intro: string): (string, Session) {
    var (w, s1) := NextWord(words, s);
    if w == "" then (RoundOver(s1), s1) else (intro + w, s1)
  }

  /** The spelling-attempt branch: serve a word first if none is current,
      then judge the attempt against the current word. */
  function Judge(words: seq<WordRecord>, s: Session, user: string): (string, Session) {
    var c := Current(s);
    var (w, s1) := if c == "" then NextWord(words, s) else (c, s);
    if w == "" then (RoundOver(s1), s1)
    else
      var (ok, s2) := CheckSpelling(s1, w, user);
      if ok then
        var (reply, s3) := AdvanceWith(words, s2, NextWordLabel);
        (CorrectMark + reply, s3)
      else (RetryPrompt, s2)
  }

  // ---------------------------------------------------------------------
  // One turn of the session loop
  // ---------------------------------------------------------------------

  /** What the interpreter did with one input: the actions it called, in
      order, and its response (None when `rails.generate` raised). */
  datatype Delegation = Delegation(calls: seq<ActionCall>, response: Option<Json>)

  /** How the loop goes on after printing a reply. Crash: the substring test
      on a number or a bool raises TypeError, which nothing catches. */
  datatype Exit = Continue | Stop | Crash

  datatype Outcome =
    | Skipped
    | Replied(reply: Json, after: Session, exit: Exit)

  /** `tutor_text` after the try block: the extracted text, or "" when the
      interpreter or the extraction raised. */
  function DelegatedText(d: Delegation): Json {
    match d.response
    case None => Str("")
    case Some(resp) =>
      match Extract(resp)
      case Some(v) => v
      case None => Str("")
  }

  /** `("Round complete" in t) or ("Stopping the quiz" in t)` for whatever
      value t the reply is; Stops below for a string. */
  function ExitAfter(reply: Json): Exit {
    match reply
    case Str(t) => if Stops(t) then Stop else Continue
    case Arr(items) => if Str(RoundComplete) in items || Str(StoppingQuiz) in items then Stop else Continue
    case Obj(fields) => if RoundComplete in fields || StoppingQuiz in fields then Stop else Continue
    case _ => Crash
  }

  /** One iteration of the `while True` loop for the raw input line. */
  function Step(words: seq<WordRecord>, s: Session, line: string, d: Delegation): Outcome {
    var user := Strip(line);
    if user == "" then Skipped
    else
      var s1 := PerformAll(words, s, d.calls);
      var delegated := DelegatedText(d);
      if Truthy(delegated) then Replied(delegated, s1, ExitAfter(delegated))
      else
        var (text, s2) := LocalEngine(words, s1, user);
        Replied(Str(text), s2, ExitAfter(Str(text)))
  }

  /** One input line and what the interpreter did with it. */
  datatype Turn = Turn(line: string, delegation: Delegation)

  /** The replies printed, the final state and how the loop ended; Continue
      when the input ran out first. */
  datatype Transcript = Transcript(replies: seq<Json>, final: Session, exit: Exit)

  /** The session loop over a sequence of turns. */
  function Run(words: seq<WordRecord>, s: Session, turns: seq<Turn>): Transcript
    decreases turns
  {
    if turns == [] then Transcript([], s, Continue)
    else
      match Step(words, s, turns[0].line, turns[0].delegation)
      case Skipped => Run(words, s, turns[1..])
      case Replied(reply, s1, exit) =>
        if exit == Continue then
          var rest := Run(words, s1, turns[1..]);
          Transcript([reply] + rest.replies, rest.final, rest.exit)
        else Transcript([reply], s1, exit)
  }

  // ---------------------------------------------------------------------
  // Dispatch and state changes of the local engine
  // ---------------------------------------------------------------------

  /** The engine reads its input stripped and lower-cased: re-normalising
      changes nothing. */
  lemma ClassifyIgnoresCaseAndSpace(user: string)
    ensures Classify(Normalize(user)) == Classify(user)
  {
    NormalizeIdempotent(user);
  }

  /** Hint requests and stop commands never change the state; they answer with
      the hint for the current word, or with the score. */
  lemma ReadOnlyCommands(words: seq<WordRecord>, s: Session, user: string)
    requires Classify(user).AskHint? || Classify(user) == Quit
    ensures LocalEngine(words, s, user).1 == s
    ensures Classify(user).AskHint? ==>
      LocalEngine(words, s, user).0 == HintLabel(Classify(user).field) + Hint(words, Current(s), Classify(user).field)
    ensures Classify(user) == Quit ==> LocalEngine(words, s, user).0 == StoppingQuiz + ". " + Progress(s)
  {}

  /** Start and next change the state only through one get_next_word call,
      and report the round complete exactly when it returns "". */
  lemma AdvancingCommands(words: seq<WordRecord>, s: Session, user: string)
    requires Classify(user) == Begin || Classify(user) == Skip
    ensures var (w, s1) := NextWord(words, s);
      var (reply, s') := LocalEngine(words, s, user);
      && s' == s1
      && (w == "" ==> reply == RoundComplete + ". " + Progress(s1))
      && (w != "" && Classify(user) == Begin ==> reply == StartBanner + w)
      && (w != "" && Classify(user) == Skip ==> reply == NextWordLabel + w)
  {}

  /** A wrong attempt at the current word gets the retry prompt and changes
      nothing. */
  lemma WrongAttempt(words: seq<WordRecord>, s: Session, user: string)
    requires Classify(user) == Attempt && Current(s) != "" && !SameWord(user, Current(s))
    ensures LocalEngine(words, s, user) == (RetryPrompt, s)
  {
    var c := Current(s);
    assert CheckSpelling(s, c, user) == (false, s);
    assert Judge(words, s, user) == (RetryPrompt, s);
  }

  /** A right attempt at the current word scores one, then advances once. */
  lemma RightAttempt(words: seq<WordRecord>, s: Session, user: string)
    requires Classify(user) == Attempt && Current(s) != "" && SameWord(user, Current(s))
    ensures var (n, s1) := NextWord(words, s.(correct := s.correct + 1));
      var (reply, s') := LocalEngine(words, s, user);
      && s' == s1
      && (n == "" ==> reply == CorrectMark + RoundOver(s1))
      && (n != "" ==> reply == CorrectMark + (NextWordLabel + n))
  {
    var c := Current(s);
    var s2 := s.(correct := s.correct + 1);
    assert CheckSpelling(s, c, user) == (true, s2);
    var (n, s3) := NextWord(words, s2);
    assert AdvanceWith(words, s2, NextWordLabel) == (if n == "" then RoundOver(s3) else NextWordLabel + n, s3);
    assert Judge(words, s, user) == (CorrectMark + AdvanceWith(words, s2, NextWordLabel).0, s3);
  }

  /** An attempt before any word is current first serves a word, and reports
      the round complete when there is none; otherwise it gets exactly the
      reply and new state of the same attempt at the word just served, which
      RightAttempt and WrongAttempt describe. */
  lemma AttemptBeforeStart(words: seq<WordRecord>, s: Session, user: string)
    requires Classify(user) == Attempt && Current(s) == ""
    ensures var (w, s1) := NextWord(words, s);
      && (w == "" ==> LocalEngine(words, s, user) == (RoundComplete + ". " + Progress(s1), s1))
      && (w != "" && !SameWord(user, w) ==> LocalEngine(words, s, user) == (RetryPrompt, s1))
      && (w != "" && SameWord(user, w) ==>
            LocalEngine(words, s, user).1 == NextWord(words, s1.(correct := s1.correct + 1)).1)
    ensures var (w, s1) := NextWord(words, s);
      w != "" ==> Current(s1) == w && LocalEngine(words, s, user) == LocalEngine(words, s1, user)
  {
    AttemptIsJudged(words, s, user);
    AttemptIsJudged(words, NextWord(words, s).1, user);
    JudgeBeforeStart(words, s, user);
  }

  /** Input that is no command is answered by the spelling-attempt branch. */
  lemma AttemptIsJudged(words: seq<WordRecord>, s: Session, user: string)
    requires Classify(user) == Attempt
    ensures LocalEngine(words, s, user) == Judge(words, s, user)
  {}

  /** The spelling-attempt branch when no word is current: AttemptBeforeStart
      stated on Judge. */
  lemma JudgeBeforeStart(words: seq<WordRecord>, s: Session, user: string)
    requires Current(s) == ""
    ensures var (w, s1) := NextWord(words, s);
      && (w == "" ==> Judge(words, s, user) == (RoundComplete + ". " + Progress(s1), s1))
      && (w != "" && !SameWord(user, w) ==> Judge(words, s, user) == (RetryPrompt, s1))
      && (w != "" && SameWord(user, w) ==>
            Judge(words, s, user).1 == NextWord(words, s1.(correct := s1.correct + 1)).1)
    ensures var (w, s1) := NextWord(words, s);
      w != "" ==> Current(s1) == w && Judge(words, s, user) == Judge(words, s1, user)
  {
    var (w, s1) := NextWord(words, s);
    if w == "" {
      assert Judge(words, s, user) == (RoundOver(s1), s1);
    } else {
      var (ok, s2) := CheckSpelling(s1, w, user);
      if ok {
        assert s2 == s1.(correct := s1.correct + 1);
        assert Judge(words, s, user).1 == AdvanceWith(words, s2, NextWordLabel).1;
      } else {
        assert s2 == s1;
        assert Judge(words, s, user) == (RetryPrompt, s1);
      }
    }
  }

  lemma AdvanceWithKeepsInv(words: seq<WordRecord>, s: Session, intro: string)
    requires Inv(words, s)
    ensures var s' := AdvanceWith(words, s, intro).1;
      && Inv(words, s') && s'.index >= s.index && s'.inRound >= s.inRound && s'.correct == s.correct
  {
    NextWordKeepsInv(words, s);
  }

  lemma JudgeKeepsInv(words: seq<WordRecord>, s: Session, user: string)
    requires Inv(words, s)
    ensures var s' := Judge(words, s, user).1;
      && Inv(words, s') && s'.index >= s.index && s'.inRound >= s.inRound && s'.correct >= s.correct
  {
    var c := Current(s);
    var (w, s1) := if c == "" then NextWord(words, s) else (c, s);
    NextWordKeepsInv(words, s);
    assert Inv(words, s1) && s1.index >= s.index && s1.inRound >= s.inRound && s1.correct == s.correct;
    if w == "" {
      assert Judge(words, s, user).1 == s1;
    } else {
      var (ok, s2) := CheckSpelling(s1, w, user);
      CheckSpellingKeepsInv(words, s1, w, user);
      if ok {
        AdvanceWithKeepsInv(words, s2, NextWordLabel);
        assert Judge(words, s, user).1 == AdvanceWith(words, s2, NextWordLabel).1;
      } else {
        assert Judge(words, s, user).1 == s2;
      }
    }
  }

  /** The local engine keeps the state invariant; cursor, round counter and
      score never go down. */
  lemma LocalEngineKeepsInv(words: seq<WordRecord>, s: Session, user: string)
    requires Inv(words, s)
    ensures var s' := LocalEngine(words, s, user).1;
      && Inv(words, s')
      && s'.index >= s.index && s'.inRound >= s.inRound && s'.correct >= s.correct
  {
    match Classify(user)
    case Begin => AdvanceWithKeepsInv(words, s, StartBanner);
    case AskHint(f) =>
    case Skip => AdvanceWithKeepsInv(words, s, NextWordLabel);
    case Quit =>
    case Attempt => JudgeKeepsInv(words, s, user);
  }

  /** The local engine always answers: "[no response]" is never printed for
      its replies. */
  lemma LocalEngineAnswers(words: seq<WordRecord>, s: Session, user: string)
    ensures LocalEngine(words, s, user).0 != ""
  {
    match Classify(user)
    case Begin =>
    case AskHint(f) => assert |HintLabel(f)| > 0;
    case Skip =>
    case Quit =>
    case Attempt =>
  }

  // ---------------------------------------------------------------------
  // When the loop stops
  // ---------------------------------------------------------------------

  /** The test at the end of each turn, for a string reply. A string it
      fails on is called plain below. */
  predicate Stops(t: string) {
    Contains(t, RoundComplete) || Contains(t, StoppingQuiz)
  }

  /** No catalog word is empty, and no catalog text mentions either phrase
      the loop watches for. */
  predicate PlainCatalog(words: seq<WordRecord>) {
    forall k :: 0 <= k < |words| ==>
      && words[k].word != ""
      && !Stops(words[k].word) && !Stops(words[k].definition)
      && !Stops(words[k].origin) && !Stops(words[k].sentence)
  }

  /** No occurrence of either phrase can start inside p. */
  predicate Quiet(p: string) {
    Guarded(p, RoundComplete) && Guarded(p, StoppingQuiz)
  }

  lemma QuietByAbsence(p: string)
    requires 'R' !in p && 'S' !in p
    ensures Quiet(p) && !Stops(p)
  {
    GuardedByAbsence(p, RoundComplete);
    GuardedByAbsence(p, StoppingQuiz);
    NotContainsWithoutHead(p, RoundComplete);
    NotContainsWithoutHead(p, StoppingQuiz);
  }

  lemma QuietConcat(p: string, q: string)
    requires Quiet(p) && Quiet(q)
    ensures Quiet(p + q)
  {
    GuardedConcat(p, q, RoundComplete);
    GuardedConcat(p, q, StoppingQuiz);
  }

  /** A quiet prefix glued onto a plain string leaves it plain. */
  lemma QuietThenPlain(p: string, t: string)
    requires Quiet(p) && !Stops(t)
    ensures !Stops(p + t)
  {
    NotContainsAfterGuard(p, t, RoundComplete);
    NotContainsAfterGuard(p, t, StoppingQuiz);
  }

  /** Whatever comes before a stopping reply, it still stops. */
  lemma StopsAfter(p: string, t: string)
    requires Stops(t)
    ensures Stops(p + t)
  {
    assert p + t + "" == p + t;
    if Contains(t, RoundComplete) {
      ContainsInfix(p, t, "", RoundComplete);
    } else {
      ContainsInfix(p, t, "", StoppingQuiz);
    }
  }

  lemma RoundOverStops(s: Session)
    ensures Stops(RoundOver(s))
  {
    ContainsItself(RoundComplete);
    ContainsInfix("", RoundComplete, ". " + Progress(s), RoundComplete);
    assert "" + RoundComplete + (". " + Progress(s)) == RoundOver(s);
  }

  lemma StoppingStops(s: Session)
    ensures Stops(Stopping(s))
  {
    ContainsItself(StoppingQuiz);
    ContainsInfix("", StoppingQuiz, ". " + Progress(s), StoppingQuiz);
    assert "" + StoppingQuiz + (". " + Progress(s)) == Stopping(s);
  }

  lemma ReadyQuiet()
    ensures Quiet("Ready?\n")
  {
    var r := "Ready?\n";
    assert 'S' !in r;
    GuardedByAbsence(r, StoppingQuiz);
    forall i | 0 <= i < |r| && r[i] == 'R' ensures i + 1 < |r| && r[i + 1] != 'o' {
      assert i == 0;
    }
  }

  lemma SpellQuiet()
    ensures Quiet("Spell this word: ")
  {
    var a, b := "Sp", "ell this word: ";
    assert 'R' !in a && 'S' !in b && 'R' !in b;
    GuardedByAbsence(a, RoundComplete);
    forall i | 0 <= i < |a| && a[i] == 'S' ensures i + 1 < |a| && a[i + 1] != 't' {
      assert i == 0;
    }
    QuietByAbsence(b);
    QuietConcat(a, b);
    assert a + b == "Spell this word: ";
  }

  lemma StartBannerQuiet()
    ensures Quiet(StartBanner)
  {
    var a, b := "Okay! We'll do 5 words this round, ", "hardest to easiest. ";
    QuietByAbsence(a);
    QuietByAbsence(b);
    ReadyQuiet();
    SpellQuiet();
    QuietConcat(a, b);
    QuietConcat(a + b, "Ready?\n");
    QuietConcat(a + b + "Ready?\n", "Spell this word: ");
  }

  lemma RetryPromptPlain()
    ensures !Stops(RetryPrompt)
  {
    var a, b := "\U{274C} Not quite. Try again ", "or ask for definition/origin/sentence.";
    assert 'R' !in a && 'S' !in a;
    assert 'R' !in b && 'S' !in b;
    QuietByAbsence(a);
    QuietByAbsence(b);
    QuietThenPlain(a, b);
  }

  lemma HintLabelsQuiet()
    ensures Quiet("Definition: ") && Quiet("Origin: ") && Quiet("Example: ")
  {
    QuietByAbsence("Definition: ");
    QuietByAbsence("Origin: ");
    QuietByAbsence("Example: ");
  }

  lemma FixedRepliesQuiet()
    ensures Quiet(NextWordLabel) && Quiet(CorrectMark) && Quiet("")
    ensures Quiet("Definition: ") && Quiet("Origin: ") && Quiet("Example: ")
    ensures !Stops(RetryPrompt)
  {
    QuietByAbsence(NextWordLabel);
    QuietByAbsence(CorrectMark);
    QuietByAbsence("");
    HintLabelsQuiet();
    RetryPromptPlain();
  }

  lemma PlaceholderPlain(f: Field)
    ensures !Stops(Placeholder(f))
  {
    QuietByAbsence(Placeholder(f));
  }

  /** With a plain catalog, get_next_word returns "" exactly when the round
      is over, and what it returns is plain. */
  lemma NextWordPlain(words: seq<WordRecord>, s: Session)
    requires PlainCatalog(words)
    ensures var w := NextWord(words, s).0;
      (w == "" <==> Exhausted(words, s)) && !Stops(w)
  {
    if !Exhausted(words, s) {
      assert !Stops(words[s.index].word);
    } else {
      QuietByAbsence("");
    }
  }

  /** Announcing the next word stops the loop exactly when there is none. */
  lemma AdvanceWithStopsIff(words: seq<WordRecord>, s: Session, p: string, intro: string)
    requires PlainCatalog(words) && Quiet(p) && Quiet(intro)
    ensures Stops(p + AdvanceWith(words, s, intro).0) <==> Exhausted(words, s)
  {
    var (w, s1) := NextWord(words, s);
    NextWordPlain(words, s);
    if w == "" {
      RoundOverStops(s1);
      StopsAfter(p, RoundOver(s1));
    } else {
      QuietConcat(p, intro);
      QuietThenPlain(p + intro, w);
      assert p + (intro + w) == p + intro + w;
    }
  }

  /** A hint reply never stops the loop. */
  lemma HintReplyPlain(words: seq<WordRecord>, query: string, f: Field)
    requires PlainCatalog(words)
    ensures !Stops(HintLabel(f) + Hint(words, query, f))
  {
    FixedRepliesQuiet();
    var h := Hint(words, query, f);
    if h == Placeholder(f) {
      PlaceholderPlain(f);
    } else {
      var k :| 0 <= k < |words| && h == FieldOf(words[k], f);
      assert !Stops(words[k].definition) && !Stops(words[k].origin) && !Stops(words[k].sentence);
    }
    QuietThenPlain(HintLabel(f), h);
  }

  /** The state in which an attempt is judged: a word is served first when
      none is current. */
  function Judged(words: seq<WordRecord>, s: Session): Session {
    if Current(s) == "" then NextWord(words, s).1 else s
  }

  /** When a local reply ends the quiz: on a stop command, or when a word is
      asked for and the round has none left -- on start, on next, when an
      attempt finds no word to judge, or after a right attempt at the round's
      last word. */
  ghost predicate EndsQuiz(words: seq<WordRecord>, s: Session, user: string) {
    match Classify(user)
    case Quit => true
    case AskHint(_) => false
    case Begin => Exhausted(words, s)
    case Skip => Exhausted(words, s)
    case Attempt =>
      var t := Judged(words, s);
      Current(t) == "" || (SameWord(user, Current(t)) && Exhausted(words, t))
  }

  lemma JudgeStopsIff(words: seq<WordRecord>, s: Session, user: string)
    requires PlainCatalog(words) && Classify(user) == Attempt
    ensures Stops(Judge(words, s, user).0) <==> EndsQuiz(words, s, user)
  {
    var c := Current(s);
    var (w, s1) := if c == "" then NextWord(words, s) else (c, s);
    NextWordPlain(words, s);
    assert s1 == Judged(words, s);
    if w == "" {
      RoundOverStops(s1);
    } else {
      assert Current(s1) == w;
      var (ok, s2) := CheckSpelling(s1, w, user);
      FixedRepliesQuiet();
      if ok {
        assert Exhausted(words, s2) == Exhausted(words, s1);
        AdvanceWithStopsIff(words, s2, CorrectMark, NextWordLabel);
      }
    }
  }

  /** With a plain catalog, a local reply ends the session loop exactly when
      EndsQuiz says so. */
  lemma LocalEngineStopsIff(words: seq<WordRecord>, s: Session, user: string)
    requires PlainCatalog(words)
    ensures Stops(LocalEngine(words, s, user).0) <==> EndsQuiz(words, s, user)
  {
    FixedRepliesQuiet();
    match Classify(user)
    case Begin =>
      StartBannerQuiet();
      AdvanceWithStopsIff(words, s, "", StartBanner);
      assert "" + AdvanceWith(words, s, StartBanner).0 == AdvanceWith(words, s, StartBanner).0;
    case AskHint(f) => HintReplyPlain(words, Current(s), f);
    case Skip =>
      AdvanceWithStopsIff(words, s, "", NextWordLabel);
      assert "" + AdvanceWith(words, s, NextWordLabel).0 == AdvanceWith(words, s, NextWordLabel).0;
    case Quit => StoppingStops(s);
    case Attempt => JudgeStopsIff(words, s, user);
  }

  // ---------------------------------------------------------------------
  // The score
  // ---------------------------------------------------------------------

  /** The score trails the words served, unless nothing was scored yet. */
  predicate ScoreBehind(s: Session) {
    s.correct < s.inRound || s.correct == 0
  }

  lemma JudgeScore(words: seq<WordRecord>, s: Session, user: string)
    requires Inv(words, s) && ScoreBehind(s)
    ensures var (reply, s') := Judge(words, s, user);
      s'.correct <= s'.inRound && (ScoreBehind(s') || Stops(reply))
  {
    var c := Current(s);
    var (w, s1) := if c == "" then NextWord(words, s) else (c, s);
    assert c != "" ==> s.index >= 1;
    assert s1.correct == s.correct && s1.inRound >= s.inRound;
    assert w != "" ==> s1.inRound >= 1;
    if w == "" {
      RoundOverStops(s1);
    } else {
      var (ok, s2) := CheckSpelling(s1, w, user);
      if ok {
        assert s2.correct <= s2.inRound;
        var (n, s3) := NextWord(words, s2);
        if n == "" {
          RoundOverStops(s3);
          StopsAfter(CorrectMark, RoundOver(s3));
        }
      }
    }
  }

  /** A local reply never lets the score overtake the words served, and the
      score catches up with them only on a reply that ends the quiz. */
  lemma LocalEngineScore(words: seq<WordRecord>, s: Session, user: string)
    requires Inv(words, s) && ScoreBehind(s)
    ensures var (reply, s') := LocalEngine(words, s, user);
      s'.correct <= s'.inRound && (ScoreBehind(s') || Stops(reply))
  {
    match Classify(user)
    case Begin => AdvanceWithKeepsInv(words, s, StartBanner);
    case AskHint(f) =>
    case Skip => AdvanceWithKeepsInv(words, s, NextWordLabel);
    case Quit =>
    case Attempt => JudgeScore(words, s, user);
  }

  // ---------------------------------------------------------------------
  // One turn
  // ---------------------------------------------------------------------

  /** A line that is blank once stripped is skipped: no reply and no state
      change. Any other line gets a reply. */
  lemma BlankLineSkipped(words: seq<WordRecord>, s: Session, line: string, d: Delegation)
    ensures Step(words, s, line, d).Skipped? <==> AllSpace(line)
  {
    StripEmptyIff(line);
  }

  /** The delegated reply is shown whenever the interpreter produced one;
      the local engine answers, from the state the interpreter's actions left,
      exactly when it did not (it failed, or nothing usable was extracted).
      Either way the loop's stop test is applied to the reply shown, and
      that reply is never empty. */
  lemma StepReconciles(words: seq<WordRecord>, s: Session, line: string, d: Delegation)
    requires !AllSpace(line)
    ensures var s1 := PerformAll(words, s, d.calls);
      var o := Step(words, s, line, d);
      var (text, s2) := LocalEngine(words, s1, Strip(line));
      && o.Replied?
      && (Truthy(DelegatedText(d)) ==> d.response.Some? && Extract(d.response.value) == Some(o.reply) && o.after == s1)
      && (!Truthy(DelegatedText(d)) ==> o.reply == Str(text) && o.after == s2)
      && o.exit == ExitAfter(o.reply)
      && Truthy(o.reply)
  {
    StripEmptyIff(line);
    LocalEngineAnswers(words, PerformAll(words, s, d.calls), Strip(line));
  }

  /** A truthy top-level `content` that is not a string, list or dict -- a
      number, say -- is shown, and then the stop test raises TypeError,
      which nothing catches. */
  lemma NumericContentCrashes(words: seq<WordRecord>, s: Session, line: string, calls: seq<ActionCall>, n: int)
    requires !AllSpace(line) && n != 0
    ensures var o := Step(words, s, line, Delegation(calls, Some(Obj(map["content" := Num(n)]))));
      o.Replied? && o.reply == Num(n) && o.exit == Crash
  {
    StripEmptyIff(line);
    ContentFirst(map["content" := Num(n)]);
  }

  /** A local reply is a string, so the stop test cannot raise; with a plain
      catalog the loop stops after it exactly when EndsQuiz says so. */
  lemma LocalReplyStopsIff(words: seq<WordRecord>, s: Session, line: string, d: Delegation)
    requires !AllSpace(line) && !Truthy(DelegatedText(d)) && PlainCatalog(words)
    ensures var o := Step(words, s, line, d);
      && o.Replied? && o.exit != Crash
      && (o.exit == Stop <==> EndsQuiz(words, PerformAll(words, s, d.calls), Strip(line)))
  {
    var user := Strip(line);
    StripEmptyIff(line);
    var s1 := PerformAll(words, s, d.calls);
    assert !Truthy(DelegatedText(d));
    var (text, s2) := LocalEngine(words, s1, user);
    assert Step(words, s, line, d) == Replied(Str(text), s2, ExitAfter(Str(text)));
    LocalEngineStopsIff(words, s1, user);
  }

  /** A turn keeps the state invariant whatever the interpreter did, and
      cursor, round counter and score never go down. */
  lemma StepKeepsInv(words: seq<WordRecord>, s: Session, line: string, d: Delegation)
    requires Inv(words, s)
    ensures var o := Step(words, s, line, d);
      o.Replied? ==>
        && Inv(words, o.after)
        && o.after.index >= s.index && o.after.inRound >= s.inRound && o.after.correct >= s.correct
  {
    var s1 := PerformAll(words, s, d.calls);
    ActionsKeepInv(words, s, d.calls);
    LocalEngineKeepsInv(words, s1, Strip(line));
  }

  // ---------------------------------------------------------------------
  // The session
  // ---------------------------------------------------------------------

  /** Every reachable state of the session satisfies the invariant, and
      cursor, round counter and score never go down over a session. */
  lemma {:induction false} RunKeepsInv(words: seq<WordRecord>, s: Session, turns: seq<Turn>)
    requires Inv(words, s)
    ensures var f := Run(words, s, turns).final;
      Inv(words, f) && f.index >= s.index && f.inRound >= s.inRound && f.correct >= s.correct
    decreases turns
  {
    if turns != [] {
      var o := Step(words, s, turns[0].line, turns[0].delegation);
      StepKeepsInv(words, s, turns[0].line, turns[0].delegation);
      if o.Replied? {
        RunKeepsInv(words, o.after, turns[1..]);
      } else {
        RunKeepsInv(words, s, turns[1..]);
      }
    }
  }

  /** At most one reply per input line; every reply but the last lets the
      loop go on, and the loop ends on the last reply exactly when the
      session did not simply run out of input. */
  lemma {:induction false} RunStopsOnce(words: seq<WordRecord>, s: Session, turns: seq<Turn>)
    ensures var t := Run(words, s, turns);
      && |t.replies| <= |turns|
      && (t.exit != Continue ==> t.replies != [])
      && forall k :: 0 <= k < |t.replies| ==>
           ExitAfter(t.replies[k]) == (if k == |t.replies| - 1 then t.exit else Continue)
    decreases turns
  {
    if turns != [] {
      var t := Run(words, s, turns);
      var o := Step(words, s, turns[0].line, turns[0].delegation);
      if o.Skipped? {
        RunStopsOnce(words, s, turns[1..]);
        assert t == Run(words, s, turns[1..]);
      } else if o.exit == Continue {
        assert o.exit == ExitAfter(o.reply);
        RunStopsOnce(words, o.after, turns[1..]);
        var rest := Run(words, o.after, turns[1..]);
        assert t == Transcript([o.reply] + rest.replies, rest.final, rest.exit);
        forall k | 0 <= k < |t.replies|
          ensures ExitAfter(t.replies[k]) == (if k == |t.replies| - 1 then t.exit else Continue)
        {
          if k > 0 {
            assert t.replies[k] == rest.replies[k - 1];
          }
        }
      } else {
        assert o.exit == ExitAfter(o.reply);
        assert t == Transcript([o.reply], o.after, o.exit);
      }
    }
  }

  /** One step of the session loop: a skipped line adds nothing, a reply
      that stops the loop is the last, and any other reply is followed by
      the rest of the session. */
  lemma RunUnfolds(words: seq<WordRecord>, s: Session, turns: seq<Turn>)
    requires turns != []
    ensures var o := Step(words, s, turns[0].line, turns[0].delegation);
      var t := Run(words, s, turns);
      && (o.Skipped? ==> t == Run(words, s, turns[1..]))
      && (o.Replied? && o.exit != Continue ==> t == Transcript([o.reply], o.after, o.exit))
      && (o.Replied? && o.exit == Continue ==>
            var rest := Run(words, o.after, turns[1..]);
            t == Transcript([o.reply] + rest.replies, rest.final, rest.exit))
  {}

  /** The interpreter is unavailable for the turn: no action calls and
      `rails.generate` raises, so the local engine answers. */
  predicate Offline(turn: Turn) {
    turn.delegation.calls == [] && turn.delegation.response == None
  }

  /** A session answered by the local engine alone never scores more than
      the words it served. */
  lemma {:induction false} OfflineScoreBound(words: seq<WordRecord>, s: Session, turns: seq<Turn>)
    requires Inv(words, s) && ScoreBehind(s)
    requires forall k :: 0 <= k < |turns| ==> Offline(turns[k])
    ensures var f := Run(words, s, turns).final; f.correct <= f.inRound
    decreases turns
  {
    if turns != [] {
      var t := Run(words, s, turns);
      var rest := turns[1..];
      assert Offline(turns[0]);
      var o := Step(words, s, turns[0].line, turns[0].delegation);
      assert forall k :: 0 <= k < |rest| ==> Offline(rest[k]) by {
        forall k | 0 <= k < |rest| ensures Offline(rest[k]) {
          assert rest[k] == turns[k + 1];
        }
      }
      if o.Skipped? {
        OfflineScoreBound(words, s, rest);
        assert t == Run(words, s, rest);
      } else {
        OfflineStep(words, s, turns[0].line, turns[0].delegation);
        if o.exit == Continue {
          OfflineScoreBound(words, o.after, rest);
          assert t.final == Run(words, o.after, rest).final;
        } else {
          assert t.final == o.after;
        }
      }
    }
  }

  /** One turn answered by the local engine alone keeps the score behind the
      words served unless the reply ends the session. */
  lemma OfflineStep(words: seq<WordRecord>, s: Session, line: string, d: Delegation)
    requires Inv(words, s) && ScoreBehind(s)
    requires d.calls == [] && d.response == None
    ensures var o := Step(words, s, line, d);
      o.Replied? ==>
        && Inv(words, o.after) && o.after.correct <= o.after.inRound
        && (o.exit == Continue ==> ScoreBehind(o.after))
  {
    var o := Step(words, s, line, d);
    if o.Replied? {
      var user := Strip(line);
      assert PerformAll(words, s, d.calls) == s;
      assert !Truthy(DelegatedText(d));
      LocalEngineScore(words, s, user);
      LocalEngineKeepsInv(words, s, user);
      var (text, s2) := LocalEngine(words, s, user);
      assert o == Replied(Str(text), s2, ExitAfter(Str(text)));
      if o.exit == Continue {
        assert !Stops(text);
      }
    }
  }
}

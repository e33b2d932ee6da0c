/** The tutor as the process runs it: the catalog loaded once, the `state`
    record updated in place by the actions, and the console loop feeding it
    one line at a time. Each method is proved against the functions of
    Actions, Responses and Engine, whose properties are proved there. */
module Tutor {
  import opened Options
  import opened Text
  import opened Catalog
  import opened Actions
  import opened Responses
  import opened Engine

  /** The transcript t with the replies rs printed before it. */
  function After(rs: seq<Json>, t: Transcript): Transcript {
    Transcript(rs + t.replies, t.final, t.exit)
  }

  /** Replies printed before replies printed before t. */
  lemma AfterAppend(rs: seq<Json>, r: Json, t: Transcript)
    ensures After(rs, After([r], t)) == After(rs + [r], t)
  {}

  class Quiz {
    /** The catalog, hardest word first. */
    const words: seq<WordRecord>
    /** The four fields of the `state` record. */
    var index: nat
    var inRound: nat
    var current: Option<string>
    var correct: nat

    /** The fields as a Session value. */
    function State(): Session
      reads this
    {
      Session(index, inRound, current, correct)
    }

    ghost predicate Valid()
      reads this
    {
      Inv(words, State())
    }

    /** Reads the catalog rows and starts with the initial state. */
    constructor (rows: seq<Row>)
      ensures words == Load(rows)
      ensures State() == Initial && Valid()
    {
      words := Load(rows);
      index, inRound, current, correct := 0, 0, None, 0;
    }

    // -------------------------------------------------------------------
    // The actions
    // -------------------------------------------------------------------

    method GetNextWord() returns (w: string)
      requires Valid()
      modifies this
      ensures (w, State()) == NextWord(words, old(State()))
      ensures Valid()
    {
      NextWordKeepsInv(words, State());
      if inRound >= RoundSize || index >= |words| {
        return "";
      }
      w := words[index].word;
      current := Some(w);
      index := index + 1;
      inRound := inRound + 1;
    }

    method GetCurrent() returns (c: string)
      ensures c == Current(State())
      ensures Valid() ==> c == (if index == 0 then "" else words[index - 1].word)
    {
      c := if current.Some? then current.value else "";
    }

    method CheckSpelling(word: string, attempt: string) returns (verdict: string)
      requires Valid()
      modifies this
      ensures var (ok, s') := Actions.CheckSpelling(old(State()), word, attempt);
        verdict == Verdict(ok) && State() == s'
      ensures Valid()
    {
      var ok := Normalize(attempt) == Normalize(word);
      if ok {
        correct := correct + 1;
      }
      verdict := if ok then "true" else "false";
    }

    /** `_get_row`: a linear scan for the first record matching the query. */
    method GetRow(query: string) returns (r: Option<nat>)
      ensures r == FindRow(words, query)
    {
      if query == "" {
        return None;
      }
      var key := Normalize(query);
      var i := 0;
      while i < |words|
        invariant 0 <= i <= |words|
        invariant FirstKeyFrom(words, key, 0) == FirstKeyFrom(words, key, i)
      {
        if Normalize(words[i].word) == key {
          return Some(i);
        }
        i := i + 1;
      }
      return None;
    }

    /** The body shared by the three hint actions. */
    method LookUp(query: string, f: Field) returns (h: string)
      ensures h == Hint(words, query, f)
    {
      var r := GetRow(query);
      if r.Some? && FieldOf(words[r.value], f) != "" {
        return FieldOf(words[r.value], f);
      }
      return Placeholder(f);
    }

    method GetDefinition(query: string) returns (h: string)
      ensures h == Hint(words, query, Definition)
    {
      h := LookUp(query, Definition);
    }

    method GetOrigin(query: string) returns (h: string)
      ensures h == Hint(words, query, Origin)
    {
      h := LookUp(query, Origin);
    }

    method GetSentence(query: string) returns (h: string)
      ensures h == Hint(words, query, Sentence)
    {
      h := LookUp(query, Sentence);
    }

    method GetProgress() returns (p: string)
      ensures p == Progress(State())
    {
      p := "Score this round: " + NatToString(correct) + "/" + NatToString(inRound) + ".";
    }

    // -------------------------------------------------------------------
    // The local engine
    // -------------------------------------------------------------------

    /** Serve the next word and announce it after `intro`, or report the
        round complete. */
    method Announce(intro: string) returns (reply: string)
      requires Valid()
      modifies this
      ensures (reply, State()) == AdvanceWith(words, old(State()), intro)
      ensures Valid()
    {
      var w := GetNextWord();
      if w == "" {
        var p := GetProgress();
        return RoundComplete + ". " + p;
      }
      return intro + w;
    }

    /** The spelling-attempt branch of `run_local_engine`. */
    method JudgeAttempt(user: string) returns (reply: string)
      requires Valid()
      modifies this
      ensures (reply, State()) == Judge(words, old(State()), user)
      ensures Valid()
    {
      var c := GetCurrent();
      if c == "" {
        var w := GetNextWord();
        if w == "" {
          var p := GetProgress();
          return RoundComplete + ". " + p;
        }
        c := w;
      }
      var ok := CheckSpelling(c, user);
      if ok == "true" {
        var next := Announce(NextWordLabel);
        return CorrectMark + next;
      }
      return RetryPrompt;
    }

    /** The hint branches of `run_local_engine`: the labelled hint for the
        current word. */
    method AnswerHint(f: Field) returns (reply: string)
      ensures reply == HintLabel(f) + Hint(words, Current(State()), f)
    {
      var c := GetCurrent();
      match f
      case Definition =>
        var d := GetDefinition(c);
        reply := "Definition: " + d;
      case Origin =>
        var o := GetOrigin(c);
        reply := "Origin: " + o;
      case Sentence =>
        var s := GetSentence(c);
        reply := "Example: " + s;
    }

    method RunLocalEngine(user: string) returns (reply: string)
      requires Valid()
      modifies this
      ensures (reply, State()) == LocalEngine(words, old(State()), user)
      ensures Valid()
    {
      var u := Normalize(user);
      ghost var command := Classify(user);
      ghost var s0 := State();
      ghost var expected := LocalEngine(words, s0, user);
      if u in StartWords {
        assert command == Begin;
        assert expected == AdvanceWith(words, s0, StartBanner);
        reply := Announce(StartBanner);
      } else if u == "definition" {
        assert command == AskHint(Definition);
        assert expected == (HintLabel(Definition) + Hint(words, Current(s0), Definition), s0);
        reply := AnswerHint(Definition);
      } else if u == "origin" {
        assert command == AskHint(Origin);
        assert expected == (HintLabel(Origin) + Hint(words, Current(s0), Origin), s0);
        reply := AnswerHint(Origin);
      } else if u == "sentence" {
        assert command == AskHint(Sentence);
        assert expected == (HintLabel(Sentence) + Hint(words, Current(s0), Sentence), s0);
        reply := AnswerHint(Sentence);
      } else if u == "next" {
        assert command == Skip;
        assert expected == AdvanceWith(words, s0, NextWordLabel);
        reply := Announce(NextWordLabel);
      } else if u in StopWords {
        assert command == Quit;
        assert expected == (Stopping(s0), s0);
        var p := GetProgress();
        reply := StoppingQuiz + ". " + p;
      } else {
        assert command == Attempt;
        AttemptIsJudged(words, s0, user);
        reply := JudgeAttempt(user);
      }
    }

    // -------------------------------------------------------------------
    // The interpreter's calls and the console loop
    // -------------------------------------------------------------------

    /** One registered action called by the interpreter. */
    method Perform(call: ActionCall) returns (reply: string)
      requires Valid()
      modifies this
      ensures (reply, State()) == Actions.Perform(words, old(State()), call)
      ensures Valid()
    {
      match call
      case GetNextWord => reply := GetNextWord();
      case GetCurrent => reply := GetCurrent();
      case Check(word, attempt) => reply := CheckSpelling(word, attempt);
      case GetDefinition(q) => reply := GetDefinition(q);
      case GetOrigin(q) => reply := GetOrigin(q);
      case GetSentence(q) => reply := GetSentence(q);
      case GetProgress => reply := GetProgress();
    }

    /** The interpreter's action calls for one input, in order. */
    method PerformAll(calls: seq<ActionCall>)
      requires Valid()
      modifies this
      ensures State() == Actions.PerformAll(words, old(State()), calls)
      ensures Valid()
    {
      var i := 0;
      while i < |calls|
        invariant 0 <= i <= |calls| && Valid()
        invariant Actions.PerformAll(words, old(State()), calls) == Actions.PerformAll(words, State(), calls[i..])
      {
        assert calls[i..][1..] == calls[i + 1..];
        var _ := Perform(calls[i]);
        i := i + 1;
      }
    }

    /** One iteration of the console loop for the raw input line. */
    method TakeTurn(line: string, d: Delegation) returns (o: Outcome)
      requires Valid()
      modifies this
      ensures o == Step(words, old(State()), line, d)
      ensures State() == (if o.Replied? then o.after else old(State()))
      ensures Valid()
    {
      var user := Strip(line);
      if user == "" {
        return Skipped;
      }
      PerformAll(d.calls);
      var tutorText := Str("");
      if d.response.Some? {
        var extracted := ExtractAssistantText(d.response.value);
        if extracted.Some? {
          tutorText := extracted.value;
        }
      }
      if !Truthy(tutorText) {
        var text := RunLocalEngine(user);
        tutorText := Str(text);
      }
      return Replied(tutorText, State(), ExitAfter(tutorText));
    }

    /** The console loop over the input lines until a reply ends it or the
        input runs out. */
    method RunSession(turns: seq<Turn>) returns (t: Transcript)
      requires Valid()
      modifies this
      ensures t == Run(words, old(State()), turns)
      ensures State() == t.final
      ensures Valid()
    {
      var replies: seq<Json> := [];
      var i := 0;
      while i < |turns|
        invariant 0 <= i <= |turns| && Valid()
        invariant Run(words, old(State()), turns) == After(replies, Run(words, State(), turns[i..]))
      {
        ghost var rest := turns[i..];
        assert rest[0] == turns[i] && rest[1..] == turns[i + 1..];
        RunUnfolds(words, State(), rest);
        var o := TakeTurn(turns[i].line, turns[i].delegation);
        if o.Replied? {
          if o.exit != Continue {
            return Transcript(replies + [o.reply], State(), o.exit);
          }
          AfterAppend(replies, o.reply, Run(words, State(), turns[i + 1..]));
          replies := replies + [o.reply];
        }
        i := i + 1;
      }
      return Transcript(replies, State(), Continue);
    }
  }
}

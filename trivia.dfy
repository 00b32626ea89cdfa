/** The `trivia` tool: a three-question quiz whose progress lives in a
    module-global table from session id to an {index, score} record.
    Every call uses the same session id, "default_session". */
module Trivia {
  import opened Wrappers
  import opened PyStr

  datatype Question = Question(q: string, options: seq<string>, answer: char)

  /** `TRIVIA_QUESTIONS`. */
  const Questions: seq<Question> := [
    Question("What is the capital of France?", ["A) Paris", "B) Berlin", "C) Madrid"], 'A'),
    Question("Who wrote '1984'?", ["A) Orwell", "B) Huxley", "C) Bradbury"], 'A'),
    Question("What is 7 * 8?", ["A) 54", "B) 56", "C) 58"], 'B')
  ]

  /** One entry of `trivia_sessions`: the question to ask next and the
      number of correct answers so far. */
  datatype Session = Session(index: nat, score: nat)

  type Table = map<string, Session>

  const SessionId: string := "default_session"
  const StartCommand: string := "trivia start"
  /** The literal part of the pattern `trivia answer ([abc])`. */
  const AnswerPrefix: string := "trivia answer "

  /** While a session exists it has answered `index` questions, got `score`
      of them right, and still has question `index` to ask. */
  predicate SessionValid(s: Session) {
    s.score <= s.index < |Questions|
  }

  predicate TableValid(t: Table) {
    forall k :: k in t ==> SessionValid(t[k])
  }

  // ------------------------------------------------------------ parsing

  /** `command.strip().lower()`. */
  function Normalize(command: string): string {
    Lower(Strip(command))
  }

  /** `re.match(r"trivia answer ([abc])", c)`: the match is anchored at the
      start of `c` only, so anything may follow the letter.  The result is
      the captured group. */
  function MatchAnswer(c: string): (m: Option<char>)
    ensures m.Some? ==> |c| > |AnswerPrefix| && m.value in "abc" && c == AnswerPrefix + [m.value] + c[|AnswerPrefix| + 1..]
  {
    if StartsWith(c, AnswerPrefix) && |c| > |AnswerPrefix| && c[|AnswerPrefix|] in "abc"
    then Some(c[|AnswerPrefix|])
    else None
  }

  /** The converse: every string that starts with the pattern matches it,
      whatever follows ("trivia answer bxyz" answers B). */
  lemma MatchAnswerPrefix(letter: char, rest: string)
    requires letter in "abc"
    ensures MatchAnswer(AnswerPrefix + [letter] + rest) == Some(letter)
  {
    var c := AnswerPrefix + [letter] + rest;
    assert c[..|AnswerPrefix|] == AnswerPrefix;
  }

  datatype Command = Start | Answer(letter: char) | Invalid

  /** What a normalised command means: `trivia start` is tested first, then
      the answer pattern; an answer letter is upper-cased. */
  function Interpret(c: string): (cmd: Command)
    ensures cmd.Answer? ==> cmd.letter in "ABC"
  {
    if c == StartCommand then Start
    else match MatchAnswer(c)
      case Some(l) => Answer(UpperChar(l))
      case None => Invalid
  }

  /** What a command means, whatever the spacing and case around it. */
  function Parse(command: string): (cmd: Command)
    ensures cmd == Start <==> Normalize(command) == StartCommand
    ensures cmd.Answer? ==> cmd.letter in "ABC"
  {
    Interpret(Normalize(command))
  }

  /** A normalised command normalises to itself. */
  lemma NormalizeIdempotent(command: string)
    ensures Normalize(Normalize(command)) == Normalize(command)
  {
    var s := Strip(command);
    calc {
      Normalize(Normalize(command));
      Lower(Strip(Lower(s)));
      { LowerStripped(s); }
      Lower(Lower(s));
      { LowerIdempotent(s); }
      Lower(s);
    }
  }

  /** Whitespace around a command never changes what it means. */
  lemma ParsePadded(pre: string, command: string, post: string)
    requires forall k :: 0 <= k < |pre| ==> IsSpace(pre[k])
    requires forall k :: 0 <= k < |post| ==> IsSpace(post[k])
    ensures Parse(pre + command + post) == Parse(command)
  {
    StripPadded(pre, command, post);
  }

  lemma ParseStart(command: string)
    requires Normalize(command) == StartCommand
    ensures Parse(command) == Start
  {
  }

  /** A string of the answer pattern, with anything after the letter, is an
      answer with the upper-cased letter. */
  lemma InterpretAnswer(c: string, letter: char, rest: string)
    requires letter in "abc"
    requires c == AnswerPrefix + [letter] + rest
    ensures Interpret(c) == Answer(UpperChar(letter))
  {
    assert c != StartCommand by { assert c[7] != StartCommand[7]; }
    MatchAnswerPrefix(letter, rest);
  }

  /** Everything else is the usage error. */
  lemma ParseInvalid(command: string)
    requires Normalize(command) != StartCommand && MatchAnswer(Normalize(command)).None?
    ensures Parse(command) == Invalid
  {
  }

  // ------------------------------------------------------------ replies

  /** What a reply says; `ReplyText` spells it out. */
  datatype Verdict = Correct | Wrong(correctAnswer: char)

  datatype Reply =
    | Started                                     // question 1 follows
    | NoSession
    | NextQuestion(verdict: Verdict, index: nat)  // question `index` (from 0) follows
    | GameOver(verdict: Verdict, finalScore: nat)
    | Usage

  predicate ReplyValid(r: Reply) {
    r.NextQuestion? ==> r.index < |Questions|
  }

  function VerdictText(v: Verdict): string {
    match v
    case Correct => "Correct! \U{1F389}"
    case Wrong(a) => "Wrong! The correct answer was " + [a] + "."
  }

  /** The text of the single `TextContent` the tool returns. */
  function ReplyText(r: Reply): string
    requires ReplyValid(r)
  {
    match r
    case Started =>
      "Trivia started! Question 1:\n" + Questions[0].q + "\n" + Join("\n", Questions[0].options) +
      "\nReply with 'trivia answer <option>'"
    case NoSession =>
      "No trivia session found. Please start with 'trivia start'."
    case NextQuestion(v, i) =>
      VerdictText(v) + "\n\nNext Question " + NatToString(i + 1) + ":\n" +
      Questions[i].q + "\n" + Join("\n", Questions[i].options) + "\nReply with 'trivia answer <option>'"
    case GameOver(v, score) =>
      VerdictText(v) + "\nGame Over! Your final score is " + NatToString(score) +
      "/" + NatToString(|Questions|) + "."
    case Usage =>
      "Invalid command. Use 'trivia start' or 'trivia answer <A|B|C>'."
  }

  // ---------------------------------------------------------------- step

  function IsCorrect(s: Session, letter: char): bool
    requires SessionValid(s)
  {
    letter == Questions[s.index].answer
  }

  /** The record after scoring one answer, before the game-over test. */
  function Advance(s: Session, letter: char): Session
    requires SessionValid(s)
  {
    Session(s.index + 1, if IsCorrect(s, letter) then s.score + 1 else s.score)
  }

  function VerdictOf(s: Session, letter: char): Verdict
    requires SessionValid(s)
  {
    if IsCorrect(s, letter) then Correct else Wrong(Questions[s.index].answer)
  }

  /** The reply and the new table for one parsed call of the tool.  Every
      table it produces still satisfies `TableValid`. */
  function Step(t: Table, cmd: Command): (out: (Reply, Table))
    requires TableValid(t)
    ensures ReplyValid(out.0) && TableValid(out.1)
  {
    match cmd
    case Start => (Started, t[SessionId := Session(0, 0)])
    case Invalid => (Usage, t)
    case Answer(letter) =>
      if SessionId !in t then (NoSession, t)
      else
        var s := t[SessionId];
        var s' := Advance(s, letter);
        if s'.index >= |Questions| then (GameOver(VerdictOf(s, letter), s'.score), t - {SessionId})
        else (NextQuestion(VerdictOf(s, letter), s'.index), t[SessionId := s'])
  }

  // ------------------------------------------------- properties of Step

  /** `trivia start` resets the session to question 1 with no points,
      however far a game had gone. */
  lemma StartResets(t: Table, command: string)
    requires TableValid(t)
    requires Normalize(command) == StartCommand
    ensures Step(t, Parse(command)) == (Started, t[SessionId := Session(0, 0)])
  {
    ParseStart(command);
  }

  /** An answer without a running session changes nothing. */
  lemma AnswerWithoutSession(t: Table, letter: char)
    requires TableValid(t) && SessionId !in t
    ensures Step(t, Answer(letter)) == (NoSession, t)
  {
  }

  /** An answer to a question before the last moves to the next question,
      and the score goes up by one exactly when the upper-cased letter is
      the current question's answer. */
  lemma AnswerNextQuestion(t: Table, letter: char)
    requires TableValid(t) && SessionId in t
    requires t[SessionId].index + 1 < |Questions|
    ensures var s := t[SessionId];
            var ok := letter == Questions[s.index].answer;
            var s' := Session(s.index + 1, if ok then s.score + 1 else s.score);
            var v := if ok then Correct else Wrong(Questions[s.index].answer);
            Step(t, Answer(letter)) == (NextQuestion(v, s.index + 1), t[SessionId := s'])
  {
  }

  /** The answer to the last question removes the session, and the reply
      gives the final score, the earlier score plus one for a correct
      answer, out of three. */
  lemma AnswerLastQuestion(t: Table, letter: char)
    requires TableValid(t) && SessionId in t
    requires t[SessionId].index + 1 == |Questions|
    ensures var s := t[SessionId];
            var ok := letter == Questions[s.index].answer;
            var v := if ok then Correct else Wrong(Questions[s.index].answer);
            Step(t, Answer(letter)) == (GameOver(v, if ok then s.score + 1 else s.score), t - {SessionId})
  {
  }

  /** A command that is neither `trivia start` nor an answer replies with
      the usage text and changes nothing. */
  lemma InvalidUnchanged(t: Table, command: string)
    requires TableValid(t)
    requires Normalize(command) != StartCommand && MatchAnswer(Normalize(command)).None?
    ensures Step(t, Parse(command)) == (Usage, t)
  {
    ParseInvalid(command);
  }

  /** Only the "default_session" entry is ever touched. */
  lemma OtherSessionsUntouched(t: Table, cmd: Command, k: string)
    requires TableValid(t) && k != SessionId
    ensures k in Step(t, cmd).1 <==> k in t
    ensures k in t ==> Step(t, cmd).1[k] == t[k]
  {
  }

  // --------------------------------------------------- whole games

  /** Several calls in a row: the replies in order and the final table. */
  function Run(t: Table, cmds: seq<Command>): (out: (seq<Reply>, Table))
    requires TableValid(t)
    ensures |out.0| == |cmds| && TableValid(out.1)
    decreases |cmds|
  {
    if cmds == [] then ([], t)
    else
      var (reply, t') := Step(t, cmds[0]);
      var (replies, t'') := Run(t', cmds[1..]);
      ([reply] + replies, t'')
  }

  function AnswerCommand(letter: char): string {
    AnswerPrefix + [letter]
  }

  function AnswerCommands(letters: seq<char>): (cs: seq<string>)
    ensures |cs| == |letters|
  {
    if letters == [] then [] else [AnswerCommand(letters[0])] + AnswerCommands(letters[1..])
  }

  /** What `AnswerCommands(letters)` parse to. */
  function Answers(letters: seq<char>): (cmds: seq<Command>)
    ensures |cmds| == |letters|
  {
    if letters == [] then [] else [Answer(UpperChar(letters[0]))] + Answers(letters[1..])
  }

  function ParseAll(commands: seq<string>): (cmds: seq<Command>)
    ensures |cmds| == |commands|
  {
    if commands == [] then [] else [Parse(commands[0])] + ParseAll(commands[1..])
  }

  predicate AllLetters(letters: seq<char>) {
    forall i :: 0 <= i < |letters| ==> letters[i] in "abc"
  }

  /** Only small ASCII letters and spaces. */
  predicate PlainText(c: string) {
    forall i :: 0 <= i < |c| ==> c[i] == ' ' || 'a' <= c[i] <= 'z'
  }

  /** Plain text without surrounding spaces is already normalised. */
  lemma PlainNormal(c: string)
    requires PlainText(c) && c != [] && c[0] != ' ' && c[|c| - 1] != ' '
    ensures Normalize(c) == c
  {
    PlainStrip(c);
    PlainLower(c);
  }

  lemma PlainStrip(c: string)
    requires PlainText(c) && c != [] && c[0] != ' ' && c[|c| - 1] != ' '
    ensures Strip(c) == c
  {
    assert !IsSpace(c[0]) && !IsSpace(c[|c| - 1]);
  }

  lemma PlainLower(c: string)
    requires PlainText(c)
    ensures Lower(c) == c
  {
    forall i | 0 <= i < |c| ensures LowerChar(c[i]) == c[i] {
    }
    LowerFixed(c);
  }

  lemma AnswerCommandNormal(letter: char)
    requires letter in "abc"
    ensures Normalize(AnswerCommand(letter)) == AnswerCommand(letter)
  {
    var c := AnswerCommand(letter);
    assert PlainText(AnswerPrefix);
    assert PlainText(c) by {
      forall i | 0 <= i < |c| ensures c[i] == ' ' || 'a' <= c[i] <= 'z' {
        if i < |AnswerPrefix| {
          assert c[i] == AnswerPrefix[i];
        }
      }
    }
    PlainNormal(c);
  }

  lemma ParseAnswerCommand(letter: char)
    requires letter in "abc"
    ensures Parse(AnswerCommand(letter)) == Answer(UpperChar(letter))
  {
    var c := AnswerCommand(letter);
    AnswerCommandNormal(letter);
    assert c == AnswerPrefix + [letter] + [];
    InterpretAnswer(c, letter, []);
  }

  lemma StartCommandNormal()
    ensures Normalize(StartCommand) == StartCommand
  {
    assert PlainText(StartCommand);
    PlainNormal(StartCommand);
  }

  /** The commands of a game, as typed, mean `Start` and then one answer
      per letter, upper-cased. */
  lemma {:induction false} ParseAnswerCommands(letters: seq<char>)
    requires AllLetters(letters)
    ensures ParseAll(AnswerCommands(letters)) == Answers(letters)
    decreases |letters|
  {
    if letters != [] {
      var cs := AnswerCommands(letters);
      assert cs[0] == AnswerCommand(letters[0]) && cs[1..] == AnswerCommands(letters[1..]);
      assert AllLetters(letters[1..]) by {
        forall i | 0 <= i < |letters[1..]| ensures letters[1..][i] in "abc" {
          assert letters[1..][i] == letters[i + 1];
        }
      }
      calc {
        ParseAll(cs);
        [Parse(cs[0])] + ParseAll(cs[1..]);
        { ParseAnswerCommand(letters[0]); }
        [Answer(UpperChar(letters[0]))] + ParseAll(AnswerCommands(letters[1..]));
        { ParseAnswerCommands(letters[1..]); }
        [Answer(UpperChar(letters[0]))] + Answers(letters[1..]);
        Answers(letters);
      }
    }
  }

  lemma ParseGame(letters: seq<char>)
    requires AllLetters(letters)
    ensures ParseAll([StartCommand] + AnswerCommands(letters)) == [Start] + Answers(letters)
  {
    var cs := [StartCommand] + AnswerCommands(letters);
    assert cs[0] == StartCommand && cs[1..] == AnswerCommands(letters);
    calc {
      ParseAll(cs);
      [Parse(StartCommand)] + ParseAll(AnswerCommands(letters));
      { StartCommandNormal(); ParseStart(StartCommand); }
      [Start] + ParseAll(AnswerCommands(letters));
      { ParseAnswerCommands(letters); }
      [Start] + Answers(letters);
    }
  }

  /** The number of `letters` that, upper-cased, answer the questions from
      number `k` (counting from 0) on. */
  function CorrectFrom(letters: seq<char>, k: nat): nat
    requires k + |letters| <= |Questions|
  {
    if letters == [] then 0
    else (if UpperChar(letters[0]) == Questions[k].answer then 1 else 0) + CorrectFrom(letters[1..], k + 1)
  }

  /** The verdict on the answer to the last question. */
  function FinalVerdict(letters: seq<char>): Verdict
    requires |letters| == |Questions|
  {
    var last := |Questions| - 1;
    if UpperChar(letters[last]) == Questions[last].answer then Correct else Wrong(Questions[last].answer)
  }

  /** From a session at question `k` with `score` points, answering the
      remaining questions ends the game: the session is gone and the last
      reply reports `score` plus the number of remaining correct answers. */
  lemma {:induction false} PlayRest(t: Table, letters: seq<char>, k: nat, score: nat)
    requires TableValid(t)
    requires k < |Questions| && k + |letters| == |Questions|
    requires SessionId in t && t[SessionId] == Session(k, score)
    ensures var out := Run(t, Answers(letters));
            var last := |Questions| - 1;
            var ok := UpperChar(letters[|letters| - 1]) == Questions[last].answer;
            out.1 == t - {SessionId} && out.0 != [] &&
            out.0[|out.0| - 1] == GameOver(if ok then Correct else Wrong(Questions[last].answer), score + CorrectFrom(letters, k))
    decreases |letters|
  {
    var letter := UpperChar(letters[0]);
    var cmds := Answers(letters);
    assert cmds[0] == Answer(letter) && cmds[1..] == Answers(letters[1..]);
    var ok := letter == Questions[k].answer;
    var score' := if ok then score + 1 else score;
    if k + 1 == |Questions| {
      AnswerLastQuestion(t, letter);
    } else {
      AnswerNextQuestion(t, letter);
      var t1 := t[SessionId := Session(k + 1, score')];
      PlayRest(t1, letters[1..], k + 1, score');
      assert t1 - {SessionId} == t - {SessionId};
    }
  }

  /** A whole game: `trivia start` followed by three answers leaves no
      session and reports the number of correct answers out of three,
      whatever the table held before. */
  lemma FullGame(t: Table, letters: seq<char>)
    requires TableValid(t) && |letters| == |Questions|
    ensures var out := Run(t, [Start] + Answers(letters));
            out.1 == t - {SessionId} && |out.0| == 4 && out.0[0] == Started &&
            out.0[3] == GameOver(FinalVerdict(letters), CorrectFrom(letters, 0))
  {
    var t1 := t[SessionId := Session(0, 0)];
    var cmds := [Start] + Answers(letters);
    assert cmds[0] == Start && cmds[1..] == Answers(letters);
    PlayRest(t1, letters, 0, 0);
    assert t1 - {SessionId} == t - {SessionId};
  }

  // ------------------------------------------------------------- state

  /** The module-global `trivia_sessions` and the tool that updates it. */
  class Game {
    var sessions: Table

    ghost predicate Valid()
      reads this
    {
      TableValid(sessions)
    }

    /** `trivia_sessions = {}`. */
    constructor ()
      ensures Valid() && sessions == map[]
    {
      sessions := map[];
    }

    /** `trivia(command)`: the text of the reply, and the table updated in place. */
    method Trivia(command: string) returns (reply: string)
      requires Valid()
      modifies this
      ensures Valid()
      ensures sessions == Step(old(sessions), Parse(command)).1
      ensures reply == ReplyText(Step(old(sessions), Parse(command)).0)
    {
      var c := Normalize(command);
      reply := Dispatch(c);
    }

    /** The rest of `trivia`, on the stripped and lower-cased command. */
    method Dispatch(c: string) returns (reply: string)
      requires Valid()
      modifies this
      ensures Valid()
      ensures sessions == Step(old(sessions), Interpret(c)).1
      ensures reply == ReplyText(Step(old(sessions), Interpret(c)).0)
    {
      if c == StartCommand {
        sessions := sessions[SessionId := Session(0, 0)];
        var q := Questions[0];
        var optionsStr := Join("\n", q.options);
        reply := "Trivia started! Question 1:\n" + q.q + "\n" + optionsStr +
                 "\nReply with 'trivia answer <option>'";
        return;
      }
      var m := MatchAnswer(c);
      if m.Some? {
        InterpretAnswer(c, m.value, c[|AnswerPrefix| + 1..]);
        if SessionId !in sessions {
          return "No trivia session found. Please start with 'trivia start'.";
        }
        reply := Score(UpperChar(m.value));
        return;
      }
      return "Invalid command. Use 'trivia start' or 'trivia answer <A|B|C>'.";
    }

    /** The answer branch of `trivia` once a session exists: score the
        answer, move to the next question, and end the game after the last. */
    method Score(userAnswer: char) returns (reply: string)
      requires Valid() && SessionId in sessions
      modifies this
      ensures Valid()
      ensures sessions == Step(old(sessions), Answer(userAnswer)).1
      ensures reply == ReplyText(Step(old(sessions), Answer(userAnswer)).0)
    {
      // `session` is the record stored in the table; every change to it
      // is written back, as the table holds the same mutable record.
      var session := sessions[SessionId];
      ghost var t0, s0 := sessions, session;
      var correctAnswer := Questions[session.index].answer;
      var result: string;
      if userAnswer == correctAnswer {
        session := session.(score := session.score + 1);
        sessions := sessions[SessionId := session];
        result := "Correct! \U{1F389}";
      } else {
        result := "Wrong! The correct answer was " + [correctAnswer] + ".";
      }
      ghost var v := VerdictOf(s0, userAnswer);
      assert result == VerdictText(v);
      session := session.(index := session.index + 1);
      sessions := sessions[SessionId := session];
      assert session == Advance(s0, userAnswer);
      assert sessions == t0[SessionId := session];
      if session.index >= |Questions| {
        AnswerLastQuestion(t0, userAnswer);
        var finalScore := session.score;
        sessions := sessions - {SessionId};
        assert sessions == t0 - {SessionId};
        reply := result + "\nGame Over! Your final score is " + NatToString(finalScore) +
                 "/" + NatToString(|Questions|) + ".";
        assert reply == ReplyText(GameOver(v, finalScore));
        return;
      }
      AnswerNextQuestion(t0, userAnswer);
      var nextQ := Questions[session.index];
      var optionsStr := Join("\n", nextQ.options);
      reply := result + "\n\nNext Question " + NatToString(session.index + 1) + ":\n" +
               nextQ.q + "\n" + optionsStr + "\nReply with 'trivia answer <option>'";
      assert reply == ReplyText(NextQuestion(v, session.index));
    }
  }
}

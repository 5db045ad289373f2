/** Worked examples: the directives the agent's prompt teaches the model to write, and one whole
    exchange through the graph. */
module Scenario {
  import opened Results
  import opened Messages
  import opened PyStr
  import opened Collapse
  import opened Directives
  import opened AgentLoop

  // ---------------------------------------------------------------------------
  // Reading directives

  /** The model stops at `</tool_input>`, so a directive usually ends with the bare input:
      `<tool>search</tool><tool_input>weather today`. */
  lemma ParseUnclosed()
    ensures ParseDirective(ToolOpen + "search" + ToolClose + InputOpen + "weather today")
      == Ok(Directive("search", "weather today"))
  {
    ParseFormat(Directive("search", "weather today"));
  }

  /** When the closing tag is there anyway, the input is cut at it:
      `<tool>calc</tool><tool_input>2+2</tool_input>extra`. */
  lemma ParseClosed()
    ensures ParseDirective(ToolOpen + "calc" + ToolClose + InputOpen + "2+2" + InputClose + "extra")
      == Ok(Directive("calc", "2+2"))
  {
    ParseFormatClosed(Directive("calc", "2+2"), "extra");
  }

  /** A plain answer is not a directive: splitting it at `</tool>` gives one piece, and
      unpacking that into two names raises. */
  lemma ParsePlain()
    ensures ParseDirective(Answer) == Err(Unpack(1))
  {
    PlainAnswer();
  }

  lemma PlainAnswer()
    ensures !Occurs(Answer, ToolClose)
  {
    assert '<' !in Answer;
    PlainHasNoMarker(Answer);
    ContainsIff(Answer, ToolClose);
  }

  // ---------------------------------------------------------------------------
  // One exchange

  const Question: Message := Human("What's 2+2?")
  const Call: string := ToolOpen + "calc" + ToolClose + InputOpen + "2+2"
  const Answer: string := "The answer is 4."

  /** A model that asks for the calculator on the first prompt (system prompt and question)
      and answers on any later one. */
  function Model(prompt: seq<Message>): string
  {
    if |prompt| <= 2 then Call else Answer
  }

  function Calculator(name: string, input: string): string
  {
    if name == "calc" && input == "2+2" then "4" else ""
  }

  /** The graph calls the calculator once, reads its answer back to the model and stops. */
  lemma Exchange(system: string)
    ensures Run(XmlAgent(system, Model, Calculator), State(Agent, [Question]), 3)
      == Ok(State(End, [Question, AI(Call), Function("4", "calc"), AI(Answer)]))
  {
    var g := XmlAgent(system, Model, Calculator);
    AskCalculator(system);
    ReportAnswer(system);
    AnswerQuestion(system);
    assert Run(g, State(Agent, [Question]), 3)
      == Run(g, State(Action, [Question, AI(Call)]), 2);
    assert Run(g, State(Action, [Question, AI(Call)]), 2)
      == Run(g, State(Agent, [Question, AI(Call), Function("4", "calc")]), 1);
  }

  /** The agent sees the system prompt and the question, and asks for the calculator. */
  lemma AskCalculator(system: string)
    ensures Step(XmlAgent(system, Model, Calculator), State(Agent, [Question]))
      == Ok(State(Action, [Question, AI(Call)]))
  {
    var c := [Question];
    AllHumanUnchanged(c);
    AgentStep(system, Model, Calculator, State(Agent, c));
    assert Model(Prompt(system, c).value) == Call;
    var d := Directive("calc", "2+2");
    ParseFormat(d);
    assert Format(d) == Call;
    ParseErrors(Call);
    assert Occurs(Call, ToolClose);
    assert c + [AI(Call)] == [Question, AI(Call)];
  }

  /** The action node reads the directive and reports the calculator's answer. */
  lemma ReportAnswer(system: string)
    ensures Step(XmlAgent(system, Model, Calculator), State(Action, [Question, AI(Call)]))
      == Ok(State(Agent, [Question, AI(Call), Function("4", "calc")]))
  {
    var d := Directive("calc", "2+2");
    ParseFormat(d);
    assert Format(d) == Call;
    var c := [Question, AI(Call)];
    assert c[|c| - 1].content == Call;
    assert ParseDirective(c[|c| - 1].content) == Ok(d);
    assert Calculator(d.tool, d.toolInput) == "4";
    ActionStep(system, Model, Calculator, State(Action, c));
    assert c + [Function("4", "calc")] == [Question, AI(Call), Function("4", "calc")];
  }

  /** The agent now sees a three-message prompt and answers without a directive. */
  lemma AnswerQuestion(system: string)
    ensures Step(XmlAgent(system, Model, Calculator), State(Agent, [Question, AI(Call), Function("4", "calc")]))
      == Ok(State(End, [Question, AI(Call), Function("4", "calc"), AI(Answer)]))
  {
    var c := [Question, AI(Call), Function("4", "calc")];
    var c' := [Question, AI(Call), Function("4", "calc"), AI(Answer)];
    assert AgentReply(system, Model, c) == Ok(AI(Answer)) by {
      ReadBack(system);
    }
    assert c + [AI(Answer)] == c';
    assert Route(Agent, c') == End by {
      PlainAnswer();
    }
  }

  /** After the tool has answered, the history is the question followed by one AI message. */
  lemma ReadBack(system: string)
    ensures Prompt(system, [Question, AI(Call), Function("4", "calc")]).Ok?
    ensures |Prompt(system, [Question, AI(Call), Function("4", "calc")]).value| == 3
  {
    var run := [AI(Call), Function("4", "calc")];
    HistoryAppendRun([Question], run);
    AllHumanUnchanged([Question]);
    assert [Question] + run == [Question, AI(Call), Function("4", "calc")];
    assert CollapseRun(run).Ok?;
  }

  /** The next history shows the whole turn as one AI message: the call, the observation and
      the answer. */
  lemma ExchangeHistory()
    ensures ChatHistory([Question, AI(Call), Function("4", "calc"), AI(Answer)])
      == Ok([Question, AI(Call + ObservationOpen + "4" + ObservationClose + Answer)])
  {
    var run := [AI(Call), Function("4", "calc"), AI(Answer)];
    HistoryAppendRun([Question], run);
    AllHumanUnchanged([Question]);
    assert [Question] + run == [Question, AI(Call), Function("4", "calc"), AI(Answer)];
    var pairs := run[..2];
    assert Scratchpad(run) == pairs;
    assert pairs[2..] == [];
    var entry := Call + ObservationOpen + "4" + ObservationClose;
    assert Transcript(pairs) == entry;
    assert FinalText(run) == Answer;
    assert CollapseRun(run) == Ok(AI(entry + Answer));
    assert [Question] + [AI(entry + Answer)] == [Question, AI(entry + Answer)];
  }

  /** A tool answer with no call before it leaves the scratchpad odd, and the history cannot
      be built. */
  lemma OrphanAnswer()
    ensures ChatHistory([Question, Function("4", "calc")]) == Err(OddScratchpad)
  {
    var run := [Function("4", "calc")];
    HistoryAppendRun([Question], run);
    AllHumanUnchanged([Question]);
    assert [Question] + run == [Question, Function("4", "calc")];
    assert Scratchpad(run) == run;
  }
}

/** The agent/action graph built by `get_xml_agent_executor`: the agent node asks the model for
    the next message, `should_continue` routes to the action node or to END, and the action node
    runs the named tool and reports its answer as a function message. */
module AgentLoop {
  import opened Results
  import opened Messages
  import opened Collapse
  import opened Directives

  datatype Node = Agent | Action | End

  /** Where the graph is, and the message list it carries. */
  datatype State = State(node: Node, conversation: seq<Message>)

  datatype StepError =
    | History(collapse: CollapseError)  // `construct_chat_history` raised inside the agent node
    | Parse(parse: ParseError)          // `call_tool` could not read the directive
    | NoMessage                         // `messages[-1]` in `call_tool` on an empty list

  // ---------------------------------------------------------------------------
  // _get_messages

  /** The messages handed to the model: the system prompt, then the collapsed history. */
  function Prompt(system: string, conversation: seq<Message>): (r: Result<seq<Message>, CollapseError>)
    ensures r.Ok? <==> ChatHistory(conversation).Ok?
    ensures r.Ok? ==> |r.value| > 0 && r.value[0] == System(system)
  {
    match ChatHistory(conversation)
    case Err(e) => Err(e)
    case Ok(history) => Ok([System(system)] + history)
  }

  /** The model sees the system prompt exactly once, in front, and otherwise only human and AI
      messages: every function message reaches it folded into an AI message. */
  lemma PromptShape(system: string, conversation: seq<Message>)
    requires ChatHistory(conversation).Ok?
    ensures var p := Prompt(system, conversation);
      && p.Ok?
      && |p.value| == |ChatHistory(conversation).value| + 1
      && p.value[0] == System(system)
      && p.value[1..] == ChatHistory(conversation).value
      && (forall k :: 1 <= k < |p.value| ==> p.value[k].Human? || p.value[k].AI?)
      && Humans(p.value) == Humans(conversation)
  {
    var history := ChatHistory(conversation).value;
    var p := Prompt(system, conversation).value;
    HistoryKinds(conversation);
    assert forall k :: 1 <= k < |p| ==> p[k] == history[k - 1];
    HumansPreserved(conversation);
    HumansAppend([System(system)], history);
    assert Humans([System(system)]) == Humans([] + [System(system)]);
  }

  // ---------------------------------------------------------------------------
  // The two nodes

  /** The agent node: the model's reply to the prompt, as an AI message. It fails exactly when
      `construct_chat_history` raises. `model` stands for the language model. */
  function AgentReply(system: string, model: seq<Message> -> string, conversation: seq<Message>):
    (r: Result<Message, StepError>)
    ensures r.Ok? <==> ChatHistory(conversation).Ok?
    ensures r.Err? ==> r.error == History(ChatHistory(conversation).error)
    ensures r.Ok? ==> r.value == AI(model(Prompt(system, conversation).value))
  {
    match Prompt(system, conversation)
    case Err(e) => Err(History(e))
    case Ok(prompt) => Ok(AI(model(prompt)))
  }

  /** The action node (`call_tool`): read the directive in the latest message, call the named
      tool on its input and report the answer as a function message carrying the tool's name.
      `tool` stands for the tool executor. */
  function ToolReply(tool: (string, string) -> string, conversation: seq<Message>):
    (r: Result<Message, StepError>)
    ensures |conversation| == 0 ==> r == Err(NoMessage)
    ensures |conversation| > 0 ==>
      var parsed := ParseDirective(conversation[|conversation| - 1].content);
      && (r.Ok? <==> parsed.Ok?)
      && (r.Err? ==> r.error == Parse(parsed.error))
      && (r.Ok? ==> r.value == Function(tool(parsed.value.tool, parsed.value.toolInput), parsed.value.tool))
  {
    if |conversation| == 0 then Err(NoMessage)
    else
      match ParseDirective(conversation[|conversation| - 1].content)
      case Err(e) => Err(Parse(e))
      case Ok(d) => Ok(Function(tool(d.tool, d.toolInput), d.tool))
  }

  /** The compiled graph: a node function for `agent` and one for `action`. */
  datatype Graph = Graph(agent: seq<Message> -> Result<Message, StepError>,
                         action: seq<Message> -> Result<Message, StepError>)

  function XmlAgent(system: string, model: seq<Message> -> string, tool: (string, string) -> string): Graph
  {
    Graph(c => AgentReply(system, model, c), c => ToolReply(tool, c))
  }

  // ---------------------------------------------------------------------------
  // One step of the graph

  /** The edges: after the agent, `should_continue` picks the action node or END; after the
      action node, the agent always runs again. */
  function Route(node: Node, conversation: seq<Message>): (next: Node)
    requires !node.End? && |conversation| > 0
    ensures next.Agent? <==> node.Action?
    ensures next.Action? <==> node.Agent? && Occurs(conversation[|conversation| - 1].content, ToolClose)
    ensures next.End? <==> node.Agent? && !Occurs(conversation[|conversation| - 1].content, ToolClose)
  {
    if node.Action? then Agent
    else
      match ShouldContinue(conversation)
      case Continue => Action
      case Finish => End
  }

  /** Run the node the state is at, append the message it returns (a message graph only ever
      adds to its list), and follow the edge out of the node. */
  function Step(g: Graph, s: State): (r: Result<State, StepError>)
    requires !s.node.End?
    ensures r.Ok? ==> |r.value.conversation| == |s.conversation| + 1
    ensures r.Ok? ==> r.value.node == Route(s.node, r.value.conversation)
  {
    var reply := if s.node.Agent? then g.agent(s.conversation) else g.action(s.conversation);
    match reply
    case Err(e) => Err(e)
    case Ok(m) =>
      var conversation := s.conversation + [m];
      Ok(State(Route(s.node, conversation), conversation))
  }

  /** The agent node fails exactly when the history cannot be collapsed; otherwise it appends
      the model's reply to the prompt and goes to the action node exactly when the reply
      contains `</tool>`, and to END otherwise. */
  lemma AgentStep(system: string, model: seq<Message> -> string, tool: (string, string) -> string,
                  s: State)
    requires s.node.Agent?
    ensures var r := Step(XmlAgent(system, model, tool), s);
      && (r.Ok? <==> ChatHistory(s.conversation).Ok?)
      && (r.Err? ==> r.error == History(ChatHistory(s.conversation).error))
      && (r.Ok? ==>
            var reply := AI(model(Prompt(system, s.conversation).value));
            && r.value.conversation == s.conversation + [reply]
            && (r.value.node.Action? <==> Occurs(reply.content, ToolClose))
            && (r.value.node.End? <==> !Occurs(reply.content, ToolClose)))
  {
  }

  /** The action node fails exactly when the latest message does not parse; otherwise it calls
      the named tool on the parsed input, appends the answer as a function message carrying
      the tool's name, and returns to the agent. */
  lemma ActionStep(system: string, model: seq<Message> -> string, tool: (string, string) -> string,
                   s: State)
    requires s.node.Action? && |s.conversation| > 0
    ensures var r := Step(XmlAgent(system, model, tool), s);
      var last := s.conversation[|s.conversation| - 1].content;
      && (r.Ok? <==> ParseDirective(last).Ok?)
      && (r.Err? ==> r.error == Parse(ParseDirective(last).error))
      && (r.Ok? ==>
            var d := ParseDirective(last).value;
            && r.value.node == Agent
            && r.value.conversation == s.conversation + [Function(tool(d.tool, d.toolInput), d.tool)])
  {
  }

  /** Run the graph from `s` until it reaches END, fails, or `fuel` steps have been taken. */
  function Run(g: Graph, s: State, fuel: nat): (r: Result<State, StepError>)
    ensures r.Ok? ==> |r.value.conversation| <= |s.conversation| + fuel
    ensures r.Ok? && !r.value.node.End? ==> |r.value.conversation| == |s.conversation| + fuel
    decreases fuel
  {
    if s.node.End? || fuel == 0 then Ok(s)
    else
      match Step(g, s)
      case Err(e) => Err(e)
      case Ok(t) => Run(g, t, fuel - 1)
  }

  // ---------------------------------------------------------------------------
  // What a turn of the graph looks like

  /** The messages one turn adds: it opens with a model reply, and model replies and tool
      answers take turns. */
  predicate Alternating(run: seq<Message>)
    decreases |run|
  {
    if |run| == 0 then true
    else
      var front := run[..|run| - 1];
      && Alternating(front)
      && if |front| == 0 || front[|front| - 1].Function? then run[|run| - 1].AI?
         else run[|run| - 1].Function?
  }

  /** Model replies sit at the even positions of an alternating turn, tool answers at the odd
      ones. */
  lemma {:induction false} AlternatingParity(run: seq<Message>)
    requires Alternating(run)
    ensures forall i :: 0 <= i < |run| ==> run[i].AI? || run[i].Function?
    ensures forall i :: 0 <= i < |run| ==> (run[i].AI? <==> i % 2 == 0)
    decreases |run|
  {
    if |run| > 0 {
      var front := run[..|run| - 1];
      AlternatingParity(front);
      assert forall i :: 0 <= i < |front| ==> run[i] == front[i];
    }
  }

  /** A conversation the graph can be started on: the user has just spoken and the history so
      far collapses. */
  predicate Ready(base: seq<Message>)
  {
    |base| > 0 && base[|base| - 1].Human? && ChatHistory(base).Ok?
  }

  /** The turn `run` fits the node the graph is at: the agent runs when no reply is pending
      (the turn is empty or ends on a tool answer), and after a reply the route matches
      `should_continue`. */
  ghost predicate TurnShape(node: Node, run: seq<Message>)
  {
    && Alternating(run)
    && (node.Agent? <==> (|run| == 0 || run[|run| - 1].Function?))
    && (node.Action? ==> Occurs(run[|run| - 1].content, ToolClose))
    && (node.End? ==> !Occurs(run[|run| - 1].content, ToolClose))
  }

  /** `s` is reachable from `base`: its conversation is `base` followed by a turn that fits. */
  ghost predicate Inv(base: seq<Message>, s: State)
  {
    base <= s.conversation && TurnShape(s.node, s.conversation[|base|..])
  }

  lemma InitInv(base: seq<Message>)
    ensures Inv(base, State(Agent, base))
  {
    assert base[|base|..] == [];
  }

  /** An alternating turn never trips the parity check of `_collapse_messages`: whether it
      ends on a reply or on a tool answer, its scratchpad pairs up. */
  lemma AlternatingCollapses(run: seq<Message>)
    requires |run| > 0 && Alternating(run)
    ensures forall i :: 0 <= i < |run| ==> !run[i].Human?
    ensures CollapseRun(run).Ok? && CollapseRun(run).value.AI?
  {
    AlternatingParity(run);
    var n := |run|;
    assert run[n - 1].AI? <==> (n - 1) % 2 == 0;
    ParityStep(n);
    CollapseParity(run);
  }

  lemma ParityStep(n: nat)
    requires n > 0
    ensures (n - 1) % 2 == 0 <==> n % 2 == 1
  {
  }

  /** Every reachable conversation collapses: the history the agent sees is the history of
      `base` followed by the whole turn folded into one AI message. */
  lemma InvCollapses(base: seq<Message>, s: State)
    requires Ready(base) && Inv(base, s)
    ensures ChatHistory(s.conversation).Ok?
    ensures var run := s.conversation[|base|..];
      |run| > 0 ==>
        && CollapseRun(run).Ok?
        && ChatHistory(s.conversation) == Ok(ChatHistory(base).value + [CollapseRun(run).value])
  {
    var run := s.conversation[|base|..];
    assert s.conversation == base + run;
    if |run| > 0 {
      AlternatingCollapses(run);
      HistoryAppendRun(base, run);
      var c := CollapseRun(run).value;
      assert ChatHistory(base + run) == Ok(ChatHistory(base).value + [c]);
    } else {
      assert s.conversation == base;
    }
  }

  lemma AlternatingSnoc(run: seq<Message>, m: Message)
    requires Alternating(run)
    requires |run| == 0 || run[|run| - 1].Function? ==> m.AI?
    requires |run| > 0 && run[|run| - 1].AI? ==> m.Function?
    ensures Alternating(run + [m])
  {
    var r := run + [m];
    assert r[..|r| - 1] == run;
    assert r[|r| - 1] == m;
  }

  /** Appending `m` to the turn keeps it alternating. */
  lemma TurnSnoc(base: seq<Message>, conversation: seq<Message>, m: Message)
    requires base <= conversation && Alternating(conversation[|base|..])
    requires var run := conversation[|base|..]; |run| == 0 || run[|run| - 1].Function? ==> m.AI?
    requires var run := conversation[|base|..]; |run| > 0 && run[|run| - 1].AI? ==> m.Function?
    ensures base <= conversation + [m]
    ensures (conversation + [m])[|base|..] == conversation[|base|..] + [m]
    ensures Alternating((conversation + [m])[|base|..])
  {
    assert (conversation + [m])[|base|..] == conversation[|base|..] + [m];
    AlternatingSnoc(conversation[|base|..], m);
  }

  /** From a reachable state the agent node never fails, and leads to a reachable state. */
  lemma AgentStepInv(base: seq<Message>, system: string, model: seq<Message> -> string,
                     tool: (string, string) -> string, s: State)
    requires Ready(base) && Inv(base, s) && s.node.Agent?
    ensures Step(XmlAgent(system, model, tool), s).Ok?
    ensures Inv(base, Step(XmlAgent(system, model, tool), s).value)
  {
    InvCollapses(base, s);
    AgentStep(system, model, tool, s);
    TurnSnoc(base, s.conversation, AI(model(Prompt(system, s.conversation).value)));
  }

  /** From a reachable state the action node can fail only while reading the directive, and
      otherwise leads to a reachable state. */
  lemma ActionStepInv(base: seq<Message>, system: string, model: seq<Message> -> string,
                      tool: (string, string) -> string, s: State)
    requires Inv(base, s) && s.node.Action?
    ensures var r := Step(XmlAgent(system, model, tool), s);
      && (r.Err? ==> r.error.Parse?)
      && (r.Ok? ==> Inv(base, r.value))
  {
    ActionStep(system, model, tool, s);
    var parsed := ParseDirective(s.conversation[|s.conversation| - 1].content);
    if parsed.Ok? {
      var d := parsed.value;
      var m := Function(tool(d.tool, d.toolInput), d.tool);
      TurnSnoc(base, s.conversation, m);
      var run := (s.conversation + [m])[|base|..];
      assert TurnShape(Agent, run);
    }
  }

  /** Every successful step from a state satisfying `P` leads to one satisfying `P`. */
  ghost predicate StepKeeps(g: Graph, P: State -> bool)
  {
    forall t :: P(t) && !t.node.End? && Step(g, t).Ok? ==> P(Step(g, t).value)
  }

  /** A property every step keeps holds after any number of steps, and a run that fails does
      so at a step taken from a state with the property. */
  lemma {:induction false} RunKeeps(g: Graph, P: State -> bool, s: State, fuel: nat)
    requires P(s) && StepKeeps(g, P)
    ensures var r := Run(g, s, fuel);
      && (r.Ok? ==> P(r.value))
      && (r.Err? ==> exists t :: P(t) && !t.node.End? && Step(g, t) == Err(r.error))
    decreases fuel
  {
    if !s.node.End? && fuel > 0 {
      var r := Step(g, s);
      if r.Ok? {
        RunKeeps(g, P, r.value, fuel - 1);
      }
    }
  }

  /** The graph only ever appends: a run extends the conversation it started from. */
  lemma RunExtends(g: Graph, s: State, fuel: nat)
    ensures var r := Run(g, s, fuel);
      r.Ok? ==> s.conversation <= r.value.conversation
  {
    var P := (t: State) => s.conversation <= t.conversation;
    forall t: State | P(t) && !t.node.End? && Step(g, t).Ok?
      ensures P(Step(g, t).value)
    {
    }
    RunKeeps(g, P, s, fuel);
  }

  /** However many steps are taken, a run from a reachable state stays reachable, and it can
      only fail while reading a directive. */
  lemma RunPreservesInv(base: seq<Message>, system: string, model: seq<Message> -> string,
                        tool: (string, string) -> string, s: State, fuel: nat)
    requires Ready(base) && Inv(base, s)
    ensures var r := Run(XmlAgent(system, model, tool), s, fuel);
      && (r.Err? ==> r.error.Parse?)
      && (r.Ok? ==> Inv(base, r.value))
  {
    var g := XmlAgent(system, model, tool);
    forall t | Inv(base, t) && !t.node.End?
      ensures var r := Step(g, t);
        && (r.Err? ==> r.error.Parse?)
        && (r.Ok? ==> Inv(base, r.value))
    {
      if t.node.Agent? {
        AgentStepInv(base, system, model, tool, t);
      } else {
        ActionStepInv(base, system, model, tool, t);
      }
    }
    RunKeeps(g, t => Inv(base, t), s, fuel);
    var r := Run(g, s, fuel);
    if r.Err? {
      var t :| Inv(base, t) && !t.node.End? && Step(g, t) == Err(r.error);
    }
  }

  /** Started at the entry node on a conversation that is ready, the graph never fails to build
      the history: a run can only fail while reading a directive, and every conversation it
      reaches collapses. */
  lemma Reachable(base: seq<Message>, system: string, model: seq<Message> -> string,
                  tool: (string, string) -> string, fuel: nat)
    requires Ready(base)
    ensures var r := Run(XmlAgent(system, model, tool), State(Agent, base), fuel);
      && (r.Err? ==> r.error.Parse?)
      && (r.Ok? ==> base <= r.value.conversation && ChatHistory(r.value.conversation).Ok?)
  {
    InitInv(base);
    RunPreservesInv(base, system, model, tool, State(Agent, base), fuel);
    var r := Run(XmlAgent(system, model, tool), State(Agent, base), fuel);
    if r.Ok? {
      InvCollapses(base, r.value);
    }
  }

  /** A turn that reached END, followed by the user's next message, is again a conversation
      the graph can be started on; the turn appears in the next history as one AI message. */
  lemma NextTurn(base: seq<Message>, s: State, h: Message)
    requires Ready(base) && Inv(base, s) && s.node.End? && h.Human?
    ensures Ready(s.conversation + [h])
    ensures CollapseRun(s.conversation[|base|..]).Ok?
    ensures ChatHistory(s.conversation + [h]) ==
      Ok(ChatHistory(base).value + [CollapseRun(s.conversation[|base|..]).value, h])
  {
    InvCollapses(base, s);
    HistoryAppendHuman(s.conversation, h);
    var c := CollapseRun(s.conversation[|base|..]).value;
    assert ChatHistory(base).value + [c] + [h] == ChatHistory(base).value + [c, h];
  }
}

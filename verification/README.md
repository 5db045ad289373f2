# XML agent loop — a Dafny model

This project models the text-protocol agent of opengpts
(`backend/app/agent_types/xml_agent.py`). The agent talks to a language model in plain text:

- the model asks for a tool by writing `<tool>NAME</tool><tool_input>INPUT`;
- the tool's answer comes back as a function message;
- before each model call, every maximal run of non-human messages between human messages is
  folded into one AI message. In that message, each (action, observation) pair is written as
  `action<observation>observation</observation>`.

The model covers the three parts of that file and the properties that tie them together.

- **Collapsing history** (`collapse.dfy`, module `Collapse`):
  - `_collapse_messages` is modelled twice. `CollapseMessages` follows the source loop, including the way it reads each pair from the run rather than from the scratchpad. `CollapseRun` is the functional reference the method is proved equal to.
  - `construct_chat_history` is likewise modelled twice. `ConstructChatHistory` is the loop. `ChatHistory` cuts the conversation into segments: human turns, and maximal runs of other messages. It then emits each turn unchanged and collapses each run.
  - `SegmentsPartition` and `SegmentsUnique` prove that this segmentation is the only well-formed one.
- **Tool directives** (`directives.dfy`, module `Directives`, over `pystr.dfy`, module `PyStr`):
  - `should_continue` is a substring test.
  - The parsing half of `call_tool` uses Python's `str.split`, which `PyStr` models from a left-to-right `find`.
  - The parse is characterised three ways:
    - when it raises, and which error it raises;
    - what the fields are, described without `split`;
    - a round trip with the text a model emits.
- **The graph** (`agent_loop.dfy`, module `AgentLoop`):
  - the nodes `agent` and `action`, plus END;
  - the conditional edge `should_continue` and the edge from `action` back to `agent`;
  - a fuelled run.
  - The language model and the tool executor are oracle parameters: `model` takes the prompt messages to a reply text, and `tool` takes a tool name and input to an answer text.
  - The central result is `RunPreservesInv`. From a conversation that ends with a human message and whose history collapses, every state the graph reaches has a collapsible history, so the agent node never raises. The only error a run can end with is a directive that does not parse.
- **Worked examples** (`scenario.dfy`, module `Scenario`):
  - the parse examples;
  - one full exchange through the graph (question, calculator call, answer);
  - the history the next turn would see;
  - a run whose scratchpad is odd.

`results.dfy` holds `Option` and `Result`. `messages.dfy` holds the four message kinds: human, AI, function with a name, and system.

Python exceptions are modelled as `Err` values, one constructor per raise site:

| raise site | error |
|---|---|
| `messages[-1]` on an empty run | `EmptyRun` |
| `ValueError("Unexpected")` | `OddScratchpad` |
| unpacking `split("</tool>")` | `Unpack(pieces)` |
| `[1]` after `split("<tool>")` | `NoToolOpen` |
| `[1]` after `split("<tool_input>")` | `NoInputOpen` |
| `messages[-1]` in `call_tool` on an empty list | `NoMessage` |

Two consequences of the code are worth stating on their own:

- Every run may end with an AI message, not only the last run of the conversation: the
  trailing AI message of each run is set aside before the parity check (`CollapseParity`). So
  `[AI, Function, AI]` between two human messages collapses, while `[Function, AI]` raises.
- The history need not alternate human and AI messages: a conversation that opens with
  non-human messages yields an AI message first. `NoAdjacentRuns` states what does hold: no
  two non-human messages are ever adjacent.

## Model

| member | source | states |
|---|---|---|
| Collapse.CollapseMessages | backend/app/agent_types/xml_agent.py:18-34 | Fails exactly when the run is empty or its scratchpad (the run minus a trailing AI message) has odd length. Otherwise it returns one AI message: the in-order entries `action + "<observation>" + observation + "</observation>"`, then the final AI text. It agrees with the reference `CollapseRun`, although it reads pairs from the run rather than the scratchpad. |
| Collapse.Scratchpad | backend/app/agent_types/xml_agent.py:20-25 | The scratchpad is a prefix of the run, so `messages[i]` and `scratchpad[i]` name the same message. It is one shorter than the run exactly when the run ends with an AI message. |
| Collapse.CollapseParity | backend/app/agent_types/xml_agent.py:20-27 | A non-empty run collapses exactly when "its length is odd" coincides with "it ends with an AI message". The result is then an AI message. |
| Collapse.CollapsePairs | backend/app/agent_types/xml_agent.py:28-34 | An even block of pairs followed by an optional final AI message collapses to the pair transcript plus the final text, with no marker around the final text. |
| Collapse.TranscriptAppend | backend/app/agent_types/xml_agent.py:28-31 | The transcript of two even blocks is the concatenation of their transcripts, so the loop's `log +=` builds the transcript of the whole scratchpad. |
| Collapse.ConstructChatHistory | backend/app/agent_types/xml_agent.py:37-53 | The loop either returns the same history as the segment-wise definition `ChatHistory` or raises the same error. That error is the first run, in order, that fails to collapse, including a trailing run flushed after the loop. |
| Collapse.SegmentsPartition | backend/app/agent_types/xml_agent.py:40-47 | The loop's segments concatenate back to the conversation. Every turn is human, every run is non-empty and human-free, and no two runs are adjacent (runs are maximal). |
| Collapse.SegmentsUnique | backend/app/agent_types/xml_agent.py:40-47 | Any segmentation with those properties is the one the loop finds. |
| Collapse.ChatHistoryShape | backend/app/agent_types/xml_agent.py:37-53 | The history exists exactly when every run collapses. It then has one message per segment, in order: each human turn unchanged, and each run as its collapsed AI message. |
| Collapse.HumansPreserved | backend/app/agent_types/xml_agent.py:41-45 | The human messages of the history are exactly those of the conversation, unchanged and in order. |
| Collapse.NoAdjacentRuns | backend/app/agent_types/xml_agent.py:40-51 | No two adjacent messages of the history are both non-human. |
| Collapse.AllHumanUnchanged | backend/app/agent_types/xml_agent.py:37-53 | A conversation of human messages only, including the empty one and a lone human message, is its own history. |
| Collapse.HistoryKinds | backend/app/agent_types/xml_agent.py:43-51 | The history holds only human and AI messages. |
| Collapse.HistoryAppendHuman | backend/app/agent_types/xml_agent.py:41-45 | Appending a human message to a conversation appends it, unchanged, to the history. Errors are kept. |
| Collapse.HistoryAppendRun | backend/app/agent_types/xml_agent.py:42-51 | A run appended after a human message adds its collapse to the history, or raises the collapse error. |
| PyStr.Find | backend/app/agent_types/xml_agent.py:81 | `find` returns the leftmost index at which the pattern occurs, or nothing when it occurs nowhere. |
| PyStr.SplitJoin | backend/app/agent_types/xml_agent.py:92 | `sep.join(s.split(sep)) == s`: splitting loses no text. |
| PyStr.SplitPiecesFree | backend/app/agent_types/xml_agent.py:92 | No piece returned by `split` contains the separator. |
| PyStr.SplitSecond | backend/app/agent_types/xml_agent.py:93-94 | `s.split(sep)[1]` exists exactly when `sep` occurs in `s`. It is the text between the first occurrence and the next one, or the end of `s`. |
| PyStr.SplitTwoIffOnce | backend/app/agent_types/xml_agent.py:92 | For a separator whose first character does not recur, `split` yields exactly two pieces iff the separator occurs exactly once. |
| Directives.ShouldContinue | backend/app/agent_types/xml_agent.py:79-84 | "continue" exactly when `</tool>` occurs in the last message's content, "end" exactly when it does not. |
| Directives.ParseErrors | backend/app/agent_types/xml_agent.py:92-94 | Python checks these conditions in order:<br>1. Unpacking fails, reporting the piece count, exactly when `</tool>` does not occur exactly once.<br>2. Otherwise, `NoToolOpen` is raised exactly when no `<tool>` occurs before it.<br>3. Otherwise, `NoInputOpen` is raised exactly when no `<tool_input>` occurs after it. |
| Directives.ParseSucceedsIff | backend/app/agent_types/xml_agent.py:92-94 | Parsing succeeds exactly when there is one `</tool>`, a `<tool>` before it and a `<tool_input>` after it. |
| Directives.ParseFields | backend/app/agent_types/xml_agent.py:92-96 | On success:<br>- the tool name is the text after the first `<tool>` in the part before `</tool>`, up to the next `<tool>` or the end;<br>- the raw input is the text after the first `<tool_input>` in the part after `</tool>`;<br>- the tool input is that raw input, cut at its first `</tool_input>` when there is one. |
| Directives.FieldAfterIsSplit | backend/app/agent_types/xml_agent.py:93-94 | Conversely, the field after the first marker determines the string: it is exactly `s.split(marker)[1]`. |
| Directives.ParseFormat | backend/app/agent_types/xml_agent.py:92-96 | Parsing `<tool>NAME</tool><tool_input>INPUT`, the text a model stopped at `</tool_input>` emits, returns `(NAME, INPUT)` whenever neither field contains `<`. |
| Directives.ParseFormatClosed | backend/app/agent_types/xml_agent.py:95-96 | With `</tool_input>` and any trailing text after the input, parsing still returns `(NAME, INPUT)`, under the same condition on the fields. |
| AgentLoop.Prompt | backend/app/agent_types/xml_agent.py:70-73 | The prompt exists exactly when the history does. It starts with the system message. |
| AgentLoop.PromptShape | backend/app/agent_types/xml_agent.py:70-73 | The prompt is exactly the system message followed by the history, so it is one message longer than the history and holds only human and AI messages after the first. Its human messages are those of the conversation. |
| AgentLoop.AgentReply | backend/app/agent_types/xml_agent.py:70-75 | The agent node fails exactly when the history raises, and it reports that error. Otherwise it returns the model's reply to the prompt as an AI message. |
| AgentLoop.ToolReply | backend/app/agent_types/xml_agent.py:87-106 | The action node fails on an empty list. Otherwise it fails exactly when the last message does not parse, and reports the parse error. On success it returns a function message with the tool's answer, named after the parsed tool. |
| AgentLoop.Route | backend/app/agent_types/xml_agent.py:119-141 | After `action` the next node is always `agent`. After `agent` it is `action` exactly when the new last message contains `</tool>`, and END otherwise. |
| AgentLoop.Step | backend/app/agent_types/xml_agent.py:108-141 | A successful step grows the conversation by exactly one message and moves to the node the edges pick for the new conversation. |
| AgentLoop.AgentStep | backend/app/agent_types/xml_agent.py:111-137 | The agent step appends exactly the model's reply. It goes to `action` iff the reply contains `</tool>`, and to END iff it does not. It fails iff the history raises. |
| AgentLoop.ActionStep | backend/app/agent_types/xml_agent.py:87-106 | The action step appends exactly the function message for the parsed directive and returns to `agent`. It fails iff the directive does not parse. |
| AgentLoop.Run | backend/app/agent_types/xml_agent.py:116-141 | A run adds at most one message per step. A run that has not reached END has taken every step its fuel allows. |
| AgentLoop.RunExtends | backend/app/agent_types/xml_agent.py:105-106 | For any graph of nodes, running only appends: the start conversation is a prefix of the final one. |
| AgentLoop.AlternatingCollapses | backend/app/agent_types/xml_agent.py:20-27 | A turn of the form AI, function, AI, … is human-free and always passes the parity check, whichever kind it ends with. |
| AgentLoop.InvCollapses | backend/app/agent_types/xml_agent.py:20-27 | Every reachable conversation has a history. Its history is the starting history plus the whole turn as one AI message. |
| AgentLoop.AgentStepInv | backend/app/agent_types/xml_agent.py:111-137 | From a reachable state the agent node never fails and leads to a reachable state. |
| AgentLoop.ActionStepInv | backend/app/agent_types/xml_agent.py:139-141 | From a reachable state the action node fails only with a parse error, and otherwise leads to a reachable state. |
| AgentLoop.RunPreservesInv | backend/app/agent_types/xml_agent.py:111-141 | However many steps are taken, a run from a reachable state ends in a reachable state or fails with a parse error. The history never raises. |
| AgentLoop.Reachable | backend/app/agent_types/xml_agent.py:111-141 | A run from the entry node on a conversation that ends with a human message and whose history collapses fails only with a parse error. Otherwise it extends the conversation, and the result still has a history. |
| AgentLoop.NextTurn | backend/app/agent_types/xml_agent.py:37-53 | A turn that reached END, followed by the user's next message, can be started on again. In the next history the whole turn is one AI message between the old history and the new human message. |
| Scenario.ParseUnclosed | backend/app/agent_types/xml_agent.py:92-94 | `<tool>search</tool><tool_input>weather today` parses to `("search", "weather today")`. |
| Scenario.ParseClosed | backend/app/agent_types/xml_agent.py:95-96 | `<tool>calc</tool><tool_input>2+2</tool_input>extra` parses to `("calc", "2+2")`. |
| Scenario.ParsePlain | backend/app/agent_types/xml_agent.py:92 | A plain answer raises at unpacking, with one piece. |
| Scenario.Exchange | backend/app/agent_types/xml_agent.py:108-141 | Started on a question, with a model that calls the calculator once and a calculator that answers `4`, the graph ends at END after three steps. The final conversation is: question, call, function answer named `calc`, final answer. |
| Scenario.ExchangeHistory | backend/app/agent_types/xml_agent.py:28-34 | The history of that conversation is the question followed by one AI message: `call<observation>4</observation>` then the final answer. |
| Scenario.OrphanAnswer | backend/app/agent_types/xml_agent.py:26-27 | A function message with no call before it makes the history raise the parity error. |

## Left out

- The language model call, including its `stop=["</tool_input>"]` binding (line 68), is left out because it is a foreign call. The model is an arbitrary function from prompt messages to reply text. Nothing is assumed about what it emits, and `ParseFormatClosed` covers replies that carry the stop text anyway.
- `ToolExecutor`, `ainvoke` and the `str(response)` conversion (lines 76, 102, 104) are left out because they are foreign and asynchronous. The tool is an arbitrary function from (name, input) to answer text, so unknown-tool lookup and tool failures are not modelled.
- Template formatting with `xml_template.format` and `render_text_description` (lines 62-66) is left out because it is foreign. The system prompt is a parameter.
- `MessageGraph`, `compile` and the checkpointer (lines 108, 146) are left out because they are library plumbing and persistence. Only the nodes, edges and append-only message list are modelled.
- Async suspension is left out; steps are strictly sequential.
- AgentLoop.Run: the graph library's recursion limit is not modelled. A run takes at most `fuel` steps and stops early only at END or on an error.
- Directives.ShouldContinue requires a non-empty conversation. Python's `messages[-1]` would raise on an empty list, but the graph only calls `should_continue` after the agent node has appended a message.
- AgentLoop.Route requires a non-empty conversation for the same reason. Its precondition also excludes END, which never runs.
- AgentLoop.Step requires a state that is not END, because END has no node to run.
- PyStr.Split requires a non-empty separator. Python raises on an empty one, but every separator in the source is a non-empty literal.
- Directives.ParseFormat and Directives.ParseFormatClosed state the round trip only for tool names and inputs without `<`. A field that contains a marker is parsed differently; `ParseFields` states what is extracted in general.

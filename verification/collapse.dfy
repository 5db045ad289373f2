/** History collapsing: every maximal run of non-human messages between human turns is folded
    into a single AI message whose text is the linear transcript of that run. */
module Collapse {
  import opened Results
  import opened Messages

  const ObservationOpen: string := "<observation>"
  const ObservationClose: string := "</observation>"

  datatype CollapseError =
    | EmptyRun       // `messages[-1]` on an empty list raises IndexError
    | OddScratchpad  // `raise ValueError("Unexpected")`: an action without its observation

  // ---------------------------------------------------------------------------
  // Collapsing one run

  /** The text one (action, observation) pair contributes: the action verbatim, then the
      observation wrapped in observation markers, with no separator in between. */
  function Entry(action: Message, observation: Message): string
  {
    action.content + ObservationOpen + observation.content + ObservationClose
  }

  /** The in-order concatenation of the entries of consecutive pairs. Any two messages form a
      pair: the roles are not inspected. */
  function Transcript(pairs: seq<Message>): string
    requires |pairs| % 2 == 0
    decreases |pairs|
  {
    if |pairs| == 0 then "" else Entry(pairs[0], pairs[1]) + Transcript(pairs[2..])
  }

  /** The transcript of two even blocks is the concatenation of their transcripts. */
  lemma {:induction false} TranscriptAppend(a: seq<Message>, b: seq<Message>)
    requires |a| % 2 == 0 && |b| % 2 == 0
    ensures Transcript(a + b) == Transcript(a) + Transcript(b)
    decreases |a|
  {
    if |a| > 0 {
      assert (a + b)[2..] == a[2..] + b;
      TranscriptAppend(a[2..], b);
    } else {
      assert a + b == b;
    }
  }

  /** Extending an even prefix by one more pair appends exactly that pair's entry. */
  lemma TranscriptSnoc(pairs: seq<Message>, i: nat)
    requires i % 2 == 0 && i + 2 <= |pairs|
    ensures Transcript(pairs[..i + 2]) == Transcript(pairs[..i]) + Entry(pairs[i], pairs[i + 1])
  {
    assert pairs[..i + 2] == pairs[..i] + [pairs[i], pairs[i + 1]];
    TranscriptAppend(pairs[..i], [pairs[i], pairs[i + 1]]);
  }

  predicate EndsWithAI(run: seq<Message>)
  {
    |run| > 0 && run[|run| - 1].AI?
  }

  /** The run without its trailing AI message, if it has one. It is always a prefix of the run,
      which is why indexing the run instead of the scratchpad reads the same messages. */
  function Scratchpad(run: seq<Message>): (sp: seq<Message>)
    ensures sp <= run
    ensures forall i :: 0 <= i < |sp| ==> sp[i] == run[i]
    ensures |sp| == if EndsWithAI(run) then |run| - 1 else |run|
  {
    if EndsWithAI(run) then run[..|run| - 1] else run
  }

  /** The content of the trailing AI message (the pending final answer), or nothing. */
  function FinalText(run: seq<Message>): string
  {
    if EndsWithAI(run) then run[|run| - 1].content else ""
  }

  /** What `_collapse_messages` returns or raises for a run. */
  function CollapseRun(run: seq<Message>): Result<Message, CollapseError>
  {
    if |run| == 0 then Err(EmptyRun)
    else
      var sp := Scratchpad(run);
      if |sp| % 2 != 0 then Err(OddScratchpad)
      else Ok(AI(Transcript(sp) + FinalText(run)))
  }

  /** `_collapse_messages`: walk the scratchpad two messages at a time, reading the pair from
      the run itself, and append the final answer last. */
  method CollapseMessages(messages: seq<Message>) returns (r: Result<Message, CollapseError>)
    ensures r.Err? <==> |messages| == 0 || |Scratchpad(messages)| % 2 != 0
    ensures r.Ok? ==> r.value == AI(Transcript(Scratchpad(messages)) + FinalText(messages))
    ensures r == CollapseRun(messages)
  {
    if |messages| == 0 {
      return Err(EmptyRun);
    }
    var log: string := "";
    var scratchpad: seq<Message>;
    var final: Option<Message>;
    if messages[|messages| - 1].AI? {
      scratchpad := messages[..|messages| - 1];
      final := Some(messages[|messages| - 1]);
    } else {
      scratchpad := messages;
      final := None;
    }
    if |scratchpad| % 2 != 0 {
      return Err(OddScratchpad);
    }
    var i := 0;
    while i < |scratchpad|
      invariant 0 <= i <= |scratchpad| && i % 2 == 0
      invariant log == Transcript(scratchpad[..i])
    {
      assert i + 2 <= |scratchpad|;
      var action := messages[i];
      var observation := messages[i + 1];
      assert action == scratchpad[i] && observation == scratchpad[i + 1];
      TranscriptSnoc(scratchpad, i);
      log := log + Entry(action, observation);
      i := i + 2;
    }
    assert scratchpad[..i] == scratchpad;
    if final.Some? {
      log := log + final.value.content;
    }
    return Ok(AI(log));
  }

  /** Parity rule, stated on the run itself: a non-empty run collapses exactly when its length
      is odd precisely in the case that it ends with an AI message. */
  lemma CollapseParity(run: seq<Message>)
    requires |run| > 0
    ensures CollapseRun(run).Ok? <==> (|run| % 2 == 1 <==> run[|run| - 1].AI?)
    ensures CollapseRun(run).Ok? ==> CollapseRun(run).value.AI?
  {
  }

  /** Collapsing `n` pairs followed by an optional final answer. */
  lemma CollapsePairs(pairs: seq<Message>, final: seq<Message>)
    requires |pairs| % 2 == 0 && |final| <= 1
    requires |final| == 1 ==> final[0].AI?
    requires |final| == 0 ==> !EndsWithAI(pairs)
    requires |pairs| + |final| > 0
    ensures CollapseRun(pairs + final)
         == Ok(AI(Transcript(pairs) + (if |final| == 1 then final[0].content else "")))
  {
    if |final| == 1 {
      assert (pairs + final)[..|pairs + final| - 1] == pairs;
    } else {
      assert pairs + final == pairs;
    }
  }

  // ---------------------------------------------------------------------------
  // Splitting a conversation at human turns

  /** A piece of a conversation: one human turn, or a maximal run of other messages. */
  datatype Segment = Turn(message: Message) | Block(messages: seq<Message>)

  /** The messages a segment stands for. */
  function Members(seg: Segment): seq<Message>
  {
    match seg
    case Turn(m) => [m]
    case Block(run) => run
  }

  function Flatten(segs: seq<Segment>): seq<Message>
    decreases |segs|
  {
    if |segs| == 0 then [] else Flatten(segs[..|segs| - 1]) + Members(segs[|segs| - 1])
  }

  predicate SegmentOk(seg: Segment)
  {
    match seg
    case Turn(m) => m.Human?
    case Block(run) => |run| > 0 && forall i :: 0 <= i < |run| ==> !run[i].Human?
  }

  /** Every turn is human, every run is non-empty and human-free, and runs are maximal. */
  predicate WellSegmented(segs: seq<Segment>)
  {
    && (forall k :: 0 <= k < |segs| ==> SegmentOk(segs[k]))
    && (forall k :: 0 <= k < |segs| - 1 ==> segs[k].Turn? || segs[k + 1].Turn?)
  }

  /** One step of the scan: a human message closes the open run (if any) and becomes a turn;
      any other message joins the open run or opens a new one. */
  function Extend(segs: seq<Segment>, m: Message): seq<Segment>
  {
    if m.Human? then segs + [Turn(m)]
    else if |segs| > 0 && segs[|segs| - 1].Block? then
      segs[..|segs| - 1] + [Block(segs[|segs| - 1].messages + [m])]
    else segs + [Block([m])]
  }

  /** The segments `construct_chat_history` discovers, in the order its loop closes them. */
  function Segments(ms: seq<Message>): (segs: seq<Segment>)
    ensures |segs| == 0 <==> |ms| == 0
    ensures |ms| > 0 && ms[|ms| - 1].Human? ==> segs[|segs| - 1] == Turn(ms[|ms| - 1])
    ensures |ms| > 0 && !ms[|ms| - 1].Human? ==> segs[|segs| - 1].Block?
    decreases |ms|
  {
    if |ms| == 0 then [] else Extend(Segments(ms[..|ms| - 1]), ms[|ms| - 1])
  }

  lemma SegmentsSnoc(p: seq<Message>, m: Message)
    ensures Segments(p + [m]) == Extend(Segments(p), m)
  {
    assert (p + [m])[..|p|] == p;
  }

  lemma FlattenSnoc(segs: seq<Segment>, seg: Segment)
    ensures Flatten(segs + [seg]) == Flatten(segs) + Members(seg)
  {
    assert (segs + [seg])[..|segs|] == segs;
  }

  lemma WellSegmentedSnoc(front: seq<Segment>, seg: Segment)
    ensures WellSegmented(front + [seg]) <==>
      && WellSegmented(front)
      && SegmentOk(seg)
      && (|front| > 0 ==> front[|front| - 1].Turn? || seg.Turn?)
  {
    var segs := front + [seg];
    assert forall k :: 0 <= k < |front| ==> segs[k] == front[k];
    assert segs[|front|] == seg;
  }

  lemma WellSegmentedFront(front: seq<Segment>, seg: Segment)
    requires WellSegmented(front + [seg])
    ensures WellSegmented(front) && SegmentOk(seg)
    ensures |front| > 0 ==> front[|front| - 1].Turn? || seg.Turn?
  {
    WellSegmentedSnoc(front, seg);
  }

  /** Extending a well-formed segmentation keeps it well formed and adds exactly `m`. */
  lemma ExtendPartition(segs: seq<Segment>, m: Message)
    requires WellSegmented(segs)
    ensures WellSegmented(Extend(segs, m))
    ensures Flatten(Extend(segs, m)) == Flatten(segs) + [m]
  {
    if m.Human? {
      FlattenSnoc(segs, Turn(m));
      WellSegmentedSnoc(segs, Turn(m));
    } else if |segs| > 0 && segs[|segs| - 1].Block? {
      var front := segs[..|segs| - 1];
      var run := segs[|segs| - 1].messages;
      assert segs == front + [Block(run)];
      ExtendOpenRun(front, run, m);
    } else {
      FlattenSnoc(segs, Block([m]));
      WellSegmentedSnoc(segs, Block([m]));
    }
  }

  /** A non-human message joins the open run at the end. */
  lemma ExtendOpenRun(front: seq<Segment>, run: seq<Message>, m: Message)
    requires WellSegmented(front + [Block(run)]) && !m.Human?
    ensures WellSegmented(front + [Block(run + [m])])
    ensures Flatten(front + [Block(run + [m])]) == Flatten(front + [Block(run)]) + [m]
  {
    FlattenSnoc(front, Block(run));
    FlattenSnoc(front, Block(run + [m]));
    WellSegmentedSnoc(front, Block(run));
    WellSegmentedSnoc(front, Block(run + [m]));
    assert SegmentOk(Block(run + [m]));
  }

  /** `Segments` cuts the conversation into well-formed pieces and loses nothing. */
  lemma {:induction false} SegmentsPartition(ms: seq<Message>)
    ensures Flatten(Segments(ms)) == ms
    ensures WellSegmented(Segments(ms))
    decreases |ms|
  {
    if |ms| > 0 {
      var p := ms[..|ms| - 1];
      var m := ms[|ms| - 1];
      assert ms == p + [m];
      SegmentsSnoc(p, m);
      SegmentsPartition(p);
      ExtendPartition(Segments(p), m);
    }
  }

  /** Dropping the last message of a well-formed segmentation. */
  lemma Retract(segs: seq<Segment>)
    requires WellSegmented(segs) && |segs| > 0
    ensures var ms := Flatten(segs);
      |ms| > 0 && exists front :: Retracted(segs, front)
  {
    var front := segs[..|segs| - 1];
    assert segs == front + [segs[|segs| - 1]];
    match segs[|segs| - 1]
    case Turn(h) =>
      RetractTurn(front, h);
    case Block(run) =>
      if |run| == 1 {
        RetractSingle(front, run);
      } else {
        RetractRun(front, run);
      }
  }

  /** `front` is `segs` with its last message taken back. */
  ghost predicate Retracted(segs: seq<Segment>, front: seq<Segment>)
  {
    var ms := Flatten(segs);
    && |ms| > 0
    && WellSegmented(front)
    && Flatten(front) == ms[..|ms| - 1]
    && Extend(front, ms[|ms| - 1]) == segs
  }

  /** Dropping a closing human turn. */
  lemma RetractTurn(front: seq<Segment>, h: Message)
    requires WellSegmented(front + [Turn(h)])
    ensures Retracted(front + [Turn(h)], front)
  {
    var segs := front + [Turn(h)];
    WellSegmentedFront(front, Turn(h));
    FlattenSnoc(front, Turn(h));
    var ms := Flatten(segs);
    assert ms[..|ms| - 1] == Flatten(front);
  }

  /** Dropping a closing run of one message. */
  lemma RetractSingle(front: seq<Segment>, run: seq<Message>)
    requires WellSegmented(front + [Block(run)]) && |run| == 1
    ensures Retracted(front + [Block(run)], front)
  {
    var segs := front + [Block(run)];
    WellSegmentedFront(front, Block(run));
    FlattenSnoc(front, Block(run));
    var m := run[0];
    assert run == [m];
    var ms := Flatten(segs);
    assert ms == Flatten(front) + [m];
    assert ms[..|ms| - 1] == Flatten(front);
  }

  /** Dropping the last message of a run of two or more messages. */
  lemma RetractRun(front: seq<Segment>, run: seq<Message>)
    requires WellSegmented(front + [Block(run)]) && |run| > 1
    ensures Retracted(front + [Block(run)], front + [Block(run[..|run| - 1])])
  {
    var m := run[|run| - 1];
    var run' := run[..|run| - 1];
    var shorter := front + [Block(run')];
    assert run == run' + [m];
    assert shorter[..|shorter| - 1] == front;
    FlattenSnoc(front, Block(run'));
    FlattenSnoc(front, Block(run));
    WellSegmentedSnoc(front, Block(run));
    WellSegmentedSnoc(front, Block(run'));
    assert SegmentOk(Block(run')) by {
      assert forall i :: 0 <= i < |run'| ==> run'[i] == run[i];
    }
  }

  /** `Segments` is the only well-formed segmentation of a conversation. */
  lemma {:induction false} SegmentsUnique(ms: seq<Message>, segs: seq<Segment>)
    requires WellSegmented(segs) && Flatten(segs) == ms
    ensures segs == Segments(ms)
    decreases |ms|
  {
    if |segs| > 0 {
      Retract(segs);
      var front :| Retracted(segs, front);
      SegmentsUnique(ms[..|ms| - 1], front);
    }
  }

  /** A human message is a segment boundary: the segments of `p + q` are those of `p` followed
      by those of `q` whenever `p` ends with a human turn. */
  lemma {:induction false} SegmentsAfterHuman(p: seq<Message>, q: seq<Message>)
    requires |p| > 0 && p[|p| - 1].Human?
    ensures Segments(p + q) == Segments(p) + Segments(q)
    decreases |q|
  {
    if |q| == 0 {
      assert p + q == p;
    } else {
      var q' := q[..|q| - 1];
      var m := q[|q| - 1];
      assert p + q == (p + q') + [m];
      assert q == q' + [m];
      SegmentsSnoc(p + q', m);
      SegmentsSnoc(q', m);
      SegmentsAfterHuman(p, q');
      ExtendAfterTurn(Segments(p), Segments(q'), m);
    }
  }

  /** Extending never reaches back past a closed turn. */
  lemma ExtendAfterTurn(a: seq<Segment>, b: seq<Segment>, m: Message)
    requires |a| > 0 && a[|a| - 1].Turn?
    ensures Extend(a + b, m) == a + Extend(b, m)
  {
    if !m.Human? && |b| > 0 && b[|b| - 1].Block? {
      assert (a + b)[..|a + b| - 1] == a + b[..|b| - 1];
    }
  }

  /** A non-empty run of non-human messages is a single segment. */
  lemma {:induction false} SegmentsOfRun(run: seq<Message>)
    requires |run| > 0 && forall i :: 0 <= i < |run| ==> !run[i].Human?
    ensures Segments(run) == [Block(run)]
    decreases |run|
  {
    var p := run[..|run| - 1];
    assert run == p + [run[|run| - 1]];
    SegmentsSnoc(p, run[|run| - 1]);
    if |run| > 1 {
      SegmentsOfRun(p);
    }
  }

  // ---------------------------------------------------------------------------
  // construct_chat_history

  /** The message one segment contributes to the history. */
  function Emit(seg: Segment): Result<Message, CollapseError>
  {
    match seg
    case Turn(h) => Ok(h)
    case Block(run) => CollapseRun(run)
  }

  /** Emit every segment in order; the first run that fails to collapse aborts with its error. */
  function Render(segs: seq<Segment>): Result<seq<Message>, CollapseError>
    decreases |segs|
  {
    if |segs| == 0 then Ok([])
    else
      match Render(segs[..|segs| - 1])
      case Err(e) => Err(e)
      case Ok(out) =>
        match Emit(segs[|segs| - 1])
        case Err(e) => Err(e)
        case Ok(m) => Ok(out + [m])
  }

  /** What `construct_chat_history` returns or raises for a conversation. */
  function ChatHistory(ms: seq<Message>): Result<seq<Message>, CollapseError>
  {
    Render(Segments(ms))
  }

  lemma RenderSnoc(segs: seq<Segment>, seg: Segment)
    ensures Render(segs + [seg]) ==
      match Render(segs)
      case Err(e) => Err(e)
      case Ok(out) =>
        match Emit(seg)
        case Err(e) => Err(e)
        case Ok(m) => Ok(out + [m])
  {
    assert (segs + [seg])[..|segs|] == segs;
  }

  /** Rendering distributes over concatenation, errors of the left part taking precedence. */
  lemma {:induction false} RenderAppend(a: seq<Segment>, b: seq<Segment>)
    ensures Render(a + b) ==
      match Render(a)
      case Err(e) => Err(e)
      case Ok(x) =>
        match Render(b)
        case Err(e) => Err(e)
        case Ok(y) => Ok(x + y)
    decreases |b|
  {
    if |b| == 0 {
      assert a + b == a;
      assert Render(b) == Ok([]);
      if Render(a).Ok? {
        assert Render(a).value + [] == Render(a).value;
      }
    } else {
      var b' := b[..|b| - 1];
      var seg := b[|b| - 1];
      assert a + b == (a + b') + [seg];
      assert b == b' + [seg];
      RenderSnoc(a + b', seg);
      RenderSnoc(b', seg);
      RenderAppend(a, b');
      if Render(a).Ok? && Render(b').Ok? && Emit(seg).Ok? {
        assert Render(a).value + Render(b').value + [Emit(seg).value]
            == Render(a).value + (Render(b').value + [Emit(seg).value]);
      }
    }
  }

  /** The segments seen so far by the loop of `construct_chat_history`: the closed ones, then
      the buffered run if it is non-empty. */
  ghost function Open(done: seq<Segment>, temp: seq<Message>): seq<Segment>
  {
    done + (if |temp| > 0 then [Block(temp)] else [])
  }

  lemma ExtendOpen(done: seq<Segment>, temp: seq<Message>, m: Message)
    requires |done| > 0 ==> done[|done| - 1].Turn?
    ensures m.Human? ==> Extend(Open(done, temp), m) == Open(done, temp) + [Turn(m)]
    ensures !m.Human? ==> Extend(Open(done, temp), m) == Open(done, temp + [m])
  {
    if !m.Human? {
      if |temp| > 0 {
        assert (done + [Block(temp)])[..|done|] == done;
      } else {
        assert temp + [m] == [m];
      }
    }
  }

  /** What the loop of `construct_chat_history` carries after reading `prefix`: the closed
      segments render to `collapsed`, and `temp` is the run still open. */
  ghost predicate LoopState(prefix: seq<Message>, collapsed: seq<Message>, temp: seq<Message>,
                            done: seq<Segment>)
  {
    && Render(done) == Ok(collapsed)
    && (|done| > 0 ==> done[|done| - 1].Turn?)
    && Segments(prefix) == Open(done, temp)
  }

  lemma ReadOther(prefix: seq<Message>, collapsed: seq<Message>, temp: seq<Message>,
                  done: seq<Segment>, m: Message)
    requires LoopState(prefix, collapsed, temp, done) && !m.Human?
    ensures LoopState(prefix + [m], collapsed, temp + [m], done)
  {
    SegmentsSnoc(prefix, m);
    ExtendOpen(done, temp, m);
  }

  lemma ReadHuman(prefix: seq<Message>, collapsed: seq<Message>, done: seq<Segment>, m: Message)
    requires LoopState(prefix, collapsed, [], done) && m.Human?
    ensures LoopState(prefix + [m], collapsed + [m], [], done + [Turn(m)])
  {
    SegmentsSnoc(prefix, m);
    ExtendOpen(done, [], m);
    RenderSnoc(done, Turn(m));
    assert Open(done, []) == done;
    assert Open(done + [Turn(m)], []) == done + [Turn(m)];
  }

  lemma FlushAndReadHuman(prefix: seq<Message>, collapsed: seq<Message>, temp: seq<Message>,
                          done: seq<Segment>, m: Message, c: Message)
    requires LoopState(prefix, collapsed, temp, done) && m.Human? && |temp| > 0
    requires CollapseRun(temp) == Ok(c)
    ensures LoopState(prefix + [m], collapsed + [c, m], [], done + [Block(temp), Turn(m)])
  {
    assert done + [Block(temp)] + [Turn(m)] == done + [Block(temp), Turn(m)];
    assert collapsed + [c] + [m] == collapsed + [c, m];
    assert Open(done + [Block(temp), Turn(m)], []) == done + [Block(temp), Turn(m)];
    SegmentsSnoc(prefix, m);
    ExtendOpen(done, temp, m);
    RenderSnoc(done, Block(temp));
    RenderSnoc(done + [Block(temp)], Turn(m));
  }

  /** A run that fails to collapse before a human turn makes the whole history fail. */
  lemma FlushError(messages: seq<Message>, i: nat, collapsed: seq<Message>, temp: seq<Message>,
                   done: seq<Segment>)
    requires i < |messages| && messages[i].Human? && |temp| > 0
    requires LoopState(messages[..i], collapsed, temp, done)
    requires CollapseRun(temp).Err?
    ensures ChatHistory(messages) == Err(CollapseRun(temp).error)
  {
    FlushErrorHere(messages[..i], collapsed, temp, done, messages[i]);
    assert messages[..i] + [messages[i]] == messages[..i + 1];
    ErrorBeforeHuman(messages, i + 1);
  }

  /** Once the history of a prefix ending on a human message fails, so does every extension. */
  lemma ErrorBeforeHuman(messages: seq<Message>, n: nat)
    requires 0 < n <= |messages| && messages[n - 1].Human?
    requires ChatHistory(messages[..n]).Err?
    ensures ChatHistory(messages) == ChatHistory(messages[..n])
  {
    var head := messages[..n];
    var rest := messages[n..];
    assert messages == head + rest;
    SegmentsAfterHuman(head, rest);
    RenderAppend(Segments(head), Segments(rest));
  }

  lemma FlushErrorHere(prefix: seq<Message>, collapsed: seq<Message>, temp: seq<Message>,
                       done: seq<Segment>, m: Message)
    requires LoopState(prefix, collapsed, temp, done) && m.Human? && |temp| > 0
    requires CollapseRun(temp).Err?
    ensures ChatHistory(prefix + [m]) == Err(CollapseRun(temp).error)
  {
    SegmentsSnoc(prefix, m);
    ExtendOpen(done, temp, m);
    RenderSnoc(done, Block(temp));
    RenderSnoc(done + [Block(temp)], Turn(m));
  }

  /** At the end of input the open run is flushed, if there is one. */
  lemma Finish(messages: seq<Message>, collapsed: seq<Message>, temp: seq<Message>,
               done: seq<Segment>)
    requires LoopState(messages, collapsed, temp, done)
    ensures |temp| == 0 ==> ChatHistory(messages) == Ok(collapsed)
    ensures |temp| > 0 ==> (ChatHistory(messages) ==
      match CollapseRun(temp)
      case Err(e) => Err(e)
      case Ok(c) => Ok(collapsed + [c]))
  {
    if |temp| == 0 {
      assert Open(done, temp) == done;
    } else {
      RenderSnoc(done, Block(temp));
    }
  }

  /** `construct_chat_history`: buffer non-human messages, and flush the buffer through
      `_collapse_messages` at each human message and at the end. */
  method ConstructChatHistory(messages: seq<Message>) returns (r: Result<seq<Message>, CollapseError>)
    ensures r == ChatHistory(messages)
  {
    var collapsed: seq<Message> := [];
    var temp: seq<Message> := [];
    ghost var done: seq<Segment> := [];
    var i := 0;
    while i < |messages|
      invariant 0 <= i <= |messages|
      invariant LoopState(messages[..i], collapsed, temp, done)
    {
      var message := messages[i];
      ghost var next := messages[..i + 1];
      assert next == messages[..i] + [message];
      if message.Human? {
        if |temp| > 0 {
          var c := CollapseMessages(temp);
          if c.Err? {
            FlushError(messages, i, collapsed, temp, done);
            return Err(c.error);
          }
          FlushAndReadHuman(messages[..i], collapsed, temp, done, message, c.value);
          collapsed := collapsed + [c.value, message];
          done := done + [Block(temp), Turn(message)];
          temp := [];
        } else {
          ReadHuman(messages[..i], collapsed, done, message);
          collapsed := collapsed + [message];
          done := done + [Turn(message)];
        }
      } else {
        ReadOther(messages[..i], collapsed, temp, done, message);
        temp := temp + [message];
      }
      assert LoopState(next, collapsed, temp, done);
      i := i + 1;
    }
    assert messages[..i] == messages;
    Finish(messages, collapsed, temp, done);
    if |temp| > 0 {
      var c := CollapseMessages(temp);
      if c.Err? {
        return Err(c.error);
      }
      collapsed := collapsed + [c.value];
    }
    return Ok(collapsed);
  }

  // ---------------------------------------------------------------------------
  // Shape of the collapsed history

  /** A rendering succeeds exactly when every segment can be emitted, and then it emits one
      message per segment, in order. */
  lemma {:induction false} RenderShape(segs: seq<Segment>)
    ensures Render(segs).Ok? <==> forall k :: 0 <= k < |segs| ==> Emit(segs[k]).Ok?
    ensures Render(segs).Ok? ==>
      && |Render(segs).value| == |segs|
      && forall k :: 0 <= k < |segs| ==> Emit(segs[k]) == Ok(Render(segs).value[k])
    decreases |segs|
  {
    if |segs| > 0 {
      var front := segs[..|segs| - 1];
      RenderShape(front);
      assert forall k :: 0 <= k < |front| ==> segs[k] == front[k];
    }
  }

  /** `construct_chat_history` succeeds exactly when every run of non-human messages collapses;
      it then emits each human message unchanged and each run as one AI message, in order. */
  lemma ChatHistoryShape(ms: seq<Message>)
    ensures var segs := Segments(ms);
      ChatHistory(ms).Ok? <==>
        forall k :: 0 <= k < |segs| && segs[k].Block? ==> CollapseRun(segs[k].messages).Ok?
    ensures var segs := Segments(ms);
      ChatHistory(ms).Ok? ==>
        && |ChatHistory(ms).value| == |segs|
        && forall k :: 0 <= k < |segs| ==>
             && (segs[k].Turn? ==> ChatHistory(ms).value[k] == segs[k].message)
             && (segs[k].Block? ==> ChatHistory(ms).value[k] == CollapseRun(segs[k].messages).value)
             && (segs[k].Block? ==> ChatHistory(ms).value[k].AI?)
  {
    RenderShape(Segments(ms));
  }

  /** The human messages of a conversation, in order. */
  function Humans(ms: seq<Message>): seq<Message>
    decreases |ms|
  {
    if |ms| == 0 then []
    else Humans(ms[..|ms| - 1]) + (if ms[|ms| - 1].Human? then [ms[|ms| - 1]] else [])
  }

  lemma {:induction false} HumansAppend(a: seq<Message>, b: seq<Message>)
    ensures Humans(a + b) == Humans(a) + Humans(b)
    decreases |b|
  {
    if |b| == 0 {
      assert a + b == a;
    } else {
      assert (a + b)[..|a + b| - 1] == a + b[..|b| - 1];
      HumansAppend(a, b[..|b| - 1]);
    }
  }

  lemma {:induction false} HumansOfRun(run: seq<Message>)
    requires forall i :: 0 <= i < |run| ==> !run[i].Human?
    ensures Humans(run) == []
    decreases |run|
  {
    if |run| > 0 {
      HumansOfRun(run[..|run| - 1]);
    }
  }

  lemma {:induction false} RenderKeepsHumans(segs: seq<Segment>)
    requires WellSegmented(segs) && Render(segs).Ok?
    ensures Humans(Render(segs).value) == Humans(Flatten(segs))
    decreases |segs|
  {
    if |segs| > 0 {
      var front := segs[..|segs| - 1];
      var last := segs[|segs| - 1];
      assert segs == front + [last];
      WellSegmentedSnoc(front, last);
      RenderSnoc(front, last);
      RenderKeepsHumans(front);
      FlattenSnoc(front, last);
      HumansAppend(Flatten(front), Members(last));
      var out := Render(front).value;
      var m := Emit(last).value;
      HumansAppend(out, [m]);
      assert Humans([m]) == Humans([] + [m]);
      if last.Block? {
        HumansOfRun(last.messages);
      }
    }
  }

  /** Every human message survives collapsing unchanged and in its original order, and no
      other human message appears. */
  lemma HumansPreserved(ms: seq<Message>)
    requires ChatHistory(ms).Ok?
    ensures Humans(ChatHistory(ms).value) == Humans(ms)
  {
    SegmentsPartition(ms);
    RenderKeepsHumans(Segments(ms));
  }

  /** After collapsing, no two adjacent messages are both non-human. */
  lemma NoAdjacentRuns(ms: seq<Message>)
    requires ChatHistory(ms).Ok?
    ensures var out := ChatHistory(ms).value;
      forall k :: 0 <= k < |out| - 1 ==> out[k].Human? || out[k + 1].Human?
  {
    SegmentsPartition(ms);
    ChatHistoryShape(ms);
    var segs := Segments(ms);
    var out := ChatHistory(ms).value;
    forall k | 0 <= k < |out| - 1
      ensures out[k].Human? || out[k + 1].Human?
    {
      assert segs[k].Turn? || segs[k + 1].Turn?;
      assert SegmentOk(segs[k]) && SegmentOk(segs[k + 1]);
    }
  }

  /** A conversation of human messages only is returned unchanged; in particular the empty
      conversation gives an empty history and a lone human message is returned as is. */
  lemma {:induction false} AllHumanUnchanged(ms: seq<Message>)
    requires forall i :: 0 <= i < |ms| ==> ms[i].Human?
    ensures ChatHistory(ms) == Ok(ms)
    decreases |ms|
  {
    if |ms| > 0 {
      var p := ms[..|ms| - 1];
      var m := ms[|ms| - 1];
      AllHumanUnchanged(p);
      SegmentsSnoc(p, m);
      assert ms == p + [m];
      RenderSnoc(Segments(p), Turn(m));
    }
  }

  /** The collapsed history holds only human and AI messages: function and system messages
      only ever reach it folded into an AI message. */
  lemma HistoryKinds(ms: seq<Message>)
    requires ChatHistory(ms).Ok?
    ensures var out := ChatHistory(ms).value;
      forall k :: 0 <= k < |out| ==> out[k].Human? || out[k].AI?
  {
    SegmentsPartition(ms);
    RenderKinds(Segments(ms));
  }

  lemma RenderKinds(segs: seq<Segment>)
    requires forall k :: 0 <= k < |segs| ==> SegmentOk(segs[k])
    requires Render(segs).Ok?
    ensures forall k :: 0 <= k < |Render(segs).value| ==>
      Render(segs).value[k].Human? || Render(segs).value[k].AI?
  {
    RenderShape(segs);
    var out := Render(segs).value;
    forall k | 0 <= k < |out|
      ensures out[k].Human? || out[k].AI?
    {
      assert SegmentOk(segs[k]);
      assert Emit(segs[k]) == Ok(out[k]);
    }
  }

  /** A human message appended to a conversation is appended, unchanged, to its history. */
  lemma HistoryAppendHuman(ms: seq<Message>, h: Message)
    requires h.Human?
    ensures ChatHistory(ms + [h]) ==
      match ChatHistory(ms)
      case Err(e) => Err(e)
      case Ok(out) => Ok(out + [h])
  {
    SegmentsSnoc(ms, h);
    RenderSnoc(Segments(ms), Turn(h));
  }

  /** A run of non-human messages after a human message is collapsed on its own and added
      to the history of what came before. */
  lemma HistoryAppendRun(base: seq<Message>, run: seq<Message>)
    requires |base| > 0 && base[|base| - 1].Human?
    requires |run| > 0 && forall i :: 0 <= i < |run| ==> !run[i].Human?
    ensures ChatHistory(base + run) ==
      match ChatHistory(base)
      case Err(e) => Err(e)
      case Ok(out) =>
        match CollapseRun(run)
        case Err(e) => Err(e)
        case Ok(m) => Ok(out + [m])
  {
    SegmentsAfterHuman(base, run);
    SegmentsOfRun(run);
    RenderAppend(Segments(base), [Block(run)]);
    RenderSnoc([], Block(run));
    assert [] + [Block(run)] == [Block(run)];
  }
}

/** The tool-directive half of the loop: deciding whether the model asked for a tool, and
    extracting the tool name and tool input from `<tool>NAME</tool><tool_input>INPUT`. */
module Directives {
  import opened Results
  import opened Messages
  import opened PyStr

  const ToolOpen: string := "<tool>"
  const ToolClose: string := "</tool>"
  const InputOpen: string := "<tool_input>"
  const InputClose: string := "</tool_input>"

  /** Each marker starts with `<` and has no other `<`, so none of them can overlap itself. */
  lemma MarkersHeadUnique()
    ensures HeadUnique(ToolOpen) && HeadUnique(ToolClose)
    ensures HeadUnique(InputOpen) && HeadUnique(InputClose)
  {
  }

  /** `pat` occurs somewhere in `s`. */
  ghost predicate Occurs(s: string, pat: string)
  {
    exists i: nat :: IsAt(s, pat, i)
  }

  // ---------------------------------------------------------------------------
  // should_continue

  /** The two labels of the conditional edge: "continue" and "end". */
  datatype Decision = Continue | Finish

  /** `should_continue`: a tool call is wanted exactly when the latest message contains
      `</tool>`. */
  function ShouldContinue(messages: seq<Message>): (d: Decision)
    requires |messages| > 0
    ensures d == Continue <==> Occurs(messages[|messages| - 1].content, ToolClose)
    ensures d == Finish <==> !Occurs(messages[|messages| - 1].content, ToolClose)
  {
    ContainsIff(messages[|messages| - 1].content, ToolClose);
    if Contains(messages[|messages| - 1].content, ToolClose) then Continue else Finish
  }

  // ---------------------------------------------------------------------------
  // The parsing half of call_tool

  /** A parsed directive: the `ToolInvocation` built from the latest message. */
  datatype Directive = Directive(tool: string, toolInput: string)

  datatype ParseError =
    | Unpack(pieces: nat)  // ValueError: unpacking `split("</tool>")` needs exactly two pieces
    | NoToolOpen           // IndexError: `tool.split("<tool>")[1]`
    | NoInputOpen          // IndexError: `tool_input.split("<tool_input>")[1]`

  /** The parsing steps of `call_tool`, failing where Python raises. */
  function ParseDirective(content: string): Result<Directive, ParseError>
  {
    var parts := Split(content, ToolClose);
    if |parts| != 2 then Err(Unpack(|parts|))
    else
      var tool := parts[0];
      var toolInput := parts[1];
      var toolPieces := Split(tool, ToolOpen);
      if |toolPieces| < 2 then Err(NoToolOpen)
      else
        var inputPieces := Split(toolInput, InputOpen);
        if |inputPieces| < 2 then Err(NoInputOpen)
        else
          var rawInput := inputPieces[1];
          var input := if Contains(rawInput, InputClose) then Split(rawInput, InputClose)[0] else rawInput;
          Ok(Directive(toolPieces[1], input))
  }

  /** `i` is the leftmost occurrence of `pat` in `s`. */
  ghost predicate FirstAt(s: string, pat: string, i: nat)
  {
    IsAt(s, pat, i) && forall j: nat :: j < i ==> !IsAt(s, pat, j)
  }

  /** `f` is the text following the first `marker` in `s`, up to the next `marker` or the end. */
  ghost predicate FieldAfter(s: string, marker: string, f: string)
  {
    exists a: nat :: FirstAt(s, marker, a) && PrefixUpTo(s[a + |marker|..], marker, f)
  }

  /** What a directive must look like to parse: exactly one `</tool>`, with a `<tool>`
      somewhere before it and a `<tool_input>` somewhere after it. */
  ghost predicate Parsable(c: string)
  {
    exists i: nat ::
      && IsAt(c, ToolClose, i)
      && (forall j: nat :: IsAt(c, ToolClose, j) ==> j == i)
      && Occurs(c[..i], ToolOpen)
      && Occurs(c[i + |ToolClose|..], InputOpen)
  }

  /** With exactly one `</tool>`, unpacking yields the text before and the text after it. */
  lemma TwoPieces(c: string)
    requires OccursOnce(c, ToolClose)
    ensures Find(c, ToolClose).Some?
    ensures var i := Find(c, ToolClose).value;
      Split(c, ToolClose) == [c[..i], c[i + |ToolClose|..]]
  {
    MarkersHeadUnique();
    SplitTwoIffOnce(c, ToolClose);
    var i := Find(c, ToolClose).value;
    SplitUnfold(c, ToolClose, i);
  }

  /** Which error `call_tool` raises, in the order Python reaches them. */
  lemma ParseErrors(c: string)
    ensures (ParseDirective(c).Err? && ParseDirective(c).error.Unpack?) <==> !OccursOnce(c, ToolClose)
    ensures ParseDirective(c).Err? && ParseDirective(c).error.Unpack? ==>
      ParseDirective(c).error.pieces == |Split(c, ToolClose)| != 2
    ensures OccursOnce(c, ToolClose) ==>
      && Find(c, ToolClose).Some?
      && var i := Find(c, ToolClose).value;
      && (ParseDirective(c) == Err(NoToolOpen) <==> !Occurs(c[..i], ToolOpen))
      && (ParseDirective(c) == Err(NoInputOpen) <==>
            Occurs(c[..i], ToolOpen) && !Occurs(c[i + |ToolClose|..], InputOpen))
  {
    MarkersHeadUnique();
    SplitTwoIffOnce(c, ToolClose);
    if OccursOnce(c, ToolClose) {
      TwoPieces(c);
      var i := Find(c, ToolClose).value;
      var before := c[..i];
      var after := c[i + |ToolClose|..];
      SplitSecond(before, ToolOpen);
      SplitSecond(after, InputOpen);
      ContainsIff(before, ToolOpen);
      ContainsIff(after, InputOpen);
    }
  }

  /** Parsing succeeds exactly when the directive is well formed. */
  lemma ParseSucceedsIff(c: string)
    ensures ParseDirective(c).Ok? <==> Parsable(c)
  {
    if Parsable(c) {
      ParsableParses(c);
    }
    if ParseDirective(c).Ok? {
      ParsesParsable(c);
    }
  }

  lemma ParsableParses(c: string)
    requires Parsable(c)
    ensures ParseDirective(c).Ok?
  {
    var i: nat :| IsAt(c, ToolClose, i) && (forall j: nat :: IsAt(c, ToolClose, j) ==> j == i)
                  && Occurs(c[..i], ToolOpen) && Occurs(c[i + |ToolClose|..], InputOpen);
    var before := c[..i];
    var after := c[i + |ToolClose|..];
    assert Find(c, ToolClose) == Some(i) by {
      assert FirstAt(c, ToolClose, i);
      FirstAtIsFind(c, ToolClose, i);
    }
    assert OccursOnce(c, ToolClose);
    assert |Split(before, ToolOpen)| >= 2 by {
      ContainsIff(before, ToolOpen);
      SplitSecond(before, ToolOpen);
    }
    assert |Split(after, InputOpen)| >= 2 by {
      ContainsIff(after, InputOpen);
      SplitSecond(after, InputOpen);
    }
    ParsesWhenSplit(c, i);
  }

  /** The parse goes through once `</tool>` occurs exactly once and both halves hold their
      opening marker. */
  lemma ParsesWhenSplit(c: string, i: nat)
    requires OccursOnce(c, ToolClose) && Find(c, ToolClose) == Some(i)
    requires |Split(c[..i], ToolOpen)| >= 2
    requires i + |ToolClose| <= |c| && |Split(c[i + |ToolClose|..], InputOpen)| >= 2
    ensures ParseDirective(c).Ok?
  {
    TwoPieces(c);
  }

  lemma ParsesParsable(c: string)
    requires ParseDirective(c).Ok?
    ensures Parsable(c)
  {
    ParseErrors(c);
    assert OccursOnce(c, ToolClose);
    var i := Find(c, ToolClose).value;
    assert IsAt(c, ToolClose, i);
  }

  /** `s.split(marker)[1]` is the field after the first marker. */
  lemma SecondIsField(s: string, marker: string)
    requires |marker| > 0 && Contains(s, marker)
    ensures FieldAfter(s, marker, Split(s, marker)[1])
  {
    SplitSecond(s, marker);
    SplitSecondUpTo(s, marker, Find(s, marker).value);
    assert FirstAt(s, marker, Find(s, marker).value);
  }

  /** Cutting at the first `</tool_input>` when there is one keeps the part before it. */
  lemma CutIsPrefix(raw: string)
    ensures PrefixUpTo(raw, InputClose,
      if Contains(raw, InputClose) then Split(raw, InputClose)[0] else raw)
  {
    if Contains(raw, InputClose) {
      SplitHeadUpTo(raw, InputClose);
    }
  }

  /** On success, the tool name is the text after the first `<tool>` in the part before
      `</tool>`, and the tool input is the text after the first `<tool_input>` in the part after
      it, cut at the first `</tool_input>` if there is one. */
  lemma ParseFields(c: string)
    requires ParseDirective(c).Ok?
    ensures var d := ParseDirective(c).value;
      exists i: nat ::
        && IsAt(c, ToolClose, i)
        && FieldAfter(c[..i], ToolOpen, d.tool)
        && exists raw :: FieldAfter(c[i + |ToolClose|..], InputOpen, raw) && PrefixUpTo(raw, InputClose, d.toolInput)
  {
    assert OccursOnce(c, ToolClose) by {
      MarkersHeadUnique();
      SplitTwoIffOnce(c, ToolClose);
    }
    TwoPieces(c);
    var i := Find(c, ToolClose).value;
    FieldsAt(c, i);
    assert IsAt(c, ToolClose, i);
  }

  lemma FieldsAt(c: string, i: nat)
    requires ParseDirective(c).Ok?
    requires i + |ToolClose| <= |c| && Split(c, ToolClose) == [c[..i], c[i + |ToolClose|..]]
    ensures var d := ParseDirective(c).value;
      && |Split(c[i + |ToolClose|..], InputOpen)| >= 2
      && FieldAfter(c[..i], ToolOpen, d.tool)
      && var raw := Split(c[i + |ToolClose|..], InputOpen)[1];
      && FieldAfter(c[i + |ToolClose|..], InputOpen, raw)
      && PrefixUpTo(raw, InputClose, d.toolInput)
  {
    var before := c[..i];
    var after := c[i + |ToolClose|..];
    ParseValue(c, i);
    var d := ParseDirective(c).value;
    var raw := Split(after, InputOpen)[1];
    assert FieldAfter(before, ToolOpen, d.tool) by {
      SplitSecond(before, ToolOpen);
      SecondIsField(before, ToolOpen);
    }
    assert FieldAfter(after, InputOpen, raw) by {
      SplitSecond(after, InputOpen);
      SecondIsField(after, InputOpen);
    }
    assert PrefixUpTo(raw, InputClose, d.toolInput) by {
      CutIsPrefix(raw);
    }
  }

  /** On success the fields are the second pieces of the two halves around `</tool>`, the
      input cut at `</tool_input>`. */
  lemma ParseValue(c: string, i: nat)
    requires ParseDirective(c).Ok?
    requires i + |ToolClose| <= |c| && Split(c, ToolClose) == [c[..i], c[i + |ToolClose|..]]
    ensures |Split(c[..i], ToolOpen)| >= 2 && |Split(c[i + |ToolClose|..], InputOpen)| >= 2
    ensures var raw := Split(c[i + |ToolClose|..], InputOpen)[1];
      ParseDirective(c).value == Directive(Split(c[..i], ToolOpen)[1],
        if Contains(raw, InputClose) then Split(raw, InputClose)[0] else raw)
  {
  }

  /** The first occurrence is the one `find` reports. */
  lemma FirstAtIsFind(s: string, pat: string, a: nat)
    requires FirstAt(s, pat, a)
    ensures Find(s, pat) == Some(a)
  {
    var k := Find(s, pat).value;
    assert !(k < a) && !(a < k);
  }

  /** Conversely, for a head-unique marker the field after the first marker is exactly what
      `s.split(marker)[1]` yields; so `FieldAfter` pins down a single string. */
  lemma FieldAfterIsSplit(s: string, marker: string, f: string)
    requires HeadUnique(marker) && FieldAfter(s, marker, f)
    ensures Contains(s, marker) && |Split(s, marker)| >= 2 && Split(s, marker)[1] == f
  {
    var a: nat :| FirstAt(s, marker, a) && PrefixUpTo(s[a + |marker|..], marker, f);
    FirstAtIsFind(s, marker, a);
    SplitSecondUpTo(s, marker, a);
    PrefixUpToUnique(s[a + |marker|..], marker, f, Split(s, marker)[1]);
  }

  // ---------------------------------------------------------------------------
  // Round trip with the directive text a model emits

  /** The text a model emits to call `d` when generation is stopped at `</tool_input>`. */
  function Format(d: Directive): string
  {
    ToolOpen + d.tool + ToolClose + InputOpen + d.toolInput
  }

  /** A field free of `<` contains no marker. */
  lemma PlainHasNoMarker(f: string)
    requires '<' !in f
    ensures !Contains(f, ToolOpen) && !Contains(f, ToolClose)
    ensures !Contains(f, InputOpen) && !Contains(f, InputClose)
  {
    NoHeadNoMatch(f, ToolOpen);
    NoHeadNoMatch(f, ToolClose);
    NoHeadNoMatch(f, InputOpen);
    NoHeadNoMatch(f, InputClose);
  }

  /** `"<tool>" + f` does not contain `</tool>` when `f` has no `<`. */
  lemma ToolPartNoClose(f: string)
    requires '<' !in f
    ensures !Contains(ToolOpen + f, ToolClose)
  {
    var s := ToolOpen + f;
    assert s[1..] == ToolOpen[1..] + f;
    OnlyHeadCandidate(s, ToolClose);
    if |s| >= |ToolClose| {
      assert s[..|ToolClose|][1] == 't';
    }
  }

  /** `"<tool_input>" + f` does not contain `</tool>` when `f` has no `<`. */
  lemma InputPartNoClose(f: string)
    requires '<' !in f
    ensures !Contains(InputOpen + f, ToolClose)
  {
    var s := InputOpen + f;
    assert s[1..] == InputOpen[1..] + f;
    OnlyHeadCandidate(s, ToolClose);
    assert s[..|ToolClose|][1] == 't';
  }

  /** Splitting `marker + f` at `marker`, for a field without `<`, gives `["", f]`. */
  lemma SplitLeading(marker: string, f: string)
    requires HeadUnique(marker) && marker[0] == '<' && '<' !in f
    ensures Split(marker + f, marker) == ["", f]
  {
    NoHeadNoMatch(f, marker);
    assert !Contains("", marker);
    SplitAround("", marker, f);
    assert "" + marker + f == marker + f;
  }

  /** Parsing the text emitted under the stop condition recovers the directive, for a tool name
      and input that contain no `<`. */
  lemma ParseFormat(d: Directive)
    requires '<' !in d.tool && '<' !in d.toolInput
    ensures ParseDirective(Format(d)) == Ok(d)
  {
    MarkersHeadUnique();
    var a := ToolOpen + d.tool;
    var b := InputOpen + d.toolInput;
    assert Format(d) == a + ToolClose + b;
    ToolPartNoClose(d.tool);
    InputPartNoClose(d.toolInput);
    SplitAround(a, ToolClose, b);
    SplitLeading(ToolOpen, d.tool);
    SplitLeading(InputOpen, d.toolInput);
    PlainHasNoMarker(d.toolInput);
  }

  /** The part after `</tool>` in a closed directive holds no further `</tool>`. */
  lemma ClosedInputNoClose(f: string, extra: string)
    requires '<' !in f && '<' !in extra
    ensures !Contains(InputOpen + f + (InputClose + extra), ToolClose)
  {
    var x := InputOpen + f;
    var y := InputClose + extra;
    InputPartNoClose(f);
    assert x[1..] == InputOpen[1..] + f;
    assert y[1..] == InputClose[1..] + extra;
    OnlyHeadCandidate(y, ToolClose);
    assert y[..|ToolClose|][6] == '_';
    NoMatchConcat(x, y, ToolClose);
  }

  /** The part after `</tool>` in a closed directive splits at its single `<tool_input>`. */
  lemma ClosedInputSplit(f: string, extra: string)
    requires '<' !in f && '<' !in extra
    ensures Split(InputOpen + f + (InputClose + extra), InputOpen) == ["", f + (InputClose + extra)]
  {
    MarkersHeadUnique();
    var y := InputClose + extra;
    assert y[1..] == InputClose[1..] + extra;
    OnlyHeadCandidate(y, InputOpen);
    assert y[..|InputOpen|][1] == '/';
    SkipHeadless(f, y, InputOpen);
    assert !Contains("", InputOpen);
    SplitAround("", InputOpen, f + y);
    assert "" + InputOpen + (f + y) == InputOpen + f + y;
  }

  /** The raw input of a closed directive is cut back to the input itself. */
  lemma ClosedInputCut(f: string, extra: string)
    requires '<' !in f
    ensures Contains(f + (InputClose + extra), InputClose)
    ensures Split(f + (InputClose + extra), InputClose)[0] == f
  {
    var s := f + (InputClose + extra);
    assert s == f + InputClose + extra;
    assert HeadUnique(InputClose) by {
      MarkersHeadUnique();
    }
    assert !Contains(f, InputClose) by {
      PlainHasNoMarker(f);
    }
    FindAfter(f, InputClose, extra);
    SplitHead(s, InputClose);
    assert s[..|f|] == f;
  }

  /** When the closing `</tool_input>` is present, it and everything after it are dropped. */
  lemma ParseFormatClosed(d: Directive, extra: string)
    requires '<' !in d.tool && '<' !in d.toolInput && '<' !in extra
    ensures ParseDirective(Format(d) + InputClose + extra) == Ok(d)
  {
    MarkersHeadUnique();
    var a := ToolOpen + d.tool;
    var b := InputOpen + d.toolInput + (InputClose + extra);
    assert Format(d) + InputClose + extra == a + ToolClose + b;
    ToolPartNoClose(d.tool);
    ClosedInputNoClose(d.toolInput, extra);
    SplitAround(a, ToolClose, b);
    SplitLeading(ToolOpen, d.tool);
    ClosedInputSplit(d.toolInput, extra);
    ClosedInputCut(d.toolInput, extra);
  }
}

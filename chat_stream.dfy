/**
 * The line assembler of the chat panel's streamed reply: a subset of the server-sent
 * events format (section 9.2 of the WHATWG HTML Living Standard). Text chunks are
 * appended to a buffer; every complete line (up to LF, one trailing CR removed) is
 * classified, and the `delta.content` fragments of `data: ` lines are concatenated.
 * These functions state what the loops of `AIChatbot.ChatPanel.StreamChat` compute.
 */
module ChatStream {
  import opened Wrappers
  import opened Text
  import opened Seqs

  /** What `JSON.parse(payload)` followed by the `choices[0].delta.content` lookup gives: a parse failure, or the content if any. */
  datatype Parse = Unparseable | Parsed(content: Option<string>)

  /** The fragment a parsed payload contributes: nothing unless it has non-empty content. */
  function Fragment(p: Parse): string {
    if p.Parsed? && p.content.Some? then p.content.value else ""
  }

  const DataPrefix: string := "data: "
  const DoneSentinel: string := "[DONE]"

  /** How the loop treats one line: skipped, the end sentinel, or a payload to parse. */
  datatype LineKind = Ignored | DoneSignal | Payload(json: string)

  /** A line with one trailing CR removed. */
  function StripCR(line: string): (r: string)
    ensures EndsWith(line, "\r") ==> r + "\r" == line
    ensures !EndsWith(line, "\r") ==> r == line
  {
    if EndsWith(line, "\r") then line[..|line| - 1] else line
  }

  /**
   * Comment lines (starting with `:`), blank lines and lines without the exact prefix
   * `data: ` are skipped; otherwise the payload is the rest of the line, trimmed.
   */
  function Classify(line: string): (k: LineKind)
    ensures StartsWith(line, ":") || AllWhitespace(line) || !StartsWith(line, DataPrefix) ==> k == Ignored
    ensures StartsWith(line, DataPrefix) ==>
      k == if Trim(line[|DataPrefix|..]) == DoneSentinel then DoneSignal else Payload(Trim(line[|DataPrefix|..]))
  {
    TrimEmptyIff(line);
    DataLineIsNotBlank(line);
    if StartsWith(line, ":") || Trim(line) == "" then Ignored
    else if !StartsWith(line, DataPrefix) then Ignored
    else
      var json := Trim(line[6..]);
      if json == DoneSentinel then DoneSignal else Payload(json)
  }

  /** A `data: ` line is neither a comment nor blank. */
  lemma DataLineIsNotBlank(line: string)
    ensures StartsWith(line, DataPrefix) ==> !StartsWith(line, ":") && !AllWhitespace(line)
  {
    if StartsWith(line, DataPrefix) {
      assert line[0] == DataPrefix[0] == 'd';
      assert !IsWhitespace(line[0]);
    }
  }

  /** The decoder's state: the unconsumed text and the assembled reply (`textBuffer`, `assistantContent`). */
  datatype Assembly = Assembly(buffer: string, content: string)

  /** The outcome of one pass of the inner loop: no complete line left, go on, or leave the loop. */
  datatype Step = NoLine | Continue(next: Assembly) | Stop(last: Assembly)

  /**
   * What the inner loop does with one complete line (its CR already removed) followed by
   * `rest`: skip it, leave the loop at `[DONE]`, put it back and leave the loop when its
   * payload does not parse, or append its fragment.
   */
  function LineStep(line: string, rest: string, content: string, parse: string -> Parse): (s: Step)
    ensures !s.NoLine?
    ensures s.Continue? ==> s.next.buffer == rest
    ensures s.Continue? ==> Grows(content, s.next.content)
    ensures s.Stop? ==> Grows(content, s.last.content)
    ensures s.Stop? ==> s.last.content == content && (s.last.buffer == rest || s.last.buffer == line + "\n" + rest)
  {
    match Classify(line)
    case Ignored => Continue(Assembly(rest, content))
    case DoneSignal => Stop(Assembly(rest, content))
    case Payload(json) =>
      if parse(json).Unparseable? then Stop(Assembly(line + "\n" + rest, content))
      else
        var longer := content + Fragment(parse(json));
        assert longer[..|content|] == content;
        Continue(Assembly(rest, longer))
  }

  /** One pass of the inner loop: take the first complete line out of the buffer and act on it. */
  function StepLine(a: Assembly, parse: string -> Parse): (s: Step)
    ensures s.NoLine? <==> '\n' !in a.buffer
    ensures s.Continue? ==> |s.next.buffer| < |a.buffer|
    ensures s.Continue? ==> Grows(a.content, s.next.content)
    ensures s.Stop? ==> Grows(a.content, s.last.content)
  {
    var i := IndexOf(a.buffer, '\n');
    IndexOfFinds(a.buffer, '\n');
    if i == -1 then NoLine
    else LineStep(StripCR(a.buffer[..i]), a.buffer[i + 1..], a.content, parse)
  }

  /** `longer` is `shorter` with text appended. */
  predicate Grows(shorter: string, longer: string) {
    |shorter| <= |longer| && longer[..|shorter|] == shorter
  }

  /** The inner loop: passes until no complete line is left or a pass leaves the loop. */
  function Drain(a: Assembly, parse: string -> Parse): (r: Assembly)
    ensures Grows(a.content, r.content)
    decreases |a.buffer|
  {
    match StepLine(a, parse)
    case NoLine => a
    case Stop(b) => b
    case Continue(b) =>
      var r := Drain(b, parse);
      assert r.content[..|a.content|] == r.content[..|b.content|][..|a.content|];
      r
  }

  /** The state after appending each chunk in turn to the buffer and running the inner loop. */
  function Feed(start: Assembly, chunks: seq<string>, parse: string -> Parse): (r: Assembly)
    ensures |r.content| >= |start.content| && r.content[..|start.content|] == start.content
    decreases |chunks|
  {
    if chunks == [] then start
    else
      var before := Feed(start, chunks[..|chunks| - 1], parse);
      var r := Drain(Assembly(before.buffer + chunks[|chunks| - 1], before.content), parse);
      assert r.content[..|start.content|] == r.content[..|before.content|][..|start.content|];
      r
  }

  /** The text of a list of chunks, joined. */
  function Concat(chunks: seq<string>): string
    decreases |chunks|
  {
    if chunks == [] then "" else Concat(chunks[..|chunks| - 1]) + chunks[|chunks| - 1]
  }

  // ---------------------------------------------------------------- single lines

  /** A skipped line (comment, blank, or not `data: `) is consumed and changes nothing else. */
  lemma IgnoredLineIsConsumed(raw: string, rest: string, content: string, parse: string -> Parse)
    requires '\n' !in raw
    requires Classify(StripCR(raw)) == Ignored
    ensures StepLine(Assembly(raw + "\n" + rest, content), parse) == Continue(Assembly(rest, content))
    ensures Drain(Assembly(raw + "\n" + rest, content), parse) == Drain(Assembly(rest, content), parse)
  {
    LineSplit(raw, rest);
  }

  /** `[DONE]` leaves the inner loop and keeps the rest of the buffer as it is, for the next chunk. */
  lemma DoneKeepsRest(raw: string, rest: string, content: string, parse: string -> Parse)
    requires '\n' !in raw
    requires Classify(StripCR(raw)) == DoneSignal
    ensures StepLine(Assembly(raw + "\n" + rest, content), parse) == Stop(Assembly(rest, content))
    ensures Drain(Assembly(raw + "\n" + rest, content), parse) == Assembly(rest, content)
  {
    LineSplit(raw, rest);
  }

  /** An unparseable payload puts its line and the newline back in front of the rest; no text is lost but a CR. */
  lemma UnparseableLineIsPutBack(raw: string, rest: string, content: string, parse: string -> Parse)
    requires '\n' !in raw
    requires Classify(StripCR(raw)).Payload? && parse(Classify(StripCR(raw)).json).Unparseable?
    ensures StepLine(Assembly(raw + "\n" + rest, content), parse) == Stop(Assembly(StripCR(raw) + "\n" + rest, content))
    ensures Drain(Assembly(raw + "\n" + rest, content), parse) == Assembly(StripCR(raw) + "\n" + rest, content)
  {
    LineSplit(raw, rest);
  }

  /** A parsed payload appends its fragment to the reply and consumes the line. */
  lemma ParsedLineAppends(raw: string, rest: string, content: string, parse: string -> Parse)
    requires '\n' !in raw
    requires Classify(StripCR(raw)).Payload? && parse(Classify(StripCR(raw)).json).Parsed?
    ensures StepLine(Assembly(raw + "\n" + rest, content), parse) ==
      Continue(Assembly(rest, content + Fragment(parse(Classify(StripCR(raw)).json))))
    ensures Drain(Assembly(raw + "\n" + rest, content), parse) ==
      Drain(Assembly(rest, content + Fragment(parse(Classify(StripCR(raw)).json))), parse)
  {
    LineSplit(raw, rest);
  }

  /** The first newline of `raw + "\n" + rest` is the one after `raw`. */
  lemma LineSplit(raw: string, rest: string)
    requires '\n' !in raw
    ensures var b := raw + "\n" + rest; var i := IndexOf(b, '\n');
      i == |raw| && b[..i] == raw && b[i + 1..] == rest
  {
    IndexOfFinds(raw, '\n');
    IndexOfAppend(raw, "\n" + rest, '\n');
    assert IndexOf("\n" + rest, '\n') == 0;
    assert (raw + "\n" + rest) == raw + ("\n" + rest);
  }

  // ---------------------------------------------------------------- whole streams

  /** The complete lines of `text`, in order, as they stand before their CR is removed. */
  function Lines(text: string): seq<string>
    decreases |text|
  {
    var i := IndexOf(text, '\n');
    if i == -1 then [] else [text[..i]] + Lines(text[i + 1..])
  }

  /** The text after the last newline of `text`: a line not yet complete. */
  function PartialLine(text: string): string
    decreases |text|
  {
    var i := IndexOf(text, '\n');
    if i == -1 then text else PartialLine(text[i + 1..])
  }

  /** The partial line holds no newline. */
  lemma {:induction false} PartialLineIsPartial(text: string)
    ensures '\n' !in PartialLine(text)
    decreases |text|
  {
    var i := IndexOf(text, '\n');
    if i != -1 {
      PartialLineIsPartial(text[i + 1..]);
    } else {
      IndexOfFinds(text, '\n');
    }
  }

  /** The fragment one complete line contributes when the loop goes on past it. */
  function LineFragment(line: string, parse: string -> Parse): string {
    match Classify(StripCR(line))
    case Payload(json) => Fragment(parse(json))
    case _ => ""
  }

  /** The loop goes on past this line: it is neither `[DONE]` nor an unparseable payload. */
  predicate LineContinues(line: string, parse: string -> Parse) {
    match Classify(StripCR(line))
    case Ignored => true
    case DoneSignal => false
    case Payload(json) => parse(json).Parsed?
  }

  /** Every line of the list lets the loop go on. */
  predicate AllContinue(lines: seq<string>, parse: string -> Parse)
    decreases |lines|
  {
    lines == [] || (LineContinues(lines[0], parse) && AllContinue(lines[1..], parse))
  }

  /** The fragments of a list of lines, in order. */
  function Fragments(lines: seq<string>, parse: string -> Parse): string
    decreases |lines|
  {
    if lines == [] then "" else LineFragment(lines[0], parse) + Fragments(lines[1..], parse)
  }

  /** Every complete line of `text` lets the loop go on. */
  predicate NoStop(text: string, parse: string -> Parse) {
    AllContinue(Lines(text), parse)
  }

  /** The fragments of the complete lines of `text`, in order. */
  function LinesContent(text: string, parse: string -> Parse): string {
    Fragments(Lines(text), parse)
  }

  lemma AllContinueCons(line: string, lines: seq<string>, parse: string -> Parse)
    ensures AllContinue([line] + lines, parse) == (LineContinues(line, parse) && AllContinue(lines, parse))
  {
    assert ([line] + lines)[0] == line;
    assert ([line] + lines)[1..] == lines;
  }

  lemma FragmentsCons(line: string, lines: seq<string>, parse: string -> Parse)
    ensures Fragments([line] + lines, parse) == LineFragment(line, parse) + Fragments(lines, parse)
  {
    assert ([line] + lines)[0] == line;
    assert ([line] + lines)[1..] == lines;
  }

  lemma {:induction false} AllContinueAppend(l1: seq<string>, l2: seq<string>, parse: string -> Parse)
    ensures AllContinue(l1 + l2, parse) <==> AllContinue(l1, parse) && AllContinue(l2, parse)
    decreases |l1|
  {
    if l1 != [] {
      var x, tail := l1[0], l1[1..];
      assert l1 == [x] + tail;
      AppendAssociates([x], tail, l2);
      AllContinueCons(x, tail + l2, parse);
      AllContinueCons(x, tail, parse);
      AllContinueAppend(tail, l2, parse);
    } else {
      assert l1 + l2 == l2;
    }
  }

  /** The fragments of two lists of lines, one after the other. */
  lemma {:induction false} FragmentsAppend(l1: seq<string>, l2: seq<string>, parse: string -> Parse)
    ensures Fragments(l1 + l2, parse) == Fragments(l1, parse) + Fragments(l2, parse)
    decreases |l1|
  {
    if l1 != [] {
      var x, tail := l1[0], l1[1..];
      assert l1 == [x] + tail;
      AppendAssociates([x], tail, l2);
      FragmentsCons(x, tail + l2, parse);
      FragmentsCons(x, tail, parse);
      FragmentsAppend(tail, l2, parse);
      AppendAssociates(LineFragment(x, parse), Fragments(tail, parse), Fragments(l2, parse));
    } else {
      assert l1 + l2 == l2;
    }
  }

  /** A line the loop goes on past is consumed and its fragment appended. */
  lemma ContinuingLineStep(line: string, rest: string, content: string, parse: string -> Parse)
    requires LineContinues(line, parse)
    ensures LineStep(StripCR(line), rest, content, parse) == Continue(Assembly(rest, content + LineFragment(line, parse)))
  {
  }

  /** A text with a complete line: that line, then the lines of the text after it. */
  lemma LinesUnfold(text: string, i: int)
    requires i == IndexOf(text, '\n') && i != -1
    ensures Lines(text) == [text[..i]] + Lines(text[i + 1..])
  {
  }

  /** The partial line of a text with a complete line is that of the text after it. */
  lemma PartialLineUnfold(text: string)
    requires IndexOf(text, '\n') != -1
    ensures PartialLine(text) == PartialLine(text[IndexOf(text, '\n') + 1..])
  {
  }

  /** No line of a text stops the loop exactly when its first line does not and no later line does. */
  lemma NoStopUnfold(text: string, parse: string -> Parse)
    requires IndexOf(text, '\n') != -1
    ensures var i := IndexOf(text, '\n');
      NoStop(text, parse) <==> LineContinues(text[..i], parse) && NoStop(text[i + 1..], parse)
  {
    var i := IndexOf(text, '\n');
    LinesUnfold(text, i);
    AllContinueCons(text[..i], Lines(text[i + 1..]), parse);
  }

  /** The fragments of a text are those of its first line, then those of the text after it. */
  lemma LinesContentUnfold(text: string, parse: string -> Parse)
    requires IndexOf(text, '\n') != -1
    ensures var i := IndexOf(text, '\n');
      LinesContent(text, parse) == LineFragment(text[..i], parse) + LinesContent(text[i + 1..], parse)
  {
    var i := IndexOf(text, '\n');
    LinesUnfold(text, i);
    FragmentsCons(text[..i], Lines(text[i + 1..]), parse);
  }

  /** A first line that lets the loop go on is consumed and its fragment appended; draining goes on with the rest. */
  lemma DrainPastLine(text: string, content: string, parse: string -> Parse)
    requires IndexOf(text, '\n') != -1
    requires LineContinues(text[..IndexOf(text, '\n')], parse)
    ensures var i := IndexOf(text, '\n');
      Drain(Assembly(text, content), parse) ==
      Drain(Assembly(text[i + 1..], content + LineFragment(text[..i], parse)), parse)
  {
    var i := IndexOf(text, '\n');
    ContinuingLineStep(text[..i], text[i + 1..], content, parse);
  }

  /** The partial line and the fragments of a text, read off its first line and the text after it. */
  lemma StreamUnfold(text: string, content: string, parse: string -> Parse)
    requires IndexOf(text, '\n') != -1
    ensures var i := IndexOf(text, '\n'); var rest := text[i + 1..];
      Assembly(PartialLine(rest), (content + LineFragment(text[..i], parse)) + LinesContent(rest, parse)) ==
      Assembly(PartialLine(text), content + LinesContent(text, parse))
  {
    var i := IndexOf(text, '\n');
    PartialLineUnfold(text);
    LinesContentUnfold(text, parse);
    AppendAssociates(content, LineFragment(text[..i], parse), LinesContent(text[i + 1..], parse));
  }

  /** A text without a complete line is left as it is. */
  lemma DrainNoLine(text: string, content: string, parse: string -> Parse)
    requires IndexOf(text, '\n') == -1
    ensures Drain(Assembly(text, content), parse) == Assembly(PartialLine(text), content + LinesContent(text, parse))
  {
    assert Lines(text) == [];
    assert content + "" == content;
  }

  /** When no line stops it, the inner loop consumes every complete line and keeps only the partial one. */
  lemma {:induction false} DrainWithoutStop(text: string, content: string, parse: string -> Parse)
    requires NoStop(text, parse)
    ensures Drain(Assembly(text, content), parse) == Assembly(PartialLine(text), content + LinesContent(text, parse))
    decreases |text|
  {
    var i := IndexOf(text, '\n');
    if i != -1 {
      NoStopUnfold(text, parse);
      DrainPastLine(text, content, parse);
      DrainWithoutStop(text[i + 1..], content + LineFragment(text[..i], parse), parse);
      StreamUnfold(text, content, parse);
    } else {
      DrainNoLine(text, content, parse);
    }
  }

  /** The first line of `a + b` is the first line of `a` when `a` has a complete one. */
  lemma FirstLineOfAppend(a: string, b: string)
    requires IndexOf(a, '\n') != -1
    ensures var i := IndexOf(a, '\n');
      IndexOf(a + b, '\n') == i && (a + b)[..i] == a[..i] && (a + b)[i + 1..] == a[i + 1..] + b
  {
    IndexOfAppend(a, b, '\n');
    var i := IndexOf(a, '\n');
    assert (a + b)[..i] == a[..i];
    assert (a + b)[i + 1..] == a[i + 1..] + b;
  }

  /** The first line of `a + b` is the first line of `a` when `a` has a complete one; the others are those of the rest of `a`, continued by `b`. */
  lemma LinesOfAppendUnfold(a: string, b: string)
    requires IndexOf(a, '\n') != -1
    ensures var i := IndexOf(a, '\n');
      Lines(a + b) == [a[..i]] + Lines(a[i + 1..] + b)
  {
    FirstLineOfAppend(a, b);
    LinesUnfold(a + b, IndexOf(a, '\n'));
  }

  /** The lines of `a + b` are those of `a`, then those of the partial line of `a` continued by `b`. */
  lemma {:induction false} LinesAppend(a: string, b: string)
    ensures Lines(a + b) == Lines(a) + Lines(PartialLine(a) + b)
    decreases |a|
  {
    var i := IndexOf(a, '\n');
    if i != -1 {
      var rest := a[i + 1..];
      LinesOfAppendUnfold(a, b);
      LinesUnfold(a, i);
      PartialLineUnfold(a);
      LinesAppend(rest, b);
      AppendAssociates([a[..i]], Lines(rest), Lines(PartialLine(rest) + b));
    }
  }

  /** The partial line of `a + b` is that of the partial line of `a` continued by `b`. */
  lemma {:induction false} PartialLineAppend(a: string, b: string)
    ensures PartialLine(a + b) == PartialLine(PartialLine(a) + b)
    decreases |a|
  {
    var i := IndexOf(a, '\n');
    if i != -1 {
      FirstLineOfAppend(a, b);
      PartialLineAppend(a[i + 1..], b);
    }
  }

  /** The fragments of `a + b` are those of `a`, then those of the partial line of `a` continued by `b`. */
  lemma LinesContentAppend(a: string, b: string, parse: string -> Parse)
    ensures LinesContent(a + b, parse) == LinesContent(a, parse) + LinesContent(PartialLine(a) + b, parse)
  {
    LinesAppend(a, b);
    FragmentsAppend(Lines(a), Lines(PartialLine(a) + b), parse);
  }

  /** No line of `a + b` stops the loop exactly when none of `a`, nor of its partial line continued by `b`, does. */
  lemma NoStopAppend(a: string, b: string, parse: string -> Parse)
    ensures NoStop(a + b, parse) <==> NoStop(a, parse) && NoStop(PartialLine(a) + b, parse)
  {
    LinesAppend(a, b);
    AllContinueAppend(Lines(a), Lines(PartialLine(a) + b), parse);
  }

  lemma ConcatAppend(chunks: seq<string>, x: string)
    ensures Concat(chunks + [x]) == Concat(chunks) + x
  {
    assert (chunks + [x])[..|chunks|] == chunks;
  }

  /**
   * For a stream in which no line is `[DONE]` or an unparseable payload, processing it chunk by
   * chunk assembles exactly the fragments of its complete lines, and leaves only the text after
   * the last newline in the buffer.
   */
  lemma {:induction false} FeedWithoutStop(chunks: seq<string>, parse: string -> Parse)
    requires NoStop(Concat(chunks), parse)
    ensures Feed(Assembly("", ""), chunks, parse) ==
      Assembly(PartialLine(Concat(chunks)), LinesContent(Concat(chunks), parse))
    decreases |chunks|
  {
    if chunks == [] {
      assert IndexOf("", '\n') == -1;
    } else {
      var init, x := chunks[..|chunks| - 1], chunks[|chunks| - 1];
      assert chunks == init + [x];
      ConcatAppend(init, x);
      var text := Concat(init);
      LinesContentAppend(text, x, parse);
      PartialLineAppend(text, x);
      NoStopAppend(text, x, parse);
      FeedWithoutStop(init, parse);
      DrainWithoutStop(PartialLine(text) + x, LinesContent(text, parse), parse);
    }
  }

  /** Without a `[DONE]` or unparseable line, how the stream is cut into chunks does not matter. */
  lemma ChunkingDoesNotMatter(chunks1: seq<string>, chunks2: seq<string>, parse: string -> Parse)
    requires Concat(chunks1) == Concat(chunks2)
    requires NoStop(Concat(chunks1), parse)
    ensures Feed(Assembly("", ""), chunks1, parse) == Feed(Assembly("", ""), chunks2, parse)
  {
    FeedWithoutStop(chunks1, parse);
    FeedWithoutStop(chunks2, parse);
  }

  /**
   * When every complete line of `p` continues and its partial line is `[DONE]`, the newline
   * that completes that line makes the inner loop take every fragment and stop with an empty buffer.
   */
  lemma {:induction false} DrainThroughDone(p: string, content: string, parse: string -> Parse)
    requires NoStop(p, parse)
    requires Classify(StripCR(PartialLine(p))) == DoneSignal
    ensures Drain(Assembly(p + "\n", content), parse) == Assembly("", content + LinesContent(p, parse))
    decreases |p|
  {
    var i := IndexOf(p, '\n');
    if i == -1 {
      LastLineDone(p, content, parse);
    } else {
      var line, rest := p[..i], p[i + 1..];
      var f := LineFragment(line, parse);
      FirstLineDrains(p, content, parse);
      DrainThroughDone(rest, content + f, parse);
      AppendAssociates(content, f, LinesContent(rest, parse));
      calc {
        Drain(Assembly(p + "\n", content), parse);
        Drain(Assembly(rest + "\n", content + f), parse);
        Assembly("", (content + f) + LinesContent(rest, parse));
        Assembly("", content + LinesContent(p, parse));
      }
    }
  }

  /** The first line of a text whose lines all continue: what it adds, and what follows it. */
  lemma FirstLineContinues(p: string, parse: string -> Parse)
    requires IndexOf(p, '\n') != -1 && NoStop(p, parse)
    ensures var i := IndexOf(p, '\n');
      var line, rest := p[..i], p[i + 1..];
      && '\n' !in line && LineContinues(line, parse)
      && NoStop(rest, parse) && PartialLine(rest) == PartialLine(p)
      && p + "\n" == line + "\n" + (rest + "\n")
      && LinesContent(p, parse) == LineFragment(line, parse) + LinesContent(rest, parse)
  {
    IndexOfFinds(p, '\n');
    SplitAtNewline(p, "\n");
    NoStopUnfold(p, parse);
    PartialLineUnfold(p);
    LinesContentUnfold(p, parse);
  }

  /** Draining a text whose lines all continue consumes its first line and adds that line's fragment. */
  lemma FirstLineDrains(p: string, content: string, parse: string -> Parse)
    requires IndexOf(p, '\n') != -1 && NoStop(p, parse)
    ensures var i := IndexOf(p, '\n');
      var line, rest := p[..i], p[i + 1..];
      && NoStop(rest, parse) && PartialLine(rest) == PartialLine(p)
      && LinesContent(p, parse) == LineFragment(line, parse) + LinesContent(rest, parse)
      && Drain(Assembly(p + "\n", content), parse) == Drain(Assembly(rest + "\n", content + LineFragment(line, parse)), parse)
  {
    var i := IndexOf(p, '\n');
    var line, rest := p[..i], p[i + 1..];
    FirstLineContinues(p, parse);
    var q := line + "\n" + (rest + "\n");
    assert p + "\n" == q;
    ContinuingLineDrains(line, rest + "\n", content, parse);
    assert Drain(Assembly(p + "\n", content), parse) == Drain(Assembly(q, content), parse);
  }

  /** A text without a newline whose line is `[DONE]`: its newline ends the loop, adding nothing. */
  lemma LastLineDone(p: string, content: string, parse: string -> Parse)
    requires IndexOf(p, '\n') == -1 && Classify(StripCR(PartialLine(p))) == DoneSignal
    ensures Drain(Assembly(p + "\n", content), parse) == Assembly("", content + LinesContent(p, parse))
  {
    IndexOfFinds(p, '\n');
    NoLineWithoutLF(p, parse);
    DoneLineAlone(p, content, parse);
    assert content + "" == content;
  }

  /** A lone `[DONE]` line stops the loop with nothing left and nothing added. */
  lemma DoneLineAlone(raw: string, content: string, parse: string -> Parse)
    requires '\n' !in raw && Classify(StripCR(raw)) == DoneSignal
    ensures Drain(Assembly(raw + "\n", content), parse) == Assembly("", content)
  {
    DoneKeepsRest(raw, "", content, parse);
    assert raw + "\n" + "" == raw + "\n";
  }

  /** A complete line that lets the loop go on is consumed, adding its fragment. */
  lemma ContinuingLineDrains(line: string, rest: string, content: string, parse: string -> Parse)
    requires '\n' !in line && LineContinues(line, parse)
    ensures Drain(Assembly(line + "\n" + rest, content), parse) ==
      Drain(Assembly(rest, content + LineFragment(line, parse)), parse)
  {
    LineSplit(line, rest);
    ContinuingLineStep(line, rest, content, parse);
  }

  /** A text without a newline has no complete line. */
  lemma NoLineWithoutLF(raw: string, parse: string -> Parse)
    requires '\n' !in raw
    ensures Lines(raw) == [] && PartialLine(raw) == raw
    ensures NoStop(raw, parse) && LinesContent(raw, parse) == ""
  {
    IndexOfFinds(raw, '\n');
  }

  /** A prefix of `s + "\n"` no longer than `s` leaves a last piece ending in that newline. */
  lemma SplitLastChunk(t: string, x: string, s: string)
    requires t + x == s + "\n" && |t| <= |s|
    ensures t + s[|t|..] == s && x == s[|t|..] + "\n"
  {
    assert t == (t + x)[..|t|] == (s + "\n")[..|t|] == s[..|t|];
    assert x == (t + x)[|t|..] == (s + "\n")[|t|..];
  }

  /**
   * When the text before the last chunk is `t`, and `t + u` is the body and the `[DONE]` line
   * without its newline, draining the rest through that newline ends with the body's reply.
   */
  lemma DoneAfterPrefix(t: string, u: string, body: string, raw: string, parse: string -> Parse)
    requires t + u == body + raw
    requires NoStop(body, parse) && PartialLine(body) == ""
    requires '\n' !in raw && Classify(StripCR(raw)) == DoneSignal
    ensures NoStop(t, parse)
    ensures Drain(Assembly(PartialLine(t) + u + "\n", LinesContent(t, parse)), parse) ==
      Assembly("", LinesContent(body, parse))
  {
    NoLineWithoutLF(raw, parse);
    assert "" + raw == raw;
    NoStopAppend(body, raw, parse);
    LinesContentAppend(body, raw, parse);
    PartialLineAppend(body, raw);
    NoStopAppend(t, u, parse);
    LinesContentAppend(t, u, parse);
    PartialLineAppend(t, u);
    var p := PartialLine(t) + u;
    DrainThroughDone(p, LinesContent(t, parse), parse);
    calc {
      LinesContent(t, parse) + LinesContent(p, parse);
      LinesContent(body + raw, parse);
      LinesContent(body, parse) + "";
      LinesContent(body, parse);
    }
  }

  /**
   * The usual stream: payload lines that all continue, then a final `[DONE]` line. However it
   * is cut into chunks, the reply is every fragment before `[DONE]` and nothing is left over.
   */
  lemma {:induction false} FinalDoneEndsReply(chunks: seq<string>, body: string, raw: string, parse: string -> Parse)
    requires Concat(chunks) == body + raw + "\n"
    requires NoStop(body, parse) && PartialLine(body) == ""
    requires '\n' !in raw && Classify(StripCR(raw)) == DoneSignal
    ensures Feed(Assembly("", ""), chunks, parse) == Assembly("", LinesContent(body, parse))
    decreases |chunks|
  {
    if chunks != [] {
      var init, x := chunks[..|chunks| - 1], chunks[|chunks| - 1];
      assert chunks == init + [x];
      ConcatAppend(init, x);
      var t, s := Concat(init), body + raw;
      if |t| <= |s| {
        SplitLastChunk(t, x, s);
        var u := s[|t|..];
        DoneAfterPrefix(t, u, body, raw, parse);
        FeedWithoutStop(init, parse);
        AppendAssociates(PartialLine(t), u, "\n");
      } else {
        assert x == [];
        assert t == t + x;
        FinalDoneEndsReply(init, body, raw, parse);
        assert "" + x == "";
      }
    }
  }

  /** Text after the last newline adds nothing to the reply: only complete lines count. */
  lemma PartialLineAddsNothing(text: string, tail: string, parse: string -> Parse)
    requires '\n' !in tail
    ensures LinesContent(text + tail, parse) == LinesContent(text, parse)
    ensures NoStop(text + tail, parse) <==> NoStop(text, parse)
  {
    LinesAppend(text, tail);
    PartialLineIsPartial(text);
    assert '\n' !in PartialLine(text) + tail;
    IndexOfFinds(PartialLine(text) + tail, '\n');
    assert IndexOf(PartialLine(text) + tail, '\n') == -1;
    assert Lines(PartialLine(text) + tail) == [];
    assert Lines(text + tail) == Lines(text);
  }

  // ---------------------------------------------------------------- where the loop stops

  /** Removing the CR of a `data: ` line keeps the prefix and takes the CR off the payload. */
  lemma DataLineWithoutCR(line: string)
    requires StartsWith(line, DataPrefix) && EndsWith(line, "\r")
    ensures StartsWith(StripCR(line), DataPrefix)
    ensures line[|DataPrefix|..] == StripCR(line)[|DataPrefix|..] + ['\r']
  {
    assert line[5] == line[..|DataPrefix|][5] == ' ';
    assert line[|line| - 1] == line[|line| - 1..][0] == '\r';
    var s := line[..|line| - 1];
    assert s[..|DataPrefix|] == line[..|DataPrefix|];
    assert line[|DataPrefix|..] == s[|DataPrefix|..] + ['\r'];
  }

  /** A line that parses as a payload still does after its trailing CR is removed. */
  lemma PayloadSurvivesStripCR(line: string)
    requires Classify(line).Payload?
    ensures Classify(StripCR(line)) == Classify(line)
  {
    if EndsWith(line, "\r") {
      assert StartsWith(line, DataPrefix);
      DataLineWithoutCR(line);
      TrimIgnoresTrailingWhitespace(StripCR(line)[|DataPrefix|..], '\r');
    }
  }

  /** A line whose payload does not parse. */
  predicate Blocking(line: string, parse: string -> Parse) {
    '\n' !in line && Classify(line).Payload? && parse(Classify(line).json).Unparseable?
  }

  lemma BlockingStaysBlocking(line: string, parse: string -> Parse)
    requires Blocking(line, parse)
    ensures Blocking(StripCR(line), parse)
  {
    PayloadSurvivesStripCR(line);
  }

  /** The buffer's first complete line is one whose payload does not parse. */
  predicate BlockedBuffer(buffer: string, parse: string -> Parse) {
    IndexOf(buffer, '\n') != -1 && Blocking(buffer[..IndexOf(buffer, '\n')], parse)
  }

  /** Whatever chunk arrives, a blocked buffer stays blocked and the reply does not change. */
  lemma BlockedBufferStaysBlocked(buffer: string, chunk: string, content: string, parse: string -> Parse)
    requires BlockedBuffer(buffer, parse)
    ensures var r := Drain(Assembly(buffer + chunk, content), parse);
      r.content == content && BlockedBuffer(r.buffer, parse)
  {
    var i := IndexOf(buffer, '\n');
    var line, tail := buffer[..i], buffer[i + 1..] + chunk;
    SplitAtNewline(buffer, chunk);
    assert buffer + chunk == line + "\n" + tail;
    BlockingStaysBlocking(line, parse);
    UnparseableLineIsPutBack(line, tail, content, parse);
    PutBackIsBlocked(StripCR(line), tail, parse);
    assert Drain(Assembly(buffer + chunk, content), parse) == Assembly(StripCR(line) + "\n" + tail, content);
  }

  /** Appending to a buffer with a complete line appends to the text after that line. */
  lemma SplitAtNewline(buffer: string, chunk: string)
    requires IndexOf(buffer, '\n') != -1
    ensures var i := IndexOf(buffer, '\n');
      buffer + chunk == buffer[..i] + "\n" + (buffer[i + 1..] + chunk)
  {
    var i := IndexOf(buffer, '\n');
    IndexOfFinds(buffer, '\n');
    assert buffer == buffer[..i] + [buffer[i]] + buffer[i + 1..];
  }

  /** A blocking line put back in front of the rest blocks the buffer. */
  lemma PutBackIsBlocked(line: string, rest: string, parse: string -> Parse)
    requires Blocking(line, parse)
    ensures BlockedBuffer(line + "\n" + rest, parse)
  {
    LineSplit(line, rest);
  }

  /**
   * A complete line with an unparseable payload is never consumed: it is put back on every
   * later chunk, so nothing after it in the stream is ever added to the reply.
   */
  lemma {:induction false} BlockedStreamAddsNothing(start: Assembly, chunks: seq<string>, parse: string -> Parse)
    requires BlockedBuffer(start.buffer, parse)
    ensures Feed(start, chunks, parse).content == start.content
    ensures BlockedBuffer(Feed(start, chunks, parse).buffer, parse)
    decreases |chunks|
  {
    if chunks != [] {
      var before := Feed(start, chunks[..|chunks| - 1], parse);
      BlockedStreamAddsNothing(start, chunks[..|chunks| - 1], parse);
      BlockedBufferStaysBlocked(before.buffer, chunks[|chunks| - 1], before.content, parse);
    }
  }

  /** Feeding two chunks is feeding the first, then draining with the second appended. */
  lemma FeedTwo(start: Assembly, c1: string, c2: string, parse: string -> Parse)
    ensures var a := Drain(Assembly(start.buffer + c1, start.content), parse);
      Feed(start, [c1], parse) == a &&
      Feed(start, [c1, c2], parse) == Drain(Assembly(a.buffer + c2, a.content), parse)
  {
    assert [c1, c2][..1] == [c1];
    assert [c1][..0] == [];
  }

  /** The sentinel line. */
  lemma SentinelLine()
    ensures Classify("data: [DONE]") == DoneSignal
  {
    assert "data: [DONE]"[6..] == DoneSentinel;
    assert StartsWith("data: [DONE]", DataPrefix);
    assert Trim(DoneSentinel) == DoneSentinel by {
      assert TrimStart(DoneSentinel) == DoneSentinel;
      assert TrimEnd(DoneSentinel) == DoneSentinel;
    }
  }

  /** A payload line: the payload is what follows the prefix. */
  lemma PayloadLine()
    ensures Classify("data: {}") == Payload("{}")
  {
    assert "data: {}"[6..] == "{}";
    assert StartsWith("data: {}", DataPrefix);
    assert Trim("{}") == "{}" by {
      assert TrimStart("{}") == "{}";
      assert TrimEnd("{}") == "{}";
    }
  }

  /** A heartbeat comment and an event line without data are skipped. */
  lemma SkippedLines()
    ensures Classify(":") == Ignored
    ensures Classify("event: ping") == Ignored
  {
    assert !StartsWith("event: ping", DataPrefix) by {
      assert "event: ping"[0] != DataPrefix[0];
    }
  }

  /**
   * `[DONE]` does not end the stream: the lines after it in the same chunk stay in the buffer
   * and are processed, as usual, once another chunk arrives; only when the reader then reports
   * the end does what is left go unprocessed.
   */
  lemma {:induction false} DoneDefersTheRest(raw: string, rest: string, chunk: string, parse: string -> Parse)
    requires '\n' !in raw && Classify(StripCR(raw)) == DoneSignal
    ensures Feed(Assembly("", ""), [raw + "\n" + rest], parse) == Assembly(rest, "")
    ensures NoStop(rest + chunk, parse) ==>
      Feed(Assembly("", ""), [raw + "\n" + rest, chunk], parse) ==
      Assembly(PartialLine(rest + chunk), LinesContent(rest + chunk, parse))
  {
    FeedTwo(Assembly("", ""), raw + "\n" + rest, chunk, parse);
    assert "" + (raw + "\n" + rest) == raw + "\n" + rest;
    DoneKeepsRest(raw, rest, "", parse);
    if NoStop(rest + chunk, parse) {
      DrainWithoutStop(rest + chunk, "", parse);
      assert "" + LinesContent(rest + chunk, parse) == LinesContent(rest + chunk, parse);
    }
  }
}

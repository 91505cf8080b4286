/** The relay endpoint (`POST` in `src/app/api/generate/route.ts`): it reads
    the upstream completion stream, and for every upstream line that carries
    a non-empty piece of content it writes one `{"chunk": ...}` record and a
    newline to its own response stream. */
module Relay {
  import opened Wrappers
  import opened Lines
  import opened Streams
  import Envelope

  /** The marker `line.replace(/^data: /, '')` removes. */
  const DataPrefix: string := "data: "

  /** The upstream's end-of-stream message; the relay skips it and reads on. */
  const DoneMessage: string := "[DONE]"

  const SetupErrorStatus: int := 500
  const SetupErrorMessage: string := "Failed to generate code"
  const StreamStatus: int := 200

  /** How the response stream was left. */
  datatype WriterState = Open | Closed | Aborted

  /** What the endpoint answers. `Streaming` carries everything written to the
      response stream and how the stream was left; `ErrorJson` is the
      `{ error }` body sent instead of a stream. */
  datatype RelayResponse =
    | Streaming(status: int, body: string, end: WriterState)
    | ErrorJson(status: int, error: string)

  /** `line.replace(/^data: /, '')`: one marker at the very start is removed;
      the line is otherwise left alone. */
  function StripData(line: string): (message: string)
    ensures (|line| >= |DataPrefix| && line[..|DataPrefix|] == DataPrefix) <==> line == DataPrefix + message
    ensures !(|line| >= |DataPrefix| && line[..|DataPrefix|] == DataPrefix) ==> message == line
  {
    if |line| >= |DataPrefix| && line[..|DataPrefix|] == DataPrefix then line[|DataPrefix|..] else line
  }

  /** The content one non-blank upstream line contributes, if any. `parse`
      stands for `JSON.parse(message)` followed by
      `parsed.choices?.[0]?.delta?.content || ''`: `None` when that throws,
      `Some("")` when there is no content. */
  function LineFragment(line: string, parse: string -> Option<string>): (fragment: Option<string>)
    ensures fragment.Some? ==> fragment.value != []
    ensures fragment.Some? ==> StripData(line) != DoneMessage && parse(StripData(line)) == fragment
    ensures StripData(line) != DoneMessage && parse(StripData(line)).Some? && parse(StripData(line)).value != []
            ==> fragment.Some?
  {
    var message := StripData(line);
    if message == DoneMessage then None
    else
      match parse(message)
      case None => None
      case Some(content) => if content == [] then None else Some(content)
  }

  /** `lines.filter(line => line.trim() !== '')`. */
  function NonBlank(lines: seq<string>): (kept: seq<string>)
    ensures |kept| <= |lines|
    ensures forall k :: 0 <= k < |kept| ==> kept[k] in lines && !IsBlank(kept[k])
    ensures forall k :: 0 <= k < |lines| && !IsBlank(lines[k]) ==> lines[k] in kept
  {
    if lines == [] then []
    else
      var init := NonBlank(lines[..|lines| - 1]);
      var last := lines[|lines| - 1];
      if IsBlank(last) then init else init + [last]
  }

  /** The contents a list of lines contributes, in order. */
  function LinesFragments(lines: seq<string>, parse: string -> Option<string>): (fragments: seq<string>)
    ensures |fragments| <= |lines|
    ensures forall k :: 0 <= k < |fragments| ==> fragments[k] != []
  {
    if lines == [] then []
    else
      var init := LinesFragments(lines[..|lines| - 1], parse);
      match LineFragment(lines[|lines| - 1], parse)
      case None => init
      case Some(content) => init + [content]
  }

  /** The contents one upstream read contributes: its own non-blank lines,
      split with no regard to earlier or later reads. */
  function ReadFragments(text: string, parse: string -> Option<string>): (fragments: seq<string>)
    ensures |fragments| <= NewlineCount(text) + 1
    ensures forall k :: 0 <= k < |fragments| ==> fragments[k] != []
  {
    LinesFragments(NonBlank(Split(text)), parse)
  }

  /** What `f` gives for each of `texts`, one after another. */
  function ConcatMap(texts: seq<string>, f: string -> seq<string>): seq<string>
  {
    if texts == [] then []
    else ConcatMap(texts[..|texts| - 1], f) + f(texts[|texts| - 1])
  }

  /** The contents a sequence of upstream reads contributes. */
  function Fragments(texts: seq<string>, parse: string -> Option<string>): (fragments: seq<string>)
    ensures forall k :: 0 <= k < |fragments| ==> fragments[k] != []
  {
    var read := text => ReadFragments(text, parse);
    ConcatMapNonEmpty(texts, read);
    ConcatMap(texts, read)
  }

  /** When every text gives only non-empty contents, so does the whole run. */
  lemma {:induction false} ConcatMapNonEmpty(texts: seq<string>, f: string -> seq<string>)
    requires forall text, k :: 0 <= k < |f(text)| ==> f(text)[k] != []
    ensures forall k :: 0 <= k < |ConcatMap(texts, f)| ==> ConcatMap(texts, f)[k] != []
    decreases |texts|
  {
    if texts != [] {
      var init, last := ConcatMap(texts[..|texts| - 1], f), f(texts[|texts| - 1]);
      ConcatMapNonEmpty(texts[..|texts| - 1], f);
      forall k | 0 <= k < |init + last| ensures (init + last)[k] != [] {
        if k >= |init| {
          assert (init + last)[k] == last[k - |init|];
        }
      }
    }
  }

  /** `JSON.stringify({ chunk: content }) + '\n'`. */
  function Record(content: string): (record: string)
    ensures |record| >= 1
    ensures record[|record| - 1] == Newline && Newline !in record[..|record| - 1]
    ensures Envelope.Decode(record[..|record| - 1]) == Some(content)
  {
    Envelope.EncodeIsOneLine(content);
    Envelope.DecodeEncode(content);
    assert (Envelope.Encode(content) + [Newline])[..|Envelope.Encode(content)|] == Envelope.Encode(content);
    Envelope.Encode(content) + [Newline]
  }

  /** The records for `fragments`, written one after another. */
  function Records(fragments: seq<string>): string
  {
    if fragments == [] then []
    else Records(fragments[..|fragments| - 1]) + Record(fragments[|fragments| - 1])
  }

  /** The records as lines, each without its newline. */
  function EncodeAll(fragments: seq<string>): seq<string>
  {
    seq(|fragments|, k requires 0 <= k < |fragments| => Envelope.Encode(fragments[k]))
  }

  /** The response stream's writer: what has been written and whether the
      stream is still open. */
  class Writer {
    var written: string
    var state: WriterState

    constructor ()
      ensures written == [] && state == Open
    {
      written := [];
      state := Open;
    }

    method Write(data: string)
      requires state == Open
      modifies this
      ensures written == old(written) + data && state == Open
    {
      written := written + data;
    }

    method Close()
      requires state == Open
      modifies this
      ensures written == old(written) && state == Closed
    {
      state := Closed;
    }

    method Abort()
      requires state == Open
      modifies this
      ensures written == old(written) && state == Aborted
    {
      state := Aborted;
    }
  }

  /** Relays non-blank upstream lines: the records of their fragments are
      appended to what was written before. */
  method RelayLines(writer: Writer, lines: seq<string>, parse: string -> Option<string>)
    requires writer.state == Open
    modifies writer
    ensures writer.state == Open
    ensures writer.written == old(writer.written) + Records(LinesFragments(lines, parse))
  {
    ghost var start := writer.written;
    var j := 0;
    while j < |lines|
      invariant 0 <= j <= |lines|
      invariant writer.state == Open
      invariant writer.written == start + Records(LinesFragments(lines[..j], parse))
    {
      var line := lines[j];
      var message := StripData(line);
      ghost var done := LinesFragments(lines[..j], parse);
      TakeSnoc(lines, j);
      LinesFragmentsSnoc(lines[..j], line, parse);
      if message != DoneMessage {
        match parse(message)
        case None =>
        case Some(content) =>
          if content != [] {
            writer.Write(Record(content));
            RecordsSnoc(done, content);
            AppendAssoc(start, Records(done), Record(content));
          }
      }
      j := j + 1;
    }
    assert lines[..j] == lines;
  }

  /** The endpoint. `request` is the prompt read from the request body, or
      `None` when reading the body as `{ prompt }` throws; `upstream` is what
      the upstream completion stream delivers (a failed fetch or a missing
      body is a `Broken` trace with no reads). The response stream is
      followed to its end: its body is the records of the upstream
      fragments, closed on a normal end and aborted on an error. */
  method Post(request: Option<string>, upstream: Trace, parse: string -> Option<string>)
    returns (response: RelayResponse)
    ensures request.None? ==> response == ErrorJson(SetupErrorStatus, SetupErrorMessage)
    ensures request.Some? ==> response.Streaming? && response.status == StreamStatus
    ensures request.Some? ==> response.body == Records(Fragments(upstream.chunks, parse))
    ensures request.Some? ==> (response.end == Closed <==> upstream.end == Done)
    ensures request.Some? ==> (response.end == Aborted <==> upstream.end == Broken)
  {
    if request.None? {
      return ErrorJson(SetupErrorStatus, SetupErrorMessage);
    }
    var writer := new Writer();
    var texts := upstream.chunks;
    var i := 0;
    while i < |texts|
      invariant 0 <= i <= |texts|
      invariant writer.state == Open
      invariant writer.written == Records(Fragments(texts[..i], parse))
    {
      ghost var before := Fragments(texts[..i], parse);
      var text := texts[i];
      var lines := NonBlank(Split(text));
      RelayLines(writer, lines, parse);
      assert LinesFragments(lines, parse) == ReadFragments(text, parse);
      TakeSnoc(texts, i);
      ConcatMapSnoc(texts[..i], text, t => ReadFragments(t, parse));
      RecordsAppend(before, ReadFragments(text, parse));
      i := i + 1;
    }
    assert texts[..i] == texts;
    if upstream.end == Done {
      writer.Close();
    } else {
      writer.Abort();
    }
    return Streaming(StreamStatus, writer.written, writer.state);
  }

  lemma LinesFragmentsSnoc(lines: seq<string>, line: string, parse: string -> Option<string>)
    ensures LineFragment(line, parse).None? ==> LinesFragments(lines + [line], parse) == LinesFragments(lines, parse)
    ensures LineFragment(line, parse).Some? ==>
              LinesFragments(lines + [line], parse) == LinesFragments(lines, parse) + [LineFragment(line, parse).value]
  {
    assert (lines + [line])[..|lines|] == lines;
  }

  lemma RecordsSnoc(fragments: seq<string>, content: string)
    ensures Records(fragments + [content]) == Records(fragments) + Record(content)
  {
    assert (fragments + [content])[..|fragments|] == fragments;
  }

  /** The records of two runs of fragments are the records of each, one after the other. */
  lemma {:induction false} RecordsAppend(a: seq<string>, b: seq<string>)
    ensures Records(a + b) == Records(a) + Records(b)
    decreases |b|
  {
    if b == [] {
      assert a + b == a;
    } else {
      var init, last := b[..|b| - 1], b[|b| - 1];
      LastSplit(b);
      AppendAssoc(a, init, [last]);
      RecordsSnoc(init, last);
      RecordsSnoc(a + init, last);
      RecordsAppend(a, init);
      AppendAssoc(Records(a), Records(init), Record(last));
    }
  }

  lemma {:induction false} LinesFragmentsAppend(a: seq<string>, b: seq<string>, parse: string -> Option<string>)
    ensures LinesFragments(a + b, parse) == LinesFragments(a, parse) + LinesFragments(b, parse)
    decreases |b|
  {
    if b == [] {
      assert a + b == a;
    } else {
      var init := b[..|b| - 1];
      LinesFragmentsAppend(a, init, parse);
      assert (a + b)[..|a + b| - 1] == a + init;
      assert (a + b)[|a + b| - 1] == b[|b| - 1];
    }
  }

  /** A line that contributes nothing (the `[DONE]` message, a line that does
      not parse, a line without content) does not end the loop: the lines
      after it contribute exactly as they would without it. */
  lemma SilentLineIsSkipped(before: seq<string>, line: string, after: seq<string>, parse: string -> Option<string>)
    requires LineFragment(line, parse).None?
    ensures LinesFragments(before + [line] + after, parse) == LinesFragments(before, parse) + LinesFragments(after, parse)
  {
    LinesFragmentsAppend(before + [line], after, parse);
    assert (before + [line])[..|before|] == before;
  }

  /** The `[DONE]` message, with or without its marker, contributes nothing. */
  lemma DoneIsSilent(parse: string -> Option<string>)
    ensures LineFragment(DoneMessage, parse).None?
    ensures LineFragment(DataPrefix + DoneMessage, parse).None?
  {
    assert (DataPrefix + DoneMessage)[..|DataPrefix|] == DataPrefix;
    assert DoneMessage[0] != DataPrefix[0];
  }

  /** Each line with content contributes exactly one fragment. */
  lemma OneLineOneFragment(line: string, content: string, parse: string -> Option<string>)
    requires StripData(line) != DoneMessage && parse(StripData(line)) == Some(content) && content != []
    ensures LinesFragments([line], parse) == [content]
  {
    assert [line][..0] == [];
  }

  lemma ConcatMapSnoc(texts: seq<string>, last: string, f: string -> seq<string>)
    ensures ConcatMap(texts + [last], f) == ConcatMap(texts, f) + f(last)
  {
    assert (texts + [last])[..|texts|] == texts;
  }

  lemma {:induction false} ConcatMapAppend(r1: seq<string>, r2: seq<string>, f: string -> seq<string>)
    ensures ConcatMap(r1 + r2, f) == ConcatMap(r1, f) + ConcatMap(r2, f)
    decreases |r2|
  {
    if r2 == [] {
      assert r1 + r2 == r1;
    } else {
      var init, last := r2[..|r2| - 1], r2[|r2| - 1];
      LastSplit(r2);
      AppendAssoc(r1, init, [last]);
      ConcatMapSnoc(init, last, f);
      ConcatMapSnoc(r1 + init, last, f);
      ConcatMapAppend(r1, init, f);
      AppendAssoc(ConcatMap(r1, f), ConcatMap(init, f), f(last));
    }
  }

  /** Reads are handled independently: what a run of reads produces is what
      its first part produces followed by what the rest produces. */
  lemma ReadsAreIndependent(r1: seq<string>, r2: seq<string>, parse: string -> Option<string>)
    ensures Fragments(r1 + r2, parse) == Fragments(r1, parse) + Fragments(r2, parse)
  {
    ConcatMapAppend(r1, r2, text => ReadFragments(text, parse));
  }

  /** The relay's output is its records as newline-terminated lines, with
      nothing left after the last newline. */
  lemma {:induction false} RecordsAreTerminatedLines(fragments: seq<string>)
    ensures Records(fragments) == Terminated(EncodeAll(fragments))
    ensures CompleteLines(Records(fragments)) == EncodeAll(fragments)
    ensures Remainder(Records(fragments)) == []
  {
    var lines := EncodeAll(fragments);
    if fragments != [] {
      var init, last := fragments[..|fragments| - 1], fragments[|fragments| - 1];
      RecordsAreTerminatedLines(init);
      assert lines[..|fragments| - 1] == EncodeAll(init);
      AppendAssoc(Records(init), Envelope.Encode(last), [Newline]);
    }
    forall k | 0 <= k < |lines|
      ensures Newline !in lines[k]
    {
      Envelope.EncodeIsOneLine(fragments[k]);
    }
    TerminatedFraming(lines, []);
    assert Records(fragments) + [] == Records(fragments);
  }

  // The relay as it would behave with a carry-over buffer between reads,
  // the way an event-stream parser keeps an unfinished line until its
  // newline arrives.

  /** The contents the relay would produce if it kept the unterminated end
      of each read and completed it with the next: only lines whose newline
      has arrived are handled. */
  function BufferedFragments(texts: seq<string>, parse: string -> Option<string>): seq<string>
  {
    LinesFragments(NonBlank(CompleteLines(Flatten(texts))), parse)
  }

  lemma {:induction false} NonBlankAppend(a: seq<string>, b: seq<string>)
    ensures NonBlank(a + b) == NonBlank(a) + NonBlank(b)
    decreases |b|
  {
    if b == [] {
      assert a + b == a;
    } else {
      var init := b[..|b| - 1];
      NonBlankAppend(a, init);
      assert (a + b)[..|a + b| - 1] == a + init;
      assert (a + b)[|a + b| - 1] == b[|b| - 1];
    }
  }

  /** The endpoint with a carry-over buffer: each read is appended to the
      buffer, the buffer's complete lines are relayed, and the unterminated
      rest waits for the next read. Everything else is as in `Post`. */
  method PostBuffered(request: Option<string>, upstream: Trace, parse: string -> Option<string>)
    returns (response: RelayResponse)
    ensures request.None? ==> response == ErrorJson(SetupErrorStatus, SetupErrorMessage)
    ensures request.Some? ==> response.Streaming? && response.status == StreamStatus
    ensures request.Some? ==> response.body == Records(BufferedFragments(upstream.chunks, parse))
    ensures request.Some? ==> (response.end == Closed <==> upstream.end == Done)
    ensures request.Some? ==> (response.end == Aborted <==> upstream.end == Broken)
  {
    if request.None? {
      return ErrorJson(SetupErrorStatus, SetupErrorMessage);
    }
    var writer := new Writer();
    var texts := upstream.chunks;
    var buffer := [];
    var i := 0;
    while i < |texts|
      invariant 0 <= i <= |texts|
      invariant writer.state == Open
      invariant buffer == Remainder(Flatten(texts[..i]))
      invariant writer.written == Records(BufferedFragments(texts[..i], parse))
    {
      ghost var consumed := Flatten(texts[..i]);
      var text := texts[i];
      buffer := buffer + text;
      var pieces := Split(buffer);
      var complete := pieces[..|pieces| - 1];
      assert complete == CompleteLines(Remainder(consumed) + text);
      buffer := pieces[|pieces| - 1];
      var lines := NonBlank(complete);
      RelayLines(writer, lines, parse);
      assert Flatten(texts[..i + 1]) == consumed + text by {
        FlattenSnoc(texts, i);
      }
      assert buffer == Remainder(consumed + text) by {
        FrameStep(consumed, text);
      }
      BufferedStep(consumed, text, parse);
      i := i + 1;
    }
    assert texts[..i] == texts;
    if upstream.end == Done {
      writer.Close();
    } else {
      writer.Abort();
    }
    return Streaming(StreamStatus, writer.written, writer.state);
  }

  /** One step of the buffered relay: a read adds the records of the lines
      it completes. */
  lemma BufferedStep(consumed: string, text: string, parse: string -> Option<string>)
    ensures Records(LinesFragments(NonBlank(CompleteLines(consumed + text)), parse))
         == Records(LinesFragments(NonBlank(CompleteLines(consumed)), parse))
          + Records(LinesFragments(NonBlank(CompleteLines(Remainder(consumed) + text)), parse))
  {
    var a, b := CompleteLines(consumed), CompleteLines(Remainder(consumed) + text);
    FrameStep(consumed, text);
    NonBlankAppend(a, b);
    LinesFragmentsAppend(NonBlank(a), NonBlank(b), parse);
    RecordsAppend(LinesFragments(NonBlank(a), parse), LinesFragments(NonBlank(b), parse));
  }

  /** However the upstream text is cut into reads, the buffered relay
      produces what the relay produces when the whole text, ending at a line
      boundary, arrives in a single read. */
  lemma BufferedMatchesSingleRead(texts: seq<string>, parse: string -> Option<string>)
    requires Flatten(texts) == [] || Flatten(texts)[|Flatten(texts)| - 1] == Newline
    ensures BufferedFragments(texts, parse) == Fragments([Flatten(texts)], parse)
  {
    var text := Flatten(texts);
    TrailingFragmentStaysBuffered(text, []);
    assert text + [] == text;
    var pieces := Split(text);
    var empty: seq<string> := [[]];
    assert pieces == CompleteLines(text) + empty;
    NonBlankAppend(CompleteLines(text), empty);
    assert NonBlank(empty) == [] by {
      assert empty[..0] == [];
    }
    assert NonBlank(CompleteLines(text)) + [] == NonBlank(CompleteLines(text));
    SingleRead(text, parse);
  }

  /** A single read contributes what `ReadFragments` says. */
  lemma SingleRead(text: string, parse: string -> Option<string>)
    ensures Fragments([text], parse) == ReadFragments(text, parse)
  {
    var f := (t: string) => ReadFragments(t, parse);
    ConcatMapSnoc([], text, f);
    assert [] + [text] == [text];
    assert ConcatMap([], f) == [];
    assert [] + f(text) == f(text);
  }

  /** The upstream event carrying the text "x", as the completion API sends it. */
  const SampleEvent: string := "{\"choices\":[{\"delta\":{\"content\":\"x\"}}]}"

  /** `JSON.parse` and the content lookup on a stream that carries only
      `SampleEvent`: any part of that object alone is not JSON. */
  function SampleParse(message: string): Option<string>
  {
    if message == SampleEvent then Some("x") else None
  }

  /** A read holding one non-blank line, with or without its newline,
      contributes what that line contributes. */
  lemma OneLineRead(line: string, parse: string -> Option<string>)
    requires Newline !in line && !IsBlank(line)
    ensures ReadFragments(line, parse) == LinesFragments([line], parse)
    ensures ReadFragments(line + [Newline], parse) == LinesFragments([line], parse)
  {
    SplitNoNewline(line);
    SplitNoNewline([]);
    SplitAtNewline(line, []);
    assert line + [Newline] + [] == line + [Newline];
    var empty: seq<string> := [[]];
    assert Split(line + [Newline]) == [line] + empty;
    NonBlankAppend([line], empty);
    assert NonBlank([line]) == [line] by {
      assert [line][..0] == [];
    }
    assert NonBlank(empty) == [] by {
      assert empty[..0] == [];
    }
    assert [line] + [] == [line];
  }

  /** Two reads contribute what each contributes, in order. */
  lemma TwoReads(a: string, b: string, parse: string -> Option<string>)
    ensures Fragments([a, b], parse) == ReadFragments(a, parse) + ReadFragments(b, parse)
  {
    ReadsAreIndependent([a], [b], parse);
    assert [a] + [b] == [a, b];
    SingleRead(a, parse);
    SingleRead(b, parse);
  }

  /** A read of one silent line contributes nothing. */
  lemma SilentLineRead(line: string, parse: string -> Option<string>)
    requires Newline !in line && !IsBlank(line) && LineFragment(line, parse).None?
    ensures ReadFragments(line, parse) == []
    ensures ReadFragments(line + [Newline], parse) == []
  {
    OneLineRead(line, parse);
    assert [line][..0] == [];
  }

  /** A line cut between two upstream reads is lost. Whenever neither
      half of a line carries content on its own while the whole line does,
      the relay writes nothing for the two reads, while the same text in one
      read, or through the buffered relay, gives the line's content. */
  lemma {:induction false} SplitLineIsLost(head: string, tail: string, content: string, parse: string -> Option<string>)
    requires Newline !in head && Newline !in tail
    requires !IsBlank(head) && !IsBlank(tail)
    requires LineFragment(head, parse).None? && LineFragment(tail, parse).None?
    requires LineFragment(head + tail, parse) == Some(content)
    ensures Fragments([head, tail + [Newline]], parse) == []
    ensures Fragments([head + tail + [Newline]], parse) == [content]
    ensures BufferedFragments([head, tail + [Newline]], parse) == [content]
  {
    TwoReads(head, tail + [Newline], parse);
    SilentLineRead(head, parse);
    SilentLineRead(tail, parse);
    WholeLineRead(head, tail, content, parse);
    BufferedCutLine(head, tail, parse);
  }

  lemma WholeLineRead(head: string, tail: string, content: string, parse: string -> Option<string>)
    requires Newline !in head && Newline !in tail && !IsBlank(head)
    requires LineFragment(head + tail, parse) == Some(content)
    ensures ReadFragments(head + tail + [Newline], parse) == [content]
    ensures Fragments([head + tail + [Newline]], parse) == [content]
  {
    var whole := head + tail;
    BlankAppend(head, tail);
    assert Newline !in whole by {
      forall k | 0 <= k < |whole|
        ensures whole[k] != Newline
      {
        if k < |head| {
          assert whole[k] == head[k];
        } else {
          assert whole[k] == tail[k - |head|];
        }
      }
    }
    OneLineRead(whole, parse);
    assert LinesFragments([whole], parse) == [content] by {
      assert [whole][..0] == [];
    }
    SingleRead(whole + [Newline], parse);
  }

  lemma BufferedCutLine(head: string, tail: string, parse: string -> Option<string>)
    ensures BufferedFragments([head, tail + [Newline]], parse) == Fragments([head + tail + [Newline]], parse)
  {
    var texts := [head, tail + [Newline]];
    assert Flatten(texts) == head + (tail + [Newline]) by {
      assert texts[..1] == [head];
      assert [head][..0] == [];
      assert Flatten([head]) == [] + head;
      assert [] + head == head;
    }
    AppendAssoc(head, tail, [Newline]);
    BufferedMatchesSingleRead(texts, parse);
  }

  /** The first half of the sample line: the marker and the start of the event. */
  const CutHead: string := "data: {\"choices\""

  /** The rest of the sample line. */
  const CutTail: string := ":[{\"delta\":{\"content\":\"x\"}}]}"

  // The facts about the two halves below take the half as a parameter equal
  // to the constant, rather than naming the constant in their ensures, so
  // that the solver sees the literal only where a proof needs it.

  lemma HeadIsSilent(head: string)
    requires head == CutHead
    ensures Newline !in head && !IsBlank(head) && LineFragment(head, SampleParse).None?
  {
    HeadIsOneLine(head);
    HeadIsNotBlank(head);
    HeadDoesNotParse(head);
  }

  lemma HeadIsOneLine(head: string)
    requires head == CutHead
    ensures Newline !in head
  {
  }

  lemma HeadIsNotBlank(head: string)
    requires head == CutHead
    ensures !IsBlank(head)
  {
    assert head[0] == 'd';
  }

  lemma HeadDoesNotParse(head: string)
    requires head == CutHead
    ensures SampleParse(StripData(head)).None?
  {
    assert StripData(head) == head[|DataPrefix|..] by {
      assert head[..|DataPrefix|] == DataPrefix;
    }
    assert |head[|DataPrefix|..]| != |SampleEvent|;
  }

  lemma TailIsSilent(tail: string)
    requires tail == CutTail
    ensures Newline !in tail && !IsBlank(tail) && LineFragment(tail, SampleParse).None?
  {
    TailIsOneLine(tail);
    TailIsNotBlank(tail);
    TailDoesNotParse(tail);
  }

  lemma TailIsOneLine(tail: string)
    requires tail == CutTail
    ensures Newline !in tail
  {
  }

  lemma TailIsNotBlank(tail: string)
    requires tail == CutTail
    ensures !IsBlank(tail)
  {
    assert tail[0] == ':';
  }

  lemma TailDoesNotParse(tail: string)
    requires tail == CutTail
    ensures SampleParse(StripData(tail)).None?
  {
    assert StripData(tail) == tail by {
      assert tail[0] != DataPrefix[0];
    }
    assert |tail| != |SampleEvent|;
  }

  lemma WholeCarriesContent(head: string, tail: string)
    requires head == CutHead && tail == CutTail
    ensures LineFragment(head + tail, SampleParse) == Some("x")
  {
    var whole := head + tail;
    assert whole == DataPrefix + SampleEvent;
    assert StripData(whole) == SampleEvent by {
      assert whole[..|DataPrefix|] == DataPrefix;
    }
  }

  /** The sample event cut after `"choices"`: the two reads give nothing,
      one read gives "x". */
  lemma SampleLineIsLost()
    ensures Fragments([CutHead, CutTail + [Newline]], SampleParse) == []
    ensures Fragments([CutHead + CutTail + [Newline]], SampleParse) == ["x"]
    ensures BufferedFragments([CutHead, CutTail + [Newline]], SampleParse) == ["x"]
  {
    HeadIsSilent(CutHead);
    TailIsSilent(CutTail);
    WholeCarriesContent(CutHead, CutTail);
    SplitLineIsLost(CutHead, CutTail, "x", SampleParse);
  }
}

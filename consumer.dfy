/** The page's generate action (`generateLandingPage` in `src/app/page.tsx`):
    it posts the prompt to the relay, reads the relay's stream, decodes
    every complete non-blank line as a `{ chunk }` record, appends each
    chunk to the displayed code, and on a normal end of the stream saves the
    finished code to the history. */
module Consumer {
  import opened Wrappers
  import opened Lines
  import opened Streams
  import History

  /** What the request to the relay gives the page: `Rejected` when the
      request fails, the status is not OK, or the body has no reader;
      otherwise the reads of the body. */
  datatype Response = Rejected | Body(trace: Trace)

  /** The chunk one line of the relay's stream adds to the code. `decode`
      stands for `JSON.parse(line)` followed by `data.chunk`: `None` when
      the parse throws, `Some("")` when there is no chunk. A blank line, a
      line that does not parse and an empty chunk all add nothing. */
  function LineChunk(line: string, decode: string -> Option<string>): (chunk: string)
    ensures IsBlank(line) ==> chunk == []
    ensures !IsBlank(line) && decode(line).Some? ==> chunk == decode(line).value
    ensures decode(line).None? ==> chunk == []
  {
    if IsBlank(line) then []
    else
      match decode(line)
      case None => []
      case Some(c) => c
  }

  /** The chunk of each line, line by line. */
  function Chunks(lines: seq<string>, decode: string -> Option<string>): seq<string>
  {
    seq(|lines|, k requires 0 <= k < |lines| => LineChunk(lines[k], decode))
  }

  /** The code a list of complete lines adds, in order. */
  function Code(lines: seq<string>, decode: string -> Option<string>): string
  {
    if lines == [] then []
    else Code(lines[..|lines| - 1], decode) + LineChunk(lines[|lines| - 1], decode)
  }

  /** The code of a list of lines is the chunk of each line, one after another. */
  lemma {:induction false} CodeIsChunks(lines: seq<string>, decode: string -> Option<string>)
    ensures Code(lines, decode) == Flatten(Chunks(lines, decode))
    decreases |lines|
  {
    if lines != [] {
      var init := lines[..|lines| - 1];
      assert Chunks(lines, decode)[..|init|] == Chunks(init, decode);
      CodeIsChunks(init, decode);
    }
  }

  /** The code the page shows after reading `text`: only the lines whose
      newline has arrived are decoded; the rest waits in the buffer, so text
      with no newline yet shows nothing. */
  function StreamCode(text: string, decode: string -> Option<string>): (code: string)
    ensures Newline !in text ==> code == []
  {
    NoNewlineNoLines(text);
    Code(CompleteLines(text), decode)
  }

  /** `Date.now().toString()` for a non-negative clock value: decimal
      digits with no leading zero. */
  function Decimal(n: nat): (digits: string)
    ensures |digits| >= 1
    ensures forall i :: 0 <= i < |digits| ==> '0' <= digits[i] <= '9'
    ensures n >= 10 ==> digits[0] != '0'
  {
    if n < 10 then [('0' as int + n) as char]
    else Decimal(n / 10) + [('0' as int + n % 10) as char]
  }

  /** The number a string of decimal digits denotes. */
  function DigitsValue(digits: string): nat
  {
    if digits == [] then 0
    else
      var d := digits[|digits| - 1] as int - '0' as int;
      DigitsValue(digits[..|digits| - 1]) * 10 + (if 0 <= d < 10 then d else 0)
  }

  /** A clock value's decimal text reads back as that value, so distinct
      clock values give distinct version ids. */
  lemma {:induction false} DecimalValue(n: nat)
    ensures DigitsValue(Decimal(n)) == n
    decreases n
  {
    if n >= 10 {
      var digits := Decimal(n);
      assert digits[..|digits| - 1] == Decimal(n / 10);
      DecimalValue(n / 10);
    }
  }

  lemma CodeSnoc(lines: seq<string>, line: string, decode: string -> Option<string>)
    ensures Code(lines + [line], decode) == Code(lines, decode) + LineChunk(line, decode)
  {
    assert (lines + [line])[..|lines|] == lines;
  }

  /** The code of two runs of lines is the code of each, one after the other. */
  lemma {:induction false} CodeAppend(a: seq<string>, b: seq<string>, decode: string -> Option<string>)
    ensures Code(a + b, decode) == Code(a, decode) + Code(b, decode)
    decreases |b|
  {
    if b == [] {
      assert a + b == a;
    } else {
      var init, last := b[..|b| - 1], b[|b| - 1];
      LastSplit(b);
      AppendAssoc(a, init, [last]);
      CodeSnoc(init, last, decode);
      CodeSnoc(a + init, last, decode);
      CodeAppend(a, init, decode);
      AppendAssoc(Code(a, decode), Code(init, decode), LineChunk(last, decode));
    }
  }

  /** A line that adds nothing (blank, not a record, or an empty chunk) is
      skipped: the lines after it add exactly what they would without it. */
  lemma SilentLineIsSkipped(before: seq<string>, line: string, after: seq<string>, decode: string -> Option<string>)
    requires LineChunk(line, decode) == []
    ensures Code(before + [line] + after, decode) == Code(before, decode) + Code(after, decode)
  {
    CodeAppend(before + [line], after, decode);
    CodeSnoc(before, line, decode);
    assert Code(before, decode) + [] == Code(before, decode);
  }

  /** Text after the last newline is never shown: when the stream stops
      in the middle of a line, that line is dropped. */
  lemma TrailingFragmentIsDropped(lines: seq<string>, fragment: string, decode: string -> Option<string>)
    requires forall k :: 0 <= k < |lines| ==> Newline !in lines[k]
    requires Newline !in fragment
    ensures StreamCode(Terminated(lines) + fragment, decode) == Code(lines, decode)
  {
    TerminatedFraming(lines, fragment);
  }

  /** One step of the read loop: appending a read's text adds the code of
      the lines completed by (buffer + text). */
  lemma StreamStep(consumed: string, text: string, decode: string -> Option<string>)
    ensures StreamCode(consumed + text, decode)
         == StreamCode(consumed, decode) + Code(CompleteLines(Remainder(consumed) + text), decode)
  {
    FrameStep(consumed, text);
    CodeAppend(CompleteLines(consumed), CompleteLines(Remainder(consumed) + text), decode);
  }

  /** The page: the prompt, the code on display, the loading and finished
      flags, and the history store. */
  class Page {
    var prompt: string
    var generatedCode: string
    var isLoading: bool
    var finished: bool
    const store: History.Store

    ghost predicate Valid()
      reads this, store
    {
      store.Valid()
    }

    constructor (prompt: string, store: History.Store)
      requires store.Valid()
      ensures Valid()
      ensures this.prompt == prompt && this.store == store
      ensures generatedCode == [] && !isLoading && !finished
    {
      this.prompt := prompt;
      this.store := store;
      generatedCode := [];
      isLoading := false;
      finished := false;
    }

    /** Decodes `lines` in order, appending each chunk to `code` and to the
        code on display. */
    method AppendLines(lines: seq<string>, code: string, decode: string -> Option<string>) returns (newCode: string)
      modifies this
      ensures newCode == code + Code(lines, decode)
      ensures generatedCode == old(generatedCode) + Code(lines, decode)
      ensures prompt == old(prompt) && isLoading == old(isLoading) && finished == old(finished)
    {
      newCode := code;
      var j := 0;
      while j < |lines|
        invariant 0 <= j <= |lines|
        invariant newCode == code + Code(lines[..j], decode)
        invariant generatedCode == old(generatedCode) + Code(lines[..j], decode)
        invariant prompt == old(prompt) && isLoading == old(isLoading) && finished == old(finished)
      {
        var line := lines[j];
        TakeSnoc(lines, j);
        CodeSnoc(lines[..j], line, decode);
        AppendAssoc(code, Code(lines[..j], decode), LineChunk(line, decode));
        AppendAssoc(old(generatedCode), Code(lines[..j], decode), LineChunk(line, decode));
        if !IsBlank(line) {
          match decode(line)
          case None =>
          case Some(chunk) =>
            if chunk != [] {
              newCode := newCode + chunk;
              generatedCode := generatedCode + chunk;
            }
        }
        j := j + 1;
      }
      assert lines[..j] == lines;
    }

    /** The read loop: each read is appended to the buffer, the buffer's
        complete lines are decoded, and the unterminated rest stays in the
        buffer. The code it returns, and shows, is that of every complete
        line of the text read. */
    method ReadStream(texts: seq<string>, decode: string -> Option<string>) returns (completeCode: string)
      requires generatedCode == []
      modifies this
      ensures completeCode == StreamCode(Flatten(texts), decode)
      ensures generatedCode == completeCode
      ensures prompt == old(prompt) && isLoading == old(isLoading) && finished == old(finished)
    {
      var buffer := [];
      completeCode := [];
      var i := 0;
      while i < |texts|
        invariant 0 <= i <= |texts|
        invariant prompt == old(prompt) && isLoading == old(isLoading) && finished == old(finished)
        invariant buffer == Remainder(Flatten(texts[..i]))
        invariant Newline !in buffer
        invariant completeCode == StreamCode(Flatten(texts[..i]), decode)
        invariant generatedCode == completeCode
      {
        ghost var consumed := Flatten(texts[..i]);
        var text := texts[i];
        buffer := buffer + text;
        var pieces := Split(buffer);
        ghost var completed := CompleteLines(Remainder(consumed) + text);
        assert pieces[..|pieces| - 1] == completed;
        buffer := pieces[|pieces| - 1];
        completeCode := AppendLines(pieces[..|pieces| - 1], completeCode, decode);
        assert Flatten(texts[..i + 1]) == consumed + text by {
          FlattenSnoc(texts, i);
        }
        assert buffer == Remainder(consumed + text) by {
          FrameStep(consumed, text);
        }
        RemainderHasNoNewline(consumed + text);
        assert completeCode == StreamCode(consumed + text, decode) by {
          StreamStep(consumed, text, decode);
        }
        i := i + 1;
      }
      assert texts[..i] == texts;
    }

    /** `generateLandingPage()`. `now` is the clock value `Date.now()`
        gives the saved version. An empty prompt does nothing. Otherwise the
        code on display is the code of every complete line the page read,
        the page is finished exactly when the stream ended normally, and
        only then is the finished code saved to the history. */
    method GenerateLandingPage(response: Response, decode: string -> Option<string>, now: nat)
      requires Valid()
      modifies this, store
      ensures Valid()
      ensures prompt == old(prompt)
      ensures prompt == [] ==> generatedCode == old(generatedCode) && isLoading == old(isLoading)
                               && finished == old(finished) && store.items == old(store.items)
      ensures prompt != [] ==> !isLoading
      ensures prompt != [] && response.Rejected? ==> generatedCode == []
      ensures prompt != [] && response.Body? ==>
                generatedCode == StreamCode(Flatten(response.trace.chunks), decode)
      ensures finished <==> (prompt == [] && old(finished)) || (prompt != [] && response.Body? && response.trace.end == Done)
      ensures finished && prompt != [] && store.hasWindow ==>
                store.items == old(store.items)[History.StorageKey := History.Versions(
                  History.Prepend(History.GenerationVersion(Decimal(now), prompt, generatedCode, now), old(store.GetHistory())))]
      ensures !(finished && prompt != [] && store.hasWindow) ==> store.items == old(store.items)
    {
      if prompt == [] {
        return;
      }
      isLoading := true;
      generatedCode := [];
      finished := false;
      if response.Rejected? {
        isLoading := false;
        return;
      }
      var completeCode := ReadStream(response.trace.chunks, decode);
      if response.trace.end == Done {
        finished := true;
        var version := History.GenerationVersion(Decimal(now), prompt, completeCode, now);
        var saved := store.SaveVersion(version);
      }
      isLoading := false;
    }
  }
}

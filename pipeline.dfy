/** The relay and the page together: what the page shows is exactly the
    content the relay took from the upstream stream, however the relay's
    output is cut into reads on the way to the page. */
module Pipeline {
  import opened Wrappers
  import opened Lines
  import opened Streams
  import Envelope
  import Relay
  import Consumer
  import History

  /** A decoder that reads every record back as the content it was made from. */
  ghost predicate ReadsRecordsBack(decode: string -> Option<string>)
  {
    forall c :: decode(Envelope.Encode(c)) == Some(c)
  }

  lemma EnvelopeReadsRecordsBack()
    ensures ReadsRecordsBack(Envelope.Decode)
  {
    forall c {
      Envelope.DecodeEncode(c);
    }
  }

  /** Each record line adds exactly its content to the page's code. */
  lemma {:induction false} CodeOfRecords(fragments: seq<string>, decode: string -> Option<string>)
    requires ReadsRecordsBack(decode)
    ensures Consumer.Code(Relay.EncodeAll(fragments), decode) == Flatten(fragments)
    decreases |fragments|
  {
    if fragments != [] {
      var init, last := fragments[..|fragments| - 1], fragments[|fragments| - 1];
      var lines := Relay.EncodeAll(fragments);
      assert lines == Relay.EncodeAll(init) + [Envelope.Encode(last)];
      Consumer.CodeSnoc(Relay.EncodeAll(init), Envelope.Encode(last), decode);
      Envelope.EncodeIsOneLine(last);
      assert Consumer.LineChunk(Envelope.Encode(last), decode) == last;
      CodeOfRecords(init, decode);
    }
  }

  /** Whatever reads the relay's records arrive in, the page shows the
      contents they were made from, one after another. */
  lemma RecordsAreReadBack(fragments: seq<string>, received: seq<string>, decode: string -> Option<string>)
    requires ReadsRecordsBack(decode)
    requires Flatten(received) == Relay.Records(fragments)
    ensures Consumer.StreamCode(Flatten(received), decode) == Flatten(fragments)
  {
    Relay.RecordsAreTerminatedLines(fragments);
    CodeOfRecords(fragments, decode);
  }

  /** The relay as written, end to end: the page shows the upstream's
      content fragments, in order, with nothing added or lost on the way
      from the relay to the page. */
  lemma RelayThenPage(upstream: Trace, parse: string -> Option<string>, received: seq<string>)
    requires Flatten(received) == Relay.Records(Relay.Fragments(upstream.chunks, parse))
    ensures Consumer.StreamCode(Flatten(received), Envelope.Decode) == Flatten(Relay.Fragments(upstream.chunks, parse))
  {
    EnvelopeReadsRecordsBack();
    RecordsAreReadBack(Relay.Fragments(upstream.chunks, parse), received, Envelope.Decode);
  }

  /** The relay with a carry-over buffer, end to end: the page shows the
      content of every complete upstream line, however the upstream text
      was cut into reads. */
  lemma BufferedRelayThenPage(upstream: Trace, parse: string -> Option<string>, received: seq<string>)
    requires Flatten(received) == Relay.Records(Relay.BufferedFragments(upstream.chunks, parse))
    ensures Consumer.StreamCode(Flatten(received), Envelope.Decode) == Flatten(Relay.BufferedFragments(upstream.chunks, parse))
  {
    EnvelopeReadsRecordsBack();
    RecordsAreReadBack(Relay.BufferedFragments(upstream.chunks, parse), received, Envelope.Decode);
  }

  /** A prompt sent from the page through the relay. `cut` says how the
      relay's output is divided into the page's reads; it loses and adds
      nothing. The page ends up showing, and on a normal end saving, the
      content the relay took from the upstream; it is finished exactly when
      the upstream ended normally. */
  method Exchange(page: Consumer.Page, upstream: Trace, parse: string -> Option<string>,
                  cut: string -> seq<string>, now: nat)
    requires page.Valid()
    requires forall s :: Flatten(cut(s)) == s
    modifies page, page.store
    ensures page.Valid()
    ensures page.prompt != [] ==> page.generatedCode == Flatten(Relay.Fragments(upstream.chunks, parse))
    ensures page.prompt != [] ==> !page.isLoading && (page.finished <==> upstream.end == Done)
    ensures page.prompt != [] && upstream.end == Done && page.store.hasWindow ==>
              page.store.GetHistory() != [] && page.store.GetHistory()[0].code == page.generatedCode
  {
    var response := Consumer.Rejected;
    if page.prompt != [] {
      var relayed := Relay.Post(Some(page.prompt), upstream, parse);
      var end := if relayed.end == Relay.Closed then Done else Broken;
      response := Consumer.Body(Trace(cut(relayed.body), end));
      RelayThenPage(upstream, parse, cut(relayed.body));
    }
    page.GenerateLandingPage(response, Envelope.Decode, now);
  }
}

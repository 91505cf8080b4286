/** Line framing on strings, as both ends of the stream use it:
    JavaScript's `s.split('\n')`, `lines.join('\n')`, the `line.trim()`
    emptiness test, and the "append, emit complete lines, keep the
    remainder" decomposition built on `split` and `pop`. */
module Lines {

  const Newline: char := '\n'

  /** The characters `String.prototype.trim` removes: ECMAScript's
      WhiteSpace and LineTerminator code points. */
  predicate IsTrimmable(c: char)
  {
    || c == '\t' || c == '\n' || c == '\U{000B}' || c == '\U{000C}' || c == '\r'
    || c == ' ' || c == '\U{00A0}' || c == '\U{1680}'
    || ('\U{2000}' <= c <= '\U{200A}')
    || c == '\U{2028}' || c == '\U{2029}' || c == '\U{202F}' || c == '\U{205F}'
    || c == '\U{3000}' || c == '\U{FEFF}'
  }

  /** `line.trim() === ''`: every character of the line is one `trim` removes. */
  predicate IsBlank(line: string)
    ensures IsBlank(line) <==> forall i | 0 <= i < |line| :: IsTrimmable(line[i])
  {
    line == [] || (IsTrimmable(line[0]) && IsBlank(line[1..]))
  }

  /** `s.split('\n')`: the pieces between newlines, never an empty list
      (the empty string splits into one empty piece). */
  function Split(s: string): (pieces: seq<string>)
    ensures |pieces| == NewlineCount(s) + 1
  {
    if s == [] then [[]]
    else
      var rest := Split(s[1..]);
      if s[0] == Newline then [[]] + rest
      else [[s[0]] + rest[0]] + rest[1..]
  }

  /** How many newlines `s` holds. */
  function NewlineCount(s: string): nat
  {
    if s == [] then 0
    else NewlineCount(s[1..]) + (if s[0] == Newline then 1 else 0)
  }

  /** No piece of a split holds a newline. */
  lemma {:induction false} SplitPiecesHaveNoNewline(s: string)
    ensures forall k :: 0 <= k < |Split(s)| ==> Newline !in Split(s)[k]
  {
    if s != [] {
      var rest := Split(s[1..]);
      SplitPiecesHaveNoNewline(s[1..]);
      if s[0] != Newline {
        var first := [s[0]] + rest[0];
        assert Newline !in first by {
          forall i | 0 <= i < |first| ensures first[i] != Newline {
            if i > 0 {
              assert first[i] == rest[0][i - 1];
            }
          }
        }
        forall k | 0 <= k < |Split(s)| ensures Newline !in Split(s)[k] {
          if k > 0 {
            assert Split(s)[k] == rest[k];
          }
        }
      } else {
        forall k | 0 <= k < |Split(s)| ensures Newline !in Split(s)[k] {
          if k > 0 {
            assert Split(s)[k] == rest[k - 1];
          }
        }
      }
    }
  }

  /** `pieces.join('\n')`. */
  function Join(pieces: seq<string>): string
  {
    if |pieces| == 0 then []
    else if |pieces| == 1 then pieces[0]
    else pieces[0] + [Newline] + Join(pieces[1..])
  }

  /** The lines of `s` that a newline terminates: every piece of the split but the last. */
  function CompleteLines(s: string): seq<string>
  {
    var pieces := Split(s);
    pieces[..|pieces| - 1]
  }

  /** Text with no newline yet has no complete line. */
  lemma NoNewlineNoLines(s: string)
    ensures Newline !in s ==> CompleteLines(s) == []
  {
    if Newline !in s {
      SplitNoNewline(s);
    }
  }

  /** The unterminated tail of `s`: what `lines.pop()` leaves in the buffer. */
  function Remainder(s: string): string
  {
    var pieces := Split(s);
    pieces[|pieces| - 1]
  }

  /** The strings of `parts` one after another. */
  function Flatten(parts: seq<string>): string
  {
    if parts == [] then [] else Flatten(parts[..|parts| - 1]) + parts[|parts| - 1]
  }

  /** Each line followed by a newline: what a writer of newline-terminated records produces. */
  function Terminated(lines: seq<string>): string
  {
    if lines == [] then [] else Terminated(lines[..|lines| - 1]) + lines[|lines| - 1] + [Newline]
  }

  /** Joining the pieces of a split gives back the string: splitting loses
      and duplicates nothing. */
  lemma {:induction false} JoinSplit(s: string)
    ensures Join(Split(s)) == s
  {
    if s != [] {
      var rest := Split(s[1..]);
      JoinSplit(s[1..]);
      if s[0] == Newline {
        assert Split(s) == [[]] + rest;
        assert ([[]] + rest)[1..] == rest;
      } else if |rest| == 1 {
        assert Split(s) == [[s[0]] + rest[0]];
      } else {
        assert Split(s) == [[s[0]] + rest[0]] + rest[1..];
        assert Join(rest) == rest[0] + [Newline] + Join(rest[1..]);
        assert ([[s[0]] + rest[0]] + rest[1..])[1..] == rest[1..];
      }
    }
  }

  /** A string without a newline is a single piece. */
  lemma {:induction false} SplitNoNewline(a: string)
    requires Newline !in a
    ensures Split(a) == [a]
  {
    if a != [] {
      assert a[0] in a;
      assert Newline !in a[1..] by {
        forall k | 0 <= k < |a[1..]| ensures a[1..][k] != Newline {
          assert a[1..][k] == a[k + 1];
        }
      }
      SplitNoNewline(a[1..]);
      assert [a[0]] + a[1..] == a;
    }
  }

  /** A newline separates the pieces of what comes before it from those after it. */
  lemma {:induction false} SplitAtNewline(a: string, b: string)
    ensures Split(a + [Newline] + b) == Split(a) + Split(b)
  {
    var s := a + [Newline] + b;
    var rb := Split(b);
    if a == [] {
      assert s == [Newline] + b;
      assert s[1..] == b;
    } else {
      assert s[0] == a[0];
      assert s[1..] == a[1..] + [Newline] + b;
      var ra := Split(a[1..]);
      var tail := ra + rb;
      assert Split(s[1..]) == tail by {
        SplitAtNewline(a[1..], b);
      }
      if a[0] == Newline {
        assert Split(s) == [[]] + tail;
        assert Split(a) == [[]] + ra;
        AppendAssoc([[]], ra, rb);
      } else {
        var first := [a[0]] + ra[0];
        DropAppend(ra, rb);
        assert Split(s) == [first] + tail[1..];
        assert Split(a) == [first] + ra[1..];
        AppendAssoc([first], ra[1..], rb);
      }
    }
  }

  /** Splitting is undone by joining: a list of newline-free pieces is
      what the split of its join returns. */
  lemma {:induction false} SplitJoin(pieces: seq<string>)
    requires |pieces| >= 1
    requires forall k :: 0 <= k < |pieces| ==> Newline !in pieces[k]
    ensures Split(Join(pieces)) == pieces
  {
    if |pieces| == 1 {
      SplitNoNewline(pieces[0]);
    } else {
      SplitJoin(pieces[1..]);
      SplitNoNewline(pieces[0]);
      SplitAtNewline(pieces[0], Join(pieces[1..]));
      assert [pieces[0]] + pieces[1..] == pieces;
    }
  }

  /** Text appended after `x` only extends the unterminated tail of `x`:
      the complete lines of `x` stay as they are. */
  lemma SplitAppend(x: string, y: string)
    ensures Split(x + y) == CompleteLines(x) + Split(Remainder(x) + y)
  {
    var lines, rest := CompleteLines(x), Remainder(x);
    JoinedForm(x);
    if lines == [] {
      assert [] + Split(rest + y) == Split(rest + y);
    } else {
      var joined := Join(lines);
      AppendAssoc(joined + [Newline], rest, y);
      SplitAtNewline(joined, rest + y);
      SplitJoinedLines(x);
    }
  }

  /** A string is its complete lines joined, then a newline and the remainder. */
  lemma JoinedForm(x: string)
    ensures CompleteLines(x) == [] ==> x == Remainder(x)
    ensures CompleteLines(x) != [] ==> x == Join(CompleteLines(x)) + [Newline] + Remainder(x)
  {
    var lines, rest := CompleteLines(x), Remainder(x);
    assert lines + [rest] == Split(x);
    JoinSplit(x);
    JoinSnoc(lines, rest);
  }

  lemma SplitJoinedLines(x: string)
    requires CompleteLines(x) != []
    ensures Split(Join(CompleteLines(x))) == CompleteLines(x)
  {
    LinesHaveNoNewline(x);
    SplitJoin(CompleteLines(x));
  }

  /** The remainder holds no newline. */
  lemma RemainderHasNoNewline(s: string)
    ensures Newline !in Remainder(s)
  {
    SplitPiecesHaveNoNewline(s);
  }

  /** No complete line holds a newline. */
  lemma LinesHaveNoNewline(s: string)
    ensures forall k :: 0 <= k < |CompleteLines(s)| ==> Newline !in CompleteLines(s)[k]
  {
    var pieces := Split(s);
    SplitPiecesHaveNoNewline(s);
    forall k | 0 <= k < |CompleteLines(s)| ensures Newline !in CompleteLines(s)[k] {
      assert CompleteLines(s)[k] == pieces[k];
    }
  }

  /** One step of the line decoder: appending `text` to the consumed input
      adds exactly the complete lines of (old remainder + `text`), and the
      new remainder is the remainder of that. */
  lemma FrameStep(consumed: string, text: string)
    ensures CompleteLines(consumed + text)
         == CompleteLines(consumed) + CompleteLines(Remainder(consumed) + text)
    ensures Remainder(consumed + text) == Remainder(Remainder(consumed) + text)
  {
    var lines := CompleteLines(consumed);
    var tail := Split(Remainder(consumed) + text);
    var whole := Split(consumed + text);
    assert whole == lines + tail by { SplitAppend(consumed, text); }
    assert CompleteLines(consumed + text) == lines + tail[..|tail| - 1] by {
      assert whole[..|whole| - 1] == lines + tail[..|tail| - 1];
    }
    assert Remainder(consumed + text) == tail[|tail| - 1] by {
      assert whole[|whole| - 1] == tail[|tail| - 1];
    }
  }

  /** The complete lines, each with its newline, followed by the remainder
      give back the text the decoder was fed: the buffer keeps exactly
      what the lines did not take. */
  lemma {:induction false} FrameLosesNothing(buffer: string, text: string)
    ensures Terminated(CompleteLines(buffer + text)) + Remainder(buffer + text) == buffer + text
  {
    var pieces := Split(buffer + text);
    JoinSplit(buffer + text);
    JoinIsTerminated(pieces[..|pieces| - 1], pieces[|pieces| - 1]);
    assert pieces[..|pieces| - 1] + [pieces[|pieces| - 1]] == pieces;
  }

  lemma {:induction false} JoinIsTerminated(lines: seq<string>, last: string)
    ensures Join(lines + [last]) == Terminated(lines) + last
  {
    JoinSnoc(lines, last);
    if lines != [] {
      var init, final := lines[..|lines| - 1], lines[|lines| - 1];
      assert init + [final] == lines;
      JoinIsTerminated(init, final);
    }
  }

  lemma {:induction false} JoinSnoc(lines: seq<string>, last: string)
    ensures lines == [] ==> Join(lines + [last]) == last
    ensures lines != [] ==> Join(lines + [last]) == Join(lines) + [Newline] + last
  {
    if |lines| >= 2 {
      JoinSnoc(lines[1..], last);
      assert (lines + [last])[1..] == lines[1..] + [last];
    } else if |lines| == 1 {
      assert (lines + [last])[1..] == [last];
    }
  }

  /** Newline-terminated lines followed by an unterminated fragment decode
      into exactly those lines, with the fragment left in the buffer. */
  lemma {:induction false} TerminatedFraming(lines: seq<string>, fragment: string)
    requires forall k :: 0 <= k < |lines| ==> Newline !in lines[k]
    requires Newline !in fragment
    ensures CompleteLines(Terminated(lines) + fragment) == lines
    ensures Remainder(Terminated(lines) + fragment) == fragment
  {
    SplitJoin(lines + [fragment]);
    JoinIsTerminated(lines, fragment);
    assert (lines + [fragment])[..|lines|] == lines;
  }

  /** A fragment left unterminated when the input stops is never a complete
      line: it stays in the buffer. */
  lemma TrailingFragmentStaysBuffered(consumed: string, fragment: string)
    requires consumed == [] || consumed[|consumed| - 1] == Newline
    requires Newline !in fragment
    ensures CompleteLines(consumed + fragment) == CompleteLines(consumed)
    ensures Remainder(consumed + fragment) == fragment
  {
    if consumed != [] {
      var before := consumed[..|consumed| - 1];
      assert consumed == before + [Newline] + [];
      SplitAtNewline(before, []);
    }
    assert Remainder(consumed) == [];
    FrameStep(consumed, fragment);
    assert [] + fragment == fragment;
    SplitNoNewline(fragment);
  }

  /** One more read adds its text after that of the reads before it. */
  lemma FlattenSnoc(texts: seq<string>, i: nat)
    requires i < |texts|
    ensures Flatten(texts[..i + 1]) == Flatten(texts[..i]) + texts[i]
  {
    TakeSnoc(texts, i);
    assert texts[..i + 1][..i] == texts[..i];
  }

  lemma {:induction false} FlattenAppend(a: seq<string>, b: seq<string>)
    ensures Flatten(a + b) == Flatten(a) + Flatten(b)
  {
    if b != [] {
      FlattenAppend(a, b[..|b| - 1]);
      assert (a + b)[..|a + b| - 1] == a + b[..|b| - 1];
    } else {
      assert a + b == a;
    }
  }

  /** Two pieces together are blank exactly when each is. */
  lemma {:induction false} BlankAppend(a: string, b: string)
    ensures IsBlank(a + b) <==> IsBlank(a) && IsBlank(b)
  {
    if a != [] {
      assert (a + b)[0] == a[0];
      assert (a + b)[1..] == a[1..] + b;
      BlankAppend(a[1..], b);
    } else {
      assert a + b == b;
    }
  }

  lemma DropAppend<T>(x: seq<T>, y: seq<T>)
    requires x != []
    ensures (x + y)[0] == x[0] && (x + y)[1..] == x[1..] + y
  {
  }

  lemma AppendAssoc<T>(a: seq<T>, b: seq<T>, c: seq<T>)
    ensures (a + b) + c == a + (b + c)
  {
  }

  lemma TakeSnoc<T>(s: seq<T>, j: nat)
    requires j < |s|
    ensures s[..j + 1] == s[..j] + [s[j]]
  {
  }

  lemma LastSplit<T>(s: seq<T>)
    requires s != []
    ensures s == s[..|s| - 1] + [s[|s| - 1]]
  {
  }
}

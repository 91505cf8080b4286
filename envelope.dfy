/** The relay's output record, `JSON.stringify({ chunk: content })`, and a
    decoder for exactly that shape. The decoder is the witness that the
    record can be read back: it accepts the JSON string escapes, so
    `Decode(Encode(c)) == Some(c)` for every text `c`. */
module Envelope {
  import opened Wrappers
  import opened Lines

  /** What `JSON.stringify` writes before and after the quoted chunk. */
  const Prefix: string := "{\"chunk\":\""
  const Suffix: string := "\"}"

  /** The lower-case hexadecimal digit `JSON.stringify` uses in `\u00XX`. */
  function HexDigit(n: nat): char
    requires n < 16
  {
    if n < 10 then ('0' as int + n) as char else ('a' as int + n - 10) as char
  }

  /** The value of a hexadecimal digit of either case. */
  function HexValue(c: char): (v: Option<nat>)
    ensures v.Some? ==> v.value < 16
  {
    if '0' <= c <= '9' then Some(c as int - '0' as int)
    else if 'a' <= c <= 'f' then Some(c as int - 'a' as int + 10)
    else if 'A' <= c <= 'F' then Some(c as int - 'A' as int + 10)
    else None
  }

  /** The code unit written by the four hexadecimal digits of a `\uXXXX` escape. */
  function Hex4(digits: string): (v: Option<nat>)
    requires |digits| == 4
    ensures v.Some? ==> v.value < 0x1_0000
  {
    match (HexValue(digits[0]), HexValue(digits[1]), HexValue(digits[2]), HexValue(digits[3]))
    case (Some(a), Some(b), Some(c), Some(d)) => Some(((a * 16 + b) * 16 + c) * 16 + d)
    case _ => None
  }

  /** How `JSON.stringify` writes one character inside a string literal:
      the quote and the backslash are escaped, the five control characters
      with a short escape use it, every other control character becomes
      `\u00xx`, everything else is written as itself. */
  function Escape(c: char): (r: string)
    ensures |r| >= 1
    ensures Newline !in r
  {
    if c == '"' then "\\\""
    else if c == '\\' then "\\\\"
    else if c == '\U{0008}' then "\\b"
    else if c == '\t' then "\\t"
    else if c == '\n' then "\\n"
    else if c == '\U{000C}' then "\\f"
    else if c == '\r' then "\\r"
    else if c < ' ' then ['\\', 'u', '0', '0', HexDigit(c as int / 16), HexDigit(c as int % 16)]
    else [c]
  }

  /** The body of the JSON string literal for `s`. */
  function Quote(s: string): (r: string)
    ensures Newline !in r
  {
    if s == [] then [] else Escape(s[0]) + Quote(s[1..])
  }

  /** The character a single-letter JSON escape stands for. */
  function Unescape(e: char): Option<char>
  {
    if e == '"' then Some('"')
    else if e == '\\' then Some('\\')
    else if e == '/' then Some('/')
    else if e == 'b' then Some('\U{0008}')
    else if e == 'f' then Some('\U{000C}')
    else if e == 'n' then Some('\n')
    else if e == 'r' then Some('\r')
    else if e == 't' then Some('\t')
    else None
  }

  function Cons(c: char, rest: Option<string>): Option<string>
  {
    match rest
    case None => None
    case Some(t) => Some([c] + t)
  }

  /** Reads the body of a JSON string literal. A raw quote or control
      character, or a malformed escape, makes it fail; so does a `\u`
      escape of a lone surrogate (surrogate pairs are not decoded). */
  function Unquote(s: string): Option<string>
    decreases |s|
  {
    if s == [] then Some([])
    else if s[0] == '\\' then
      if |s| < 2 then None
      else if s[1] == 'u' then
        if |s| < 6 then None
        else
          match Hex4(s[2..6])
          case None => None
          case Some(n) =>
            if n < 0xD800 || 0xE000 <= n then Cons(n as char, Unquote(s[6..])) else None
      else
        match Unescape(s[1])
        case None => None
        case Some(c) => Cons(c, Unquote(s[2..]))
    else if s[0] == '"' || s[0] < ' ' then None
    else Cons(s[0], Unquote(s[1..]))
  }

  /** `JSON.stringify({ chunk: content })`. */
  function Encode(content: string): string
  {
    Prefix + Quote(content) + Suffix
  }

  /** A record is a single line, and never a blank one. */
  lemma EncodeIsOneLine(content: string)
    ensures Newline !in Encode(content)
    ensures !IsBlank(Encode(content))
  {
    assert Encode(content)[0] == '{';
  }

  /** Reads a line of the shape `Encode` writes. */
  function Decode(line: string): Option<string>
  {
    if |line| >= |Prefix| + |Suffix| && line[..|Prefix|] == Prefix && line[|line| - |Suffix|..] == Suffix
    then Unquote(line[|Prefix|..|line| - |Suffix|])
    else None
  }

  lemma HexDigitValue(n: nat)
    requires n < 16
    ensures HexValue(HexDigit(n)) == Some(n)
  {
  }

  /** An escaped character is read back as itself, and reading then goes on
      with what follows it. */
  lemma EscapeThenUnquote(c: char, rest: string)
    ensures Unquote(Escape(c) + rest) == Cons(c, Unquote(rest))
  {
    var s := Escape(c) + rest;
    if c == '"' || c == '\\' || c == '\U{0008}' || c == '\t' || c == '\n' || c == '\U{000C}' || c == '\r' {
      assert s[0] == '\\' && s[2..] == rest;
    } else if c < ' ' {
      var hi, lo := c as int / 16, c as int % 16;
      HexDigitValue(hi);
      HexDigitValue(lo);
      assert s[0] == '\\' && s[1] == 'u';
      assert s[2..6] == ['0', '0', HexDigit(hi), HexDigit(lo)];
      assert Hex4(s[2..6]) == Some(c as int);
      assert s[6..] == rest;
    } else {
      assert s[0] == c && s[1..] == rest;
    }
  }

  /** Quoting is undone by unquoting. */
  lemma {:induction false} UnquoteQuote(s: string)
    ensures Unquote(Quote(s)) == Some(s)
  {
    if s != [] {
      EscapeThenUnquote(s[0], Quote(s[1..]));
      UnquoteQuote(s[1..]);
      assert [s[0]] + s[1..] == s;
    }
  }

  /** Every record the relay writes decodes to the content it was made from. */
  lemma DecodeEncode(content: string)
    ensures Decode(Encode(content)) == Some(content)
  {
    var line := Encode(content);
    assert line[..|Prefix|] == Prefix;
    assert line[|line| - |Suffix|..] == Suffix;
    assert line[|Prefix|..|line| - |Suffix|] == Quote(content);
    UnquoteQuote(content);
  }

  /** Distinct contents give distinct records. */
  lemma EncodeInjective(a: string, b: string)
    requires Encode(a) == Encode(b)
    ensures a == b
  {
    DecodeEncode(a);
    DecodeEncode(b);
  }
}

/** Strings printed as Rust string literals into generated code, and read back. */
module RustLiterals {
  import opened Options

  function HexDigit(d: nat): char
    requires d < 16
  {
    if d < 10 then ('0' as int + d) as char else ('a' as int + d - 10) as char
  }

  // Lower case, without leading zeros.
  function Hex(n: nat): (h: string)
    ensures h != ""
  {
    if n < 16 then [HexDigit(n)] else Hex(n / 16) + [HexDigit(n % 16)]
  }

  function Escape(c: char): string {
    if c == '\\' then "\\\\"
    else if c == '"' then "\\\""
    else if c == '\n' then "\\n"
    else if c == '\r' then "\\r"
    else if c == '\t' then "\\t"
    else if c as int < 0x20 then "\\u{" + Hex(c as int) + "}"
    else [c]
  }

  // The literal before its closing quote.
  function Opened(s: string): string {
    if s == "" then "\"" else Opened(s[..|s| - 1]) + Escape(s[|s| - 1])
  }

  function Literal(s: string): string { Opened(s) + "\"" }

  method RustStr(s: string) returns (out: string)
    ensures out == Literal(s)
  {
    out := "\"";
    for i := 0 to |s|
      invariant out == Opened(s[..i])
    {
      assert s[..i + 1][..i] == s[..i];
      out := out + Escape(s[i]);
    }
    assert s[..|s|] == s;
    out := out + "\"";
  }

  // ----- string literals as the Rust reference defines them -----

  predicate IsHexDigit(c: char) { '0' <= c <= '9' || 'a' <= c <= 'f' || 'A' <= c <= 'F' }

  function HexValue(c: char): (d: nat)
    requires IsHexDigit(c)
    ensures d < 16
  {
    if c <= '9' then c as int - '0' as int
    else if c <= 'F' then c as int - 'A' as int + 10
    else c as int - 'a' as int + 10
  }

  function HexNumber(h: string): Option<nat> {
    if h == "" then Some(0)
    else
      var rest := HexNumber(h[..|h| - 1]);
      if rest.Some? && IsHexDigit(h[|h| - 1]) then Some(16 * rest.value + HexValue(h[|h| - 1])) else None
  }

  // One to six hexadecimal digits up to the closing brace, which name a Unicode scalar value.
  function CloseBrace(s: string): (i: nat)
    ensures i <= |s| && forall j | 0 <= j < i :: s[j] != '}'
  {
    if s == "" || s[0] == '}' then 0 else 1 + CloseBrace(s[1..])
  }

  function Scalar(h: string): Option<char> {
    var n := HexNumber(h);
    if 1 <= |h| <= 6 && n.Some? && (n.value < 0xD800 || 0xE000 <= n.value < 0x11_0000)
    then Some(n.value as char)
    else None
  }

  function SimpleEscape(c: char): Option<char> {
    match c
    case 'n' => Some('\n')
    case 'r' => Some('\r')
    case 't' => Some('\t')
    case '0' => Some('\0')
    case '\\' => Some('\\')
    case '\'' => Some('\'')
    case '"' => Some('"')
    case _ => None
  }

  // The text after the opening quote; what follows the closing quote must be empty.
  function ReadBody(s: string): Option<string> {
    if s == "" || s[0] == '\r' then None
    else if s[0] == '"' then if |s| == 1 then Some("") else None
    else if s[0] != '\\' then Prepend(s[0], ReadBody(s[1..]))
    else if |s| >= 3 && s[1] == 'u' && s[2] == '{' then
      var i := CloseBrace(s[3..]);
      if 3 + i < |s| && Scalar(s[3..3 + i]).Some?
      then Prepend(Scalar(s[3..3 + i]).value, ReadBody(s[4 + i..]))
      else None
    else if |s| >= 4 && s[1] == 'x' then
      var n := HexNumber(s[2..4]);
      if n.Some? && n.value < 0x80 then Prepend(n.value as char, ReadBody(s[4..])) else None
    else if |s| >= 2 && SimpleEscape(s[1]).Some? then Prepend(SimpleEscape(s[1]).value, ReadBody(s[2..]))
    else None
  }

  function Prepend(c: char, rest: Option<string>): Option<string> {
    match rest
    case Some(s) => Some([c] + s)
    case None => None
  }

  function ReadLiteral(s: string): Option<string> {
    if s != "" && s[0] == '"' then ReadBody(s[1..]) else None
  }

  // ----- reading undoes printing -----

  lemma {:induction false} NumberOfHex(n: nat)
    ensures HexNumber(Hex(n)) == Some(n)
    ensures forall c <- Hex(n) :: c != '}'
  {
    var h := Hex(n);
    if n < 16 {
      assert h[..0] == "";
    } else {
      NumberOfHex(n / 16);
      assert h[..|h| - 1] == Hex(n / 16) && h[|h| - 1] == HexDigit(n % 16);
    }
  }

  lemma {:induction false} CloseBraceAt(s: string, i: nat)
    requires i < |s| && s[i] == '}' && forall j | 0 <= j < i :: s[j] != '}'
    ensures CloseBrace(s) == i
  {
    if i > 0 {
      CloseBraceAt(s[1..], i - 1);
    }
  }

  lemma ReadBraced(h: string, rest: string)
    requires 1 <= |h| <= 6 && Scalar(h).Some? && '}' !in h
    ensures ReadBody("\\u{" + h + "}" + rest) == Prepend(Scalar(h).value, ReadBody(rest))
  {
    var s := "\\u{" + h + "}" + rest;
    var t := h + "}" + rest;
    assert s[3..] == t;
    CloseBraceAt(t, |h|);
    assert s[3..3 + |h|] == h && s[4 + |h|..] == rest;
  }

  lemma ReadSimple(e: char, rest: string)
    requires SimpleEscape(e).Some?
    ensures ReadBody("\\" + [e] + rest) == Prepend(SimpleEscape(e).value, ReadBody(rest))
  {
  }

  lemma ReadEscaped(c: char, rest: string)
    ensures ReadBody(Escape(c) + rest) == Prepend(c, ReadBody(rest))
  {
    if c == '\\' || c == '"' || c == '\n' || c == '\r' || c == '\t' {
      var e := Escape(c)[1];
      assert Escape(c) + rest == "\\" + [e] + rest;
      ReadSimple(e, rest);
    } else if c as int < 0x20 {
      NumberOfHex(c as int);
      assert |Hex(c as int)| <= 2;
      ReadBraced(Hex(c as int), rest);
    } else {
      assert ([c] + rest)[1..] == rest;
    }
  }

  ghost function Body(s: string): string {
    if s == "" then "" else Escape(s[0]) + Body(s[1..])
  }

  lemma {:induction false} BodyOfLast(s: string, c: char)
    ensures Body(s + [c]) == Body(s) + Escape(c)
  {
    hide Escape;
    if s == "" {
      assert [c][1..] == "";
    } else {
      BodyOfLast(s[1..], c);
      assert (s + [c])[0] == s[0] && (s + [c])[1..] == s[1..] + [c];
    }
  }

  lemma {:induction false} OpenedIsBody(s: string)
    ensures Opened(s) == "\"" + Body(s)
  {
    hide Escape;
    if s != "" {
      var front, c := s[..|s| - 1], s[|s| - 1];
      OpenedIsBody(front);
      BodyOfLast(front, c);
      assert s == front + [c];
    }
  }

  lemma {:induction false} ReadOfBody(s: string)
    ensures ReadBody(Body(s) + "\"") == Some(s)
  {
    if s == "" {
      assert Body(s) + "\"" == "\"";
    } else {
      ReadOfBody(s[1..]);
      var rest := Body(s[1..]) + "\"";
      ReadEscaped(s[0], rest);
      assert Body(s) + "\"" == Escape(s[0]) + rest;
      assert s == [s[0]] + s[1..];
    }
  }

  lemma ReadUndoesPrint(s: string)
    ensures ReadLiteral(Literal(s)) == Some(s)
  {
    ReadOfBody(s);
    OpenedIsBody(s);
    assert Literal(s)[1..] == Body(s) + "\"";
  }

  lemma LiteralsDiffer(s: string, t: string)
    requires s != t
    ensures Literal(s) != Literal(t)
  {
    ReadUndoesPrint(s);
    ReadUndoesPrint(t);
  }

  ghost predicate IsPrintable(s: string) {
    forall i | 0 <= i < |s| :: s[i] as int >= 0x20
  }

  // Generated tables stay one line per entry: no control character is printed as it is.
  lemma LiteralIsPrintable(s: string)
    ensures IsPrintable(Literal(s))
  {
    OpenedIsPrintable(s);
  }

  lemma {:induction false} OpenedIsPrintable(s: string)
    ensures IsPrintable(Opened(s))
  {
    if s != "" {
      OpenedIsPrintable(s[..|s| - 1]);
      HexIsPrintable(s[|s| - 1] as int);
    }
  }

  lemma {:induction false} HexIsPrintable(n: nat)
    ensures IsPrintable(Hex(n))
  {
    if n >= 16 {
      HexIsPrintable(n / 16);
    }
  }

  // How each character is printed: a backslash and a letter for the five that have one, the shortest
  // lower-case hexadecimal number in braces for any other control character, and itself for the rest.
  ghost predicate PrintsAs(c: char, text: string) {
    match c
    case '\\' => text == ['\\', '\\']
    case '"' => text == ['\\', '"']
    case '\n' => text == ['\\', 'n']
    case '\r' => text == ['\\', 'r']
    case '\t' => text == ['\\', 't']
    case _ =>
      if c as int >= 0x20 then text == [c]
      else exists h ::
             && text == "\\u{" + h + "}" && HexNumber(h) == Some(c as int)
             && (|h| == 1 || (h != "" && h[0] != '0')) && forall d <- h :: '0' <= d <= '9' || 'a' <= d <= 'f'
  }

  lemma {:induction false} HexIsShort(n: nat)
    ensures |Hex(n)| == 1 || Hex(n)[0] != '0'
    ensures forall d <- Hex(n) :: '0' <= d <= '9' || 'a' <= d <= 'f'
    ensures Hex(n)[0] == '0' <==> n == 0
  {
    if n >= 16 {
      HexIsShort(n / 16);
    }
  }

  lemma EscapePrints(c: char)
    ensures PrintsAs(c, Escape(c))
  {
    if c as int < 0x20 && c !in {'\n', '\r', '\t'} {
      var h := Hex(c as int);
      NumberOfHex(c as int);
      HexIsShort(c as int);
      assert Escape(c) == "\\u{" + h + "}";
    }
  }

  // A literal is the characters between quote marks, each printed that way, in order.
  lemma LiteralSpelledOut(s: string, c: char)
    ensures Literal("") == "\"\""
    ensures exists text :: PrintsAs(c, text) && Literal(s)[..|Literal(s)| - 1] + text + "\"" == Literal(s + [c])
  {
    EscapePrints(c);
    assert (s + [c])[..|s|] == s;
    assert Literal(s)[..|Literal(s)| - 1] == Opened(s);
    assert Opened(s) + Escape(c) + "\"" == Literal(s + [c]);
  }
}

/** The string operations of the Rust standard library that the text formats rely on. */
module Text {

  // Unicode White_Space.
  predicate IsSpace(c: char) {
    var n := c as int;
    || 0x09 <= n <= 0x0D || n == 0x20 || n == 0x85 || n == 0xA0 || n == 0x1680 || 0x2000 <= n <= 0x200A
    || n == 0x2028 || n == 0x2029 || n == 0x202F || n == 0x205F || n == 0x3000
  }

  function TrimStart(s: string): string {
    if s != "" && IsSpace(s[0]) then TrimStart(s[1..]) else s
  }

  function TrimEnd(s: string): string {
    if s != "" && IsSpace(s[|s| - 1]) then TrimEnd(s[..|s| - 1]) else s
  }

  function Trim(s: string): string { TrimEnd(TrimStart(s)) }

  predicate StartsWith(s: string, c: char) { s != "" && s[0] == c }

  predicate EndsWith(s: string, c: char) { s != "" && s[|s| - 1] == c }

  // The first position of `c`, or the length.
  function Find(s: string, c: char): (i: nat)
    ensures i <= |s| && (i < |s| ==> s[i] == c) && forall j | 0 <= j < i :: s[j] != c
    ensures c !in s ==> i == |s|
  {
    if s == "" || s[0] == c then 0 else 1 + Find(s[1..], c)
  }

  function Split(s: string, c: char): seq<string> {
    var i := Find(s, c);
    if i == |s| then [s] else [s[..i]] + Split(s[i + 1..], c)
  }

  function StripCr(s: string): string {
    if EndsWith(s, '\r') then s[..|s| - 1] else s
  }

  // The lines of a text, without their endings.
  function Lines(s: string): seq<string> {
    if s == "" then []
    else
      var i := Find(s, '\n');
      if i == |s| then [s] else [StripCr(s[..i])] + Lines(s[i + 1..])
  }

  function Unlines(lines: seq<string>): string {
    if lines == [] then "" else lines[0] + "\n" + Unlines(lines[1..])
  }

  // ----- characters that the pieces do not have -----

  lemma {:induction false} TrimStartWithout(s: string, c: char)
    requires c !in s
    ensures c !in TrimStart(s) && |TrimStart(s)| <= |s|
  {
    if s != "" && IsSpace(s[0]) {
      TrimStartWithout(s[1..], c);
    }
  }

  lemma {:induction false} TrimEndWithout(s: string, c: char)
    requires c !in s
    ensures c !in TrimEnd(s) && |TrimEnd(s)| <= |s|
  {
    if s != "" && IsSpace(s[|s| - 1]) {
      TrimEndWithout(s[..|s| - 1], c);
    }
  }

  lemma TrimWithout(s: string, c: char)
    requires c !in s
    ensures c !in Trim(s) && |Trim(s)| <= |s|
  {
    TrimStartWithout(s, c);
    TrimEndWithout(TrimStart(s), c);
  }

  lemma {:induction false} TrimEndLength(s: string)
    ensures |TrimEnd(s)| <= |s|
  {
    if s != "" && IsSpace(s[|s| - 1]) {
      TrimEndLength(s[..|s| - 1]);
    }
  }

  lemma {:induction false} TrimStartLength(s: string)
    ensures |TrimStart(s)| <= |s|
  {
    if s != "" && IsSpace(s[0]) {
      TrimStartLength(s[1..]);
    }
  }

  lemma TrimLength(s: string)
    ensures |Trim(s)| <= |s|
  {
    TrimStartLength(s);
    TrimEndLength(TrimStart(s));
  }

  lemma {:induction false} SplitPieces(s: string, c: char, d: char)
    requires d == c || d !in s
    ensures forall t <- Split(s, c) :: d !in t
    decreases |s|
  {
    var i := Find(s, c);
    if i < |s| {
      SplitPieces(s[i + 1..], c, d);
    }
  }

  lemma {:induction false} SplitLengths(s: string, c: char)
    ensures forall t <- Split(s, c) :: |t| <= |s|
    decreases |s|
  {
    var i := Find(s, c);
    if i < |s| {
      SplitLengths(s[i + 1..], c);
    }
  }

  lemma {:induction false} LinesHaveNoNewline(s: string)
    ensures forall t <- Lines(s) :: '\n' !in t
    decreases |s|
  {
    if s != "" {
      var i := Find(s, '\n');
      if i < |s| {
        assert '\n' !in StripCr(s[..i]);
        LinesHaveNoNewline(s[i + 1..]);
        assert Lines(s) == [StripCr(s[..i])] + Lines(s[i + 1..]);
      } else {
        assert Lines(s) == [s];
      }
    }
  }

  // ----- pieces put together again -----

  lemma FindAfter(p: string, c: char, rest: string)
    requires c !in p
    ensures Find(p + [c] + rest, c) == |p|
    ensures (p + [c] + rest)[..|p|] == p && (p + [c] + rest)[|p| + 1..] == rest
  {
    var s := p + [c] + rest;
    var i := Find(s, c);
    assert s[|p|] == c;
    assert forall j | 0 <= j < |p| :: s[j] == p[j];
  }

  lemma {:induction false} LinesOfUnlines(lines: seq<string>)
    requires forall t <- lines :: '\n' !in t && !EndsWith(t, '\r')
    ensures Lines(Unlines(lines)) == lines
  {
    if lines != [] {
      var t, rest := lines[0], Unlines(lines[1..]);
      assert t in lines;
      LinesOfUnlines(lines[1..]);
      FindAfter(t, '\n', rest);
      assert Unlines(lines) == t + ['\n'] + rest;
    }
  }

  // A text that starts and ends with something else than white space is not trimmed.
  lemma TrimSolid(s: string)
    requires s != "" && !IsSpace(s[0]) && !IsSpace(s[|s| - 1])
    ensures Trim(s) == s && Trim(" " + s) == s && Trim(s + " ") == s
  {
  }

  lemma {:induction false} TrimStartEnds(s: string)
    ensures TrimStart(s) == "" || !IsSpace(TrimStart(s)[0])
  {
    if s != "" && IsSpace(s[0]) {
      TrimStartEnds(s[1..]);
    }
  }

  lemma {:induction false} TrimEndEnds(s: string)
    ensures TrimEnd(s) <= s
    ensures TrimEnd(s) == "" || !IsSpace(TrimEnd(s)[|TrimEnd(s)| - 1])
  {
    if s != "" && IsSpace(s[|s| - 1]) {
      TrimEndEnds(s[..|s| - 1]);
    }
  }

  lemma TrimTwice(s: string)
    ensures Trim(Trim(s)) == Trim(s)
  {
    TrimStartEnds(s);
    TrimEndEnds(TrimStart(s));
    if Trim(s) != "" {
      TrimSolid(Trim(s));
    }
  }

  lemma SplitStep(first: string, c: char, rest: string)
    requires c !in first
    ensures Split(first + [c] + rest, c) == [first] + Split(rest, c)
  {
    FindAfter(first, c, rest);
  }

  lemma SplitWhole(s: string, c: char)
    requires c !in s
    ensures Split(s, c) == [s]
  {
  }

  // ----- what is trimmed, and what ends a line -----

  lemma {:induction false} TrimStartCuts(s: string) returns (a: nat)
    ensures a <= |s| && TrimStart(s) == s[a..] && forall i | 0 <= i < a :: IsSpace(s[i])
    ensures a < |s| ==> !IsSpace(s[a])
  {
    a := 0;
    if s != "" && IsSpace(s[0]) {
      var b := TrimStartCuts(s[1..]);
      a := b + 1;
    }
  }

  lemma {:induction false} TrimEndCuts(s: string) returns (b: nat)
    ensures b <= |s| && TrimEnd(s) == s[..b] && forall i | b <= i < |s| :: IsSpace(s[i])
    ensures b > 0 ==> !IsSpace(s[b - 1])
  {
    b := |s|;
    if s != "" && IsSpace(s[|s| - 1]) {
      b := TrimEndCuts(s[..|s| - 1]);
    }
  }

  // Trimming cuts off the white space on both sides and stops at the first other character.
  lemma TrimCuts(s: string) returns (a: nat, b: nat)
    ensures a <= b <= |s| && Trim(s) == s[a..b]
    ensures forall i | 0 <= i < a || b <= i < |s| :: IsSpace(s[i])
    ensures a < b ==> !IsSpace(s[a]) && !IsSpace(s[b - 1])
  {
    a := TrimStartCuts(s);
    var c := TrimEndCuts(s[a..]);
    b := a + c;
    assert forall i | b <= i < |s| :: s[i] == s[a..][i - a];
  }

  ghost function CrLines(lines: seq<string>): string {
    if lines == [] then "" else lines[0] + "\r\n" + CrLines(lines[1..])
  }

  lemma FirstLine(first: string, rest: string)
    requires '\n' !in first
    ensures Lines(first + ['\n'] + rest) == [StripCr(first)] + Lines(rest)
  {
    FindAfter(first, '\n', rest);
  }

  lemma CrIsStripped(t: string)
    ensures StripCr(t + "\r") == t
  {
  }

  lemma TwoEnds(t: string, rest: string)
    ensures t + "\r\n" + rest == t + "\r" + ['\n'] + rest
  {
  }

  // Lines that end in a carriage return and a newline split without either.
  lemma {:induction false} LinesOfCrLines(lines: seq<string>)
    requires forall t <- lines :: '\n' !in t
    ensures Lines(CrLines(lines)) == lines
  {
    if lines != [] {
      var t, rest := lines[0], CrLines(lines[1..]);
      assert t in lines;
      LinesOfCrLines(lines[1..]);
      assert CrLines(lines) == t + "\r\n" + rest;
      hide Lines, StripCr, CrLines;
      TwoEnds(t, rest);
      FirstLine(t + "\r", rest);
      CrIsStripped(t);
    }
  }
}

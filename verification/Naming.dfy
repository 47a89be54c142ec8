/** Sequential device names: detecting the pattern behind examples, and generating from a pattern.
    Names are ASCII, so character positions are byte positions. */
module Naming {
  import opened Options
  import opened Numerals

  const U64_MAX: nat := 0xFFFF_FFFF_FFFF_FFFF

  datatype NamingPattern = NamingPattern(
    prefix: string, startNumber: nat, increment: nat, zeroPad: nat, suffix: string)

  datatype NameParts = NameParts(prefix: string, number: nat, zeroPad: nat, suffix: string)

  // ----- generating -----

  function NumberText(n: nat, zeroPad: nat): (s: string)
    ensures s != [] && AllDigits(s)
  {
    if zeroPad > 0 then PaddedDigits(n, zeroPad); PadTo(Print(n), zeroPad) else Print(n)
  }

  lemma PaddedDigits(n: nat, width: nat)
    ensures PadTo(Print(n), width) != [] && AllDigits(PadTo(Print(n), width))
  {
  }

  function NameOf(p: NamingPattern, i: nat): string {
    p.prefix + NumberText(p.startNumber + i * p.increment, p.zeroPad) + p.suffix
  }

  function GenerateNames(p: NamingPattern, count: nat): seq<string> {
    seq(count, i requires i >= 0 => NameOf(p, i))
  }

  // ----- parsing -----

  // The end of the last digit run among the first `n` characters: just past its last digit.
  function RunEnd(s: string, n: nat): (e: nat)
    requires n <= |s|
    ensures e <= n
    ensures e > 0 ==> IsDigit(s[e - 1])
    ensures forall i | e <= i < n :: !IsDigit(s[i])
  {
    if n == 0 || IsDigit(s[n - 1]) then n else RunEnd(s, n - 1)
  }

  // Where the digit run that ends at `e` begins.
  function RunBegin(s: string, e: nat): (b: nat)
    requires e <= |s|
    ensures b <= e && AllDigits(s[b..e])
    ensures b > 0 ==> !IsDigit(s[b - 1])
  {
    if e == 0 || !IsDigit(s[e - 1]) then e
    else
      var b := RunBegin(s, e - 1);
      assert s[b..e] == s[b..e - 1] + [s[e - 1]];
      b
  }

  // Splits a name at its last digit run; none, or one too large for 64 bits, is a failure.
  function ParseNameParts(name: string): Option<NameParts> {
    var e := RunEnd(name, |name|);
    var b := RunBegin(name, e);
    var digits := name[b..e];
    if b == e || Parse(digits) > U64_MAX then None
    else
      var zeroPad := if digits[0] == '0' && |digits| > 1 then |digits| else 0;
      Some(NameParts(name[..b], Parse(digits), zeroPad, name[e..]))
  }

  // The backward scan of the source.
  method ScanLastRun(name: string) returns (found: bool, b: nat, e: nat)
    ensures e == RunEnd(name, |name|) && b == RunBegin(name, e)
    ensures found <==> b < e
  {
    var start, end: Option<nat> := None, None;
    var i := |name|;
    while i > 0
      invariant 0 <= i <= |name|
      invariant start.Some? <==> end.Some?
      invariant start.None? ==> RunEnd(name, |name|) == RunEnd(name, i)
      invariant start.Some? ==> end.value <= |name| && end.value == RunEnd(name, |name|) && start.value == i < end.value
      invariant start.Some? ==> RunBegin(name, end.value) == RunBegin(name, i)
    {
      i := i - 1;
      if IsDigit(name[i]) {
        if end.None? {
          end := Some(i + 1);
        }
        start := Some(i);
      } else if end.Some? {
        i := i + 1;
        break;
      }
    }
    if start.None? {
      return false, 0, 0;
    }
    return true, start.value, end.value;
  }

  // ----- detecting -----

  function DetectSingle(name: string): Option<NamingPattern> {
    var parts := ParseNameParts(name);
    if parts.None? then None
    else Some(NamingPattern(parts.value.prefix, parts.value.number + 1, 1, parts.value.zeroPad, parts.value.suffix))
  }

  function Max(a: nat, b: nat): nat { if a < b then b else a }

  function SaturatingSub(a: nat, b: nat): nat { if a < b then 0 else a - b }

  function DetectPattern(examples: seq<string>): Option<NamingPattern> {
    if examples == [] then None
    else if |examples| == 1 then DetectSingle(examples[0])
    else
      var first, second := ParseNameParts(examples[0]), ParseNameParts(examples[1]);
      if first.None? || second.None? then None
      else if first.value.prefix != second.value.prefix || first.value.suffix != second.value.suffix
      then DetectSingle(examples[|examples| - 1])
      else
        var increment := Max(SaturatingSub(second.value.number, first.value.number), 1);
        var last := first.value.number + (|examples| - 1) * increment;
        Some(NamingPattern(first.value.prefix, last + increment, increment,
                           Max(first.value.zeroPad, second.value.zeroPad), first.value.suffix))
  }

  // ----- what names look like -----

  // The i-th name is the prefix, the i-th number and the suffix. The number has as many characters as
  // the padding asks for, or as many as it needs, all of them digits.
  lemma GeneratedName(p: NamingPattern, count: nat, i: nat)
    requires i < count
    ensures |GenerateNames(p, count)| == count
    ensures var name, n := GenerateNames(p, count)[i], p.startNumber + i * p.increment;
            var width := if p.zeroPad > DigitCount(n) then p.zeroPad else DigitCount(n);
            && |name| == |p.prefix| + width + |p.suffix|
            && name[..|p.prefix|] == p.prefix && name[|p.prefix| + width..] == p.suffix
            && var digits := name[|p.prefix|..|p.prefix| + width];
               AllDigits(digits) && Parse(digits) == n
  {
    var n := p.startNumber + i * p.increment;
    assert GenerateNames(p, count)[i] == NameOf(p, i);
    SlicesOfName(p.prefix, NumberText(n, p.zeroPad), p.suffix);
    ParseOfNumberText(n, p.zeroPad);
    PaddedLength(n, p.zeroPad);
    PrintLength(n);
  }

  // A name is its parts around a run of digits that is the last one, and as long as it can be. A leading
  // zero gives the width of the run away.
  ghost predicate SplitsAs(name: string, q: NameParts, digits: string) {
    && name == q.prefix + digits + q.suffix && Delimited(q.prefix, q.suffix)
    && digits != [] && AllDigits(digits) && Parse(digits) == q.number <= 0xFFFF_FFFF_FFFF_FFFF
    && q.zeroPad == if digits[0] == '0' && |digits| > 1 then |digits| else 0
  }

  lemma ParseOfSplit(name: string, q: NameParts, digits: string)
    requires SplitsAs(name, q, digits)
    ensures ParseNameParts(name) == Some(q)
  {
    hide RunEnd, RunBegin, Delimited, Parse;
    LastRunOfName(q.prefix, digits, q.suffix);
    SlicesOfName(q.prefix, digits, q.suffix);
  }

  lemma ThreeSlices(name: string, b: nat, e: nat)
    requires b <= e <= |name|
    ensures name == name[..b] + name[b..e] + name[e..]
  {
  }

  lemma DelimitedSlices(name: string, b: nat, e: nat)
    requires b <= e <= |name| && (b > 0 ==> !IsDigit(name[b - 1]))
    requires forall i | e <= i < |name| :: !IsDigit(name[i])
    ensures Delimited(name[..b], name[e..])
  {
  }

  lemma SplitOfParse(name: string)
    requires ParseNameParts(name).Some?
    ensures exists digits :: SplitsAs(name, ParseNameParts(name).value, digits)
  {
    hide RunEnd, RunBegin, Delimited, Parse;
    var e := RunEnd(name, |name|);
    var b := RunBegin(name, e);
    ThreeSlices(name, b, e);
    DelimitedSlices(name, b, e);
    assert SplitsAs(name, ParseNameParts(name).value, name[b..e]);
  }

  // Parsing gives exactly those parts, if the number fits 64 bits.
  lemma ParseNamePartsExactly(name: string, q: NameParts)
    ensures ParseNameParts(name) == Some(q) <==> exists digits :: SplitsAs(name, q, digits)
  {
    hide ParseNameParts, SplitsAs;
    if digits :| SplitsAs(name, q, digits) {
      ParseOfSplit(name, q, digits);
    }
    if ParseNameParts(name) == Some(q) {
      SplitOfParse(name);
    }
  }

  // From one example the next number is one more. From several, the step is that between the first two,
  // at least one, and all examples are counted; if those two have not the same prefix and suffix, only
  // the last example counts.
  lemma DetectionSpelledOut(examples: seq<string>)
    ensures examples == [] ==> DetectPattern(examples) == None
    ensures |examples| == 1 ==>
              match ParseNameParts(examples[0])
              case None => DetectPattern(examples) == None
              case Some(q) => DetectPattern(examples) == Some(NamingPattern(q.prefix, q.number + 1, 1, q.zeroPad, q.suffix))
    ensures |examples| >= 2 ==>
              var first, second := ParseNameParts(examples[0]), ParseNameParts(examples[1]);
              if first.None? || second.None? then DetectPattern(examples) == None
              else if first.value.prefix != second.value.prefix || first.value.suffix != second.value.suffix
              then DetectPattern(examples) == DetectPattern([examples[|examples| - 1]])
              else
                var m, n := first.value.number, second.value.number;
                var step := if n > m then n - m else 1;
                && DetectPattern(examples).Some?
                && var p := DetectPattern(examples).value;
                   && p.prefix == first.value.prefix && p.suffix == first.value.suffix
                   && p.increment == step && p.startNumber == m + |examples| * step
                   && p.zeroPad >= first.value.zeroPad && p.zeroPad >= second.value.zeroPad
                   && (p.zeroPad == first.value.zeroPad || p.zeroPad == second.value.zeroPad)
  {
    hide ParseNameParts;
  }

  // ----- parsing undoes generating -----

  // The number a generated name carries is delimited on both sides.
  ghost predicate Delimited(prefix: string, suffix: string) {
    && (prefix != [] ==> !IsDigit(prefix[|prefix| - 1]))
    && (forall i | 0 <= i < |suffix| :: !IsDigit(suffix[i]))
  }

  lemma RunEndOf(s: string, e: nat, n: nat)
    requires 0 < e <= n <= |s| && IsDigit(s[e - 1])
    requires forall i | e <= i < n :: !IsDigit(s[i])
    ensures RunEnd(s, n) == e
  {
  }

  lemma RunBeginOf(s: string, b: nat, e: nat)
    requires b <= e <= |s|
    requires b > 0 ==> !IsDigit(s[b - 1])
    requires forall i | b <= i < e :: IsDigit(s[i])
    ensures RunBegin(s, e) == b
  {
  }

  // The zero padding that can be read off the printed number.
  function VisiblePad(n: nat, zeroPad: nat): nat {
    var s := NumberText(n, zeroPad);
    if s[0] == '0' && |s| > 1 then |s| else 0
  }

  lemma ParseOfNumberText(n: nat, zeroPad: nat)
    ensures Parse(NumberText(n, zeroPad)) == n
  {
    ParseOfPaddedPrint(n, zeroPad);
    ParseOfPrint(n);
  }

  lemma SlicesOfName(prefix: string, digits: string, suffix: string)
    ensures var name, b, e := prefix + digits + suffix, |prefix|, |prefix| + |digits|;
            name[..b] == prefix && name[b..e] == digits && name[e..] == suffix
  {
  }

  lemma LastRunOfName(prefix: string, digits: string, suffix: string)
    requires Delimited(prefix, suffix) && digits != [] && AllDigits(digits)
    ensures var name, b, e := prefix + digits + suffix, |prefix|, |prefix| + |digits|;
            RunEnd(name, |name|) == e && RunBegin(name, e) == b
  {
    var name, b, e := prefix + digits + suffix, |prefix|, |prefix| + |digits|;
    assert forall i | b <= i < e :: name[i] == digits[i - b];
    assert forall i | e <= i < |name| :: name[i] == suffix[i - e];
    assert b > 0 ==> name[b - 1] == prefix[b - 1];
    RunEndOf(name, e, |name|);
    RunBeginOf(name, b, e);
  }

  lemma ParseOfName(prefix: string, suffix: string, n: nat, zeroPad: nat)
    requires Delimited(prefix, suffix) && n <= U64_MAX
    ensures ParseNameParts(prefix + NumberText(n, zeroPad) + suffix)
         == Some(NameParts(prefix, n, VisiblePad(n, zeroPad), suffix))
  {
    hide RunEnd, RunBegin, NumberText, Delimited;
    LastRunOfName(prefix, NumberText(n, zeroPad), suffix);
    SlicesOfName(prefix, NumberText(n, zeroPad), suffix);
    ParseOfNumberText(n, zeroPad);
  }

  // Where the padding is visible it is the pattern's own; where it is not, it no longer matters.
  lemma VisiblePadSuffices(m: nat, n: nat, zeroPad: nat)
    requires m <= n
    ensures VisiblePad(m, zeroPad) == zeroPad || NumberText(n, VisiblePad(m, zeroPad)) == NumberText(n, zeroPad)
    ensures VisiblePad(n, zeroPad) == zeroPad || VisiblePad(n, zeroPad) == 0
    ensures VisiblePad(m, zeroPad) == zeroPad || VisiblePad(m, zeroPad) == 0
    ensures VisiblePad(m, zeroPad) == 0 ==> NumberText(n, 0) == NumberText(n, zeroPad)
  {
    LeadingDigit(m);
    LeadingDigit(n);
    PrintGrows(m, n);
  }

  lemma NamesAgree(p: NamingPattern, q: NamingPattern, k: nat, i: nat)
    requires q.prefix == p.prefix && q.suffix == p.suffix && q.increment == p.increment
    requires q.startNumber == p.startNumber + k * p.increment
    requires NumberText(q.startNumber + i * q.increment, q.zeroPad) == NumberText(q.startNumber + i * q.increment, p.zeroPad)
    ensures NameOf(q, i) == NameOf(p, k + i)
  {
    assert q.startNumber + i * q.increment == p.startNumber + (k + i) * p.increment;
  }

  function PartsOf(p: NamingPattern, n: nat): NameParts {
    NameParts(p.prefix, n, VisiblePad(n, p.zeroPad), p.suffix)
  }

  lemma FirstNames(p: NamingPattern, k: nat)
    requires Delimited(p.prefix, p.suffix) && p.startNumber + k * p.increment <= U64_MAX
    ensures k > 0 ==> ParseNameParts(GenerateNames(p, k)[0]) == Some(PartsOf(p, p.startNumber))
    ensures k > 1 ==> ParseNameParts(GenerateNames(p, k)[1]) == Some(PartsOf(p, p.startNumber + p.increment))
  {
    hide ParseNameParts, NumberText, VisiblePad;
    if k > 0 {
      ParseOfName(p.prefix, p.suffix, p.startNumber, p.zeroPad);
      assert GenerateNames(p, k)[0] == NameOf(p, 0);
    }
    if k > 1 {
      assert p.startNumber + p.increment <= p.startNumber + k * p.increment;
      ParseOfName(p.prefix, p.suffix, p.startNumber + p.increment, p.zeroPad);
      assert GenerateNames(p, k)[1] == NameOf(p, 1);
    }
  }

  // What is detected from the first `k` names of a pattern.
  lemma DetectedPattern(p: NamingPattern, k: nat)
    requires Delimited(p.prefix, p.suffix) && k >= 1 && p.startNumber + k * p.increment <= U64_MAX
    ensures var q := DetectPattern(GenerateNames(p, k));
            var increment := if k == 1 then 1 else Max(p.increment, 1);
            && q.Some? && q.value.prefix == p.prefix && q.value.suffix == p.suffix
            && q.value.increment == increment
            && q.value.startNumber == p.startNumber + k * increment
            && (k == 1 || p.increment >= 1 ==>
                  forall n | p.startNumber <= n :: NumberText(n, q.value.zeroPad) == NumberText(n, p.zeroPad))
  {
    hide ParseNameParts, NumberText, VisiblePad;
    FirstNames(p, k);
    forall n | p.startNumber <= n
      ensures NumberText(n, VisiblePad(p.startNumber, p.zeroPad)) == NumberText(n, p.zeroPad)
    {
      VisiblePadSuffices(p.startNumber, n, p.zeroPad);
    }
    VisiblePadSuffices(p.startNumber, p.startNumber + p.increment, p.zeroPad);
    if k > 1 {
      var q := DetectPattern(GenerateNames(p, k)).value;
      assert q.zeroPad == Max(VisiblePad(p.startNumber, p.zeroPad), VisiblePad(p.startNumber + p.increment, p.zeroPad));
      forall n | p.startNumber <= n ensures NumberText(n, q.zeroPad) == NumberText(n, p.zeroPad) {
        VisiblePadSuffices(p.startNumber, n, p.zeroPad);
      }
      assert p.startNumber + (k - 1) * q.increment + q.increment == p.startNumber + k * q.increment;
    }
  }

  // Generating `n` more names from what was detected continues the sequence.
  ghost predicate Continues(p: NamingPattern, k: nat, n: nat) {
    var q := DetectPattern(GenerateNames(p, k));
    q.Some? && GenerateNames(q.value, n) == seq(n, i requires i >= 0 => NameOf(p, k + i))
  }

  lemma NameDeterminesNumber(prefix: string, suffix: string, m: nat, n: nat, zeroPad: nat, zeroPad': nat)
    requires prefix + NumberText(m, zeroPad) + suffix == prefix + NumberText(n, zeroPad') + suffix
    ensures m == n
  {
    var a, b := NumberText(m, zeroPad), NumberText(n, zeroPad');
    var s, t := prefix + a + suffix, prefix + b + suffix;
    assert |a| == |b|;
    assert a == s[|prefix|..|prefix| + |a|] && b == t[|prefix|..|prefix| + |b|];
    ParseOfPaddedPrint(m, zeroPad);
    ParseOfPaddedPrint(n, zeroPad');
    ParseOfPrint(m);
    ParseOfPrint(n);
  }

  lemma FewerNamesSmallerNumbers(k: nat, m: nat, increment: nat)
    requires k <= m
    ensures k * increment <= m * increment
  {
  }

  // What was detected with the right increment generates the names that follow.
  lemma SeenIncrementContinues(p: NamingPattern, k: nat, n: nat)
    requires Delimited(p.prefix, p.suffix) && k >= 1 && p.startNumber + k * p.increment <= U64_MAX
    requires p.increment == 1 || (k >= 2 && p.increment >= 1)
    ensures Continues(p, k, n)
  {
    hide NumberText, DetectPattern, NameOf, Delimited;
    DetectedPattern(p, k);
    var q := DetectPattern(GenerateNames(p, k)).value;
    forall i: nat ensures NameOf(q, i) == NameOf(p, k + i) {
      assert NumberText(q.startNumber + i * q.increment, q.zeroPad) == NumberText(q.startNumber + i * q.increment, p.zeroPad);
      NamesAgree(p, q, k, i);
    }
  }

  // With another increment already the first name is wrong.
  lemma UnseenIncrementFails(p: NamingPattern, k: nat, n: nat)
    requires Delimited(p.prefix, p.suffix) && k >= 1 && n >= 1 && p.startNumber + k * p.increment <= U64_MAX
    requires p.increment != 1 && (k == 1 || p.increment == 0)
    ensures !Continues(p, k, n)
  {
    hide NumberText, DetectPattern, Delimited;
    DetectedPattern(p, k);
    var q := DetectPattern(GenerateNames(p, k)).value;
    if Continues(p, k, n) {
      assert GenerateNames(q, n)[0] == NameOf(p, k + 0);
      NameDeterminesNumber(p.prefix, p.suffix, q.startNumber + 0 * q.increment, p.startNumber + (k + 0) * p.increment, q.zeroPad, p.zeroPad);
      WrongIncrement(p, q, k);
    }
  }

  // For every delimited pattern, every padding width and all numbers in range: detection from the
  // first `k` names continues the sequence exactly when the increment could be seen, that is when it
  // is at least one and there are two examples, or it is one.
  lemma DetectionContinuesGeneration(p: NamingPattern, k: nat, n: nat)
    requires Delimited(p.prefix, p.suffix) && k >= 1 && n >= 1
    requires p.startNumber + (k + n - 1) * p.increment <= U64_MAX
    ensures Continues(p, k, n) <==> p.increment == 1 || (k >= 2 && p.increment >= 1)
  {
    hide Continues, Delimited;
    FewerNamesSmallerNumbers(k, k + n - 1, p.increment);
    if p.increment == 1 || (k >= 2 && p.increment >= 1) {
      SeenIncrementContinues(p, k, n);
    } else {
      UnseenIncrementFails(p, k, n);
    }
  }

  lemma WrongIncrement(p: NamingPattern, q: NamingPattern, k: nat)
    requires k >= 1 && q.increment == if k == 1 then 1 else Max(p.increment, 1)
    requires q.startNumber == p.startNumber + k * q.increment
    requires p.increment != 1 && (k == 1 || p.increment == 0)
    ensures q.startNumber + 0 * q.increment != p.startNumber + (k + 0) * p.increment
  {
  }
}

/** Splitting the `<...>` meta blocks of xeto specs, respecting quotes and nested brackets. */
module MetaBlocks {
  import opened Options
  import opened Text

  // ----- what the scan knows after some text -----

  // The bracket depth, whether the scan is inside a quoted string, and whether a backslash came last.
  datatype Scan = Scan(depth: int, inStr: bool, escaping: bool)

  const START := Scan(0, false, false)

  predicate Opens(c: char) { c == '<' || c == '{' || c == '[' || c == '(' }

  predicate Closes(c: char) { c == '>' || c == '}' || c == ']' || c == ')' }

  function Step(st: Scan, c: char): Scan {
    var inStr := if c == '"' && !st.escaping then !st.inStr else st.inStr;
    var depth :=
      if inStr then st.depth else if Opens(c) then st.depth + 1 else if Closes(c) then st.depth - 1 else st.depth;
    Scan(depth, inStr, c == '\\')
  }

  function Run(s: string): Scan {
    if s == "" then START else Step(Run(s[..|s| - 1]), s[|s| - 1])
  }

  // A comma after this text separates two entries: it is outside all quotes and brackets.
  predicate AtTop(s: string) {
    Run(s).depth == 0 && !Run(s).inStr
  }

  ghost predicate HasTopComma(s: string) {
    exists i :: 0 <= i < |s| && s[i] == ',' && AtTop(s[..i])
  }

  // Text that can stand between two separating commas.
  ghost predicate IsEntry(s: string) {
    AtTop(s) && !HasTopComma(s)
  }

  // ----- splitting -----

  // The entries that a comma ends, and the text after the last one.
  datatype Parts = Parts(entries: seq<string>, tail: string)

  function Split(s: string): Parts {
    if s == "" then Parts([], "")
    else
      var front, c := s[..|s| - 1], s[|s| - 1];
      var p := Split(front);
      if c == ',' && AtTop(front) then Parts(p.entries + [p.tail], "") else Parts(p.entries, p.tail + [c])
  }

  // Each entry with the comma that ends it.
  function Terminated(entries: seq<string>): string {
    if entries == [] then "" else Terminated(entries[..|entries| - 1]) + entries[|entries| - 1] + ","
  }

  function Joined(p: Parts): string { Terminated(p.entries) + p.tail }

  method SplitMetaEntries(s: string) returns (out: seq<string>)
    ensures out == if Trim(Split(s).tail) == "" then Split(s).entries else Split(s).entries + [Split(s).tail]
  {
    out := [];
    var buf := "";
    var depth, inStr, prev := 0, false, '\0';
    for i := 0 to |s|
      invariant Split(s[..i]) == Parts(out, buf)
      invariant Run(s[..i]) == Scan(depth, inStr, prev == '\\')
    {
      var c := s[i];
      assert s[..i + 1][..i] == s[..i] && s[..i + 1][i] == c;
      if c == '"' && prev != '\\' {
        inStr := !inStr;
      }
      if !inStr && Opens(c) {
        depth := depth + 1;
      } else if !inStr && Closes(c) {
        depth := depth - 1;
      } else if !inStr && c == ',' && depth == 0 {
        out := out + [buf];
        buf := "";
        prev := c;
        continue;
      }
      buf := buf + [c];
      prev := c;
    }
    assert s[..|s|] == s;
    if Trim(buf) != "" {
      out := out + [buf];
    }
  }

  // ----- splitting is the inverse of joining -----

  // Nothing is lost: the parts joined by commas are the text.
  lemma {:induction false} JoinOfSplit(s: string)
    ensures Joined(Split(s)) == s
  {
    if s != "" {
      var front, c := s[..|s| - 1], s[|s| - 1];
      var p, q := Split(front), Split(s);
      JoinOfSplit(front);
      if c == ',' && AtTop(front) {
        assert q.entries[..|q.entries| - 1] == p.entries;
        assert Joined(q) == Terminated(p.entries) + p.tail + ",";
      } else {
        assert Joined(q) == Joined(p) + [c];
      }
      assert s == front + [c];
    }
  }

  // What a piece of text between two cuts must be, and how the scan sees the part after the last cut.
  lemma {:induction false} PartsAreEntries(s: string)
    ensures Run(Split(s).tail) == Run(s) && !HasTopComma(Split(s).tail)
    ensures forall e <- Split(s).entries :: IsEntry(e)
  {
    if s != "" {
      var front, c := s[..|s| - 1], s[|s| - 1];
      var tail := Split(front).tail;
      PartsAreEntries(front);
      TopCommaOfLast(tail, c);
      assert (tail + [c])[..|tail|] == tail;
    }
  }

  lemma TopCommaOfLast(s: string, c: char)
    ensures HasTopComma(s + [c]) <==> HasTopComma(s) || (c == ',' && AtTop(s))
  {
    var t := s + [c];
    assert forall i | 0 <= i <= |s| :: t[..i] == s[..i];
    assert s[..|s|] == s;
    assert forall i | 0 <= i < |s| :: t[i] == s[i];
    if HasTopComma(s) {
      var i :| 0 <= i < |s| && s[i] == ',' && AtTop(s[..i]);
      assert t[i] == ',' && AtTop(t[..i]);
    }
    if c == ',' && AtTop(s) {
      assert t[|s|] == ',' && AtTop(t[..|s|]);
    }
  }

  lemma {:induction false} SplitWithoutTopComma(s: string)
    requires !HasTopComma(s)
    ensures Split(s) == Parts([], s)
  {
    if s != "" {
      var front, c := s[..|s| - 1], s[|s| - 1];
      assert s == front + [c];
      TopCommaOfLast(front, c);
      SplitWithoutTopComma(front);
    }
  }

  // Right after a separating comma the scan starts afresh.
  ghost predicate Fresh(s: string) {
    Run(s) == START && Split(s).tail == ""
  }

  lemma {:induction false} SplitAfterFresh(s: string, t: string)
    requires Fresh(s)
    ensures Run(s + t) == Run(t)
    ensures Split(s + t) == Parts(Split(s).entries + Split(t).entries, Split(t).tail)
  {
    if t == "" {
      assert s + t == s;
    } else {
      var front, c := t[..|t| - 1], t[|t| - 1];
      SplitAfterFresh(s, front);
      assert (s + t)[..|s + t| - 1] == s + front && (s + t)[|s + t| - 1] == c;
    }
  }

  lemma SplitOfEntry(e: string)
    requires IsEntry(e)
    ensures Fresh(e + ",") && Split(e + ",").entries == [e]
  {
    SplitWithoutTopComma(e);
    assert (e + ",")[..|e|] == e;
  }

  lemma FreshAgain(s: string, e: string)
    requires Fresh(s) && IsEntry(e)
    ensures Fresh(s + e + ",") && Split(s + e + ",").entries == Split(s).entries + [e]
  {
    SplitOfEntry(e);
    SplitAfterFresh(s, e + ",");
    assert s + (e + ",") == s + e + ",";
  }

  lemma {:induction false} SplitOfTerminated(entries: seq<string>)
    requires forall e <- entries :: IsEntry(e)
    ensures Fresh(Terminated(entries)) && Split(Terminated(entries)).entries == entries
  {
    assert Fresh("") && Split("").entries == [];
    hide Fresh, Split, IsEntry;
    if entries != [] {
      var n := |entries| - 1;
      SplitOfTerminated(entries[..n]);
      FreshAgain(Terminated(entries[..n]), entries[n]);
    }
  }

  // Splitting gives the one way to write the text as entries joined by commas.
  lemma SplitExactly(s: string, p: Parts)
    ensures Split(s) == p <==>
            Joined(p) == s && (forall e <- p.entries :: IsEntry(e)) && !HasTopComma(p.tail)
  {
    JoinOfSplit(s);
    PartsAreEntries(s);
    if Joined(p) == s && (forall e <- p.entries :: IsEntry(e)) && !HasTopComma(p.tail) {
      SplitOfTerminated(p.entries);
      SplitWithoutTopComma(p.tail);
      SplitAfterFresh(Terminated(p.entries), p.tail);
    }
  }

  // ----- what hides a comma -----

  lemma {:induction false} RunInside(c: char, t: string)
    requires c in {'<', '{', '[', '('}
    requires forall i | 0 <= i < |t| :: !Opens(t[i]) && !Closes(t[i]) && t[i] != '"' && t[i] != '\\'
    ensures Run([c] + t) == Scan(1, false, false)
  {
    if t == "" {
      assert ([c] + t)[..0] == "";
    } else {
      var front := t[..|t| - 1];
      RunInside(c, front);
      assert ([c] + t)[..|t|] == [c] + front;
    }
  }

  // A pair of brackets of any of the four kinds keeps the commas between them from separating entries.
  lemma BracketsHideCommas(open: char, t: string, close: char)
    requires (open, close) in {('<', '>'), ('{', '}'), ('[', ']'), ('(', ')')}
    requires forall c <- t :: c !in {'<', '>', '{', '}', '[', ']', '(', ')', '"', '\\'}
    ensures IsEntry([open] + t + [close])
  {
    var s := [open] + t + [close];
    assert forall i | 0 <= i < |t| :: t[i] in t;
    assert s[..|t| + 1] == [open] + t;
    RunInside(open, t);
    forall i | 0 <= i < |s| && s[i] == ',' ensures !AtTop(s[..i]) {
      assert 1 <= i <= |t|;
      var u := t[..i - 1];
      assert s[..i] == [open] + u;
      assert forall k | 0 <= k < |u| :: u[k] == t[k];
      RunInside(open, u);
    }
  }

  // ----- taking a block off the front of a line -----

  // Only angle brackets count here.
  function AngleStep(st: Scan, c: char): Scan {
    var inStr := if c == '"' && !st.escaping then !st.inStr else st.inStr;
    var depth := if inStr then st.depth else if c == '<' then st.depth + 1 else if c == '>' then st.depth - 1 else st.depth;
    Scan(depth, inStr, c == '\\')
  }

  function Angles(s: string): Scan {
    if s == "" then START else AngleStep(Angles(s[..|s| - 1]), s[|s| - 1])
  }

  // The character at i brings the depth back to zero.
  predicate ClosesAt(s: string, i: nat)
    requires i < |s|
  {
    s[i] == '>' && !Angles(s[..i + 1]).inStr && Angles(s[..i + 1]).depth == 0
  }

  ghost predicate FirstClose(s: string, i: nat) {
    i < |s| && ClosesAt(s, i) && forall j | 0 <= j < i :: !ClosesAt(s, j)
  }

  // The text inside the brackets and the rest of the line; nothing when there is no whole block.
  method TakeMeta(s: string) returns (r: Option<(string, string)>)
    ensures r.None? <==> !StartsWith(s, '<') || forall i | 0 <= i < |s| :: !ClosesAt(s, i)
    ensures r.Some? ==> exists i: nat :: FirstClose(s, i) && 1 <= i && r.value == (s[1..i], TrimStart(s[i + 1..]))
  {
    if !StartsWith(s, '<') {
      return None;
    }
    var depth, inStr, prev := 0, false, '\0';
    for i := 0 to |s|
      invariant Angles(s[..i]) == Scan(depth, inStr, prev == '\\')
      invariant forall j | 0 <= j < i :: !ClosesAt(s, j)
    {
      var c := s[i];
      assert s[..i + 1][..i] == s[..i] && s[..i + 1][i] == c;
      if c == '"' && prev != '\\' {
        inStr := !inStr;
      }
      if !inStr && c == '<' {
        depth := depth + 1;
      } else if !inStr && c == '>' {
        depth := depth - 1;
        if depth == 0 {
          assert FirstClose(s, i);
          return Some((s[1..i], TrimStart(s[i + 1..])));
        }
      }
      prev := c;
    }
    r := None;
  }

  // Text that a pair of angle brackets can enclose.
  ghost predicate Balanced(s: string) {
    && Angles(s).depth == 0
    && !Angles(s).inStr
    && forall i | 0 <= i < |s| :: !BreaksAt(s, i)
  }

  // The character at i closes more than has been opened.
  predicate BreaksAt(s: string, i: nat)
    requires i < |s|
  {
    s[i] == '>' && !Angles(s[..i + 1]).inStr && Angles(s[..i + 1]).depth == -1
  }

  // An opening bracket in front only lifts the depth.
  lemma {:induction false} AnglesInside(s: string)
    ensures Angles("<" + s) == Scan(Angles(s).depth + 1, Angles(s).inStr, Angles(s).escaping)
  {
    if s == "" {
      assert "<" + s == "<" && "<"[..0] == "";
    } else {
      AnglesInside(s[..|s| - 1]);
      assert ("<" + s)[..|s|] == "<" + s[..|s| - 1];
    }
  }

  // Where the brackets around the inner text close.
  lemma ClosesInside(inner: string, after: string, i: nat)
    requires i <= |inner|
    ensures var s := "<" + inner + ">" + after;
            && s[..i + 1] == "<" + inner[..i]
            && Angles(s[..i + 1]) == Scan(Angles(inner[..i]).depth + 1, Angles(inner[..i]).inStr, Angles(inner[..i]).escaping)
  {
    var s := "<" + inner + ">" + after;
    assert s[..i + 1] == "<" + inner[..i];
    AnglesInside(inner[..i]);
  }

  lemma ClosesWhereBreaks(inner: string, after: string, i: nat)
    requires i < |inner|
    ensures ClosesAt("<" + inner + ">" + after, i + 1) <==> BreaksAt(inner, i)
  {
    hide Angles;
    var s := "<" + inner + ">" + after;
    assert s[i + 1] == inner[i];
    ClosesInside(inner, after, i + 1);
  }

  lemma ClosesBehind(inner: string, after: string)
    ensures ClosesAt("<" + inner + ">" + after, |inner| + 1) <==> Angles(inner).depth == 0 && !Angles(inner).inStr
  {
    hide Angles;
    var s := "<" + inner + ">" + after;
    assert s[|inner| + 1] == '>';
    AnglesOfLast(s, |inner| + 1);
    ClosesInside(inner, after, |inner|);
    assert inner[..|inner|] == inner;
  }

  // The bracket in front is matched right after the inner text exactly when that text is balanced.
  lemma BlockClosesExactly(inner: string, after: string)
    ensures FirstClose("<" + inner + ">" + after, |inner| + 1) <==> Balanced(inner)
  {
    var s := "<" + inner + ">" + after;
    assert !ClosesAt(s, 0) by { assert s[0] == '<'; }
    hide Angles, ClosesAt, BreaksAt;
    ClosesBehind(inner, after);
    forall i | 0 <= i < |inner| ensures ClosesAt(s, i + 1) <==> BreaksAt(inner, i) {
      ClosesWhereBreaks(inner, after, i);
    }
    if FirstClose(s, |inner| + 1) {
      forall i | 0 <= i < |inner| ensures !BreaksAt(inner, i) {
        assert !ClosesAt(s, i + 1);
      }
    }
    if Balanced(inner) {
      forall j | 0 <= j <= |inner| ensures !ClosesAt(s, j) {
        assert j > 0 ==> !BreaksAt(inner, j - 1);
      }
    }
  }

  lemma AnglesOfLast(s: string, i: nat)
    requires i < |s|
    ensures Angles(s[..i + 1]) == AngleStep(Angles(s[..i]), s[i])
  {
    assert s[..i + 1][..i] == s[..i];
  }

  lemma {:induction false} AnglesAfterBalanced(a: string, t: string)
    requires Balanced(a)
    ensures Angles(a + "," + t) == Angles(t)
  {
    var s := a + "," + t;
    if t == "" {
      assert s[..|s| - 1] == a;
    } else {
      AnglesAfterBalanced(a, t[..|t| - 1]);
      assert s[..|s| - 1] == a + "," + t[..|t| - 1];
    }
  }

  lemma BalancedJoin(a: string, b: string)
    requires Balanced(a) && Balanced(b)
    ensures Balanced(a + "," + b)
  {
    hide Angles;
    var s := a + "," + b;
    AnglesAfterBalanced(a, b);
    forall i | 0 <= i < |s| && s[i] == '>' ensures !BreaksAt(s, i) {
      if i < |a| {
        assert s[..i + 1] == a[..i + 1] && !BreaksAt(a, i);
      } else {
        var j := i - |a| - 1;
        assert s[..i + 1] == a + "," + b[..j + 1] && b[j] == '>' && !BreaksAt(b, j);
        AnglesAfterBalanced(a, b[..j + 1]);
      }
    }
  }

  function Commas(entries: seq<string>): string
    requires entries != []
  {
    Joined(Parts(entries[..|entries| - 1], entries[|entries| - 1]))
  }

  lemma {:induction false} CommasBalanced(entries: seq<string>)
    requires entries != [] && forall e <- entries :: Balanced(e)
    ensures Balanced(Commas(entries))
  {
    hide Balanced;
    var n := |entries| - 1;
    if n == 0 {
      assert Commas(entries) == "" + entries[0] == entries[0];
    } else {
      var init := entries[..n];
      CommasBalanced(init);
      assert Terminated(init) == Terminated(init[..n - 1]) + init[n - 1] + ",";
      assert Commas(entries) == Commas(init) + "," + entries[n];
      BalancedJoin(Commas(init), entries[n]);
    }
  }

  // A block printed from entries is taken off the line as a whole, and splits into those entries again.
  lemma BlockReadsBack(entries: seq<string>, after: string)
    requires entries != [] && forall e <- entries :: IsEntry(e) && Balanced(e)
    ensures FirstClose("<" + Commas(entries) + ">" + after, |Commas(entries)| + 1)
    ensures Split(Commas(entries)) == Parts(entries[..|entries| - 1], entries[|entries| - 1])
  {
    CommasBalanced(entries);
    BlockClosesExactly(Commas(entries), after);
    var p := Parts(entries[..|entries| - 1], entries[|entries| - 1]);
    assert p.tail in entries;
    SplitExactly(Commas(entries), p);
  }
}

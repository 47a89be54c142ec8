/** The plugin manifest: a printer and a hand-written parser for a small part of TOML. */
module PluginManifest {
  import opened Options
  import opened Text

  datatype Manifest = Manifest(
    id: string, name: string, version: string, description: string, handler: string, files: seq<string>)

  // What the parser builds before the manifest is read off it.
  datatype Json = Str(s: string) | Arr(items: seq<Json>) | Truth(b: bool) | Num(text: string)

  type Section = map<string, Json>

  // ----- printing -----

  function Quoted(s: string): string { "\"" + s + "\"" }

  function KeyLine(key: string, value: string): string { key + " = " + Quoted(value) }

  function JoinQuoted(files: seq<string>): string {
    if files == [] then ""
    else if |files| == 1 then Quoted(files[0])
    else Quoted(files[0]) + ", " + JoinQuoted(files[1..])
  }

  function OptionalLine(key: string, value: string): seq<string> {
    if value == "" then [] else [KeyLine(key, value)]
  }

  function TextLines(m: Manifest): seq<string> {
    ["[plugin]", KeyLine("id", m.id), KeyLine("name", m.name), KeyLine("version", m.version)]
    + OptionalLine("description", m.description) + OptionalLine("handler", m.handler)
    + ["", "[data]", "files = [" + JoinQuoted(m.files) + "]"]
  }

  function Serialize(m: Manifest): string { Unlines(TextLines(m)) }

  lemma {:induction false} UnlinesConcat(a: seq<string>, b: seq<string>)
    ensures Unlines(a + b) == Unlines(a) + Unlines(b)
  {
    if a == [] {
      assert a + b == b;
    } else {
      assert (a + b)[1..] == a[1..] + b;
      UnlinesConcat(a[1..], b);
    }
  }

  method AppendLine(out: string, line: string, ghost before: seq<string>) returns (longer: string)
    requires out == Unlines(before)
    ensures longer == Unlines(before + [line])
  {
    longer := out + line + "\n";
    UnlinesConcat(before, [line]);
    assert Unlines([line]) == line + "\n";
  }

  method AppendOptional(out: string, key: string, value: string, ghost before: seq<string>) returns (longer: string)
    requires out == Unlines(before)
    ensures longer == Unlines(before + OptionalLine(key, value))
  {
    if value == "" {
      assert before + OptionalLine(key, value) == before;
      return out;
    }
    longer := AppendLine(out, KeyLine(key, value), before);
  }

  method SerializeText(m: Manifest) returns (out: string)
    ensures out == Serialize(m)
  {
    assert JoinQuoted([]) == "";
    hide KeyLine, OptionalLine, JoinQuoted, Unlines;
    ghost var plugin := ["[plugin]", KeyLine("id", m.id), KeyLine("name", m.name), KeyLine("version", m.version)];
    ghost var described := plugin + OptionalLine("description", m.description);
    ghost var handled := described + OptionalLine("handler", m.handler);
    out := "[plugin]\n";
    OneLine("[plugin]");
    assert plugin[..1] == ["[plugin]"];
    out := AppendLine(out, KeyLine("id", m.id), plugin[..1]);
    out := AppendLine(out, KeyLine("name", m.name), plugin[..1] + [plugin[1]]);
    out := AppendLine(out, KeyLine("version", m.version), plugin[..1] + [plugin[1]] + [plugin[2]]);
    assert plugin[..1] + [plugin[1]] + [plugin[2]] + [plugin[3]] == plugin;
    out := AppendOptional(out, "description", m.description, plugin);
    out := AppendOptional(out, "handler", m.handler, described);
    out := AppendLine(out, "", handled);
    out := AppendLine(out, "[data]", handled + [""]);
    var files := if m.files == [] then "" else JoinQuoted(m.files);
    out := AppendLine(out, "files = [" + files + "]", handled + [""] + ["[data]"]);
    assert TextLines(m) == handled + [""] + ["[data]"] + ["files = [" + files + "]"];
  }

  lemma OneLine(line: string)
    ensures Unlines([line]) == line + "\n"
  {
  }

  ghost function HeadOf(m: Manifest): string {
    "[plugin]\nid = \"" + m.id + "\"\nname = \"" + m.name + "\"\nversion = \"" + m.version + "\"\n"
  }

  ghost function EntryOf(key: string, value: string): string {
    if value == "" then "" else key + " = \"" + value + "\"\n"
  }

  ghost function TailOf(files: seq<string>): string {
    "\n[data]\nfiles = [" + ListText(files) + "]\n"
  }

  // The names in quote marks, with a comma and a blank between them.
  ghost function ListText(files: seq<string>): string {
    if files == [] then "" else "\"" + files[0] + "\"" + Following(files[1..])
  }

  ghost function Following(files: seq<string>): string {
    if files == [] then "" else ", " + ("\"" + files[0] + "\"") + Following(files[1..])
  }

  lemma Regrouped(a: string, b: string, c: string, d: string)
    ensures a + b + (c + d) == a + (b + c + d)
  {
  }

  lemma {:induction false} JoinQuotedIsList(files: seq<string>)
    ensures JoinQuoted(files) == ListText(files)
  {
    if |files| == 1 {
      assert files[1..] == [];
    } else if files != [] {
      var first, second, rest := Quoted(files[0]), Quoted(files[1]), Following(files[2..]);
      JoinQuotedIsList(files[1..]);
      assert files[1..][1..] == files[2..];
      assert JoinQuoted(files) == first + ", " + JoinQuoted(files[1..]);
      assert ListText(files[1..]) == second + rest && Following(files[1..]) == ", " + second + rest;
      hide JoinQuoted, Quoted, Following;
      Regrouped(first, ", ", second, rest);
    }
  }

  lemma OptionalText(key: string, value: string)
    ensures Unlines(OptionalLine(key, value)) == EntryOf(key, value)
  {
    if value != "" {
      OneLine(KeyLine(key, value));
    }
  }

  lemma FourLines(a: string, b: string, c: string, d: string)
    ensures Unlines([a, b, c, d]) == a + "\n" + b + "\n" + c + "\n" + d + "\n"
  {
    assert [a, b, c, d][1..] == [b, c, d] && [b, c, d][1..] == [c, d] && [c, d][1..] == [d] && [d][1..] == [];
    OneLine(d);
    assert Unlines([c, d]) == c + "\n" + Unlines([d]);
    assert Unlines([b, c, d]) == b + "\n" + Unlines([c, d]);
  }

  lemma ThreeLines(a: string, b: string, c: string)
    ensures Unlines([a, b, c]) == a + "\n" + b + "\n" + c + "\n"
  {
    assert [a, b, c][1..] == [b, c] && [b, c][1..] == [c] && [c][1..] == [];
    OneLine(c);
    assert Unlines([b, c]) == b + "\n" + Unlines([c]);
  }

  lemma HeadText(m: Manifest)
    ensures Unlines(["[plugin]", KeyLine("id", m.id), KeyLine("name", m.name), KeyLine("version", m.version)])
         == HeadOf(m)
  {
    FourLines("[plugin]", KeyLine("id", m.id), KeyLine("name", m.name), KeyLine("version", m.version));
    hide Unlines;
    var line := "[plugin]" + "\n" + KeyLine("id", m.id);
    assert line == "[plugin]\nid = \"" + m.id + "\"";
    assert line + "\n" + KeyLine("name", m.name) == "[plugin]\nid = \"" + m.id + "\"\nname = \"" + m.name + "\"";
  }

  lemma TailText(files: seq<string>)
    ensures Unlines(["", "[data]", "files = [" + JoinQuoted(files) + "]"]) == TailOf(files)
  {
    hide JoinQuoted, ListText, Unlines;
    JoinQuotedIsList(files);
    ThreeLines("", "[data]", "files = [" + JoinQuoted(files) + "]");
  }

  lemma PartsOfText(m: Manifest)
    ensures Serialize(m)
         == Unlines(["[plugin]", KeyLine("id", m.id), KeyLine("name", m.name), KeyLine("version", m.version)])
            + Unlines(OptionalLine("description", m.description)) + Unlines(OptionalLine("handler", m.handler))
            + Unlines(["", "[data]", "files = [" + JoinQuoted(m.files) + "]"])
  {
    hide Unlines, KeyLine, OptionalLine, JoinQuoted;
    var a := ["[plugin]", KeyLine("id", m.id), KeyLine("name", m.name), KeyLine("version", m.version)];
    var b, c := OptionalLine("description", m.description), OptionalLine("handler", m.handler);
    UnlinesConcat(a, b);
    UnlinesConcat(a + b, c);
    UnlinesConcat(a + b + c, ["", "[data]", "files = [" + JoinQuoted(m.files) + "]"]);
  }

  // The printed text, written out: a head, two entries that are left out when empty, and the files.
  lemma SerializeSpelledOut(m: Manifest)
    ensures Serialize(m) == HeadOf(m) + EntryOf("description", m.description) + EntryOf("handler", m.handler) + TailOf(m.files)
  {
    hide Serialize, Unlines, KeyLine, OptionalLine, JoinQuoted, HeadOf, EntryOf, TailOf;
    PartsOfText(m);
    HeadText(m);
    OptionalText("description", m.description);
    OptionalText("handler", m.handler);
    TailText(m.files);
  }

  // ----- parsing a value -----

  predicate IsQuotedBy(s: string, q: char) { StartsWith(s, q) && EndsWith(s, q) }

  // `None` where the source panics: it slices a lone quote mark past its end. Whether an unquoted
  // text is a number is decided by `numeric`.
  function ParseValue(s: string, numeric: string -> bool): Option<Json>
    decreases |s|, 1
  {
    if IsQuotedBy(s, '"') || IsQuotedBy(s, '\'') then
      if |s| < 2 then None else Some(Str(s[1..|s| - 1]))
    else if StartsWith(s, '[') && EndsWith(s, ']') then
      TrimLength(s[1..|s| - 1]);
      var inner := Trim(s[1..|s| - 1]);
      SplitLengths(inner, ',');
      if inner == "" then Some(Arr([]))
      else
        var items := ParseItems(Split(inner, ','), |s|, numeric);
        if items.None? then None else Some(Arr(items.value))
    else if s == "true" then Some(Truth(true))
    else if s == "false" then Some(Truth(false))
    else if numeric(s) then Some(Num(s))
    else Some(Str(s))
  }

  function ParseItems(items: seq<string>, bound: nat, numeric: string -> bool): Option<seq<Json>>
    requires forall t <- items :: |t| < bound
    decreases bound, 0, |items|
  {
    if items == [] then Some([])
    else
      TrimLength(items[0]);
      assert items[0] in items;
      var first := ParseValue(Trim(items[0]), numeric);
      var rest := ParseItems(items[1..], bound, numeric);
      if first.None? || rest.None? then None else Some([first.value] + rest.value)
  }

  // ----- parsing the text -----

  // Top-level values and finished sections are kept apart; `section` is the open one, if any.
  datatype Doc = Doc(values: Section, sections: map<string, Section>, section: string, open: Section)

  // A later entry with the same top-level name replaces an earlier one.
  function Closed(d: Doc): Doc {
    if d.section == "" then d
    else d.(values := d.values - {d.section}, sections := d.sections[d.section := d.open], open := map[])
  }

  function Entered(d: Doc, key: string, v: Json): Doc {
    if d.section == "" then d.(values := d.values[key := v], sections := d.sections - {key})
    else d.(open := d.open[key := v])
  }

  function ParseLine(d: Doc, raw: string, numeric: string -> bool): Option<Doc> {
    var line := Trim(raw);
    if line == "" || line[0] == '#' then Some(d)
    else if StartsWith(line, '[') && EndsWith(line, ']') then
      Some(Closed(d).(section := Trim(line[1..|line| - 1])))
    else
      var i := Find(line, '=');
      if i == |line| then Some(d)
      else
        var v := ParseValue(Trim(line[i + 1..]), numeric);
        if v.None? then None else Some(Entered(d, Trim(line[..i]), v.value))
  }

  function ParseFirst(lines: seq<string>, numeric: string -> bool, n: nat): Option<Doc>
    requires n <= |lines|
  {
    if n == 0 then Some(Doc(map[], map[], "", map[]))
    else
      var d := ParseFirst(lines, numeric, n - 1);
      if d.None? then None else ParseLine(d.value, lines[n - 1], numeric)
  }

  // ----- reading the manifest off -----

  function AsString(j: Option<Json>): Option<string> {
    if j.Some? && j.value.Str? then Some(j.value.s) else None
  }

  // An absent field has its default, a present one must be a string.
  function AsStringOr(j: Option<Json>, default: string): Option<string> {
    if j.None? then Some(default) else AsString(j)
  }

  function AsStrings(items: seq<Json>): Option<seq<string>> {
    if items == [] then Some([])
    else
      var rest := AsStrings(items[1..]);
      if !items[0].Str? || rest.None? then None else Some([items[0].s] + rest.value)
  }

  function AsFiles(j: Option<Json>): Option<seq<string>> {
    if j.None? then Some([]) else if j.value.Arr? then AsStrings(j.value.items) else None
  }

  function MetaOf(s: Section, files: Option<seq<string>>): Option<Manifest> {
    var id, name, version := AsString(Lookup(s, "id")), AsString(Lookup(s, "name")), AsString(Lookup(s, "version"));
    var description, handler := AsStringOr(Lookup(s, "description"), ""), AsStringOr(Lookup(s, "handler"), "");
    if id.None? || name.None? || version.None? || description.None? || handler.None? || files.None? then None
    else Some(Manifest(id.value, name.value, version.value, description.value, handler.value, files.value))
  }

  // A structure may also be given as an array of its fields, in order.
  function NamedFields(items: seq<Json>, names: seq<string>, n: nat): Section
    requires n <= |names|
  {
    if n == 0 then map[]
    else
      var rest := NamedFields(items, names, n - 1);
      if n - 1 < |items| then rest[names[n - 1] := items[n - 1]] else rest
  }

  function StructOf(d: Doc, name: string, fields: seq<string>): Option<Section> {
    if name in d.sections then Some(d.sections[name])
    else if name in d.values && d.values[name].Arr? && |d.values[name].items| <= |fields|
    then Some(NamedFields(d.values[name].items, fields, |fields|))
    else None
  }

  const META_FIELDS: seq<string> := ["id", "name", "version", "description", "handler"]

  function FilesOf(d: Doc): Option<seq<string>> {
    if "data" !in d.sections && "data" !in d.values then Some([])
    else
      var data := StructOf(d, "data", ["files"]);
      if data.None? then None else AsFiles(Lookup(data.value, "files"))
  }

  function ReadManifest(d: Doc): Option<Manifest> {
    var meta := StructOf(d, "plugin", META_FIELDS);
    if meta.None? then None else MetaOf(meta.value, FilesOf(d))
  }

  // A manifest, an error for the caller, or a panic.
  datatype Outcome = Ok(manifest: Manifest) | Invalid | Panics

  function Parse(text: string, numeric: string -> bool): Outcome {
    var lines := Lines(text);
    var d := ParseFirst(lines, numeric, |lines|);
    if d.None? then Panics
    else
      match ReadManifest(Closed(d.value))
      case Some(m) => Ok(m)
      case None => Invalid
  }

  // The lines are read one by one.
  method ParseText(text: string, numeric: string -> bool) returns (r: Outcome)
    ensures r == Parse(text, numeric)
  {
    hide ParseLine, ReadManifest;
    var lines := Lines(text);
    var d := Doc(map[], map[], "", map[]);
    for i := 0 to |lines|
      invariant ParseFirst(lines, numeric, i) == Some(d)
    {
      var next := ParseLine(d, lines[i], numeric);
      if next.None? {
        ParseStaysFailed(lines, numeric, i + 1, |lines|);
        return Panics;
      }
      d := next.value;
    }
    var m := ReadManifest(Closed(d));
    r := if m.Some? then Ok(m.value) else Invalid;
  }

  lemma {:induction false} ParseStaysFailed(lines: seq<string>, numeric: string -> bool, i: nat, n: nat)
    requires i <= n <= |lines| && ParseFirst(lines, numeric, i).None?
    ensures ParseFirst(lines, numeric, n).None?
  {
    if i < n {
      ParseStaysFailed(lines, numeric, i, n - 1);
    }
  }

  // ----- values, written out -----

  // Each item is the value of its piece, blanks around the piece aside.
  ghost predicate AreValues(pieces: seq<string>, numeric: string -> bool, items: seq<Json>) {
    |items| == |pieces| && forall i | 0 <= i < |pieces| :: ParseValue(Trim(pieces[i]), numeric) == Some(items[i])
  }

  lemma AreValuesStep(pieces: seq<string>, numeric: string -> bool, items: seq<Json>)
    requires pieces != [] && items != []
    ensures AreValues(pieces, numeric, items) <==>
            ParseValue(Trim(pieces[0]), numeric) == Some(items[0]) && AreValues(pieces[1..], numeric, items[1..])
  {
    hide ParseValue, Trim;
    if ParseValue(Trim(pieces[0]), numeric) == Some(items[0]) && AreValues(pieces[1..], numeric, items[1..]) {
      forall i | 0 <= i < |pieces| ensures ParseValue(Trim(pieces[i]), numeric) == Some(items[i]) {
        assert i > 0 ==> pieces[1..][i - 1] == pieces[i] && items[1..][i - 1] == items[i];
      }
    }
  }

  lemma {:induction false} ItemsAre(pieces: seq<string>, bound: nat, numeric: string -> bool, items: seq<Json>)
    requires forall t <- pieces :: |t| < bound
    ensures ParseItems(pieces, bound, numeric) == Some(items) <==> AreValues(pieces, numeric, items)
    decreases |pieces|
  {
    hide ParseValue, Trim;
    if pieces != [] && items != [] {
      ItemsAre(pieces[1..], bound, numeric, items[1..]);
      AreValuesStep(pieces, numeric, items);
      hide AreValues;
      assert items == [items[0]] + items[1..];
    }
  }

  // Text between two like quote marks is that text, whatever it holds; `true` and `false` are truth
  // values; other text is a number if it is one and itself if not.
  lemma PlainValuesSpelledOut(s: string, numeric: string -> bool)
    ensures ParseValue("\"" + s + "\"", numeric) == Some(Str(s)) && ParseValue("'" + s + "'", numeric) == Some(Str(s))
    ensures ParseValue("true", numeric) == Some(Truth(true)) && ParseValue("false", numeric) == Some(Truth(false))
    ensures s !in {"true", "false"} && s != "" && s[0] !in {'"', '\'', '['} ==>
              ParseValue(s, numeric) == Some(if numeric(s) then Num(s) else Str(s))
  {
  }

  // An array has an item for each piece between its commas, blanks around the piece aside; white space
  // alone is no item.
  lemma ArraysSpelledOut(inner: string, numeric: string -> bool, v: Json)
    ensures ParseValue("[" + inner + "]", numeric) == Some(v) <==>
            && v.Arr?
            && if Trim(inner) == "" then v.items == []
               else AreValues(Split(Trim(inner), ','), numeric, v.items)
  {
    hide Trim, Split, AreValues;
    var s := "[" + inner + "]";
    assert s[1..|s| - 1] == inner;
    TrimLength(inner);
    SplitLengths(Trim(inner), ',');
    if Trim(inner) != "" && v.Arr? {
      ItemsAre(Split(Trim(inner), ','), |s|, numeric, v.items);
    }
  }

  // ----- which texts panic -----

  predicate IsLoneQuote(s: string) { s == "\"" || s == "'" }

  predicate IsArrayText(s: string) { StartsWith(s, '[') && EndsWith(s, ']') }

  // What is left of a text when blanks and enclosing brackets are peeled off.
  function Core(s: string): string
    decreases |s|
  {
    TrimLength(s);
    var t := Trim(s);
    if IsArrayText(t) then Core(t[1..|t| - 1]) else t
  }

  // A text without commas is an array of one item, or no array.
  lemma {:induction false} PlainValuePanics(s: string, numeric: string -> bool)
    requires ',' !in s && Trim(s) == s
    ensures ParseValue(s, numeric).None? <==> IsLoneQuote(Core(s))
    decreases |s|
  {
    hide Trim;
    if IsArrayText(s) {
      TrimLength(s[1..|s| - 1]);
      TrimWithout(s[1..|s| - 1], ',');
      var inner := Trim(s[1..|s| - 1]);
      TrimTwice(s[1..|s| - 1]);
      CoreOfTrim(s[1..|s| - 1]);
      SplitLengths(inner, ',');
      SplitWhole(inner, ',');
      if inner != "" {
        PlainValuePanics(inner, numeric);
        OneItem(inner, |s|, numeric);
      }
    }
  }

  lemma OneItem(item: string, bound: nat, numeric: string -> bool)
    requires |item| < bound && Trim(item) == item
    ensures ParseItems([item], bound, numeric).None? <==> ParseValue(item, numeric).None?
  {
    hide ParseValue, Trim;
    assert ParseItems([item][1..], bound, numeric) == Some([]);
  }

  lemma CoreOfTrim(s: string)
    ensures Core(Trim(s)) == Core(s)
  {
    hide Trim;
    TrimTwice(s);
  }

  lemma {:induction false} ItemsPanic(items: seq<string>, bound: nat, numeric: string -> bool)
    requires forall t <- items :: |t| < bound && ',' !in t
    ensures ParseItems(items, bound, numeric).None? <==> exists t <- items :: IsLoneQuote(Core(t))
    decreases |items|
  {
    hide ParseValue, Trim, Core, IsLoneQuote;
    if items != [] {
      var first := items[0];
      assert first in items;
      TrimLength(first);
      TrimWithout(first, ',');
      TrimTwice(first);
      CoreOfTrim(first);
      PlainValuePanics(Trim(first), numeric);
      ItemsPanic(items[1..], bound, numeric);
    }
  }

  // A value panics exactly when it is a lone quote mark, or an array one of whose items is a lone quote
  // mark in any number of brackets.
  lemma ValuePanicsExactly(s: string, numeric: string -> bool)
    ensures ParseValue(s, numeric).None? <==>
            IsLoneQuote(s) || (IsArrayText(s) && exists t <- Split(Trim(s[1..|s| - 1]), ',') :: IsLoneQuote(Core(t)))
  {
    hide Trim, Core;
    if IsArrayText(s) {
      var inner := Trim(s[1..|s| - 1]);
      TrimLength(s[1..|s| - 1]);
      SplitLengths(inner, ',');
      SplitPieces(inner, ',', ',');
      if inner == "" {
        assert Core("") == "" by { CoreOfNothing(); }
        assert Split(inner, ',') == [""];
      } else {
        ItemsPanic(Split(inner, ','), |s|, numeric);
      }
    }
  }

  lemma CoreOfNothing()
    ensures Core("") == ""
  {
  }

  // The line is an entry, and its value panics.
  predicate LinePanics(raw: string, numeric: string -> bool) {
    var line := Trim(raw);
    var i := Find(line, '=');
    && line != "" && line[0] != '#' && !IsArrayText(line)
    && i < |line| && ParseValue(Trim(line[i + 1..]), numeric).None?
  }

  lemma {:induction false} PanicHasLine(lines: seq<string>, numeric: string -> bool, n: nat) returns (i: nat)
    requires n <= |lines| && ParseFirst(lines, numeric, n).None?
    ensures i < n && LinePanics(lines[i], numeric)
  {
    hide ParseLine, LinePanics;
    var before := ParseFirst(lines, numeric, n - 1);
    if before.None? {
      i := PanicHasLine(lines, numeric, n - 1);
    } else {
      LinePanicsAnywhere(before.value, lines[n - 1], numeric);
      i := n - 1;
    }
  }

  lemma LinePanicStops(lines: seq<string>, numeric: string -> bool, i: nat)
    requires i < |lines| && LinePanics(lines[i], numeric)
    ensures ParseFirst(lines, numeric, |lines|).None?
  {
    hide ParseLine, LinePanics;
    var before := ParseFirst(lines, numeric, i);
    if before.Some? {
      LinePanicsAnywhere(before.value, lines[i], numeric);
    }
    ParseStaysFailed(lines, numeric, i + 1, |lines|);
  }

  lemma LinePanicsAnywhere(d: Doc, raw: string, numeric: string -> bool)
    ensures ParseLine(d, raw, numeric).None? <==> LinePanics(raw, numeric)
  {
    hide ParseValue, Trim, Find;
  }

  // A text panics exactly when one of its lines does, whatever comes before it.
  lemma ParsePanicsExactly(text: string, numeric: string -> bool)
    ensures Parse(text, numeric) == Panics <==> exists line <- Lines(text) :: LinePanics(line, numeric)
  {
    hide LinePanics, ReadManifest, ParseFirst;
    var lines := Lines(text);
    if Parse(text, numeric) == Panics {
      var i := PanicHasLine(lines, numeric, |lines|);
      assert lines[i] in lines;
    }
    if line :| line in lines && LinePanics(line, numeric) {
      var i :| 0 <= i < |lines| && lines[i] == line;
      LinePanicStops(lines, numeric, i);
    }
  }

  // ----- what a parsed manifest can hold -----

  // Nothing the line format cannot carry.
  ghost predicate Clean(m: Manifest) {
    && '\n' !in m.id && '\n' !in m.name && '\n' !in m.version && '\n' !in m.description && '\n' !in m.handler
    && forall f <- m.files :: '\n' !in f && ',' !in f
  }

  ghost predicate NoneHas(j: Json, c: char) {
    match j
    case Str(s) => c !in s
    case Arr(items) => forall k <- items :: NoneHas(k, c)
    case _ => true
  }

  // No string has a newline, and no string inside an array has a comma.
  ghost predicate Plain(j: Json) {
    NoneHas(j, '\n') && (j.Arr? ==> forall k <- j.items :: NoneHas(k, ','))
  }

  lemma {:induction false} ValueWithout(s: string, c: char, numeric: string -> bool)
    requires c !in s
    ensures ParseValue(s, numeric).Some? ==> NoneHas(ParseValue(s, numeric).value, c)
    decreases |s|, 1
  {
    if StartsWith(s, '[') && EndsWith(s, ']') {
      var inner := Trim(s[1..|s| - 1]);
      TrimLength(s[1..|s| - 1]);
      TrimWithout(s[1..|s| - 1], c);
      SplitLengths(inner, ',');
      SplitPieces(inner, ',', c);
      if inner != "" {
        ItemsWithout(Split(inner, ','), |s|, c, numeric);
      }
    }
  }

  lemma {:induction false} ItemsWithout(items: seq<string>, bound: nat, c: char, numeric: string -> bool)
    requires forall t <- items :: |t| < bound && c !in t
    ensures var js := ParseItems(items, bound, numeric); js.Some? ==> forall k <- js.value :: NoneHas(k, c)
    decreases bound, 0, |items|
  {
    if items != [] {
      assert items[0] in items;
      TrimWithout(items[0], c);
      ValueWithout(Trim(items[0]), c, numeric);
      ItemsWithout(items[1..], bound, c, numeric);
    }
  }

  lemma ValueIsPlain(s: string, numeric: string -> bool)
    requires '\n' !in s
    ensures ParseValue(s, numeric).Some? ==> Plain(ParseValue(s, numeric).value)
  {
    ValueWithout(s, '\n', numeric);
    if StartsWith(s, '[') && EndsWith(s, ']') {
      var inner := Trim(s[1..|s| - 1]);
      TrimLength(s[1..|s| - 1]);
      SplitLengths(inner, ',');
      SplitPieces(inner, ',', ',');
      if inner != "" {
        ItemsWithout(Split(inner, ','), |s|, ',', numeric);
      }
    }
  }

  ghost predicate PlainSection(s: Section) {
    forall k <- s :: Plain(s[k])
  }

  ghost predicate PlainDoc(d: Doc) {
    PlainSection(d.values) && PlainSection(d.open) && forall k <- d.sections :: PlainSection(d.sections[k])
  }

  lemma LineKeepsPlain(d: Doc, raw: string, numeric: string -> bool)
    requires PlainDoc(d) && '\n' !in raw
    ensures ParseLine(d, raw, numeric).Some? ==> PlainDoc(ParseLine(d, raw, numeric).value)
  {
    hide Plain, ParseValue;
    TrimWithout(raw, '\n');
    var line := Trim(raw);
    var i := Find(line, '=');
    if i < |line| {
      TrimWithout(line[i + 1..], '\n');
      ValueIsPlain(Trim(line[i + 1..]), numeric);
    }
  }

  lemma {:induction false} ParsedIsPlain(lines: seq<string>, numeric: string -> bool, n: nat)
    requires n <= |lines| && forall t <- lines :: '\n' !in t
    ensures ParseFirst(lines, numeric, n).Some? ==> PlainDoc(ParseFirst(lines, numeric, n).value)
  {
    if n > 0 {
      hide ParseLine, PlainDoc;
      ParsedIsPlain(lines, numeric, n - 1);
      var d := ParseFirst(lines, numeric, n - 1);
      if d.Some? {
        assert lines[n - 1] in lines;
        LineKeepsPlain(d.value, lines[n - 1], numeric);
      }
    } else {
      assert PlainDoc(Doc(map[], map[], "", map[]));
    }
  }

  lemma {:induction false} StringsAreClean(items: seq<Json>)
    requires forall k <- items :: NoneHas(k, '\n') && NoneHas(k, ',')
    ensures AsStrings(items).Some? ==> forall f <- AsStrings(items).value :: '\n' !in f && ',' !in f
  {
    if items != [] {
      assert items[0] in items;
      StringsAreClean(items[1..]);
    }
  }

  lemma {:induction false} NamedFieldsPlain(items: seq<Json>, names: seq<string>, n: nat)
    requires n <= |names| && forall k <- items :: Plain(k)
    ensures PlainSection(NamedFields(items, names, n))
  {
    if n > 0 {
      NamedFieldsPlain(items, names, n - 1);
    }
  }

  // Inside an array everything is plain: it has neither newlines nor commas.
  lemma ItemsArePlain(j: Json)
    requires j.Arr? && Plain(j)
    ensures forall k <- j.items :: Plain(k)
  {
  }

  lemma StructIsPlain(d: Doc, name: string, fields: seq<string>)
    requires PlainDoc(d)
    ensures StructOf(d, name, fields).Some? ==> PlainSection(StructOf(d, name, fields).value)
  {
    hide Plain;
    if name in d.values && d.values[name].Arr? {
      ItemsArePlain(d.values[name]);
      NamedFieldsPlain(d.values[name].items, fields, |fields|);
    }
  }

  // Whatever the text, a parsed manifest is clean.
  lemma ParsedManifestIsClean(text: string, numeric: string -> bool)
    ensures Parse(text, numeric).Ok? ==> Clean(Parse(text, numeric).manifest)
  {
    hide ParseFirst, StructOf;
    var lines := Lines(text);
    LinesHaveNoNewline(text);
    ParsedIsPlain(lines, numeric, |lines|);
    var parsed := ParseFirst(lines, numeric, |lines|);
    if parsed.Some? {
      var d := Closed(parsed.value);
      StructIsPlain(d, "plugin", META_FIELDS);
      StructIsPlain(d, "data", ["files"]);
      var data := StructOf(d, "data", ["files"]);
      if data.Some? && "files" in data.value && data.value["files"].Arr? {
        StringsAreClean(data.value["files"].items);
      }
    }
  }

  // ----- printed lines parse to what they print -----

  predicate IsKey(key: string) {
    key != "" && forall i | 0 <= i < |key| :: 'a' <= key[i] <= 'z'
  }

  lemma QuotedParses(s: string, numeric: string -> bool)
    ensures Trim(Quoted(s)) == Trim(" " + Quoted(s)) == Quoted(s)
    ensures ParseValue(Quoted(s), numeric) == Some(Str(s))
  {
  }

  // Where the line `key = rest` is cut.
  lemma EntryCut(key: string, rest: string)
    requires IsKey(key) && rest != ""
    ensures var line, i := key + " = " + rest, |key| + 1;
            Find(line, '=') == i < |line| && line[..i] == key + " " && line[i + 1..] == " " + rest
  {
    hide Find;
    assert key + " = " + rest == (key + " ") + ['='] + (" " + rest);
    FindAfter(key + " ", '=', " " + rest);
  }

  lemma EntryTrims(key: string, rest: string)
    requires IsKey(key) && rest != "" && !IsSpace(rest[0]) && !IsSpace(rest[|rest| - 1])
    ensures var line := key + " = " + rest;
            && Trim(line) == line && line != "" && line[0] != '#' && line[0] != '['
            && Trim(key + " ") == key && Trim(" " + rest) == rest
  {
    hide Trim;
    var line := key + " = " + rest;
    assert line[0] == key[0] && line[|line| - 1] == rest[|rest| - 1];
    TrimSolid(line);
    TrimSolid(key);
    TrimSolid(rest);
  }

  // The line `key = rest`, when `rest` is not trimmed and parses to `v`.
  lemma EntryLine(d: Doc, key: string, rest: string, v: Json, numeric: string -> bool)
    requires IsKey(key) && d.section != "" && rest != "" && !IsSpace(rest[0]) && !IsSpace(rest[|rest| - 1])
    requires ParseValue(rest, numeric) == Some(v)
    ensures ParseLine(d, key + " = " + rest, numeric) == Some(d.(open := d.open[key := v]))
  {
    hide ParseValue, Trim, Find, IsSpace;
    EntryTrims(key, rest);
    EntryCut(key, rest);
  }

  lemma KeyLineParses(d: Doc, key: string, s: string, numeric: string -> bool)
    requires IsKey(key) && d.section != ""
    ensures ParseLine(d, KeyLine(key, s), numeric) == Some(d.(open := d.open[key := Str(s)]))
  {
    hide ParseLine;
    QuotedParses(s, numeric);
    EntryLine(d, key, Quoted(s), Str(s), numeric);
  }

  function Strs(files: seq<string>): seq<Json> {
    if files == [] then [] else [Str(files[0])] + Strs(files[1..])
  }

  lemma {:induction false} StringsOfStrs(files: seq<string>)
    ensures AsStrings(Strs(files)) == Some(files)
  {
    if files != [] {
      StringsOfStrs(files[1..]);
      assert Strs(files)[1..] == Strs(files[1..]);
      assert [files[0]] + files[1..] == files;
    }
  }

  lemma ItemParses(pad: string, file: string, rest: seq<string>, bound: nat, numeric: string -> bool)
    requires pad == "" || pad == " "
    requires |pad + Quoted(file)| < bound && forall t <- rest :: |t| < bound
    requires ParseItems(rest, bound, numeric).Some?
    ensures ParseItems([pad + Quoted(file)] + rest, bound, numeric)
         == Some([Str(file)] + ParseItems(rest, bound, numeric).value)
  {
    hide ParseValue, Trim;
    QuotedParses(file, numeric);
    assert Trim(pad + Quoted(file)) == Quoted(file) by {
      if pad == "" { assert pad + Quoted(file) == Quoted(file); }
    }
    assert ([pad + Quoted(file)] + rest)[1..] == rest;
  }

  lemma JoinedSplits(files: seq<string>, pad: string)
    requires files != [] && (forall f <- files :: ',' !in f) && (pad == "" || pad == " ")
    ensures var first := pad + Quoted(files[0]);
            Split(pad + JoinQuoted(files), ',')
              == [first] + if |files| == 1 then [] else Split(" " + JoinQuoted(files[1..]), ',')
    ensures |pad + JoinQuoted(files)| >= |pad + Quoted(files[0])|
    ensures |files| > 1 ==> |pad + JoinQuoted(files)| > |" " + JoinQuoted(files[1..])|
  {
    hide Split;
    var first := pad + Quoted(files[0]);
    assert files[0] in files;
    assert ',' !in first;
    if |files| == 1 {
      SplitWhole(first, ',');
    } else {
      var rest := " " + JoinQuoted(files[1..]);
      assert pad + JoinQuoted(files) == first + [','] + rest;
      SplitStep(first, ',', rest);
    }
  }

  // `pad` is the blank that follows a comma, or nothing before the first item.
  lemma {:induction false} ItemsParse(files: seq<string>, pad: string, bound: nat, numeric: string -> bool)
    requires files != [] && (forall f <- files :: ',' !in f) && (pad == "" || pad == " ")
    requires |pad + JoinQuoted(files)| < bound
    ensures forall t <- Split(pad + JoinQuoted(files), ',') :: |t| < bound
    ensures ParseItems(Split(pad + JoinQuoted(files), ','), bound, numeric) == Some(Strs(files))
    decreases |files|
  {
    hide Split, ParseItems, Quoted, JoinQuoted;
    JoinedSplits(files, pad);
    if |files| == 1 {
      NoItems(bound, numeric);
      ItemParses(pad, files[0], [], bound, numeric);
      assert Strs(files[1..]) == [];
    } else {
      ItemsParse(files[1..], " ", bound, numeric);
      ItemParses(pad, files[0], Split(" " + JoinQuoted(files[1..]), ','), bound, numeric);
    }
  }

  lemma NoItems(bound: nat, numeric: string -> bool)
    ensures ParseItems([], bound, numeric) == Some([])
  {
  }

  lemma {:induction false} JoinQuotedSolid(files: seq<string>)
    requires files != []
    ensures StartsWith(JoinQuoted(files), '"') && EndsWith(JoinQuoted(files), '"')
  {
    if |files| > 1 {
      JoinQuotedSolid(files[1..]);
    }
  }

  lemma ArrayParses(inner: string, js: seq<Json>, numeric: string -> bool)
    requires inner != "" && Trim(inner) == inner
    requires forall t <- Split(inner, ',') :: |t| < |inner| + 2
    requires ParseItems(Split(inner, ','), |inner| + 2, numeric) == Some(js)
    ensures ParseValue("[" + inner + "]", numeric) == Some(Arr(js))
  {
    hide Trim, Split, ParseItems;
    var s := "[" + inner + "]";
    assert s[1..|s| - 1] == inner;
    assert |s| == |inner| + 2;
  }

  lemma FilesParse(files: seq<string>, numeric: string -> bool)
    requires forall f <- files :: ',' !in f
    ensures ParseValue("[" + JoinQuoted(files) + "]", numeric) == Some(Arr(Strs(files)))
  {
    hide ParseValue, Split, ParseItems, Trim;
    var inner := JoinQuoted(files);
    if files == [] {
      EmptyArrayParses(numeric);
      assert "[" + "" + "]" == "[]";
    } else {
      JoinQuotedSolid(files);
      TrimSolid(inner);
      assert "" + inner == inner;
      ItemsParse(files, "", |inner| + 2, numeric);
      ArrayParses(inner, Strs(files), numeric);
    }
  }

  lemma EmptyArrayParses(numeric: string -> bool)
    ensures ParseValue("[]", numeric) == Some(Arr([]))
  {
    assert "[]"[1..1] == "";
  }

  lemma FilesLineParses(d: Doc, files: seq<string>, numeric: string -> bool)
    requires d.section != "" && forall f <- files :: ',' !in f
    ensures ParseLine(d, "files = [" + JoinQuoted(files) + "]", numeric) == Some(d.(open := d.open["files" := Arr(Strs(files))]))
  {
    hide ParseLine, ParseValue;
    var rest := "[" + JoinQuoted(files) + "]";
    FilesParse(files, numeric);
    EntryLine(d, "files", rest, Arr(Strs(files)), numeric);
    assert "files = [" + JoinQuoted(files) + "]" == "files" + " = " + rest;
  }

  lemma HeaderParses(d: Doc, name: string, numeric: string -> bool)
    requires IsKey(name)
    ensures ParseLine(d, "[" + name + "]", numeric) == Some(Closed(d).(section := name))
  {
  }

  lemma BlankParses(d: Doc, numeric: string -> bool)
    ensures ParseLine(d, "", numeric) == Some(d)
  {
  }

  // Parsing on from a document, line by line.
  function ParseOn(d: Doc, lines: seq<string>, numeric: string -> bool, n: nat): Option<Doc>
    requires n <= |lines|
  {
    if n == 0 then Some(d)
    else
      var before := ParseOn(d, lines, numeric, n - 1);
      if before.None? then None else ParseLine(before.value, lines[n - 1], numeric)
  }

  lemma {:induction false} ParseOnConcat(d: Doc, a: seq<string>, b: seq<string>, numeric: string -> bool, n: nat)
    requires n <= |b|
    ensures ParseOn(d, a + b, numeric, |a| + n)
         == var m := ParseOn(d, a, numeric, |a|); if m.None? then None else ParseOn(m.value, b, numeric, n)
  {
    hide ParseLine;
    if n == 0 {
      ParseOnPrefix(d, a, b, numeric, |a|);
    } else {
      ParseOnConcat(d, a, b, numeric, n - 1);
    }
  }

  lemma {:induction false} ParseOnPrefix(d: Doc, a: seq<string>, b: seq<string>, numeric: string -> bool, n: nat)
    requires n <= |a|
    ensures ParseOn(d, a + b, numeric, n) == ParseOn(d, a, numeric, n)
  {
    if n > 0 {
      hide ParseLine;
      ParseOnPrefix(d, a, b, numeric, n - 1);
    }
  }

  lemma {:induction false} ParseFirstIsParseOn(lines: seq<string>, numeric: string -> bool, n: nat)
    requires n <= |lines|
    ensures ParseFirst(lines, numeric, n) == ParseOn(Doc(map[], map[], "", map[]), lines, numeric, n)
  {
    if n > 0 {
      hide ParseLine;
      ParseFirstIsParseOn(lines, numeric, n - 1);
    }
  }

  function WithOptional(s: Section, key: string, value: string): Section {
    if value == "" then s else s[key := Str(value)]
  }

  function PluginSection(m: Manifest): Section {
    var required: Section := map["id" := Str(m.id), "name" := Str(m.name), "version" := Str(m.version)];
    WithOptional(WithOptional(required, "description", m.description), "handler", m.handler)
  }

  lemma OptionalParses(d: Doc, key: string, value: string, numeric: string -> bool)
    requires IsKey(key) && d.section != ""
    ensures var ls := OptionalLine(key, value);
            ParseOn(d, ls, numeric, |ls|) == Some(d.(open := WithOptional(d.open, key, value)))
  {
    if value != "" {
      hide ParseLine;
      KeyLineParses(d, key, value, numeric);
      assert ParseOn(d, [KeyLine(key, value)], numeric, 0) == Some(d);
    }
  }

  lemma RequiredParse(m: Manifest, numeric: string -> bool)
    ensures var ls := ["[plugin]", KeyLine("id", m.id), KeyLine("name", m.name), KeyLine("version", m.version)];
            ParseOn(Doc(map[], map[], "", map[]), ls, numeric, 4)
              == Some(Doc(map[], map[], "plugin", map["id" := Str(m.id), "name" := Str(m.name), "version" := Str(m.version)]))
  {
    hide ParseLine, KeyLine;
    var ls := ["[plugin]", KeyLine("id", m.id), KeyLine("name", m.name), KeyLine("version", m.version)];
    var d0 := Doc(map[], map[], "", map[]);
    var d1 := d0.(section := "plugin");
    assert "[" + "plugin" + "]" == "[plugin]";
    HeaderParses(d0, "plugin", numeric);
    assert ParseOn(d0, ls, numeric, 0) == Some(d0);
    assert ParseOn(d0, ls, numeric, 1) == Some(d1);
    KeyLineParses(d1, "id", m.id, numeric);
    var d2 := d1.(open := map["id" := Str(m.id)]);
    assert ParseOn(d0, ls, numeric, 2) == Some(d2);
    KeyLineParses(d2, "name", m.name, numeric);
    var d3 := d2.(open := map["id" := Str(m.id), "name" := Str(m.name)]);
    assert ParseOn(d0, ls, numeric, 3) == Some(d3);
    KeyLineParses(d3, "version", m.version, numeric);
  }

  lemma DataParses(d: Doc, files: seq<string>, numeric: string -> bool)
    requires d.section == "plugin" && d.values == map[] && d.sections == map[] && forall f <- files :: ',' !in f
    ensures var ls := ["", "[data]", "files = [" + JoinQuoted(files) + "]"];
            ParseOn(d, ls, numeric, 3) == Some(Doc(map[], map["plugin" := d.open], "data", map["files" := Arr(Strs(files))]))
  {
    hide ParseLine;
    var ls := ["", "[data]", "files = [" + JoinQuoted(files) + "]"];
    assert ParseOn(d, ls, numeric, 0) == Some(d);
    BlankParses(d, numeric);
    assert ParseOn(d, ls, numeric, 1) == Some(d);
    assert "[" + "data" + "]" == "[data]";
    HeaderParses(d, "data", numeric);
    var closed := Doc(map[], map["plugin" := d.open], "data", map[]);
    assert Closed(d).(section := "data") == closed;
    assert ParseOn(d, ls, numeric, 2) == Some(closed);
    FilesLineParses(closed, files, numeric);
  }

  lemma TextLinesParse(m: Manifest, numeric: string -> bool)
    requires forall f <- m.files :: ',' !in f
    ensures ParseFirst(TextLines(m), numeric, |TextLines(m)|)
         == Some(Doc(map[], map["plugin" := PluginSection(m)], "data", map["files" := Arr(Strs(m.files))]))
  {
    hide ParseLine, KeyLine, OptionalLine, WithOptional, JoinQuoted, ParseOn;
    var d0 := Doc(map[], map[], "", map[]);
    var a := ["[plugin]", KeyLine("id", m.id), KeyLine("name", m.name), KeyLine("version", m.version)];
    var b, c := OptionalLine("description", m.description), OptionalLine("handler", m.handler);
    var e := ["", "[data]", "files = [" + JoinQuoted(m.files) + "]"];
    RequiredParse(m, numeric);
    var d1 := ParseOn(d0, a, numeric, 4).value;
    OptionalParses(d1, "description", m.description, numeric);
    var d2 := d1.(open := WithOptional(d1.open, "description", m.description));
    ParseOnConcat(d0, a, b, numeric, |b|);
    OptionalParses(d2, "handler", m.handler, numeric);
    var d3 := d2.(open := WithOptional(d2.open, "handler", m.handler));
    ParseOnConcat(d0, a + b, c, numeric, |c|);
    DataParses(d3, m.files, numeric);
    ParseOnConcat(d0, a + b + c, e, numeric, 3);
    ParseFirstIsParseOn(TextLines(m), numeric, |TextLines(m)|);
  }

  ghost predicate Whole(t: string) { '\n' !in t && !EndsWith(t, '\r') }

  lemma KeyLineWhole(key: string, value: string)
    requires IsKey(key) && '\n' !in value
    ensures Whole(KeyLine(key, value))
  {
  }

  ghost predicate AllWhole(lines: seq<string>) {
    forall t <- lines :: Whole(t)
  }

  lemma HeadIsWhole(m: Manifest)
    requires Clean(m)
    ensures AllWhole(["[plugin]", KeyLine("id", m.id), KeyLine("name", m.name), KeyLine("version", m.version)])
  {
    hide KeyLine;
    KeyLineWhole("id", m.id);
    KeyLineWhole("name", m.name);
    KeyLineWhole("version", m.version);
  }

  lemma OptionalIsWhole(key: string, value: string)
    requires IsKey(key) && '\n' !in value
    ensures AllWhole(OptionalLine(key, value))
  {
    hide KeyLine;
    KeyLineWhole(key, value);
  }

  lemma DataIsWhole(files: seq<string>)
    requires forall f <- files :: '\n' !in f
    ensures AllWhole(["", "[data]", "files = [" + JoinQuoted(files) + "]"])
  {
    hide JoinQuoted;
    var last := "files = [" + JoinQuoted(files) + "]";
    JoinQuotedClean(files);
    assert last[|last| - 1] == ']';
  }

  lemma WholeTogether(a: seq<string>, b: seq<string>)
    requires AllWhole(a) && AllWhole(b)
    ensures AllWhole(a + b)
  {
    hide Whole;
  }

  lemma LinesAreWhole(m: Manifest)
    requires Clean(m)
    ensures AllWhole(TextLines(m))
  {
    hide JoinQuoted, KeyLine, OptionalLine, AllWhole;
    var a := ["[plugin]", KeyLine("id", m.id), KeyLine("name", m.name), KeyLine("version", m.version)];
    var b, c := OptionalLine("description", m.description), OptionalLine("handler", m.handler);
    HeadIsWhole(m);
    OptionalIsWhole("description", m.description);
    OptionalIsWhole("handler", m.handler);
    DataIsWhole(m.files);
    WholeTogether(a, b);
    WholeTogether(a + b, c);
    WholeTogether(a + b + c, ["", "[data]", "files = [" + JoinQuoted(m.files) + "]"]);
  }

  lemma {:induction false} JoinQuotedClean(files: seq<string>)
    requires forall f <- files :: '\n' !in f
    ensures '\n' !in JoinQuoted(files)
  {
    if files != [] {
      assert files[0] in files;
      JoinQuotedClean(files[1..]);
    }
  }

  lemma SectionReads(m: Manifest)
    ensures MetaOf(PluginSection(m), Some(m.files)) == Some(m)
  {
  }

  // Printing and parsing undo each other exactly for the manifests whose strings have no newline and
  // whose file names have no comma; quotes, brackets, '=' and '#' are harmless.
  lemma ParseUndoesSerializeExactly(m: Manifest, numeric: string -> bool)
    ensures Parse(Serialize(m), numeric) == Ok(m) <==> Clean(m)
  {
    hide ParseFirst, TextLines, PluginSection, MetaOf;
    ParsedManifestIsClean(Serialize(m), numeric);
    if Clean(m) {
      LinesAreWhole(m);
      LinesOfUnlines(TextLines(m));
      TextLinesParse(m, numeric);
      StringsOfStrs(m.files);
      SectionReads(m);
    }
  }

  // ----- what a text says, entry by entry -----

  // A line opens a section, gives a key a value, stops the parser, or does nothing.
  datatype LineKind = Nothing | Header(name: string) | Entry(key: string, value: Json) | Stop

  ghost function KindOf(raw: string, numeric: string -> bool): LineKind {
    var line := Trim(raw);
    if line == "" || line[0] == '#' then Nothing
    else if line[0] == '[' && line[|line| - 1] == ']' then Header(Trim(line[1..|line| - 1]))
    else if '=' !in line then Nothing
    else
      var i := Find(line, '=');
      match ParseValue(Trim(line[i + 1..]), numeric)
      case Some(v) => Entry(Trim(line[..i]), v)
      case None => Stop
  }

  // The section that is open after `n` lines, or the empty text.
  ghost function SectionAt(lines: seq<string>, numeric: string -> bool, n: nat): string
    requires n <= |lines|
  {
    if n == 0 then ""
    else
      match KindOf(lines[n - 1], numeric)
      case Header(name) => name
      case _ => SectionAt(lines, numeric, n - 1)
  }

  // Was the section opened, and no value at the top level given its name since?
  ghost predicate IsSection(lines: seq<string>, numeric: string -> bool, n: nat, s: string)
    requires n <= |lines|
  {
    n > 0
    && match KindOf(lines[n - 1], numeric)
       case Header(name) => name == s || IsSection(lines, numeric, n - 1, s)
       case Entry(k, _) => !(k == s && SectionAt(lines, numeric, n - 1) == "") && IsSection(lines, numeric, n - 1, s)
       case _ => IsSection(lines, numeric, n - 1, s)
  }

  // The last value of the key since the section was opened for the last time.
  ghost function ValueIn(lines: seq<string>, numeric: string -> bool, n: nat, s: string, key: string): Option<Json>
    requires n <= |lines|
  {
    if n == 0 then None
    else
      match KindOf(lines[n - 1], numeric)
      case Header(name) => if name == s then None else ValueIn(lines, numeric, n - 1, s, key)
      case Entry(k, v) =>
        if k == key && SectionAt(lines, numeric, n - 1) == s then Some(v) else ValueIn(lines, numeric, n - 1, s, key)
      case _ => ValueIn(lines, numeric, n - 1, s, key)
  }

  // The last value of the key at the top level, if no section of that name was opened since.
  ghost function TopValue(lines: seq<string>, numeric: string -> bool, n: nat, key: string): Option<Json>
    requires n <= |lines|
  {
    if n == 0 then None
    else
      match KindOf(lines[n - 1], numeric)
      case Header(name) => if name == key && name != "" then None else TopValue(lines, numeric, n - 1, key)
      case Entry(k, v) =>
        if k == key && SectionAt(lines, numeric, n - 1) == "" then Some(v) else TopValue(lines, numeric, n - 1, key)
      case _ => TopValue(lines, numeric, n - 1, key)
  }

  lemma LineByKind(d: Doc, raw: string, numeric: string -> bool)
    ensures ParseLine(d, raw, numeric)
         == match KindOf(raw, numeric)
            case Nothing => Some(d)
            case Header(name) => Some(Closed(d).(section := name))
            case Entry(k, v) => Some(Entered(d, k, v))
            case Stop => None
  {
    hide Trim, ParseValue, Closed, Entered;
  }

  // What the parser knows after `n` lines, once the open section is closed.
  ghost predicate Knows(d: Doc, lines: seq<string>, numeric: string -> bool, n: nat, s: string, key: string)
    requires n <= |lines|
  {
    var c := Closed(d);
    && d.section == SectionAt(lines, numeric, n) && (d.section == "" ==> d.open == map[])
    && (s != "" ==>
          && (s in c.sections <==> IsSection(lines, numeric, n, s))
          && (s in c.sections ==> Lookup(c.sections[s], key) == ValueIn(lines, numeric, n, s, key)))
    && Lookup(c.values, key) == TopValue(lines, numeric, n, key)
  }

  lemma HeaderIsKnown(d: Doc, lines: seq<string>, numeric: string -> bool, n: nat, s: string, key: string)
    requires 0 < n <= |lines| && KindOf(lines[n - 1], numeric).Header? && Knows(d, lines, numeric, n - 1, s, key)
    ensures Knows(Closed(d).(section := KindOf(lines[n - 1], numeric).name), lines, numeric, n, s, key)
  {
    hide KindOf;
  }

  lemma EntryIsKnown(d: Doc, lines: seq<string>, numeric: string -> bool, n: nat, s: string, key: string)
    requires 0 < n <= |lines| && KindOf(lines[n - 1], numeric).Entry? && Knows(d, lines, numeric, n - 1, s, key)
    ensures Knows(Entered(d, KindOf(lines[n - 1], numeric).key, KindOf(lines[n - 1], numeric).value), lines, numeric, n, s, key)
  {
    hide KindOf;
  }

  lemma NothingIsKnown(d: Doc, lines: seq<string>, numeric: string -> bool, n: nat, s: string, key: string)
    requires 0 < n <= |lines| && KindOf(lines[n - 1], numeric).Nothing? && Knows(d, lines, numeric, n - 1, s, key)
    ensures Knows(d, lines, numeric, n, s, key)
  {
    hide KindOf, Closed;
  }

  lemma {:induction false} ParseKnows(lines: seq<string>, numeric: string -> bool, n: nat, s: string, key: string)
    requires n <= |lines| && ParseFirst(lines, numeric, n).Some?
    ensures Knows(ParseFirst(lines, numeric, n).value, lines, numeric, n, s, key)
  {
    if n > 0 {
      hide ParseLine, KindOf, Knows, Closed, Entered;
      var d := ParseFirst(lines, numeric, n - 1).value;
      ParseKnows(lines, numeric, n - 1, s, key);
      LineByKind(d, lines[n - 1], numeric);
      match KindOf(lines[n - 1], numeric)
      case Header(_) => HeaderIsKnown(d, lines, numeric, n, s, key);
      case Entry(_, _) => EntryIsKnown(d, lines, numeric, n, s, key);
      case _ => NothingIsKnown(d, lines, numeric, n, s, key);
    }
  }

  // ----- which manifest that is -----

  // A structure is a section, or an array of as many fields at most.
  ghost predicate HasStructure(lines: seq<string>, numeric: string -> bool, name: string, count: nat) {
    var v := TopValue(lines, numeric, |lines|, name);
    IsSection(lines, numeric, |lines|, name) || (v.Some? && v.value.Arr? && |v.value.items| <= count)
  }

  // A field by its key in the section, or by its place in the array.
  ghost function FieldOf(lines: seq<string>, numeric: string -> bool, name: string, key: string, place: nat): Option<Json> {
    var v := TopValue(lines, numeric, |lines|, name);
    if IsSection(lines, numeric, |lines|, name) then ValueIn(lines, numeric, |lines|, name, key)
    else if v.Some? && v.value.Arr? && place < |v.value.items| then Some(v.value.items[place])
    else None
  }

  ghost predicate IsText(field: Option<Json>, s: string) { field == Some(Str(s)) }

  ghost predicate IsTextOrAbsent(field: Option<Json>, s: string) { IsText(field, s) || (field == None && s == "") }

  ghost predicate AreTexts(field: Option<Json>, files: seq<string>) {
    || (field == None && files == [])
    || (field.Some? && field.value.Arr? && AllTexts(field.value.items, files))
  }

  ghost predicate AllTexts(items: seq<Json>, files: seq<string>) {
    |items| == |files| && forall i | 0 <= i < |files| :: items[i] == Str(files[i])
  }

  // A text gives a manifest exactly when it has the structure with its fields: three texts, two more that
  // may be left out, and the list of files, which may be left out with all around it.
  ghost predicate Gives(lines: seq<string>, numeric: string -> bool, m: Manifest) {
    && HasStructure(lines, numeric, "plugin", 5)
    && IsText(FieldOf(lines, numeric, "plugin", "id", 0), m.id)
    && IsText(FieldOf(lines, numeric, "plugin", "name", 1), m.name)
    && IsText(FieldOf(lines, numeric, "plugin", "version", 2), m.version)
    && IsTextOrAbsent(FieldOf(lines, numeric, "plugin", "description", 3), m.description)
    && IsTextOrAbsent(FieldOf(lines, numeric, "plugin", "handler", 4), m.handler)
    && (if IsSection(lines, numeric, |lines|, "data") || TopValue(lines, numeric, |lines|, "data").Some?
        then HasStructure(lines, numeric, "data", 1) && AreTexts(FieldOf(lines, numeric, "data", "files", 0), m.files)
        else m.files == [])
  }

  lemma {:induction false} NamedField(items: seq<Json>, names: seq<string>, n: nat, k: nat)
    requires k < n <= |names| && forall i, j | 0 <= i < j < |names| :: names[i] != names[j]
    ensures Lookup(NamedFields(items, names, n), names[k]) == if k < |items| then Some(items[k]) else None
  {
    if k < n - 1 {
      NamedField(items, names, n - 1, k);
    } else {
      NotYetNamed(items, names, n - 1, k);
    }
  }

  lemma {:induction false} NotYetNamed(items: seq<Json>, names: seq<string>, n: nat, k: nat)
    requires n <= k < |names| && forall i, j | 0 <= i < j < |names| :: names[i] != names[j]
    ensures names[k] !in NamedFields(items, names, n)
  {
    if n > 0 {
      NotYetNamed(items, names, n - 1, k);
    }
  }

  lemma AllTextsStep(items: seq<Json>, files: seq<string>)
    requires items != [] && files != []
    ensures AllTexts(items, files) <==> items[0] == Str(files[0]) && AllTexts(items[1..], files[1..])
  {
    if items[0] == Str(files[0]) && AllTexts(items[1..], files[1..]) {
      forall i | 0 <= i < |files| ensures items[i] == Str(files[i]) {
        assert i > 0 ==> items[1..][i - 1] == Str(files[1..][i - 1]);
      }
    }
  }

  lemma {:induction false} AsStringsIs(items: seq<Json>, files: seq<string>)
    ensures AsStrings(items) == Some(files) <==> AllTexts(items, files)
  {
    if items != [] && files != [] {
      AsStringsIs(items[1..], files[1..]);
      AllTextsStep(items, files);
      assert files == [files[0]] + files[1..];
      hide AllTexts;
    }
  }

  lemma FieldIs(d: Doc, lines: seq<string>, numeric: string -> bool, name: string, fields: seq<string>, place: nat)
    requires ParseFirst(lines, numeric, |lines|) == Some(d) && name != "" && place < |fields|
    requires forall i, j | 0 <= i < j < |fields| :: fields[i] != fields[j]
    ensures StructOf(Closed(d), name, fields).Some? <==> HasStructure(lines, numeric, name, |fields|)
    ensures StructOf(Closed(d), name, fields).Some? ==>
              Lookup(StructOf(Closed(d), name, fields).value, fields[place]) == FieldOf(lines, numeric, name, fields[place], place)
    ensures name in Closed(d).sections <==> IsSection(lines, numeric, |lines|, name)
    ensures name in Closed(d).values <==> TopValue(lines, numeric, |lines|, name).Some?
  {
    hide ParseFirst, Closed, IsSection, ValueIn, TopValue, SectionAt, NamedFields;
    KnownAtTheEnd(d, lines, numeric, name, fields[place]);
    KnownAtTheEnd(d, lines, numeric, name, name);
    var c := Closed(d);
    if name !in c.sections && name in c.values && c.values[name].Arr? {
      NamedField(c.values[name].items, fields, |fields|, place);
    }
  }

  lemma KnownAtTheEnd(d: Doc, lines: seq<string>, numeric: string -> bool, s: string, key: string)
    requires ParseFirst(lines, numeric, |lines|) == Some(d) && s != ""
    ensures var c := Closed(d);
            && (s in c.sections <==> IsSection(lines, numeric, |lines|, s))
            && (s in c.sections ==> Lookup(c.sections[s], key) == ValueIn(lines, numeric, |lines|, s, key))
            && Lookup(c.values, key) == TopValue(lines, numeric, |lines|, key)
  {
    ParseKnows(lines, numeric, |lines|, s, key);
  }

  // Parsing gives a manifest exactly when no line stops it and the text gives that manifest.
  lemma ParseSpelledOut(text: string, numeric: string -> bool, m: Manifest)
    ensures Parse(text, numeric) == Ok(m) <==>
            (forall line <- Lines(text) :: KindOf(line, numeric) != Stop) && Gives(Lines(text), numeric, m)
  {
    hide ParseFirst, Gives, ReadManifest, KindOf;
    var lines := Lines(text);
    ParsePanicsExactly(text, numeric);
    forall line <- lines ensures LinePanics(line, numeric) <==> KindOf(line, numeric) == Stop {
      StopsOrPanics(line, numeric);
    }
    var d := ParseFirst(lines, numeric, |lines|);
    if d.Some? {
      ManifestIs(d.value, lines, numeric, m);
    }
  }

  lemma StopsOrPanics(line: string, numeric: string -> bool)
    ensures LinePanics(line, numeric) <==> KindOf(line, numeric) == Stop
  {
    hide Trim, ParseValue;
  }

  lemma TextIs(field: Option<Json>, s: string)
    ensures AsString(field) == Some(s) <==> IsText(field, s)
    ensures AsStringOr(field, "") == Some(s) <==> IsTextOrAbsent(field, s)
  {
  }

  lemma FilesAre(field: Option<Json>, files: seq<string>)
    ensures AsFiles(field) == Some(files) <==> AreTexts(field, files)
  {
    hide AllTexts, AsStrings;
    if field.Some? && field.value.Arr? {
      AsStringsIs(field.value.items, files);
    }
  }

  lemma MetaIs(s: Section, files: Option<seq<string>>, m: Manifest)
    ensures MetaOf(s, files) == Some(m) <==>
            && IsText(Lookup(s, "id"), m.id) && IsText(Lookup(s, "name"), m.name) && IsText(Lookup(s, "version"), m.version)
            && IsTextOrAbsent(Lookup(s, "description"), m.description) && IsTextOrAbsent(Lookup(s, "handler"), m.handler)
            && files == Some(m.files)
  {
    hide AsString, AsStringOr, IsText, IsTextOrAbsent;
    TextIs(Lookup(s, "id"), m.id);
    TextIs(Lookup(s, "name"), m.name);
    TextIs(Lookup(s, "version"), m.version);
    TextIs(Lookup(s, "description"), m.description);
    TextIs(Lookup(s, "handler"), m.handler);
  }

  lemma MetaFieldsAre(d: Doc, lines: seq<string>, numeric: string -> bool)
    requires ParseFirst(lines, numeric, |lines|) == Some(d)
    ensures var meta := StructOf(Closed(d), "plugin", META_FIELDS);
            && (meta.Some? <==> HasStructure(lines, numeric, "plugin", 5))
            && (meta.Some? ==>
                  && Lookup(meta.value, "id") == FieldOf(lines, numeric, "plugin", "id", 0)
                  && Lookup(meta.value, "name") == FieldOf(lines, numeric, "plugin", "name", 1)
                  && Lookup(meta.value, "version") == FieldOf(lines, numeric, "plugin", "version", 2)
                  && Lookup(meta.value, "description") == FieldOf(lines, numeric, "plugin", "description", 3)
                  && Lookup(meta.value, "handler") == FieldOf(lines, numeric, "plugin", "handler", 4))
  {
    hide ParseFirst, Closed, StructOf, HasStructure, FieldOf, IsSection, TopValue;
    FieldIs(d, lines, numeric, "plugin", META_FIELDS, 0);
    FieldIs(d, lines, numeric, "plugin", META_FIELDS, 1);
    FieldIs(d, lines, numeric, "plugin", META_FIELDS, 2);
    FieldIs(d, lines, numeric, "plugin", META_FIELDS, 3);
    FieldIs(d, lines, numeric, "plugin", META_FIELDS, 4);
  }

  lemma FileFieldIs(d: Doc, lines: seq<string>, numeric: string -> bool, files: seq<string>)
    requires ParseFirst(lines, numeric, |lines|) == Some(d)
    ensures FilesOf(Closed(d)) == Some(files) <==>
            if IsSection(lines, numeric, |lines|, "data") || TopValue(lines, numeric, |lines|, "data").Some?
            then HasStructure(lines, numeric, "data", 1) && AreTexts(FieldOf(lines, numeric, "data", "files", 0), files)
            else files == []
  {
    hide ParseFirst, Closed, StructOf, HasStructure, FieldOf, IsSection, TopValue, AsFiles, AreTexts;
    FieldIs(d, lines, numeric, "data", ["files"], 0);
    FilesAre(FieldOf(lines, numeric, "data", "files", 0), files);
  }

  lemma ManifestIs(d: Doc, lines: seq<string>, numeric: string -> bool, m: Manifest)
    requires ParseFirst(lines, numeric, |lines|) == Some(d)
    ensures ReadManifest(Closed(d)) == Some(m) <==> Gives(lines, numeric, m)
  {
    hide ParseFirst, Closed, StructOf, HasStructure, FieldOf, IsSection, TopValue, FilesOf, AreTexts, IsText, IsTextOrAbsent, MetaOf;
    var c := Closed(d);
    var meta := StructOf(c, "plugin", META_FIELDS);
    MetaFieldsAre(d, lines, numeric);
    FileFieldIs(d, lines, numeric, m.files);
    if meta.Some? {
      MetaIs(meta.value, FilesOf(c), m);
    }
  }
}

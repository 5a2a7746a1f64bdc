/** `generate_js_content`: the translated dictionary written back as the lines of
    a JS object literal, joined with newlines. Strings are written between double
    quotes as they are, without escaping. */
module JsOutput {
  import opened Text
  import opened Content
  import opened Sequences

  function Spaces(n: nat): (r: string)
    ensures |r| == n && forall i :: 0 <= i < n ==> r[i] == ' '
  {
    seq(n, _ => ' ')
  }

  /** `f'{quote}{key}{quote}'`. */
  function QuotedKey(k: Key): string {
    k.quote + k.name + k.quote
  }

  /** `format_value` on a string (translate.py:156): the string between double
      quotes, which it can be read back from. */
  function FormatString(v: string): (r: string)
    ensures |r| == |v| + 2 && r[0] == '"' && r[|r| - 1] == '"'
    ensures r[1..|r| - 1] == v
  {
    "\"" + v + "\""
  }

  /** The line of one child of an object (translate.py:153). */
  function ChildLine(k: Key, v: string, indent: nat): string {
    Spaces(indent * 2) + QuotedKey(k) + ": " + FormatString(v) + ","
  }

  function ChildLines(c: seq<(Key, string)>, indent: nat): (r: seq<string>)
    ensures |r| == |c|
  {
    seq(|c|, j requires 0 <= j < |c| => ChildLine(c[j].0, c[j].1, indent))
  }

  /** `nested_lines` of `format_value` on an object (translate.py:151-154). */
  function ObjectLines(c: seq<(Key, string)>, indent: nat): seq<string> {
    ["{"] + ChildLines(c, indent) + [Spaces(indent) + "}"]
  }

  function FormattedValue(v: Value, indent: nat): string {
    match v
    case Leaf(s) => FormatString(s)
    case Node(c) => Join(ObjectLines(c, indent), '\n')
  }

  /** The line appended for one top-level entry (translate.py:159-163). */
  function EntryLine(e: (Key, Value), indent: nat): string {
    Spaces(indent) + QuotedKey(e.0) + ": " + FormattedValue(e.1, indent) + ","
  }

  function EntryLines(t: Tree, indent: nat): (r: seq<string>)
    ensures |r| == |t|
  {
    seq(|t|, i requires 0 <= i < |t| => EntryLine(t[i], indent))
  }

  /** The first line, if any (translate.py:147). */
  function Opening(wrap: bool, exportDefault: bool): seq<string> {
    if exportDefault then ["export default {"] else if wrap then ["{"] else []
  }

  /** The last line, if any (translate.py:165-166). */
  function Closing(wrap: bool, exportDefault: bool): seq<string> {
    if wrap || exportDefault then ["}"] else []
  }

  /** `lines` before the final join. */
  function JsLines(t: Tree, indent: nat, wrap: bool, exportDefault: bool): seq<string> {
    Opening(wrap, exportDefault) + EntryLines(t, indent) + Closing(wrap, exportDefault)
  }

  /** What `generate_js_content` returns. */
  function JsContent(t: Tree, indent: nat, wrap: bool, exportDefault: bool): string {
    Join(JsLines(t, indent, wrap, exportDefault), '\n')
  }

  /** `format_value` (translate.py:149-156). */
  method FormatValue(v: Value, indent: nat) returns (s: string)
    ensures s == FormattedValue(v, indent)
  {
    match v {
      case Leaf(text) =>
        s := FormatString(text);
      case Node(c) =>
        var nestedLines := ["{"];
        for j := 0 to |c|
          invariant nestedLines == ["{"] + ChildLines(c[..j], indent)
        {
          ChildLinesSnoc(c, j, indent);
          nestedLines := nestedLines + [ChildLine(c[j].0, c[j].1, indent)];
        }
        TakeAll(c);
        nestedLines := nestedLines + [Spaces(indent) + "}"];
        s := Join(nestedLines, '\n');
    }
  }

  /** `generate_js_content` (translate.py:145-167); both branches of the loop
      append the same line, so they are one here. */
  method GenerateJsContent(t: Tree, indent: nat, wrap: bool, exportDefault: bool) returns (s: string)
    ensures s == JsContent(t, indent, wrap, exportDefault)
  {
    var lines := Opening(wrap, exportDefault);
    for i := 0 to |t|
      invariant lines == Opening(wrap, exportDefault) + EntryLines(t[..i], indent)
    {
      var formatted := FormatValue(t[i].1, indent);
      EntryLinesSnoc(t, i, indent);
      lines := lines + [Spaces(indent) + QuotedKey(t[i].0) + ": " + formatted + ","];
    }
    TakeAll(t);
    if wrap || exportDefault {
      lines := lines + ["}"];
    }
    assert lines == JsLines(t, indent, wrap, exportDefault);
    s := Join(lines, '\n');
  }

  lemma {:induction false} ChildLinesSnoc(c: seq<(Key, string)>, j: nat, indent: nat)
    requires j < |c|
    ensures ChildLines(c[..j + 1], indent) == ChildLines(c[..j], indent) + [ChildLine(c[j].0, c[j].1, indent)]
  {
    PrefixOfPrefix(c, j);
  }

  lemma {:induction false} EntryLinesSnoc(t: Tree, i: nat, indent: nat)
    requires i < |t|
    ensures EntryLines(t[..i + 1], indent) == EntryLines(t[..i], indent) + [EntryLine(t[i], indent)]
  {
    PrefixOfPrefix(t, i);
  }

  // ------------------------------------------------------------------- rows

  /** The rows an entry takes in the output: for a string, one row; for an
      object, the row that opens it under its key, one row per child indented
      twice, and the row that closes it. */
  function EntryRows(e: (Key, Value), indent: nat): (r: seq<string>)
    ensures |r| > 0
  {
    match e.1
    case Leaf(s) => [Spaces(indent) + QuotedKey(e.0) + ": \"" + s + "\","]
    case Node(c) => [Spaces(indent) + QuotedKey(e.0) + ": {"] + ChildLines(c, indent) + [Spaces(indent) + "},"]
  }

  function EntryGroups(t: Tree, indent: nat): (r: seq<seq<string>>)
    ensures |r| == |t|
  {
    seq(|t|, i requires 0 <= i < |t| => EntryRows(t[i], indent))
  }

  /** The rows of all entries, in order. */
  function Rows(t: Tree, indent: nat): seq<string> {
    Flatten(EntryGroups(t, indent))
  }

  /** An entry's line is its rows joined. */
  lemma {:induction false} EntryLineRows(e: (Key, Value), indent: nat)
    ensures EntryLine(e, indent) == Join(EntryRows(e, indent), '\n')
  {
    var head := Spaces(indent) + QuotedKey(e.0) + ": ";
    match e.1
    case Leaf(s) =>
      assert head + FormatString(s) + "," == Spaces(indent) + QuotedKey(e.0) + ": \"" + s + "\",";
    case Node(c) =>
      var lines := ObjectLines(c, indent);
      JoinPrefix(head, lines, '\n');
      var framed := [head + "{"] + lines[1..];
      assert lines[1..] == ChildLines(c, indent) + [Spaces(indent) + "}"];
      JoinSuffix(framed, ",", '\n');
      assert head + "{" == Spaces(indent) + QuotedKey(e.0) + ": {";
      assert Spaces(indent) + "}" + "," == Spaces(indent) + "},";
      assert framed[..|framed| - 1] + [framed[|framed| - 1] + ","] == EntryRows(e, indent);
  }

  /** The output is the opening line, the rows of every entry and the closing
      line, joined with newlines. */
  lemma {:induction false} OutputRows(t: Tree, indent: nat, wrap: bool, exportDefault: bool)
    ensures JsContent(t, indent, wrap, exportDefault)
         == Join(Opening(wrap, exportDefault) + Rows(t, indent) + Closing(wrap, exportDefault), '\n')
  {
    var open, close := Opening(wrap, exportDefault), Closing(wrap, exportDefault);
    var groups := Groups(t, indent, wrap, exportDefault);
    var joined := seq(|groups|, i requires 0 <= i < |groups| => Join(groups[i], '\n'));
    forall i | 0 <= i < |groups| ensures |groups[i]| > 0 && joined[i] == JsLines(t, indent, wrap, exportDefault)[i] {
      GroupLine(t, indent, wrap, exportDefault, i);
    }
    assert joined == JsLines(t, indent, wrap, exportDefault);
    JoinOfJoins(groups, '\n');
    FlattenAppend(Singles(open) + EntryGroups(t, indent), Singles(close));
    FlattenAppend(Singles(open), EntryGroups(t, indent));
    FlattenSingles(open);
    FlattenSingles(close);
  }

  /** The output's lines, each as the group of rows it is made of. */
  function Groups(t: Tree, indent: nat, wrap: bool, exportDefault: bool): (r: seq<seq<string>>)
    ensures |r| == |JsLines(t, indent, wrap, exportDefault)|
  {
    Singles(Opening(wrap, exportDefault)) + EntryGroups(t, indent) + Singles(Closing(wrap, exportDefault))
  }

  lemma {:induction false} GroupLine(t: Tree, indent: nat, wrap: bool, exportDefault: bool, i: nat)
    requires i < |Groups(t, indent, wrap, exportDefault)|
    ensures |Groups(t, indent, wrap, exportDefault)[i]| > 0
    ensures Join(Groups(t, indent, wrap, exportDefault)[i], '\n') == JsLines(t, indent, wrap, exportDefault)[i]
  {
    var open, close := Opening(wrap, exportDefault), Closing(wrap, exportDefault);
    var groups, entries := Groups(t, indent, wrap, exportDefault), EntryGroups(t, indent);
    var ls := JsLines(t, indent, wrap, exportDefault);
    assert groups == Singles(open) + entries + Singles(close);
    assert ls == open + EntryLines(t, indent) + close;
    if i < |open| {
      assert groups[i] == Singles(open)[i] == [open[i]];
      assert ls[i] == open[i];
    } else if i < |open| + |t| {
      var k := i - |open|;
      assert groups[i] == entries[k];
      assert ls[i] == EntryLines(t, indent)[k];
      EntryGroupLine(t, indent, k);
    } else {
      var k := i - |open| - |t|;
      assert groups[i] == Singles(close)[k] == [close[k]];
      assert ls[i] == close[k];
    }
  }

  lemma {:induction false} EntryGroupLine(t: Tree, indent: nat, k: nat)
    requires k < |t|
    ensures |EntryGroups(t, indent)[k]| > 0
    ensures Join(EntryGroups(t, indent)[k], '\n') == EntryLines(t, indent)[k]
  {
    EntryLineRows(t[k], indent);
  }

  // ------------------------------------------------------------------ lines

  /** No key, quote or string of the tree holds a line break. */
  predicate SingleLine(t: Tree) {
    forall i :: 0 <= i < |t| ==> EntrySingleLine(t[i])
  }

  predicate EntrySingleLine(e: (Key, Value)) {
    && '\n' !in e.0.name && '\n' !in e.0.quote
    && match e.1
       case Leaf(s) => '\n' !in s
       case Node(c) => forall j :: 0 <= j < |c| ==> '\n' !in c[j].0.name && '\n' !in c[j].0.quote && '\n' !in c[j].1
  }

  lemma {:induction false} EntryRowsSingle(e: (Key, Value), indent: nat)
    requires EntrySingleLine(e)
    ensures forall j :: 0 <= j < |EntryRows(e, indent)| ==> '\n' !in EntryRows(e, indent)[j]
  {
    assert '\n' !in Spaces(indent) && '\n' !in Spaces(indent * 2);
  }

  lemma {:induction false} RowsSingle(t: Tree, indent: nat)
    requires SingleLine(t)
    ensures forall k :: 0 <= k < |Rows(t, indent)| ==> '\n' !in Rows(t, indent)[k]
  {
    var groups := EntryGroups(t, indent);
    forall k | 0 <= k < |Rows(t, indent)| ensures '\n' !in Rows(t, indent)[k] {
      FlattenMember(groups, k);
      var i, j :| 0 <= i < |groups| && 0 <= j < |groups[i]| && Flatten(groups)[k] == groups[i][j];
      EntryRowsSingle(t[i], indent);
    }
  }

  /** The output's lines hold no line break of their own. */
  lemma {:induction false} LinesSingle(t: Tree, indent: nat, wrap: bool, exportDefault: bool)
    requires SingleLine(t)
    ensures var lines := Opening(wrap, exportDefault) + Rows(t, indent) + Closing(wrap, exportDefault);
            forall i, k :: 0 <= i < |lines| && 0 <= k < |lines[i]| ==> lines[i][k] != '\n'
  {
    var o, rows := Opening(wrap, exportDefault), Rows(t, indent);
    var lines := o + rows + Closing(wrap, exportDefault);
    RowsSingle(t, indent);
    forall i | 0 <= i < |lines| ensures '\n' !in lines[i] {
      if |o| <= i < |o| + |rows| {
        assert lines[i] == rows[i - |o|];
      }
    }
  }

  /** A tree with an entry has rows. */
  lemma {:induction false} RowsNonEmpty(t: Tree, indent: nat)
    requires t != []
    ensures |Rows(t, indent)| > 0
  {
    assert |EntryGroups(t, indent)[0]| > 0;
    assert Rows(t, indent) == EntryGroups(t, indent)[0] + Flatten(EntryGroups(t, indent)[1..]);
  }

  /** Split at its line breaks, the output of a tree without line breaks of its
      own is exactly the opening line, the rows of the entries and the closing
      line (translate.py:147-167). */
  lemma {:induction false} OutputLines(t: Tree, indent: nat, wrap: bool, exportDefault: bool)
    requires SingleLine(t)
    requires t != [] || wrap || exportDefault
    ensures Split(JsContent(t, indent, wrap, exportDefault), '\n')
         == Opening(wrap, exportDefault) + Rows(t, indent) + Closing(wrap, exportDefault)
  {
    OutputRows(t, indent, wrap, exportDefault);
    LinesSingle(t, indent, wrap, exportDefault);
    if t != [] {
      RowsNonEmpty(t, indent);
    }
    SplitJoin(Opening(wrap, exportDefault) + Rows(t, indent) + Closing(wrap, exportDefault), '\n');
  }

  /** With a positive indentation each row of an entry starts with a space, and
      its last row ends with a comma. */
  lemma {:induction false} EntryRowsShape(e: (Key, Value), indent: nat)
    requires indent > 0
    ensures forall j :: 0 <= j < |EntryRows(e, indent)| ==> EntryRows(e, indent)[j] != [] && EntryRows(e, indent)[j][0] == ' '
    ensures var last := EntryRows(e, indent)[|EntryRows(e, indent)| - 1]; last != [] && last[|last| - 1] == ','
  {
    var sp := Spaces(indent);
    assert sp[0] == ' ';
    match e.1
    case Leaf(s) =>
    case Node(c) =>
      forall j | 0 <= j < |c| ensures ChildLine(c[j].0, c[j].1, indent)[0] == ' ' {
        assert Spaces(indent * 2)[0] == ' ';
      }
  }

  lemma {:induction false} RowsStartSpace(t: Tree, indent: nat)
    requires indent > 0
    ensures forall k :: 0 <= k < |Rows(t, indent)| ==> Rows(t, indent)[k] != [] && Rows(t, indent)[k][0] == ' '
  {
    var groups := EntryGroups(t, indent);
    forall k | 0 <= k < |Rows(t, indent)| ensures Rows(t, indent)[k] != [] && Rows(t, indent)[k][0] == ' ' {
      FlattenMember(groups, k);
      var i, j :| 0 <= i < |groups| && 0 <= j < |groups[i]| && Flatten(groups)[k] == groups[i][j];
      EntryRowsShape(t[i], indent);
    }
  }

  lemma {:induction false} RowsEndComma(t: Tree, indent: nat)
    requires indent > 0 && t != []
    ensures var rows := Rows(t, indent); |rows| > 0 && rows[|rows| - 1] != [] && rows[|rows| - 1][|rows[|rows| - 1]| - 1] == ','
  {
    FlattenLast(EntryGroups(t, indent));
    EntryRowsShape(t[|t| - 1], indent);
  }

  /** The first line is `export default {` exactly when that flag is set, else
      `{` exactly when the braces flag is; the last line is `}` exactly when
      either flag is set (translate.py:147, 165-166). This holds whatever the
      keys and strings hold, line breaks included. */
  lemma {:induction false} FirstLastLines(t: Tree, indent: nat, wrap: bool, exportDefault: bool)
    requires indent > 0
    ensures var lines := Split(JsContent(t, indent, wrap, exportDefault), '\n');
            && (lines[0] == "export default {" <==> exportDefault)
            && (lines[0] == "{" <==> wrap && !exportDefault)
            && (lines[|lines| - 1] == "}" <==> wrap || exportDefault)
  {
    var lines := Split(JsContent(t, indent, wrap, exportDefault), '\n');
    if wrap || exportDefault {
      FramedEnds(t, indent, wrap, exportDefault);
    } else if t == [] {
      assert JsLines(t, indent, wrap, exportDefault) == [];
      assert lines == [""];
    } else {
      UnframedSplitEnds(t, indent);
    }
  }

  /** Without framing, neither opening line nor `}` can be an end of the
      output: an entry's line starts with a space and ends with a comma. */
  lemma {:induction false} UnframedSplitEnds(t: Tree, indent: nat)
    requires indent > 0 && t != []
    ensures var lines := Split(JsContent(t, indent, false, false), '\n');
            && lines[0] != "export default {" && lines[0] != "{" && lines[|lines| - 1] != "}"
  {
    var ls := JsLines(t, indent, false, false);
    UnframedEnds(t, indent);
    JoinSplitEnds(ls, '\n', ' ', ',');
    var r := Split(Join(ls, '\n'), '\n');
    var first, last := r[0], r[|r| - 1];
    assert first != "export default {" && first != "{" && last != "}";
  }

  /** With framing, the first line is the opening line and the last is `}`. */
  lemma {:induction false} FramedEnds(t: Tree, indent: nat, wrap: bool, exportDefault: bool)
    requires wrap || exportDefault
    ensures var lines := Split(JsContent(t, indent, wrap, exportDefault), '\n');
            && lines[0] == Opening(wrap, exportDefault)[0]
            && lines[|lines| - 1] == "}"
  {
    var ls := JsLines(t, indent, wrap, exportDefault);
    assert |ls| >= 2;
    assert ls[0] == Opening(wrap, exportDefault)[0];
    assert ls[|ls| - 1] == "}";
    assert '\n' !in ls[0] && '\n' !in ls[|ls| - 1];
    SplitFirstLine(ls, '\n');
    SplitLastLine(ls, '\n');
  }

  /** Without framing, the first line starts with a space and the last line
      ends with a comma. */
  lemma {:induction false} UnframedEnds(t: Tree, indent: nat)
    requires indent > 0 && t != []
    ensures var ls := JsLines(t, indent, false, false);
            && |ls| > 0 && ls[0] != [] && ls[0][0] == ' '
            && ls[|ls| - 1] != [] && ls[|ls| - 1][|ls[|ls| - 1]| - 1] == ','
  {
    var ls := JsLines(t, indent, false, false);
    assert |ls| == |t|;
    assert ls[0] == EntryLine(t[0], indent);
    assert ls[|ls| - 1] == EntryLine(t[|t| - 1], indent);
    EntryLineEnds(t[0], indent);
    EntryLineEnds(t[|t| - 1], indent);
  }

  /** With a positive indentation an entry's line starts with a space and ends
      with a comma. */
  lemma {:induction false} EntryLineEnds(e: (Key, Value), indent: nat)
    requires indent > 0
    ensures var l := EntryLine(e, indent); l != [] && l[0] == ' ' && l[|l| - 1] == ','
  {
    assert Spaces(indent)[0] == ' ';
  }
}

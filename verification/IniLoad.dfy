/** What the file loader puts on a tab's panel (INIEditor.java:382-455): a heading for every
    section line and, for every key/value line, a key label, a text field holding the value
    (with the key as its client property) and a description label. */
module IniLoad {
  import opened JavaText
  import opened IniLine

  datatype Row =
    | Heading(title: string)
    | FieldRow(key: string, text: string, note: string)

  /** The loader's reading of every line of a file, in order. */
  function ParseLines(lines: seq<string>): seq<Line>
  {
    seq(|lines|, i requires 0 <= i < |lines| => Classify(lines[i]))
  }

  /** The rows one line contributes: none for comments, blanks and opaque lines. */
  function RowsOf(line: Line): seq<Row>
  {
    match line
    case Section(title) => [Heading(title)]
    case Entry(key, value, description) =>
      [FieldRow(key, value, if description.Some? then description.value else "")]
    case _ => []
  }

  function LoadPanel(parsed: seq<Line>): seq<Row>
  {
    if parsed == [] then [] else RowsOf(parsed[0]) + LoadPanel(parsed[1..])
  }

  /** The (key, text) pairs of the panel's text fields, in component order. */
  function TextFields(rows: seq<Row>): seq<(string, string)>
  {
    if rows == [] then []
    else (if rows[0].FieldRow? then [(rows[0].key, rows[0].text)] else []) + TextFields(rows[1..])
  }

  /** The text fields the loader creates for a file, in panel order. */
  function PanelFields(lines: seq<string>): seq<(string, string)>
  {
    TextFields(LoadPanel(ParseLines(lines)))
  }

  /** `p` is the (key, value) of some entry of `parsed`. */
  predicate ComesFromEntry(parsed: seq<Line>, p: (string, string)) {
    exists i :: 0 <= i < |parsed| && parsed[i].Entry? && p == (parsed[i].key, parsed[i].value)
  }

  /** Rows follow the file: loading a concatenation loads each part in turn. */
  lemma {:induction false} LoadPanelAppend(a: seq<Line>, b: seq<Line>)
    ensures LoadPanel(a + b) == LoadPanel(a) + LoadPanel(b)
    decreases |a|
  {
    if a == [] {
      assert a + b == b;
    } else {
      assert (a + b)[1..] == a[1..] + b;
      LoadPanelAppend(a[1..], b);
    }
  }

  lemma {:induction false} TextFieldsAppend(a: seq<Row>, b: seq<Row>)
    ensures TextFields(a + b) == TextFields(a) + TextFields(b)
    decreases |a|
  {
    if a == [] {
      assert a + b == b;
    } else {
      var head := if a[0].FieldRow? then [(a[0].key, a[0].text)] else [];
      calc {
        TextFields(a + b);
      == { assert (a + b)[0] == a[0]; }
        head + TextFields((a + b)[1..]);
      == { assert (a + b)[1..] == a[1..] + b; }
        head + TextFields(a[1..] + b);
      == { TextFieldsAppend(a[1..], b); }
        head + (TextFields(a[1..]) + TextFields(b));
      ==
        TextFields(a) + TextFields(b);
      }
    }
  }

  lemma FieldsCons(parsed: seq<Line>)
    requires parsed != []
    ensures TextFields(LoadPanel(parsed)) == TextFields(RowsOf(parsed[0])) + TextFields(LoadPanel(parsed[1..]))
  {
    TextFieldsAppend(RowsOf(parsed[0]), LoadPanel(parsed[1..]));
  }

  /** Every entry yields a text field holding its key and value. */
  lemma {:induction false} EntriesBecomeFields(parsed: seq<Line>)
    ensures forall i :: 0 <= i < |parsed| && parsed[i].Entry? ==>
      (parsed[i].key, parsed[i].value) in TextFields(LoadPanel(parsed))
    decreases |parsed|
  {
    if parsed != [] {
      var rest := parsed[1..];
      EntriesBecomeFields(rest);
      FieldsCons(parsed);
      forall i | 0 <= i < |parsed| && parsed[i].Entry?
        ensures (parsed[i].key, parsed[i].value) in TextFields(LoadPanel(parsed))
      {
        if i > 0 {
          assert parsed[i] == rest[i - 1];
        }
      }
    }
  }

  /** Every text field comes from some entry. */
  lemma {:induction false} FieldsComeFromEntries(parsed: seq<Line>)
    ensures forall p :: p in TextFields(LoadPanel(parsed)) ==> ComesFromEntry(parsed, p)
    decreases |parsed|
  {
    if parsed != [] {
      var rest := parsed[1..];
      FieldsComeFromEntries(rest);
      FieldsCons(parsed);
      forall p | p in TextFields(LoadPanel(parsed))
        ensures ComesFromEntry(parsed, p)
      {
        if p !in TextFields(RowsOf(parsed[0])) {
          var i :| 0 <= i < |rest| && rest[i].Entry? && p == (rest[i].key, rest[i].value);
          assert parsed[i + 1] == rest[i];
        }
      }
    }
  }

  /** The (key, value) pair one line contributes as a text field, if any. */
  function LineField(line: string): seq<(string, string)>
  {
    var c := Classify(line);
    if c.Entry? then [(c.key, c.value)] else []
  }

  /** The (key, value) pairs of a file's entry lines, one per entry line, in file order. */
  function EntryFields(lines: seq<string>): seq<(string, string)>
  {
    if lines == [] then [] else LineField(lines[0]) + EntryFields(lines[1..])
  }

  /** The loader's text fields are exactly the entries' (key, value) pairs: one field per
      key/value line, in file order, and no other field. */
  lemma PanelFieldsAreEntries(lines: seq<string>)
    ensures PanelFields(lines) == EntryFields(lines)
    ensures forall i :: 0 <= i < |lines| && Classify(lines[i]).Entry? ==>
      (Classify(lines[i]).key, Classify(lines[i]).value) in PanelFields(lines)
    ensures forall p :: p in PanelFields(lines) ==> ComesFromEntry(ParseLines(lines), p)
  {
    var parsed := ParseLines(lines);
    EntriesBecomeFields(parsed);
    FieldsComeFromEntries(parsed);
    forall i | 0 <= i < |lines| && Classify(lines[i]).Entry?
      ensures (Classify(lines[i]).key, Classify(lines[i]).value) in PanelFields(lines)
    {
      assert parsed[i] == Classify(lines[i]);
    }
    PanelFieldsInOrder(lines);
  }

  lemma {:induction false} PanelFieldsInOrder(lines: seq<string>)
    ensures PanelFields(lines) == EntryFields(lines)
    decreases |lines|
  {
    if lines != [] {
      PanelFieldsInOrder(lines[1..]);
      PanelFieldsCons(lines);
    }
  }

  lemma PanelFieldsCons(lines: seq<string>)
    requires lines != []
    ensures PanelFields(lines) == LineField(lines[0]) + PanelFields(lines[1..])
  {
    var parsed := ParseLines(lines);
    FieldsCons(parsed);
    assert parsed[0] == Classify(lines[0]);
    assert parsed[1..] == ParseLines(lines[1..]);
  }

  /** The fields of a file are the fields of its first part followed by those of the rest,
      so a field's position follows its line's position. */
  lemma PanelFieldsAppend(a: seq<string>, b: seq<string>)
    ensures PanelFields(a + b) == PanelFields(a) + PanelFields(b)
  {
    PanelFieldsInOrder(a + b);
    PanelFieldsInOrder(a);
    PanelFieldsInOrder(b);
    EntryFieldsAppend(a, b);
  }

  lemma {:induction false} EntryFieldsAppend(a: seq<string>, b: seq<string>)
    ensures EntryFields(a + b) == EntryFields(a) + EntryFields(b)
    decreases |a|
  {
    if a == [] {
      assert a + b == b;
    } else {
      assert (a + b)[1..] == a[1..] + b;
      EntryFieldsAppend(a[1..], b);
    }
  }

  /** A single line gives one field when it is an entry, and none otherwise. */
  lemma PanelFieldsOfLine(line: string)
    ensures PanelFields([line]) == if Classify(line).Entry? then [(Classify(line).key, Classify(line).value)] else []
  {
    PanelFieldsInOrder([line]);
    assert [line][1..] == [];
  }
}

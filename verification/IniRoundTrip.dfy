/** What happens when a saved file is loaded again, or saved again: which edits survive a
    reload, when saving twice writes the same text, and where the rewrite loses
    information. */
module IniRoundTrip {
  import opened Optional
  import opened JavaText
  import opened LineReader
  import opened IniLine
  import opened IniLoad
  import opened IniSave

  /** A key whose rebuilt line `key=...` is read back as an entry: it does not start with
      ';' or '[' (a line such as " ;x=1" has key ";x" and is rebuilt as a comment). */
  predicate KeyStaysEntry(key: string) {
    key == [] || (key[0] != ';' && key[0] != '[')
  }

  /** A new value that is read back as the value, up to trimming: it holds no ';' and, on a
      line without description, no "//". */
  predicate ValueStaysValue(value: string, description: Option<string>) {
    ';' !in value && (description.Some? || !Contains(value, "//"))
  }

  /** The edit the map makes to this line, if any, survives a reload. */
  predicate EditIsStable(line: string, updated: map<string, string>) {
    var c := Classify(line);
    c.Entry? && c.key in updated ==> KeyStaysEntry(c.key) && ValueStaysValue(updated[c.key], c.description)
  }

  /** The loader's reading of a line once the map's edit is applied. */
  function Edited(c: Line, updated: map<string, string>): Line
  {
    match c
    case Entry(key, _, description) =>
      if key in updated then Entry(key, Trim(updated[key]), description) else c
    case _ => c
  }

  /** A rebuilt line is read back as the same key and description with the trimmed new value. */
  lemma RebuiltReadsBack(key: string, value: string, description: Option<string>)
    requires IsTrimmed(key) && '=' !in key && KeyStaysEntry(key)
    requires description.Some? ==> IsTrimmed(description.value)
    requires ValueStaysValue(value, description)
    ensures Classify(Rebuilt(key, value, description)) == Entry(key, Trim(value), description)
  {
    var rest := RebuiltTail(value, description);
    calc {
      Classify(Rebuilt(key, value, description));
    == { assert Rebuilt(key, value, description) == key + "=" + rest; }
      Classify(key + "=" + rest);
    == { EntryAtFirstEquals(key + "=" + rest, key, rest); }
      Entry(Trim(key), SplitDescription(Trim(rest)).0, SplitDescription(Trim(rest)).1);
    == { TrimmedIsFixpoint(key); TailReadsBack(value, description); }
      Entry(key, Trim(value), description);
    }
  }

  /** What a rebuilt line holds after its '='. */
  function RebuiltTail(value: string, description: Option<string>): string
  {
    value + (if description.Some? then " ;" + description.value else "")
  }

  lemma TailReadsBack(value: string, description: Option<string>)
    requires description.Some? ==> IsTrimmed(description.value)
    requires ValueStaysValue(value, description)
    ensures SplitDescription(Trim(RebuiltTail(value, description))) == (Trim(value), description)
  {
    if description.None? {
      assert RebuiltTail(value, description) == value;
      TailWithoutDescriptionReadsBack(value);
    } else {
      assert RebuiltTail(value, description) == value + " ;" + description.value;
      TailWithDescriptionReadsBack(value, description.value);
    }
  }

  lemma TailWithoutDescriptionReadsBack(value: string)
    requires ';' !in value && !Contains(value, "//")
    ensures SplitDescription(Trim(value)) == (Trim(value), None)
  {
    if Contains(Trim(value), "//") {
      ContainsAfterTrim(value, "//");
    }
    assert ';' !in Trim(value);
  }

  lemma TailWithDescriptionReadsBack(value: string, d: string)
    requires IsTrimmed(d) && ';' !in value
    ensures SplitDescription(Trim(value + " ;" + d)) == (Trim(value), Some(d))
  {
    var head := TrimLeft(value + " ");
    TrimAroundSemicolon(value, d);
    assert ';' !in head by {
      assert ';' !in value + " ";
      assert head == (value + " ")[TrimStart(value + " ", 0)..];
    }
    DescriptionAtFirstSemicolon(head + ";" + d, head, d);
    TrimOfTrimLeft(value + " ");
    TrimDropsTrailingSpace(value);
    TrimmedIsFixpoint(d);
  }

  /** Reloading a rewritten line shows the map's edit and nothing else. */
  lemma RewriteReadsBackEdited(line: string, updated: map<string, string>)
    requires EditIsStable(line, updated)
    ensures Classify(RewriteLine(line, updated)) == Edited(Classify(line), updated)
  {
    var c := Classify(line);
    if c.Entry? && c.key in updated {
      EntryShape(line);
      RebuiltReadsBack(c.key, updated[c.key], c.description);
    }
  }

  /** Rewriting a rewritten line with the same map changes nothing more. */
  lemma RewriteIsStable(line: string, updated: map<string, string>)
    requires EditIsStable(line, updated)
    ensures RewriteLine(RewriteLine(line, updated), updated) == RewriteLine(line, updated)
  {
    RewriteReadsBackEdited(line, updated);
  }

  /** Loading the saved file shows, line for line, the original file with the map's edits:
      same line count and order, same kinds, keys and descriptions, and the trimmed new
      value on every entry whose key is in the map. */
  lemma ReloadAfterSave(lines: seq<string>, updated: map<string, string>)
    requires forall i :: 0 <= i < |lines| ==> IsSingleLine(lines[i]) && EditIsStable(lines[i], updated)
    requires forall k :: k in updated ==> IsSingleLine(updated[k])
    ensures |ReadLines(Save(lines, updated))| == |lines|
    ensures forall i :: 0 <= i < |lines| ==>
      Classify(ReadLines(Save(lines, updated))[i]) == Edited(Classify(lines[i]), updated)
  {
    SavedRecordsReadBack(lines, updated);
    forall i | 0 <= i < |lines|
      ensures Classify(ReadLines(Save(lines, updated))[i]) == Edited(Classify(lines[i]), updated)
    {
      RewriteReadsBackEdited(lines[i], updated);
    }
  }

  /** Saving the same edits a second time, after re-reading the file, writes the same text. */
  lemma SaveTwiceIsSaveOnce(lines: seq<string>, updated: map<string, string>)
    requires forall i :: 0 <= i < |lines| ==> IsSingleLine(lines[i]) && EditIsStable(lines[i], updated)
    requires forall k :: k in updated ==> IsSingleLine(updated[k])
    ensures Save(ReadLines(Save(lines, updated)), updated) == Save(lines, updated)
  {
    SavedRecordsReadBack(lines, updated);
    var reread := RewriteAll(lines, updated);
    forall i | 0 <= i < |reread|
      ensures RewriteLine(reread[i], updated) == reread[i]
    {
      RewriteIsStable(lines[i], updated);
    }
    assert RewriteAll(reread, updated) == reread;
  }

  predicate DistinctKeys(fields: seq<(string, string)>) {
    forall i, j :: 0 <= i < j < |fields| ==> fields[i].0 != fields[j].0
  }

  /** What the save button does when nothing was typed: the map is built from the fields the
      loader created. */
  function UneditedUpdates(lines: seq<string>): map<string, string>
  {
    Updates(PanelFields(lines))
  }

  /** With distinct keys, the unedited map sends every key of the file to the value the
      loader showed for it, and holds nothing else. */
  lemma UneditedMapHoldsLoadedValues(lines: seq<string>)
    requires DistinctKeys(PanelFields(lines))
    ensures forall i :: 0 <= i < |lines| && Classify(lines[i]).Entry? ==>
      Classify(lines[i]).key in UneditedUpdates(lines)
      && UneditedUpdates(lines)[Classify(lines[i]).key] == Classify(lines[i]).value
    ensures forall k :: k in UneditedUpdates(lines) ==> (k, UneditedUpdates(lines)[k]) in PanelFields(lines)
  {
    LoadedValuesAreInMap(lines);
    MapValuesWereLoaded(lines);
  }

  lemma LoadedValuesAreInMap(lines: seq<string>)
    requires DistinctKeys(PanelFields(lines))
    ensures forall i :: 0 <= i < |lines| && Classify(lines[i]).Entry? ==>
      Classify(lines[i]).key in UneditedUpdates(lines)
      && UneditedUpdates(lines)[Classify(lines[i]).key] == Classify(lines[i]).value
  {
    var fields := PanelFields(lines);
    var u := UneditedUpdates(lines);
    PanelFieldsAreEntries(lines);
    forall i | 0 <= i < |lines| && Classify(lines[i]).Entry?
      ensures Classify(lines[i]).key in u && u[Classify(lines[i]).key] == Classify(lines[i]).value
    {
      var p := (Classify(lines[i]).key, Classify(lines[i]).value);
      assert p in fields;
      var j :| 0 <= j < |fields| && fields[j] == p;
      assert IsLastWithKey(fields, j);
    }
  }

  lemma MapValuesWereLoaded(lines: seq<string>)
    requires DistinctKeys(PanelFields(lines))
    ensures forall k :: k in UneditedUpdates(lines) ==> (k, UneditedUpdates(lines)[k]) in PanelFields(lines)
  {
    var fields := PanelFields(lines);
    var u := UneditedUpdates(lines);
    forall k | k in u
      ensures (k, u[k]) in fields
    {
      var j :| 0 <= j < |fields| && fields[j].0 == k;
      assert IsLastWithKey(fields, j);
      assert fields[j] in fields;
    }
  }

  /** Saving without typing anything, on a file whose keys are distinct and never start with
      ';' or '[', loses nothing the editor shows: the reloaded file reads exactly as before
      and yields the same text fields. */
  lemma UneditedSaveKeepsEntries(lines: seq<string>)
    requires forall i :: 0 <= i < |lines| ==> IsSingleLine(lines[i])
    requires DistinctKeys(PanelFields(lines))
    requires forall i :: 0 <= i < |lines| && Classify(lines[i]).Entry? ==> KeyStaysEntry(Classify(lines[i]).key)
    ensures ParseLines(ReadLines(Save(lines, UneditedUpdates(lines)))) == ParseLines(lines)
    ensures PanelFields(ReadLines(Save(lines, UneditedUpdates(lines)))) == PanelFields(lines)
  {
    var reread := ReadLines(Save(lines, UneditedUpdates(lines)));
    UneditedLinesReadBack(lines);
    assert ParseLines(reread) == ParseLines(lines);
  }

  lemma UneditedLinesReadBack(lines: seq<string>)
    requires forall i :: 0 <= i < |lines| ==> IsSingleLine(lines[i])
    requires DistinctKeys(PanelFields(lines))
    requires forall i :: 0 <= i < |lines| && Classify(lines[i]).Entry? ==> KeyStaysEntry(Classify(lines[i]).key)
    ensures |ReadLines(Save(lines, UneditedUpdates(lines)))| == |lines|
    ensures forall i :: 0 <= i < |lines| ==> Classify(ReadLines(Save(lines, UneditedUpdates(lines)))[i]) == Classify(lines[i])
  {
    var u := UneditedUpdates(lines);
    LoadedValuesAreInMap(lines);
    UneditedEditsAreStable(lines);
    UneditedValuesAreSingleLines(lines);
    ReloadAfterSave(lines, u);
    var reread := ReadLines(Save(lines, u));
    forall i | 0 <= i < |lines|
      ensures Classify(reread[i]) == Classify(lines[i])
    {
      if Classify(lines[i]).Entry? {
        EntryShape(lines[i]);
        TrimmedIsFixpoint(Classify(lines[i]).value);
      }
    }
  }

  lemma UneditedEditsAreStable(lines: seq<string>)
    requires DistinctKeys(PanelFields(lines))
    requires forall i :: 0 <= i < |lines| && Classify(lines[i]).Entry? ==> KeyStaysEntry(Classify(lines[i]).key)
    ensures forall i :: 0 <= i < |lines| ==> EditIsStable(lines[i], UneditedUpdates(lines))
  {
    var u := UneditedUpdates(lines);
    LoadedValuesAreInMap(lines);
    forall i | 0 <= i < |lines|
      ensures EditIsStable(lines[i], u)
    {
      if Classify(lines[i]).Entry? {
        EntryShape(lines[i]);
      }
    }
  }

  lemma UneditedValuesAreSingleLines(lines: seq<string>)
    requires forall i :: 0 <= i < |lines| ==> IsSingleLine(lines[i])
    requires DistinctKeys(PanelFields(lines))
    ensures forall k :: k in UneditedUpdates(lines) ==> IsSingleLine(UneditedUpdates(lines)[k])
  {
    var u := UneditedUpdates(lines);
    var parsed := ParseLines(lines);
    MapValuesWereLoaded(lines);
    PanelFieldsAreEntries(lines);
    forall k | k in u
      ensures IsSingleLine(u[k])
    {
      assert ComesFromEntry(parsed, (k, u[k]));
      var i :| 0 <= i < |parsed| && parsed[i].Entry? && (k, u[k]) == (parsed[i].key, parsed[i].value);
      EntryValueIsSingleLine(lines[i]);
    }
  }

  lemma EntryValueIsSingleLine(line: string)
    requires IsSingleLine(line) && Classify(line).Entry?
    ensures IsSingleLine(Classify(line).value)
  {
    EntryShape(line);
  }

  /** A file without any key/value line gives the tab no text field, so the save button
      then builds an empty map and writes every line back as read. */
  lemma NoEntriesGiveEmptyMap(lines: seq<string>)
    requires forall i :: 0 <= i < |lines| ==> !Classify(lines[i]).Entry?
    ensures PanelFields(lines) == []
    ensures UneditedUpdates(lines) == map[]
    ensures Save(lines, UneditedUpdates(lines)) == JoinLines(lines)
  {
    PanelFieldsAreEntries(lines);
    NoEntryLineNoFields(lines);
    SaveWithEmptyMap(lines);
  }

  lemma {:induction false} NoEntryLineNoFields(lines: seq<string>)
    requires forall i :: 0 <= i < |lines| ==> !Classify(lines[i]).Entry?
    ensures EntryFields(lines) == []
    decreases |lines|
  {
    if lines != [] {
      assert !Classify(lines[0]).Entry?;
      NoEntryLineNoFields(lines[1..]);
    }
  }

  /** A matched key does not by itself change the bytes: an untouched `key=value` line with
      neither delimiter, whose key and value are already trimmed and whose key the map
      sends to that same value, is rebuilt as itself. */
  lemma UntouchedPlainLineIsKept(key: string, value: string, updated: map<string, string>)
    requires IsTrimmed(key) && '=' !in key && KeyStaysEntry(key)
    requires IsTrimmed(value) && ';' !in value && !Contains(value, "//")
    requires key in updated && updated[key] == value
    ensures Classify(key + "=" + value).Entry?
    ensures RewriteLine(key + "=" + value, updated) == key + "=" + value
  {
    EntryWithoutDescription(key, value);
  }
}

/** The save worker (INIEditor.java:507-561): it builds a key -> new value map from the
    panel's text fields, re-reads the file's lines and writes one "\n"-terminated record per
    line, rebuilding the lines whose key is in the map and copying every other line. */
module IniSave {
  import opened Optional
  import opened JavaText
  import opened IniLine
  import opened LineReader

  /** The map built from the text fields in panel order: every key that has a field, bound
      to the text of the last field with that key (INIEditor.java:508-515). */
  function Updates(fields: seq<(string, string)>): (m: map<string, string>)
    ensures forall k :: k in m <==> exists i :: 0 <= i < |fields| && fields[i].0 == k
    ensures forall i :: 0 <= i < |fields| && IsLastWithKey(fields, i) ==> fields[i].0 in m && m[fields[i].0] == fields[i].1
    decreases |fields|
  {
    if fields == [] then map[]
    else
      var init := fields[..|fields| - 1];
      var last := fields[|fields| - 1];
      var m := Updates(init);
      var m' := m[last.0 := last.1];
      UpdatesStep(fields, init, last, m, m');
      m'
  }

  /** No later field has the same key as field `i`. */
  predicate IsLastWithKey(fields: seq<(string, string)>, i: int)
    requires 0 <= i < |fields|
  {
    forall j :: i < j < |fields| ==> fields[j].0 != fields[i].0
  }

  lemma UpdatesStep(fields: seq<(string, string)>, init: seq<(string, string)>, last: (string, string),
                    m: map<string, string>, m': map<string, string>)
    requires fields != [] && init == fields[..|fields| - 1] && last == fields[|fields| - 1]
    requires forall k :: k in m <==> exists i :: 0 <= i < |init| && init[i].0 == k
    requires forall i :: 0 <= i < |init| && IsLastWithKey(init, i) ==> init[i].0 in m && m[init[i].0] == init[i].1
    requires m' == m[last.0 := last.1]
    ensures forall k :: k in m' <==> exists i :: 0 <= i < |fields| && fields[i].0 == k
    ensures forall i :: 0 <= i < |fields| && IsLastWithKey(fields, i) ==> fields[i].0 in m' && m'[fields[i].0] == fields[i].1
  {
    UpdatesStepKeys(fields, init, last, m, m');
    UpdatesStepValues(fields, init, last, m, m');
  }

  lemma UpdatesStepKeys(fields: seq<(string, string)>, init: seq<(string, string)>, last: (string, string),
                        m: map<string, string>, m': map<string, string>)
    requires fields != [] && init == fields[..|fields| - 1] && last == fields[|fields| - 1]
    requires forall k :: k in m <==> exists i :: 0 <= i < |init| && init[i].0 == k
    requires m' == m[last.0 := last.1]
    ensures forall k :: k in m' <==> exists i :: 0 <= i < |fields| && fields[i].0 == k
  {
    forall k | k in m'
      ensures exists i :: 0 <= i < |fields| && fields[i].0 == k
    {
      if k == last.0 {
        assert fields[|fields| - 1].0 == k;
      } else {
        var i :| 0 <= i < |init| && init[i].0 == k;
        assert fields[i].0 == k;
      }
    }
    forall k | exists i :: 0 <= i < |fields| && fields[i].0 == k
      ensures k in m'
    {
      var i :| 0 <= i < |fields| && fields[i].0 == k;
      if i < |init| {
        assert init[i].0 == k;
      }
    }
  }

  lemma UpdatesStepValues(fields: seq<(string, string)>, init: seq<(string, string)>, last: (string, string),
                          m: map<string, string>, m': map<string, string>)
    requires fields != [] && init == fields[..|fields| - 1] && last == fields[|fields| - 1]
    requires forall i :: 0 <= i < |init| && IsLastWithKey(init, i) ==> init[i].0 in m && m[init[i].0] == init[i].1
    requires m' == m[last.0 := last.1]
    ensures forall i :: 0 <= i < |fields| && IsLastWithKey(fields, i) ==> fields[i].0 in m' && m'[fields[i].0] == fields[i].1
  {
    forall i | 0 <= i < |fields| && IsLastWithKey(fields, i)
      ensures fields[i].0 in m' && m'[fields[i].0] == fields[i].1
    {
      if i < |init| {
        assert fields[i].0 != last.0;
        assert IsLastWithKey(init, i);
        assert init[i] == fields[i];
      }
    }
  }

  /** The saver's own copy of the description split (INIEditor.java:537-547). The value it
      also recomputes there is never used afterwards, so only the description is kept. */
  function SaverDescription(valuePart: string): (r: Option<string>)
    ensures r == SplitDescription(valuePart).1
  {
    if Contains(valuePart, ";") then Some(Trim(SplitFirst(valuePart, ";").value.1))
    else if Contains(valuePart, "//") then Some(Trim(SplitFirst(valuePart, "//").value.1))
    else None
  }

  /** An edited line: the key, '=', the new value, then " ;" and the description when the
      line had one, whichever delimiter it used (INIEditor.java:550-553). */
  function Rebuilt(key: string, value: string, description: Option<string>): string
  {
    key + "=" + value + (if description.Some? then " ;" + description.value else "")
  }

  /** The record written for one line, without its "\n" (INIEditor.java:529-559). Stated
      through the loader's reading of the line: the saver's separate tests and splits agree
      with it, so only an entry whose key is in the map changes. */
  function RewriteLine(line: string, updated: map<string, string>): (r: string)
    ensures var c := Classify(line);
      r == if c.Entry? && c.key in updated then Rebuilt(c.key, updated[c.key], c.description) else line
  {
    if StartsWith(line, ";") || IsBlank(line) || StartsWith(line, "[") then line
    else
      match SplitFirst(line, "=")
      case None => line
      case Some(parts) =>
        var key := Trim(parts.0);
        var description := SaverDescription(Trim(parts.1));
        if key in updated then Rebuilt(key, updated[key], description) else line
  }

  /** The records of a whole file, one per line and in the same order. */
  function RewriteAll(lines: seq<string>, updated: map<string, string>): seq<string>
  {
    seq(|lines|, i requires 0 <= i < |lines| => RewriteLine(lines[i], updated))
  }

  /** The text the save worker writes back. */
  function Save(lines: seq<string>, updated: map<string, string>): string
  {
    JoinLines(RewriteAll(lines, updated))
  }

  /** A line whose key is not in the map, and every line that is not an entry, is written
      exactly as read; so with an empty map, or with no key of the file in it, the saved
      text is the lines joined with "\n". */
  lemma SaveUnmatchedIsVerbatim(lines: seq<string>, updated: map<string, string>)
    requires forall i :: 0 <= i < |lines| && Classify(lines[i]).Entry? ==> Classify(lines[i]).key !in updated
    ensures RewriteAll(lines, updated) == lines
    ensures Save(lines, updated) == JoinLines(lines)
  {
  }

  lemma SaveWithEmptyMap(lines: seq<string>)
    ensures Save(lines, map[]) == JoinLines(lines)
  {
    SaveUnmatchedIsVerbatim(lines, map[]);
  }

  /** A record holds no line terminator when neither its line nor the new value does. */
  lemma RewriteStaysSingleLine(line: string, updated: map<string, string>)
    requires IsSingleLine(line)
    requires forall k :: k in updated ==> IsSingleLine(updated[k])
    ensures IsSingleLine(RewriteLine(line, updated))
  {
    var c := Classify(line);
    if c.Entry? && c.key in updated {
      EntryShape(line);
    }
  }

  /** The saved text holds one "\n" per line of the file, the last record included, when
      neither the lines nor the map's values hold a terminator; a file without lines is
      saved as empty. */
  lemma SaveWritesOneRecordPerLine(lines: seq<string>, updated: map<string, string>)
    requires forall i :: 0 <= i < |lines| ==> IsSingleLine(lines[i])
    requires forall k :: k in updated ==> IsSingleLine(updated[k])
    ensures Save(lines, updated) == [] <==> lines == []
    ensures lines != [] ==> EndsWith(Save(lines, updated), "\n")
    ensures multiset(Save(lines, updated))['\n'] == |lines|
  {
    var records := RewriteAll(lines, updated);
    forall i | 0 <= i < |records|
      ensures IsSingleLine(records[i])
    {
      RewriteStaysSingleLine(lines[i], updated);
    }
    JoinLinesShape(records);
  }

  /** Reading the saved text back gives one line per line of the original file, in the same
      order, each being the record written for it. */
  lemma SavedRecordsReadBack(lines: seq<string>, updated: map<string, string>)
    requires forall i :: 0 <= i < |lines| ==> IsSingleLine(lines[i])
    requires forall k :: k in updated ==> IsSingleLine(updated[k])
    ensures ReadLines(Save(lines, updated)) == RewriteAll(lines, updated)
    ensures |ReadLines(Save(lines, updated))| == |lines|
  {
    var records := RewriteAll(lines, updated);
    forall i | 0 <= i < |records|
      ensures IsSingleLine(records[i])
    {
      RewriteStaysSingleLine(lines[i], updated);
    }
    ReadJoinedLines(records);
  }
}

/** Where a save followed by a reload does not give back what the user typed: the guards
    of the round-trip theorems are each needed, and these lemmas say what happens instead
    when one of them fails. */
module IniPitfalls {
  import opened Optional
  import opened JavaText
  import opened IniLine
  import opened IniSave
  import opened IniRoundTrip

  /** A key starting with ';' (from a line such as " ;x=1") is written back at the start of
      the line, so the reloaded line is a comment. */
  lemma SemicolonKeyBecomesComment(key: string, value: string, description: Option<string>)
    requires key != [] && key[0] == ';'
    ensures !KeyStaysEntry(key)
    ensures Classify(Rebuilt(key, value, description)).Comment?
  {
    assert Rebuilt(key, value, description)[0] == ';';
  }

  /** A key starting with '[' is written back at the start of the line, so the reloaded line
      is a section header. */
  lemma BracketKeyBecomesSection(key: string, value: string, description: Option<string>)
    requires key != [] && key[0] == '['
    ensures !KeyStaysEntry(key)
    ensures Classify(Rebuilt(key, value, description)).Section?
  {
    var line := Rebuilt(key, value, description);
    assert line[0] == '[';
    assert line[|key|] == '=';
    if IsBlank(line) {
      BlankHasOnlyWhitespace(line, '=');
    }
  }

  /** A new value holding ';' on a line without description is cut at that ';' on reload:
      the text behind it becomes a description, and the value read back is not the value
      that was written. */
  lemma SemicolonInValueSplitsOnReload(key: string, a: string, b: string)
    requires IsTrimmed(key) && '=' !in key && KeyStaysEntry(key)
    requires IsTrimmed(a + ";" + b) && ';' !in a
    ensures !ValueStaysValue(a + ";" + b, None)
    ensures Classify(Rebuilt(key, a + ";" + b, None)) == Entry(key, Trim(a), Some(Trim(b)))
    ensures Trim(a) != Trim(a + ";" + b)
  {
    assert Rebuilt(key, a + ";" + b, None) == key + "=" + (a + ";" + b);
    EntryWithSemicolon(key, a, b);
    ValueLosesSemicolon(a, b);
  }

  lemma ValueLosesSemicolon(a: string, b: string)
    requires IsTrimmed(a + ";" + b)
    ensures ';' in a + ";" + b
    ensures Trim(a) != Trim(a + ";" + b)
  {
    assert (a + ";" + b)[|a|] == ';';
    TrimmedIsFixpoint(a + ";" + b);
    if ';' in Trim(a) {
      assert ';' in a;
    }
  }

  /** Likewise a new value holding "//" on a line without description: on reload the text
      behind the first "//" becomes a description. */
  lemma SlashesInValueSplitOnReload(key: string, a: string, b: string)
    requires IsTrimmed(key) && '=' !in key && KeyStaysEntry(key)
    requires IsTrimmed(a + "//" + b) && ';' !in a + "//" + b && !Contains(a + "/", "//")
    ensures !ValueStaysValue(a + "//" + b, None)
    ensures Classify(Rebuilt(key, a + "//" + b, None)) == Entry(key, Trim(a), Some(Trim(b)))
  {
    assert Rebuilt(key, a + "//" + b, None) == key + "=" + (a + "//" + b);
    EntryWithSlashes(key, a, b);
    assert OccursAt(a + "//" + b, "//", |a|);
  }

  /** The map is keyed by the bare key, so of two fields with the same key (the same key
      in two sections, say) only the later one's text is saved, to every line with that key:
      an edit typed into the earlier field is lost. */
  lemma EarlierFieldIsOverwritten(fields: seq<(string, string)>, i: int, j: int)
    requires 0 <= i < j < |fields| && fields[i].0 == fields[j].0
    requires IsLastWithKey(fields, j) && fields[i].1 != fields[j].1
    ensures fields[i].0 in Updates(fields)
    ensures Updates(fields)[fields[i].0] != fields[i].1
  {
  }
}

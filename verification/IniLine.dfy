/** How the file loader reads one raw line (INIEditor.java:382-425): a comment, a blank
    line, a section header, a key/value entry with an optional inline description, or an
    opaque line the loader skips. */
module IniLine {
  import opened Optional
  import opened JavaText

  datatype Line =
    | Comment(text: string)
    | Blank
    | Section(title: string)
    | Entry(key: string, value: string, description: Option<string>)
    | Opaque

  /** Splits the trimmed text right of the first '=' into value and description: at the
      first ';' when there is one, else at the first "//", else there is no description. */
  function SplitDescription(valuePart: string): (r: (string, Option<string>))
    ensures r.1.None? <==> ';' !in valuePart && !Contains(valuePart, "//")
    ensures r.1.None? ==> r.0 == valuePart
    ensures r.1.Some? ==> IsTrimmed(r.0) && IsTrimmed(r.1.value)
    ensures ';' !in r.0
    ensures r.1.None? ==> !Contains(r.0, "//")
    ensures forall c :: c in r.0 ==> c in valuePart
    ensures r.1.Some? ==> forall c :: c in r.1.value ==> c in valuePart
  {
    ContainsChar(valuePart, ';');
    if Contains(valuePart, ";") then
      var parts := SplitFirst(valuePart, ";").value;
      SplitFirstCharPrefix(valuePart, ';');
      (Trim(parts.0), Some(Trim(parts.1)))
    else if Contains(valuePart, "//") then
      var parts := SplitFirst(valuePart, "//").value;
      (Trim(parts.0), Some(Trim(parts.1)))
    else
      (valuePart, None)
  }

  /** The loader's reading of one line, tests taken in the loader's order. */
  function Classify(line: string): (r: Line)
    ensures r.Comment? <==> StartsWith(line, ";")
    ensures r.Blank? <==> !StartsWith(line, ";") && IsBlank(line)
    ensures r.Section? <==> !StartsWith(line, ";") && !IsBlank(line) && StartsWith(line, "[")
    ensures r.Opaque? <==> !StartsWith(line, ";") && !IsBlank(line) && !StartsWith(line, "[") && '=' !in line
  {
    if StartsWith(line, ";") then Comment(Trim(line[1..]))
    else if IsBlank(line) then Blank
    else if StartsWith(line, "[") then Section(Trim(line))
    else
      ContainsChar(line, '=');
      match SplitFirst(line, "=")
      case None => Opaque
      case Some(parts) =>
        SplitFirstCharPrefix(line, '=');
        var split := SplitDescription(Trim(parts.1));
        Entry(Trim(parts.0), split.0, split.1)
  }

  /** What an entry always looks like: key and value trimmed, no '=' in the key, no ';' in
      the value, no "//" in a value without description, and nothing that was not on the line. */
  lemma EntryShape(line: string)
    requires Classify(line).Entry?
    ensures var e := Classify(line);
      && IsTrimmed(e.key) && '=' !in e.key
      && IsTrimmed(e.value) && ';' !in e.value
      && (e.description.None? ==> !Contains(e.value, "//"))
      && (e.description.Some? ==> IsTrimmed(e.description.value))
    ensures var e := Classify(line);
      && (forall c :: c in e.key ==> c in line)
      && (forall c :: c in e.value ==> c in line)
      && (e.description.Some? ==> forall c :: c in e.description.value ==> c in line)
  {
    ContainsChar(line, '=');
    SplitFirstCharPrefix(line, '=');
  }

  /** The key is the trimmed text before the first '=', and the value and description come
      from the trimmed text after it. */
  lemma EntryAtFirstEquals(line: string, a: string, b: string)
    requires line == a + "=" + b && '=' !in a
    requires a == [] || (a[0] != ';' && a[0] != '[')
    ensures Classify(line) == Entry(Trim(a), SplitDescription(Trim(b)).0, SplitDescription(Trim(b)).1)
  {
    assert line[|a|] == '=';
    assert !IsBlank(line) by {
      if IsBlank(line) {
        BlankHasOnlyWhitespace(line, '=');
      }
    }
    assert !StartsWith(line, ";") && !StartsWith(line, "[") by {
      assert line[0] == if a == [] then '=' else a[0];
    }
    SplitFirstChar(a, '=', b);
    ClassifySplit(line, a, b);
  }

  /** A line the loader does not skip is read at the split `split("=", 2)` returns. */
  lemma ClassifySplit(line: string, a: string, b: string)
    requires !StartsWith(line, ";") && !IsBlank(line) && !StartsWith(line, "[")
    requires SplitFirst(line, "=") == Some((a, b))
    ensures Classify(line) == Entry(Trim(a), SplitDescription(Trim(b)).0, SplitDescription(Trim(b)).1)
  {
  }

  /** A ';' anywhere in the value part wins: the split is at the first one. */
  lemma DescriptionAtFirstSemicolon(valuePart: string, a: string, b: string)
    requires valuePart == a + ";" + b && ';' !in a
    ensures SplitDescription(valuePart) == (Trim(a), Some(Trim(b)))
  {
    assert ';' in valuePart by {
      assert valuePart[|a|] == ';';
    }
    ContainsChar(valuePart, ';');
    SplitFirstChar(a, ';', b);
  }

  /** Without any ';', the split is at the first "//". */
  lemma DescriptionAtFirstSlashes(valuePart: string, a: string, b: string)
    requires valuePart == a + "//" + b && ';' !in valuePart
    requires !Contains(a + "/", "//")
    ensures SplitDescription(valuePart) == (Trim(a), Some(Trim(b)))
  {
    ContainsChar(valuePart, ';');
    forall j | 0 <= j < |a|
      ensures !OccursAt(valuePart, "//", j)
    {
      if OccursAt(valuePart, "//", j) {
        assert valuePart[..|a| + 1] == a + "/";
        assert (a + "/")[j..j + 2] == valuePart[j..j + 2];
        assert OccursAt(a + "/", "//", j);
      }
    }
    SplitFirstAt(valuePart, "//", a, b);
  }

  /** A line `key=value;description` whose text after '=' is already trimmed. */
  lemma EntryWithSemicolon(key: string, value: string, description: string)
    requires IsTrimmed(key) && '=' !in key && (key == [] || (key[0] != ';' && key[0] != '['))
    requires IsTrimmed(value + ";" + description) && ';' !in value
    ensures Classify(key + "=" + (value + ";" + description)) == Entry(key, Trim(value), Some(Trim(description)))
  {
    var b := value + ";" + description;
    EntryAtFirstEquals(key + "=" + b, key, b);
    TrimmedIsFixpoint(key);
    TrimmedIsFixpoint(b);
    DescriptionAtFirstSemicolon(b, value, description);
  }

  /** A line `key=value//description` without ';' whose text after '=' is already trimmed. */
  lemma EntryWithSlashes(key: string, value: string, description: string)
    requires IsTrimmed(key) && '=' !in key && (key == [] || (key[0] != ';' && key[0] != '['))
    requires IsTrimmed(value + "//" + description) && ';' !in value + "//" + description
    requires !Contains(value + "/", "//")
    ensures Classify(key + "=" + (value + "//" + description)) == Entry(key, Trim(value), Some(Trim(description)))
  {
    var b := value + "//" + description;
    EntryAtFirstEquals(key + "=" + b, key, b);
    TrimmedIsFixpoint(key);
    TrimmedIsFixpoint(b);
    DescriptionAtFirstSlashes(b, value, description);
  }

  /** A line `key=value` with neither delimiter whose value is already trimmed. */
  lemma EntryWithoutDescription(key: string, value: string)
    requires IsTrimmed(key) && '=' !in key && (key == [] || (key[0] != ';' && key[0] != '['))
    requires IsTrimmed(value) && ';' !in value && !Contains(value, "//")
    ensures Classify(key + "=" + value) == Entry(key, value, None)
  {
    EntryAtFirstEquals(key + "=" + value, key, value);
    TrimmedIsFixpoint(key);
    TrimmedIsFixpoint(value);
  }
}

/** The file filter of the folder scan (INIEditor.java:280): a file is listed when its name,
    lower-cased, ends in ".ini". */
module FolderScan {
  import opened JavaText

  /** `name.toLowerCase().endsWith(".ini")`, with lower-casing restricted to ASCII. */
  predicate IsIniFileName(name: string) {
    EndsWith(ToLowerAscii(name), ".ini")
  }

  /** The filter in terms of the name's own last four characters: a dot, then "ini" in any
      mix of upper and lower case. */
  lemma IniFileNameChars(name: string)
    ensures IsIniFileName(name) <==>
      && |name| >= 4
      && name[|name| - 4] == '.'
      && name[|name| - 3] in {'i', 'I'}
      && name[|name| - 2] in {'n', 'N'}
      && name[|name| - 1] in {'i', 'I'}
  {
    var lower := ToLowerAscii(name);
    if |name| >= 4 {
      var n := |name|;
      assert lower[n - 4..] == [lower[n - 4], lower[n - 3], lower[n - 2], lower[n - 1]];
    }
  }

  /** The files the scan opens a tab for, in listing order. */
  function IniFiles(names: seq<string>): (r: seq<string>)
    ensures |r| <= |names|
    ensures forall x :: x in r <==> x in names && IsIniFileName(x)
    ensures forall x {:trigger multiset(r)[x]} :: multiset(r)[x] == if IsIniFileName(x) then multiset(names)[x] else 0
  {
    if names == [] then []
    else
      assert names == [names[0]] + names[1..];
      if IsIniFileName(names[0]) then [names[0]] + IniFiles(names[1..])
      else IniFiles(names[1..])
  }

  /** The listing is filtered piece by piece, so the files keep their listing order: the
      files of two listings one after the other are the files of each in turn. */
  lemma {:induction false} IniFilesAppend(a: seq<string>, b: seq<string>)
    ensures IniFiles(a + b) == IniFiles(a) + IniFiles(b)
    decreases |a|
  {
    if a == [] {
      assert a + b == b;
    } else {
      assert (a + b)[0] == a[0];
      assert (a + b)[1..] == a[1..] + b;
      IniFilesAppend(a[1..], b);
    }
  }
}

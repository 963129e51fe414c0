/** The most-recently-used folder list: the ';'-joined string kept under the preference
    key "recentFolders", the update made when a folder is opened (INIEditor.java:117-130),
    the list the recent-folders dialog shows (INIEditor.java:133-146) and the removal of
    one entry from that dialog (INIEditor.java:207-215, 235-244). */
module RecentFolders {
  import opened Optional
  import opened JavaText

  /** INIEditor.java:55 */
  const MaxRecentFolders: nat := 5

  /** A stored entry `addRecentFolder` carries over: not blank and not the folder being
      added. */
  predicate Kept(entry: string, path: string) {
    !IsBlank(entry) && entry != path
  }

  /** `xs` is `ys` with some elements left out and the rest in their original order. */
  predicate IsSubsequence(xs: seq<string>, ys: seq<string>)
    decreases |ys|
  {
    if xs == [] then true
    else if ys == [] then false
    else if xs[0] == ys[0] then IsSubsequence(xs[1..], ys[1..])
    else IsSubsequence(xs, ys[1..])
  }

  /** The first loop of `addRecentFolder`: the stored entries that are kept, in order. */
  function Retained(stored: seq<string>, path: string): (r: seq<string>)
    ensures |r| <= |stored|
    ensures forall i :: 0 <= i < |r| ==> Kept(r[i], path)
    ensures forall x :: x in r <==> x in stored && Kept(x, path)
    ensures IsSubsequence(r, stored)
    ensures forall x {:trigger multiset(r)[x]} :: multiset(r)[x] == if Kept(x, path) then multiset(stored)[x] else 0
  {
    if stored == [] then []
    else
      assert stored == [stored[0]] + stored[1..];
      if Kept(stored[0], path) then [stored[0]] + Retained(stored[1..], path)
      else Retained(stored[1..], path)
  }

  /** The list `addRecentFolder` stores: the new folder first, then the kept entries, cut
      to `MaxRecentFolders`. */
  function AddRecent(stored: seq<string>, path: string): (r: seq<string>)
    ensures 1 <= |r| <= MaxRecentFolders
    ensures r[0] == path
    ensures forall i :: 1 <= i < |r| ==> Kept(r[i], path)
    ensures IsSubsequence(r[1..], stored)
    ensures |r| < MaxRecentFolders ==> forall x :: x in stored && Kept(x, path) ==> x in r
  {
    var kept := Retained(stored, path);
    var all := [path] + kept;
    var r := if |all| > MaxRecentFolders then all[..MaxRecentFolders] else all;
    assert r[1..] == kept[..|r| - 1];
    SubsequencePrefix(kept, stored, |r| - 1);
    assert |r| < MaxRecentFolders ==> r == all;
    r
  }

  lemma {:induction false} SubsequencePrefix(xs: seq<string>, ys: seq<string>, k: nat)
    requires IsSubsequence(xs, ys) && k <= |xs|
    ensures IsSubsequence(xs[..k], ys)
    decreases |ys|
  {
    if k > 0 {
      assert ys != [];
      if xs[0] == ys[0] {
        SubsequencePrefix(xs[1..], ys[1..], k - 1);
        assert xs[..k][1..] == xs[1..][..k - 1];
      } else {
        SubsequencePrefix(xs, ys[1..], k);
      }
    }
  }

  /** Older entries are dropped from the end only: the list is the new folder followed by
      the kept entries, cut after the first `MaxRecentFolders`. */
  lemma AddRecentKeepsNewest(stored: seq<string>, path: string)
    ensures var all := [path] + Retained(stored, path);
      var r := AddRecent(stored, path);
      && |r| == (if |all| < MaxRecentFolders then |all| else MaxRecentFolders)
      && r == all[..|r|]
  {
  }

  lemma {:induction false} RetainedSnoc(stored: seq<string>, entry: string, path: string)
    ensures Retained(stored + [entry], path) == Retained(stored, path) + (if Kept(entry, path) then [entry] else [])
    decreases |stored|
  {
    if stored == [] {
      assert stored + [entry] == [entry];
    } else {
      assert (stored + [entry])[1..] == stored[1..] + [entry];
      RetainedSnoc(stored[1..], entry, path);
    }
  }

  lemma RetainedStep(stored: seq<string>, i: nat, path: string)
    requires i < |stored|
    ensures Retained(stored[..i + 1], path) == Retained(stored[..i], path) + (if Kept(stored[i], path) then [stored[i]] else [])
  {
    assert stored[..i + 1] == stored[..i] + [stored[i]];
    RetainedSnoc(stored[..i], stored[i], path);
  }

  /** `addRecentFolder` as the code runs it: split the stored text, keep the eligible
      entries, push the new folder in front, drop from the back down to five, join. */
  method AddRecentFolder(storedText: string, folderPath: string) returns (saved: string)
    ensures saved == Join(AddRecent(JavaSplit(storedText, ';'), folderPath), ';')
  {
    var storedFolders := JavaSplit(storedText, ';');
    var recent := KeepStoredFolders(storedFolders, folderPath);
    recent := DropOldest([folderPath] + recent);
    AddRecentKeepsNewest(storedFolders, folderPath);
    saved := Join(recent, ';');
  }

  /** The loop over the stored folders (INIEditor.java:120-124). */
  method KeepStoredFolders(storedFolders: seq<string>, folderPath: string) returns (recent: seq<string>)
    ensures recent == Retained(storedFolders, folderPath)
  {
    recent := [];
    var i := 0;
    while i < |storedFolders|
      invariant 0 <= i <= |storedFolders|
      invariant recent == Retained(storedFolders[..i], folderPath)
    {
      var storedFolder := storedFolders[i];
      RetainedStep(storedFolders, i, folderPath);
      if Kept(storedFolder, folderPath) {
        recent := recent + [storedFolder];
      }
      i := i + 1;
    }
    assert storedFolders[..i] == storedFolders;
  }

  /** The `removeLast` loop (INIEditor.java:126-128): the first `MaxRecentFolders`
      entries, or all of them when there are fewer. */
  method DropOldest(all: seq<string>) returns (recent: seq<string>)
    ensures |recent| == if |all| < MaxRecentFolders then |all| else MaxRecentFolders
    ensures recent == all[..|recent|]
  {
    recent := all;
    while |recent| > MaxRecentFolders
      invariant MaxRecentFolders <= |recent| <= |all| || recent == all
      invariant recent == all[..|recent|]
      decreases |recent|
    {
      recent := recent[..|recent| - 1];
    }
  }

  /** `RecentFolderRenderer.updateRecentFolders`: the dialog's list written back with a
      ';' between entries. */
  method UpdateRecentFolders(listModel: seq<string>) returns (saved: string)
    ensures saved == Join(listModel, ';')
  {
    saved := [];
    var i := 0;
    while i < |listModel|
      invariant 0 <= i <= |listModel|
      invariant saved == Join(listModel[..i], ';')
    {
      JoinSnoc(listModel[..i], listModel[i], ';');
      assert listModel[..i + 1] == listModel[..i] + [listModel[i]];
      if i > 0 {
        saved := saved + ";";
      }
      saved := saved + listModel[i];
      i := i + 1;
    }
    assert listModel[..i] == listModel;
  }

  /** The close button: the selected entry is removed; with nothing selected (index -1)
      the list stays as it is. */
  function RemoveSelected(listModel: seq<string>, index: int): (r: seq<string>)
    requires -1 <= index < |listModel|
    ensures index == -1 ==> r == listModel
    ensures index != -1 ==> |r| == |listModel| - 1
    ensures index != -1 ==> forall i :: 0 <= i < |r| ==> r[i] == if i < index then listModel[i] else listModel[i + 1]
  {
    if index == -1 then listModel else listModel[..index] + listModel[index + 1..]
  }

  /** The list the recent-folders dialog shows for a stored text, or None when it reports
      that there are no recent folders (no piece, or a blank first piece). */
  function DialogList(storedText: string): (r: Option<seq<string>>)
    ensures r.Some? ==> |r.value| >= 1 && !IsBlank(r.value[0])
    ensures r.Some? ==> forall i :: 0 <= i < |r.value| ==> ';' !in r.value[i]
    ensures r.Some? ==> r.value == JavaSplit(storedText, ';')
    ensures r.None? <==> JavaSplit(storedText, ';') == [] || IsBlank(JavaSplit(storedText, ';')[0])
  {
    var pieces := JavaSplit(storedText, ';');
    if |pieces| == 0 || IsBlank(pieces[0]) then None else Some(pieces)
  }

  /** A folder name that survives being stored: not blank and without the ';' separator. */
  predicate IsEntry(s: string) {
    !IsBlank(s) && ';' !in s
  }

  /** What every list written by `addRecentFolder` from well-formed text looks like. */
  predicate WellFormed(xs: seq<string>) {
    && |xs| <= MaxRecentFolders
    && (forall i :: 0 <= i < |xs| ==> IsEntry(xs[i]))
    && Distinct(xs)
  }

  predicate Distinct(xs: seq<string>) {
    forall i, j :: 0 <= i < j < |xs| ==> xs[i] != xs[j]
  }

  lemma {:induction false} RetainedAppend(xs: seq<string>, ys: seq<string>, path: string)
    ensures Retained(xs + ys, path) == Retained(xs, path) + Retained(ys, path)
    decreases |xs|
  {
    if xs == [] {
      assert xs + ys == ys;
    } else {
      assert (xs + ys)[1..] == xs[1..] + ys;
      RetainedAppend(xs[1..], ys, path);
    }
  }

  lemma {:induction false} RetainedOfEmptyPieces(xs: seq<string>, path: string)
    requires forall i :: 0 <= i < |xs| ==> xs[i] == []
    ensures Retained(xs, path) == []
    decreases |xs|
  {
    if xs != [] {
      RetainedOfEmptyPieces(xs[1..], path);
    }
  }

  /** Java's `split` drops trailing empty pieces, but `addRecentFolder` drops every blank
      piece anyway: it keeps the same entries as a split that keeps them all. */
  lemma RetainedIgnoresDroppedPieces(storedText: string, path: string)
    ensures Retained(JavaSplit(storedText, ';'), path) == Retained(SplitAll(storedText, ';'), path)
  {
    if storedText != [] {
      var all := SplitAll(storedText, ';');
      var kept := DropTrailingEmpty(all);
      assert all == kept + all[|kept|..];
      RetainedAppend(kept, all[|kept|..], path);
      RetainedOfEmptyPieces(all[|kept|..], path);
    }
  }

  lemma {:induction false} RetainedDistinct(stored: seq<string>, path: string)
    requires Distinct(stored)
    ensures Distinct(Retained(stored, path))
    decreases |stored|
  {
    if stored != [] {
      assert Distinct(stored[1..]) by {
        forall i, j | 0 <= i < j < |stored[1..]|
          ensures stored[1..][i] != stored[1..][j]
        {
          assert stored[1..][i] == stored[i + 1] && stored[1..][j] == stored[j + 1];
        }
      }
      RetainedDistinct(stored[1..], path);
      assert stored[0] !in stored[1..];
    }
  }

  /** From a well-formed stored list and a folder that can be stored, `addRecentFolder`
      makes a well-formed list again: at most five entries, none blank, none holding ';',
      no entry twice. */
  lemma AddRecentWellFormed(stored: seq<string>, path: string)
    requires WellFormed(stored) && IsEntry(path)
    ensures WellFormed(AddRecent(stored, path))
  {
    var r := AddRecent(stored, path);
    var kept := Retained(stored, path);
    RetainedDistinct(stored, path);
    forall i | 0 <= i < |r|
      ensures IsEntry(r[i])
    {
      if i > 0 {
        assert r[i] in kept;
      }
    }
    forall i, j | 0 <= i < j < |r|
      ensures r[i] != r[j]
    {
      assert r[j] == kept[j - 1];
      if i > 0 {
        assert r[i] == kept[i - 1];
      }
    }
  }

  /** A well-formed, non-empty list written with ';' is read back by `split(";")` as the
      same list, and the dialog shows it. */
  lemma StoredListReadsBack(xs: seq<string>)
    requires WellFormed(xs) && xs != []
    ensures JavaSplit(Join(xs, ';'), ';') == xs
    ensures DialogList(Join(xs, ';')) == Some(xs)
  {
    forall i | 0 <= i < |xs|
      ensures ';' !in xs[i] && xs[i] != []
    {
      assert IsEntry(xs[i]);
    }
    JavaSplitOfJoin(xs, ';');
  }

  /** Removing the last folder in the dialog stores "", which the dialog reports as no
      recent folders and `addRecentFolder` reads as an empty list. */
  lemma EmptyListReadsAsNone(path: string)
    ensures Join([], ';') == []
    ensures DialogList([]) == None
    ensures AddRecent(JavaSplit([], ';'), path) == [path]
  {
    assert JavaSplit([], ';') == [[]];
    assert IsBlank([]);
  }

  /** The stored text, as `addRecentFolder` and the close button leave it: "" or a
      well-formed non-empty list joined with ';'. */
  predicate StoredTextOf(storedText: string, xs: seq<string>) {
    WellFormed(xs) && storedText == Join(xs, ';') && (xs == [] <==> storedText == [])
  }

  /** Opening a folder keeps the stored text well-formed, and the dialog then shows the
      new folder first followed by the older ones. */
  lemma AddRecentFolderKeepsStoredText(storedText: string, xs: seq<string>, path: string)
    requires StoredTextOf(storedText, xs) && IsEntry(path)
    ensures JavaSplit(storedText, ';') == (if xs == [] then [[]] else xs)
    ensures StoredTextOf(Join(AddRecent(JavaSplit(storedText, ';'), path), ';'), AddRecent(xs, path))
    ensures DialogList(Join(AddRecent(JavaSplit(storedText, ';'), path), ';')) == Some(AddRecent(xs, path))
  {
    if xs == [] {
      EmptyListReadsAsNone(path);
      assert AddRecent(JavaSplit(storedText, ';'), path) == AddRecent(xs, path);
    } else {
      StoredListReadsBack(xs);
    }
    var ys := AddRecent(xs, path);
    AddRecentWellFormed(xs, path);
    StoredListReadsBack(ys);
    JoinEnds(ys, ';');
  }

  /** The close button keeps the list well-formed, and the text it stores reads back as the
      list the dialog is left showing. */
  lemma RemoveKeepsStoredText(xs: seq<string>, index: int)
    requires WellFormed(xs) && -1 <= index < |xs|
    ensures WellFormed(RemoveSelected(xs, index))
    ensures StoredTextOf(Join(RemoveSelected(xs, index), ';'), RemoveSelected(xs, index))
  {
    var r := RemoveSelected(xs, index);
    if r != [] {
      StoredListReadsBack(r);
      assert IsEntry(r[0]);
      JoinEnds(r, ';');
    }
  }

  lemma {:induction false} RetainedAllKept(xs: seq<string>, path: string)
    requires forall i :: 0 <= i < |xs| ==> Kept(xs[i], path)
    ensures Retained(xs, path) == xs
    decreases |xs|
  {
    if xs != [] {
      RetainedAllKept(xs[1..], path);
    }
  }

  /** Opening the same folder twice in a row gives the same list as opening it once,
      when the list is handed over as it is. */
  lemma AddRecentIdempotent(stored: seq<string>, path: string)
    ensures AddRecent(AddRecent(stored, path), path) == AddRecent(stored, path)
  {
    var r := AddRecent(stored, path);
    assert r == [r[0]] + r[1..];
    RetainedAllKept(r[1..], path);
    assert Retained(r, path) == r[1..];
  }

  /** Opening the same storable folder twice in a row stores the same text as opening it
      once: the second call reads back, through `split(";")`, the list the first stored. */
  lemma AddRecentFolderIdempotent(storedText: string, xs: seq<string>, path: string)
    requires StoredTextOf(storedText, xs) && IsEntry(path)
    ensures var once := Join(AddRecent(JavaSplit(storedText, ';'), path), ';');
      Join(AddRecent(JavaSplit(once, ';'), path), ';') == once
  {
    AddRecentFolderKeepsStoredText(storedText, xs, path);
    var ys := AddRecent(xs, path);
    var once := Join(AddRecent(JavaSplit(storedText, ';'), path), ';');
    assert AddRecent(JavaSplit(storedText, ';'), path) == ys by {
      if xs == [] {
        EmptyListReadsAsNone(path);
      }
    }
    AddRecentWellFormed(xs, path);
    StoredListReadsBack(ys);
    AddRecentIdempotent(xs, path);
  }

  /** A folder path holding ';' (legal on POSIX file systems) is not storable: from an
      empty list, opening `a;b` stores "a;b", and opening it again reads that back as the
      two folders `a` and `b` and stores "a;b;a;b". */
  lemma SemicolonPathNotIdempotent(a: string, b: string)
    requires IsEntry(a) && IsEntry(b)
    ensures var path := a + ";" + b;
      var once := Join(AddRecent(JavaSplit([], ';'), path), ';');
      && once == path
      && Join(AddRecent(JavaSplit(once, ';'), path), ';') == path + ";" + path
  {
    var path := a + ";" + b;
    EmptyListReadsAsNone(path);
    assert Join([path], ';') == path;
    calc {
      Join(AddRecent(JavaSplit(path, ';'), path), ';');
    == { SplitsInTwo(a, b); }
      Join(AddRecent([a, b], path), ';');
    == { KeepsBothPieces(a, b); }
      Join([path, a, b], ';');
    == { assert [path, a, b][1..] == [a, b]; }
      path + ";" + Join([a, b], ';');
    == { assert [a, b][1..] == [b]; }
      path + ";" + (a + ";" + b);
    }
  }

  lemma SplitsInTwo(a: string, b: string)
    requires IsEntry(a) && IsEntry(b)
    ensures JavaSplit(a + ";" + b, ';') == [a, b]
  {
    assert a != [] && b != [];
    assert Join([a, b], ';') == a + ";" + b;
    JavaSplitOfJoin([a, b], ';');
  }

  lemma KeepsBothPieces(a: string, b: string)
    requires IsEntry(a) && IsEntry(b)
    ensures AddRecent([a, b], a + ";" + b) == [a + ";" + b, a, b]
  {
    var path := a + ";" + b;
    assert |a| < |path| && |b| < |path|;
    RetainedAllKept([a, b], path);
  }
}

# INI editor core, modelled in Dafny

The editor (`INIEditor.java`) opens every `.ini` file of a folder in a tab. It shows one
text field per `key=value` line, and a save button writes the fields back into the file.
This project models the logic underneath the Swing code, as pure functions over strings
and sequences, and proves properties of them:

- **The line reader.** `BufferedReader.readLine` is modelled in `LineReader`. The loader's
  classification of a line, and its split into key, value and inline description, are
  modelled in `IniLine`. A line is a comment, a blank line, a section header, an entry or
  an opaque line.
- **The panel.** `IniLoad` models the rows the loader adds to a tab and the
  `(key, value)` pairs of the text fields.
- **The save.** `IniSave` models the map built from the fields, where a later field wins,
  and the saver's own copy of the parser. It also models the rewrite of each line and the
  `"\n"`-joined output.
- **What a reload shows.** `IniRoundTrip` states what reloading or re-saving the output
  gives. `IniPitfalls` shows what goes wrong when one of the round-trip guards is dropped.
- **The recent-folder list.** `RecentFolders` models `addRecentFolder`, the recent-folders
  dialog's reading of the stored string, its close button and `updateRecentFolders`.
- **The folder scan.** `FolderScan` models the folder scan's `.ini` filter.
- **The Java library.** `JavaText` models the `java.lang.String` operations these rely on,
  exactly where it matters:
  - `trim` strips chars up to U+0020. It is written as the two index loops of the JDK.
  - `isBlank` uses `Character.isWhitespace`.
  - `split(sep, 2)` splits at the first occurrence.
  - `split(";")` keeps no trailing empty pieces and gives `[""]` for `""`.
  - `String.join` is modelled as well.

Three details of the code are easy to misread:

- **Comments.** A comment is a line whose *first character* is `;`, not its first non-space
  character (INIEditor.java:383, 529). A line such as ` ;x=1` is an entry with key `;x`.
- **Descriptions.** An edited line always writes its description behind `" ;"`, even when
  the file used `//` (INIEditor.java:552). So `name=Bob//nickname` edited to `Alice` becomes
  `name=Alice ;nickname`: the `//` delimiter is not kept.
- **Unedited saves.** The map holds every text field of the tab. A file without any
  `key=value` line gives the tab no field, so its save uses an empty map and writes every
  line back as read (`NoEntriesGiveEmptyMap`). Otherwise an unedited save rewrites every
  entry line as `key=value` plus `" ;description"`. It normalises spacing and the `//`
  delimiter. When a key occurs twice, the save writes the later field's value to both
  lines. What is preserved is what the editor shows (`UneditedSaveKeepsEntries`), not the
  bytes. The output is guaranteed to be the bytes when the map holds none of the file's
  keys (`SaveUnmatchedIsVerbatim`), or when every matched line is already in the form
  the save writes (`UntouchedPlainLineIsKept`). It also needs the file to use `"\n"` and
  to end in one (`JoinReadLines`). `"\r\n"` line ends become `"\n"` (`ReadCrLfLines`), and
  a final line without a terminator gains one (`FinalLineGainsTerminator`).

## Model

| member | source | states |
|---|---|---|
| IniLine.Classify | INIEditor.java:382-425 | A line is a comment iff it starts with ';'. It is blank iff it is not a comment and all its chars are Java whitespace. It is a section iff it is neither and starts with '['. It is opaque iff it is none of these and holds no '='. Otherwise it is an entry. |
| IniLine.SplitDescription | INIEditor.java:415-425 | There is no description iff the value part holds neither ';' nor "//". Then the value is the whole value part. Otherwise the value and the description are both trimmed. The value never holds ';'. Without a description the value holds no "//". No char appears that was not in the input. |
| IniLine.EntryShape | INIEditor.java:408-425 | Every entry's key is trimmed and holds no '='. Its value is trimmed and holds no ';'. An entry without a description has no "//" in its value. Key, value and description only use chars of the line. |
| IniLine.EntryAtFirstEquals | INIEditor.java:408-411 | For `line == a + "=" + b`, with no '=' in `a` and a line that does not start with ';' or '[', the entry's key is trim(a). Value and description are the split of trim(b). |
| IniLine.DescriptionAtFirstSemicolon | INIEditor.java:415-418 | When the value part is `a + ";" + b` with no ';' in `a`, the split is (trim(a), trim(b)). This holds whatever "//" `a` or `b` contain, so ';' takes priority. |
| IniLine.DescriptionAtFirstSlashes | INIEditor.java:419-422 | A value part without ';' is split at its first "//" into (trim(a), trim(b)). |
| IniLine.EntryWithSemicolon | INIEditor.java:408-418 | The line `key=value;description` with a trimmed right-hand side reads as Entry(key, trim(value), trim(description)). An example is `x=1;a//b`, which reads as value `1` and description `a//b`. |
| IniLine.EntryWithSlashes | INIEditor.java:408-422 | The line `key=value//description` without ';' reads as Entry(key, trim(value), trim(description)). |
| IniLine.EntryWithoutDescription | INIEditor.java:408-425 | The line `key=value` with neither delimiter reads as Entry(key, value, no description). |
| JavaText.Trim | INIEditor.java:410-411 | The result of `trim` starts and ends with a char above U+0020. It is no longer than the input and uses only the input's chars. |
| JavaText.TrimStart | INIEditor.java:410-411 | The first loop of `trim` stops at the first char above U+0020, or at the end, and every char it passes is at most U+0020. |
| JavaText.TrimEnd | INIEditor.java:410-411 | The second loop stops after the last char above U+0020 that is not before its start, and every char it passes is at most U+0020. |
| JavaText.TrimIsSlice | INIEditor.java:410-411 | `trim` returns a slice of its input, and every char it cuts at either end is at most U+0020. |
| JavaText.TrimUnique | INIEditor.java:410-411 | Cut a string into an all-trimmable head, a trimmed middle and an all-trimmable tail. Then `trim` returns the middle. |
| JavaText.TrimmedIsFixpoint | INIEditor.java:410-411 | `trim` leaves a trimmed string unchanged. |
| JavaText.TrimAroundSemicolon | INIEditor.java:536-552 | Take `value + " ;" + d` with d trimmed. Trimming it strips only the leading blanks of `value`. The ';' and d stay in place. |
| JavaText.BlankHasOnlyWhitespace | INIEditor.java:387 | Every char of a blank line is Java whitespace. |
| JavaText.BlankIffTrimsToEmpty | INIEditor.java:387-411 | On ASCII text whose control chars are Java whitespace, `isBlank` holds iff `trim` gives "". |
| JavaText.BlankAndTrimDiffer | INIEditor.java:387-411 | Outside that range the two tests differ: U+0000 is trimmed away but is not blank, and U+3000 is blank but is not trimmed. |
| JavaText.ContainsAfterTrim | INIEditor.java:415-419 | A separator found in the trimmed value part also occurs in the untrimmed one. |
| JavaText.SplitFirst | INIEditor.java:408-409 | There is no split iff the separator does not occur. Otherwise `s == a + sep + b`, and the separator does not occur before the end of `a`. |
| JavaText.SplitFirstAt | INIEditor.java:408-409 | The split is determined by the first occurrence. If `s == a + sep + b` and `sep` does not start before `|a|`, the split is (a, b). |
| JavaText.IndexOfFrom | INIEditor.java:408-420 | `indexOf(sep, from)` gives an index at or after `from` where `sep` occurs, and `sep` occurs nowhere between `from` and that index. It gives nothing iff `sep` occurs nowhere at or after `from`. |
| JavaText.SplitAll | INIEditor.java:119 | Splitting gives at least one piece. No piece holds the separator. Joining the pieces gives back the string. |
| JavaText.DropTrailingEmpty | INIEditor.java:119 | The pieces kept are a prefix of all pieces, every piece dropped is empty, and the last piece kept is not empty. |
| JavaText.JavaSplit | INIEditor.java:119-133 | `split(";")` gives `[""]` for "". Otherwise no piece holds ';', the last piece is not empty, and joining the pieces gives the string with only trailing ';' chars missing. |
| JavaText.JoinEnds | INIEditor.java:129 | `String.join` starts with the first piece and ends with the last. |
| JavaText.JoinDelimiterCount | INIEditor.java:129 | A join of pieces without the delimiter holds exactly one delimiter fewer than there are pieces. |
| JavaText.JavaSplitOfJoin | INIEditor.java:119-129 | `split(";")` of a join of non-empty pieces without ';' gives back the pieces. |
| LineReader.ReadLines | INIEditor.java:382 | Every line `readLine` returns is free of '\n' and '\r'. A non-empty text yields at least one line. |
| LineReader.LineEnd | INIEditor.java:382 | A line runs up to the first '\n' or '\r' at or after its start, or to the end of the text. |
| LineReader.ReadLineBeforeCrLf | INIEditor.java:382 | A line ended by "\r\n" is returned once and both chars are consumed. |
| LineReader.ReadLineBeforeCr | INIEditor.java:382 | A line ended by a lone '\r' is returned once and reading goes on after it. |
| LineReader.FinalLineGainsTerminator | INIEditor.java:521-559 | A last line without a terminator is read as one line, and the save writes it back followed by "\n". |
| LineReader.ReadCrLfLines | INIEditor.java:519-530 | A text written with "\r\n" line ends reads as the same lines, and writing them back gives the text with "\n" line ends. |
| LineReader.JoinLinesShape | INIEditor.java:528-559 | The save loop writes nothing for no records, ends in '\n' otherwise, and writes one '\n' per record when no record holds one. |
| LineReader.ReadJoinedLines | INIEditor.java:519-530 | Reading back lines written one per "\n" gives the same lines, when none holds a terminator. |
| LineReader.JoinReadLines | INIEditor.java:519-530 | A text with no '\r' that ends in "\n" (or is empty) is rebuilt exactly by writing back the lines read from it. |
| IniLoad.LoadPanelAppend | INIEditor.java:382-456 | The rows of a concatenation of lines are the rows of each part in turn. |
| IniLoad.EntriesBecomeFields | INIEditor.java:427-450 | Every entry puts its (key, value) into a text field. |
| IniLoad.FieldsComeFromEntries | INIEditor.java:382-456 | Every text field holds the key and value of some entry. Comments, blanks, sections and opaque lines make none. |
| IniLoad.PanelFieldsAreEntries | INIEditor.java:408-450 | The text fields of a file are its entry lines' (key, value) pairs, one per entry line and in file order, and no other field. Every entry line's pair is among them, and every field comes from some entry. |
| IniLoad.PanelFieldsAppend | INIEditor.java:382-456 | The fields of a concatenation of lines are the fields of the first part followed by those of the second, so a field's position follows its line's position. |
| IniLoad.PanelFieldsOfLine | INIEditor.java:408-450 | A single line gives exactly one field, its (key, value), when it is an entry, and none otherwise. |
| IniSave.Updates | INIEditor.java:508-515 | A key is in the map iff some field has it. For each key, the map holds the text of the last field with that key. |
| IniSave.RewriteLine | INIEditor.java:528-560 | The saver's own tests and splits agree with the loader. An entry whose key is in the map is rebuilt as `key=newValue`, plus " ;" and the description iff one was parsed. Every other line is written exactly as read. |
| IniSave.SaverDescription | INIEditor.java:537-547 | The description the saver recomputes is the one the loader parsed from the same value part. |
| IniSave.SaveUnmatchedIsVerbatim | INIEditor.java:528-560 | When no entry's key is in the map, every line is written exactly as read. |
| IniSave.SaveWithEmptyMap | INIEditor.java:528-561 | With an empty map the output is the input lines, each followed by "\n". |
| IniSave.RewriteStaysSingleLine | INIEditor.java:549-554 | A rewritten line holds no terminator when the line and the map's values hold none. |
| IniSave.SavedRecordsReadBack | INIEditor.java:528-561 | Reading the saved text gives one record per input line, in order, each the rewrite of its line. |
| IniSave.SaveWritesOneRecordPerLine | INIEditor.java:528-561 | The saved text is empty iff the file had no line. Otherwise it ends in "\n" and holds exactly one "\n" per line, when neither the lines nor the map's values hold a terminator. |
| IniRoundTrip.RebuiltReadsBack | INIEditor.java:549-554 | Take a key that does not start with ';' or '[' and a new value without ';' (and without "//" when there is no description). The rebuilt line reads back as the same key and description, with the trimmed new value. |
| IniRoundTrip.RewriteReadsBackEdited | INIEditor.java:528-560 | Reloading a rewritten line gives the original reading with the map's edit applied, and nothing else changed. |
| IniRoundTrip.RewriteIsStable | INIEditor.java:528-560 | Rewriting a rewritten line with the same map changes nothing more. |
| IniRoundTrip.ReloadAfterSave | INIEditor.java:508-561 | Reloading the saved file gives the original line count and order. Each line reads as before, except that edited entries carry their trimmed new value. |
| IniRoundTrip.SaveTwiceIsSaveOnce | INIEditor.java:508-561 | Saving the same edits again, after re-reading the file, writes the same text. |
| IniRoundTrip.UneditedMapHoldsLoadedValues | INIEditor.java:508-515 | With distinct keys, the map built from untouched fields sends each key to the value the loader showed. It holds nothing else. |
| IniRoundTrip.UneditedSaveKeepsEntries | INIEditor.java:382-561 | Take a file with distinct keys, none starting with ';' or '['. Saving it untouched and reloading it gives the same reading of every line and the same text fields. |
| IniRoundTrip.NoEntriesGiveEmptyMap | INIEditor.java:508-561 | A file without any entry line gives no text field, so the save builds an empty map and writes every line back as read. |
| IniRoundTrip.UntouchedPlainLineIsKept | INIEditor.java:528-556 | A trimmed `key=value` line with neither delimiter, whose key the map sends to that same value, is written back unchanged, whatever else the map holds. |
| IniPitfalls.SemicolonKeyBecomesComment | INIEditor.java:549-550 | A key starting with ';' is rebuilt at the start of the line, so the reloaded line is a comment. |
| IniPitfalls.BracketKeyBecomesSection | INIEditor.java:549-550 | A key starting with '[' is rebuilt at the start of the line, so the reloaded line is a section header. |
| IniPitfalls.SemicolonInValueSplitsOnReload | INIEditor.java:549-550 | A new value `a;b` on a line without description reloads as value trim(a) and description trim(b). That is not the value typed. |
| IniPitfalls.SlashesInValueSplitOnReload | INIEditor.java:549-550 | A new value `a//b` without ';' on a line without description reloads as value trim(a) and description trim(b). |
| IniPitfalls.EarlierFieldIsOverwritten | INIEditor.java:508-515 | Of two fields with the same key, the earlier field's differing text is not what the map holds, so an edit there is lost. |
| RecentFolders.Retained | INIEditor.java:120-124 | The kept entries are exactly the stored entries that are neither blank nor the new folder, in their stored order. Each kept entry occurs as often as it was stored, so duplicates in the stored text are kept. |
| RecentFolders.AddRecent | INIEditor.java:117-128 | The list has 1 to 5 entries. The new folder comes first, and no other entry equals it or is blank. The older entries keep their stored order. If fewer than 5 entries remain, every eligible stored entry is in the list. |
| RecentFolders.AddRecentKeepsNewest | INIEditor.java:125-128 | Entries are dropped from the back only. The list is the new folder and the kept entries, cut after the fifth. |
| RecentFolders.AddRecentFolder | INIEditor.java:117-130 | The stored string written is the ';'-join of AddRecent applied to `split(";")` of the old one. |
| RecentFolders.KeepStoredFolders | INIEditor.java:120-124 | The loop collects exactly the kept entries, in order. |
| RecentFolders.DropOldest | INIEditor.java:126-128 | The loop leaves the first `min(size, 5)` entries. |
| RecentFolders.UpdateRecentFolders | INIEditor.java:235-244 | The StringBuilder loop writes the dialog's list joined with ';'. |
| RecentFolders.RemoveSelected | INIEditor.java:210-215 | With no selection (-1) the list is unchanged. Otherwise exactly the selected entry is removed, and the others keep their order. |
| RecentFolders.DialogList | INIEditor.java:133-146 | The dialog shows a list iff `split(";")` gives a piece and the first piece is not blank. The list it shows is every piece of `split(";")` in order, blank middle pieces included, and no shown entry holds ';'. |
| RecentFolders.RetainedIgnoresDroppedPieces | INIEditor.java:119-124 | The trailing empty pieces that `split(";")` drops would have been filtered out anyway. |
| RecentFolders.AddRecentWellFormed | INIEditor.java:117-130 | A well-formed list stays well-formed after adding a storable folder: at most 5 entries, none blank, none holding ';', none twice. |
| RecentFolders.StoredListReadsBack | INIEditor.java:129-146 | A non-empty well-formed list joined with ';' reads back as the same list, and the dialog shows it. |
| RecentFolders.EmptyListReadsAsNone | INIEditor.java:133-137 | An empty list is stored as "". The dialog then reports no recent folders, and the next add starts from an empty list. |
| RecentFolders.AddRecentFolderKeepsStoredText | INIEditor.java:117-146 | From a stored string that is "" or a well-formed list, opening a storable folder stores a well-formed list. The dialog then shows exactly that list. |
| RecentFolders.RemoveKeepsStoredText | INIEditor.java:210-244 | Removing an entry keeps the list well-formed, and the string then stored reads back as that list. |
| RecentFolders.AddRecentIdempotent | INIEditor.java:117-128 | Opening the same folder twice in a row gives the same list as opening it once, when the first list is handed to the second call as it is. |
| RecentFolders.AddRecentFolderIdempotent | INIEditor.java:117-130 | From a stored text that is "" or a well-formed list, opening the same folder without ';' twice stores the same text as opening it once, through the `split(";")` and `String.join` of both calls. |
| RecentFolders.SemicolonPathNotIdempotent | INIEditor.java:117-130 | A folder path `a;b` is not storable: from "" it is stored as "a;b", and opening it again reads back the two folders `a` and `b` and stores "a;b;a;b". |
| FolderScan.IniFileNameChars | INIEditor.java:280 | A name passes the filter iff its last four chars are '.', then 'i' or 'I', 'n' or 'N', 'i' or 'I'. |
| JavaText.ToLowerAscii | INIEditor.java:280 | Lower-casing keeps the length and maps each char by itself: A-Z to a-z, every other char unchanged. |
| FolderScan.IniFiles | INIEditor.java:280-285 | The files opened are exactly the listed names that pass the filter, each as many times as it is listed, and no other name. |
| FolderScan.IniFilesAppend | INIEditor.java:280-285 | The names are filtered one by one, so the files keep their listing order: the files of two listings one after the other are the files of each in turn. |

## Left out

- The Swing user interface is not modelled: frame, tabs, buttons, dialogs, renderers,
  layout and focus listeners. It is presentation with no contract. The panel is
  modelled only as the sequence of rows and text fields.
- `SwingWorker` threading and the `done()` callbacks are not modelled. Every operation is
  modelled as one sequential function.
- File and preference I/O are parameters of the model:
  - the text read from the file and the lines handed to the saver;
  - the stored recent-folders string;
  - the names `listFiles` returns.

  `FileReader`/`FileWriter` charsets, `Preferences` and the file system are not modelled.
  Neither are `isDirectory` checks or the "default folder" preference.
- The I/O error paths are not modelled:
  - An `IOException` while a file loads (INIEditor.java:370-456) leaves on the tab the rows
    added so far. The model always reads the whole text.
  - `new FileWriter(file)` (INIEditor.java:527) empties the file before any record is
    written, so a save that fails part-way leaves a partial file. The model writes the
    whole output or nothing.
  - `Preferences.put` (INIEditor.java:129, 243) throws for a value longer than
    `Preferences.MAX_VALUE_LENGTH`. The model stores joined texts of any length.
- RecentFolders.AddRecentFolderKeepsStoredText, AddRecentFolderIdempotent and the other
  stored-text lemmas require a folder path without ';'. `getAbsolutePath`
  (INIEditor.java:98, 261) does not reject one. Such a path is split apart when it is
  read back (`SemicolonPathNotIdempotent`).
- The tab-to-file bookkeeping through client properties is not modelled. The saver is
  given the file's lines and the tab's fields directly.
- FolderScan.IsIniFileName: lower-casing is ASCII only. `String.toLowerCase` with the full Unicode
  tables and the default locale is not modelled. For example, the Turkish dotted capital
  İ lower-cases differently.
- JavaText.ToLowerAscii: maps only A-Z, for the same reason; every other char is left
  unchanged, where `String.toLowerCase` would map other upper-case letters too.
- FolderScan.IniFileNameChars: the four-char test holds for the ASCII lower-casing above.
  Under a locale such as Turkish, `I` lower-cases to a dotless `ı`, so a name ending in
  ".INI" would not pass there.
- The comment text the loader computes and then discards (INIEditor.java:384) is kept in
  the `Comment` line but has no effect, as in the code.
- `IniSave.SaverDescription` models only the description the saver recomputes. The value
  it also recomputes at INIEditor.java:541 and 545 is never used afterwards.
- The value shown by the loader is proved to be trimmed. The save, however, writes the
  field's text as typed (INIEditor.java:550). The round-trip lemmas therefore compare
  against the trimmed new value.

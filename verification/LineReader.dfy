/** The two ends of a file as the editor sees them: `BufferedReader.readLine`, which
    cuts a text into lines at "\n", "\r" or "\r\n", and the save loop's output, which
    writes every record followed by "\n". */
module LineReader {

  predicate IsTerminator(c: char) {
    c == '\n' || c == '\r'
  }

  /** A string `readLine` can return: it holds no line terminator. */
  predicate IsSingleLine(s: string) {
    '\n' !in s && '\r' !in s
  }

  /** Index of the first terminator at or after `from`, or |text| when there is none. */
  function LineEnd(text: string, from: nat): (e: nat)
    requires from <= |text|
    ensures from <= e <= |text|
    ensures e < |text| ==> IsTerminator(text[e])
    ensures forall j :: from <= j < e ==> !IsTerminator(text[j])
    decreases |text| - from
  {
    if from == |text| || IsTerminator(text[from]) then from else LineEnd(text, from + 1)
  }

  /** The lines successive `readLine` calls return before reporting end of stream. */
  function ReadLines(text: string): (lines: seq<string>)
    ensures forall i :: 0 <= i < |lines| ==> IsSingleLine(lines[i])
    ensures text != [] ==> |lines| >= 1
    decreases |text|
  {
    if text == [] then []
    else
      var e := LineEnd(text, 0);
      assert IsSingleLine(text[..e]) by {
        forall c | c in text[..e]
          ensures !IsTerminator(c)
        {
          var k :| 0 <= k < e && text[k] == c;
        }
      }
      if e == |text| then [text]
      else
        var next := if text[e] == '\r' && e + 1 < |text| && text[e + 1] == '\n' then e + 2 else e + 1;
        [text[..e]] + ReadLines(text[next..])
  }

  /** What the save loop writes: each record followed by "\n". */
  function JoinLines(lines: seq<string>): string
  {
    if lines == [] then [] else lines[0] + "\n" + JoinLines(lines[1..])
  }

  /** The save loop writes nothing for no records, ends with "\n" otherwise, and writes
      exactly one "\n" per record when no record holds one itself. */
  lemma {:induction false} JoinLinesShape(lines: seq<string>)
    ensures JoinLines(lines) == [] <==> lines == []
    ensures lines != [] ==> JoinLines(lines)[|JoinLines(lines)| - 1] == '\n'
    ensures (forall i :: 0 <= i < |lines| ==> IsSingleLine(lines[i])) ==> multiset(JoinLines(lines))['\n'] == |lines|
    decreases |lines|
  {
    if lines != [] {
      var rest := JoinLines(lines[1..]);
      JoinLinesShape(lines[1..]);
      assert JoinLines(lines) == lines[0] + "\n" + rest;
      if forall i :: 0 <= i < |lines| ==> IsSingleLine(lines[i]) {
        assert IsSingleLine(lines[0]);
        assert multiset(lines[0])['\n'] == 0;
        assert forall i :: 0 <= i < |lines[1..]| ==> lines[1..][i] == lines[i + 1];
      }
    }
  }

  /** `readLine` returns exactly the records the save loop wrote, when none of them
      holds a terminator itself. */
  lemma {:induction false} ReadJoinedLines(lines: seq<string>)
    requires forall i :: 0 <= i < |lines| ==> IsSingleLine(lines[i])
    ensures ReadLines(JoinLines(lines)) == lines
    decreases |lines|
  {
    if lines != [] {
      var x := lines[0];
      var rest := JoinLines(lines[1..]);
      var text := JoinLines(lines);
      assert text == x + "\n" + rest;
      FirstTerminatorAt(x, '\n', rest);
      assert text[..|x|] == x;
      assert text[|x| + 1..] == rest;
      ReadJoinedLines(lines[1..]);
      assert [x] + lines[1..] == lines;
    }
  }

  /** The first terminator of `x + [t] + rest` is the `t` right after `x`. */
  lemma FirstTerminatorAt(x: string, t: char, rest: string)
    requires IsSingleLine(x) && IsTerminator(t)
    ensures LineEnd(x + [t] + rest, 0) == |x|
  {
    var text := x + [t] + rest;
    var e := LineEnd(text, 0);
    assert text[|x|] == t;
  }

  /** A text written with "\n" terminators only, whose last line is terminated, is
      rebuilt byte for byte from the lines `readLine` returns. */
  lemma {:induction false} JoinReadLines(text: string)
    requires '\r' !in text
    requires text == [] || text[|text| - 1] == '\n'
    ensures JoinLines(ReadLines(text)) == text
    decreases |text|
  {
    if text != [] {
      var e := FirstLineFeed(text);
      var line := text[..e];
      var rest := text[e + 1..];
      assert '\r' !in rest by {
        SuffixChars(text, e + 1);
      }
      assert rest == [] || rest[|rest| - 1] == '\n';
      calc {
        JoinLines(ReadLines(text));
      == { assert ReadLines(text) == [line] + ReadLines(rest); }
        JoinLines([line] + ReadLines(rest));
      == { assert ([line] + ReadLines(rest))[1..] == ReadLines(rest); }
        line + "\n" + JoinLines(ReadLines(rest));
      == { JoinReadLines(rest); }
        line + "\n" + rest;
      == { assert text == line + "\n" + rest; }
        text;
      }
    }
  }

  /** In a non-empty text without "\r" that ends in "\n", the first line ends at a "\n". */
  lemma FirstLineFeed(text: string) returns (e: nat)
    requires text != [] && '\r' !in text && text[|text| - 1] == '\n'
    ensures e < |text| && e == LineEnd(text, 0) && text[e] == '\n'
  {
    e := LineEnd(text, 0);
    assert IsTerminator(text[|text| - 1]);
    assert text[e] in text;
  }

  lemma SuffixChars(s: string, k: nat)
    requires k <= |s|
    ensures forall c :: c in s[k..] ==> c in s
  {
    forall c | c in s[k..]
      ensures c in s
    {
      var j :| 0 <= j < |s| - k && s[k..][j] == c;
      assert s[k + j] == c;
    }
  }

  /** A line ended by "\r\n" is one line: `readLine` consumes both chars. */
  lemma ReadLineBeforeCrLf(x: string, rest: string)
    requires IsSingleLine(x)
    ensures ReadLines(x + "\r\n" + rest) == [x] + ReadLines(rest)
  {
    var text := x + "\r\n" + rest;
    assert text == x + ['\r'] + ("\n" + rest);
    FirstTerminatorAt(x, '\r', "\n" + rest);
    assert text[..|x|] == x;
    assert text[|x| + 2..] == rest;
  }

  /** A line ended by a lone "\r", not followed by "\n", is one line too. */
  lemma ReadLineBeforeCr(x: string, rest: string)
    requires IsSingleLine(x)
    requires rest == [] || rest[0] != '\n'
    ensures ReadLines(x + "\r" + rest) == [x] + ReadLines(rest)
  {
    var text := x + "\r" + rest;
    FirstTerminatorAt(x, '\r', rest);
    assert text[..|x|] == x;
    assert text[|x| + 1..] == rest;
  }

  /** A last line without a terminator is still read as a line, and the save loop writes
      it back followed by "\n". */
  lemma FinalLineGainsTerminator(x: string)
    requires IsSingleLine(x) && x != []
    ensures ReadLines(x) == [x]
    ensures JoinLines(ReadLines(x)) == x + "\n"
  {
    assert LineEnd(x, 0) == |x|;
  }

  /** What a file with "\r\n" line ends holds: each record followed by "\r\n". */
  function JoinCrLfLines(lines: seq<string>): string
  {
    if lines == [] then [] else lines[0] + "\r\n" + JoinCrLfLines(lines[1..])
  }

  /** A file written with "\r\n" line ends reads as the same lines as one written with
      "\n", so writing those lines back with "\n" replaces every "\r\n" by "\n". */
  lemma {:induction false} ReadCrLfLines(lines: seq<string>)
    requires forall i :: 0 <= i < |lines| ==> IsSingleLine(lines[i])
    ensures ReadLines(JoinCrLfLines(lines)) == lines
    ensures JoinLines(ReadLines(JoinCrLfLines(lines))) == JoinLines(lines)
    decreases |lines|
  {
    if lines != [] {
      ReadLineBeforeCrLf(lines[0], JoinCrLfLines(lines[1..]));
      ReadCrLfLines(lines[1..]);
      assert [lines[0]] + lines[1..] == lines;
    }
  }
}

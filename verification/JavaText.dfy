/** Pure models of the java.lang.String operations the editor relies on:
    trim, isBlank, startsWith, contains, split (with limit 2 and with no limit),
    String.join, and an ASCII-only toLowerCase/endsWith. */
module JavaText {
  import opened Optional

  // ------------------------------------------------------------------ trim

  /** `String.trim` strips leading and trailing chars whose code is at most U+0020. */
  predicate IsTrimmable(c: char) {
    c <= ' '
  }

  predicate AllTrimmable(s: string) {
    forall i :: 0 <= i < |s| ==> IsTrimmable(s[i])
  }

  /** Nothing for `String.trim` to remove. */
  predicate IsTrimmed(s: string) {
    s == [] || (!IsTrimmable(s[0]) && !IsTrimmable(s[|s| - 1]))
  }

  /** The first loop of `String.trim`: from `st`, the index of the first char it keeps, or
      |s| when there is none. */
  function TrimStart(s: string, st: nat): (r: nat)
    requires st <= |s|
    ensures st <= r <= |s|
    ensures forall i :: st <= i < r ==> IsTrimmable(s[i])
    ensures r < |s| ==> !IsTrimmable(s[r])
    decreases |s| - st
  {
    if st < |s| && IsTrimmable(s[st]) then TrimStart(s, st + 1) else st
  }

  /** The second loop of `String.trim`: `len` moved back past trailing trimmable chars,
      never below `st`. */
  function TrimEnd(s: string, st: nat, len: nat): (r: nat)
    requires st <= len <= |s|
    ensures st <= r <= len
    ensures forall i :: r <= i < len ==> IsTrimmable(s[i])
    ensures r > st ==> !IsTrimmable(s[r - 1])
    decreases len
  {
    if st < len && IsTrimmable(s[len - 1]) then TrimEnd(s, st, len - 1) else len
  }

  /** `String.trim`. */
  function Trim(s: string): (r: string)
    ensures IsTrimmed(r)
    ensures |r| <= |s|
    ensures forall c :: c in r ==> c in s
  {
    var st := TrimStart(s, 0);
    var r := s[st..TrimEnd(s, st, |s|)];
    assert forall c :: c in r ==> c in s by {
      forall c | c in r
        ensures c in s
      {
        var k :| 0 <= k < |r| && r[k] == c;
        assert s[st + k] == c;
      }
    }
    r
  }

  /** `s` without its leading trimmable chars. */
  function TrimLeft(s: string): string
  {
    s[TrimStart(s, 0)..]
  }

  /** What `trim` removes: trimmable chars at the two ends and nothing else. */
  lemma TrimIsSlice(s: string)
    ensures var st := TrimStart(s, 0);
      && st + |Trim(s)| <= |s|
      && Trim(s) == s[st..st + |Trim(s)|]
      && AllTrimmable(s[..st]) && AllTrimmable(s[st + |Trim(s)|..])
  {
  }

  /** `trim` is determined by its result's shape: cutting `s` into a trimmable head, a
      trimmed middle and a trimmable tail always yields the middle. */
  lemma TrimUnique(a: string, m: string, b: string)
    requires AllTrimmable(a) && IsTrimmed(m) && AllTrimmable(b)
    ensures Trim(a + m + b) == m
  {
    var s := a + m + b;
    if m == [] {
      assert forall i :: 0 <= i < |s| ==> IsTrimmable(s[i]) by {
        forall i | 0 <= i < |s|
          ensures IsTrimmable(s[i])
        {
          if i < |a| {
            assert s[i] == a[i];
          } else {
            assert s[i] == b[i - |a|];
          }
        }
      }
      assert TrimStart(s, 0) == |s|;
    } else {
      assert forall i :: 0 <= i < |a| ==> s[i] == a[i];
      assert s[|a|] == m[0];
      assert TrimStart(s, 0) == |a|;
      assert forall i :: |a| + |m| <= i < |s| ==> s[i] == b[i - |a| - |m|];
      assert s[|a| + |m| - 1] == m[|m| - 1];
      assert TrimEnd(s, |a|, |s|) == |a| + |m|;
      assert s[|a|..|a| + |m|] == m;
    }
  }

  lemma TrimmedIsFixpoint(s: string)
    requires IsTrimmed(s)
    ensures Trim(s) == s && TrimLeft(s) == s
  {
    TrimUnique([], s, []);
    assert [] + s + [] == s;
  }

  /** A trailing space never survives `trim`. */
  lemma TrimDropsTrailingSpace(x: string)
    ensures Trim(x + " ") == Trim(x)
  {
    var st := TrimStart(x, 0);
    var m := Trim(x);
    TrimIsSlice(x);
    var a := x[..st];
    var b := x[st + |m|..];
    assert x + " " == a + m + (b + " ");
    TrimUnique(a, m, b + " ");
  }

  lemma TrimOfTrimLeft(x: string)
    ensures Trim(TrimLeft(x)) == Trim(x)
  {
    var st := TrimStart(x, 0);
    var m := Trim(x);
    TrimIsSlice(x);
    var b := x[st + |m|..];
    assert TrimLeft(x) == [] + m + b;
    TrimUnique([], m, b);
  }

  /** Trimming `value + " ;" + description` for a trimmed description leaves the
      description and the ';' in place. */
  lemma TrimAroundSemicolon(value: string, description: string)
    requires IsTrimmed(description)
    ensures Trim(value + " ;" + description) == TrimLeft(value + " ") + ";" + description
  {
    var v := value + " ";
    var st := TrimStart(v, 0);
    var head := TrimLeft(v);
    var m := head + ";" + description;
    assert IsTrimmed(m) by {
      if head != [] {
        assert m[0] == v[st];
      }
    }
    assert value + " ;" + description == v[..st] + m + [];
    TrimUnique(v[..st], m, []);
  }

  // ------------------------------------------------------------- isBlank

  /** `Character.isWhitespace`: the space, line and paragraph separators other than the
      non-breaking ones (U+00A0, U+2007, U+202F), plus U+0009..U+000D and U+001C..U+001F. */
  predicate IsJavaWhitespace(c: char) {
    || ('\t' <= c <= '\r')
    || ('\U{1C}' <= c <= '\U{1F}')
    || c == ' '
    || c == '\U{1680}'
    || ('\U{2000}' <= c <= '\U{2006}')
    || ('\U{2008}' <= c <= '\U{200A}')
    || c == '\U{2028}' || c == '\U{2029}' || c == '\U{205F}' || c == '\U{3000}'
  }

  /** `String.isBlank`: empty, or whitespace only. */
  predicate IsBlank(s: string) {
    forall i :: 0 <= i < |s| ==> IsJavaWhitespace(s[i])
  }

  lemma BlankHasOnlyWhitespace(s: string, c: char)
    requires IsBlank(s) && c in s
    ensures IsJavaWhitespace(c)
  {
    var i :| 0 <= i < |s| && s[i] == c;
  }

  /** A char below U+0080 that is a control char only if Java counts it as whitespace. */
  predicate IsPlainAscii(c: char) {
    c < '\U{80}' && (c >= ' ' || IsJavaWhitespace(c))
  }

  /** On plain ASCII text `isBlank` and `trim().isEmpty()` agree. Outside it they differ:
      U+0000 is trimmed but is not whitespace, and U+3000 is whitespace but is not trimmed. */
  lemma BlankIffTrimsToEmpty(s: string)
    requires forall i :: 0 <= i < |s| ==> IsPlainAscii(s[i])
    ensures IsBlank(s) <==> Trim(s) == []
  {
    TrimIsSlice(s);
    if IsBlank(s) {
      assert AllTrimmable(s);
      TrimUnique(s, [], []);
      assert s + [] + [] == s;
    }
  }

  lemma BlankAndTrimDiffer()
    ensures Trim("\U{0}") == [] && !IsBlank("\U{0}")
    ensures Trim("\U{3000}") == "\U{3000}" && IsBlank("\U{3000}")
  {
    TrimUnique("\U{0}", [], []);
    assert "\U{0}" + [] + [] == "\U{0}";
    TrimmedIsFixpoint("\U{3000}");
  }

  // ------------------------------------------------- startsWith / contains

  predicate StartsWith(s: string, prefix: string) {
    |prefix| <= |s| && s[..|prefix|] == prefix
  }

  predicate EndsWith(s: string, suffix: string) {
    |suffix| <= |s| && s[|s| - |suffix|..] == suffix
  }

  predicate OccursAt(s: string, sep: string, i: int) {
    0 <= i && i + |sep| <= |s| && s[i..i + |sep|] == sep
  }

  /** `String.contains`. */
  predicate Contains(s: string, sep: string) {
    exists i :: 0 <= i <= |s| && OccursAt(s, sep, i)
  }

  lemma ContainsChar(s: string, c: char)
    ensures Contains(s, [c]) <==> c in s
  {
    if c in s {
      var i :| 0 <= i < |s| && s[i] == c;
      assert OccursAt(s, [c], i);
    }
    if Contains(s, [c]) {
      var i :| 0 <= i <= |s| && OccursAt(s, [c], i);
      assert s[i] == s[i..i + 1][0];
    }
  }

  /** An occurrence inside a slice is an occurrence in the whole string. */
  lemma OccursInSlice(s: string, lo: int, hi: int, sep: string, j: int)
    requires 0 <= lo <= hi <= |s|
    requires OccursAt(s[lo..hi], sep, j)
    ensures OccursAt(s, sep, lo + j)
  {
    var sub := s[lo..hi];
    assert sub[j..j + |sep|] == sep;
    forall k | 0 <= k < |sep|
      ensures s[lo + j + k] == sep[k]
    {
      assert sub[j + k] == sep[k];
    }
    assert s[lo + j..lo + j + |sep|] == sep;
  }

  lemma ContainsInSlice(s: string, lo: int, hi: int, sep: string)
    requires 0 <= lo <= hi <= |s|
    requires Contains(s[lo..hi], sep)
    ensures Contains(s, sep)
  {
    var j :| 0 <= j <= hi - lo && OccursAt(s[lo..hi], sep, j);
    OccursInSlice(s, lo, hi, sep, j);
  }

  /** Trimming never creates an occurrence of a separator. */
  lemma ContainsAfterTrim(s: string, sep: string)
    requires Contains(Trim(s), sep)
    ensures Contains(s, sep)
  {
    var st := TrimStart(s, 0);
    TrimIsSlice(s);
    ContainsInSlice(s, st, st + |Trim(s)|, sep);
  }

  // ------------------------------------------------- indexOf and split(sep, 2)

  /** `String.indexOf(sep, from)`. */
  function IndexOfFrom(s: string, sep: string, from: nat): (r: Option<nat>)
    requires from <= |s|
    ensures r.Some? ==> from <= r.value && OccursAt(s, sep, r.value)
    ensures forall j :: from <= j && (r.None? || j < r.value) ==> !OccursAt(s, sep, j)
    decreases |s| - from
  {
    if from + |sep| > |s| then None
    else if s[from..from + |sep|] == sep then Some(from)
    else
      assert |sep| > 0;
      IndexOfFrom(s, sep, from + 1)
  }

  /** `s.split(sep, 2)` for a literal, non-empty separator: the pieces before and after the
      first occurrence, or None when the array would have a single element. */
  function SplitFirst(s: string, sep: string): (r: Option<(string, string)>)
    requires sep != []
    ensures r.None? <==> !Contains(s, sep)
    ensures r.Some? ==> s == r.value.0 + sep + r.value.1
    ensures r.Some? ==> forall j :: 0 <= j < |r.value.0| ==> !OccursAt(s, sep, j)
  {
    match IndexOfFrom(s, sep, 0)
    case None => None
    case Some(i) =>
      assert s == s[..i] + s[i..i + |sep|] + s[i + |sep|..];
      Some((s[..i], s[i + |sep|..]))
  }

  /** The split is determined by where the first occurrence is. */
  lemma SplitFirstAt(s: string, sep: string, a: string, b: string)
    requires sep != []
    requires s == a + sep + b
    requires forall j :: 0 <= j < |a| ==> !OccursAt(s, sep, j)
    ensures SplitFirst(s, sep) == Some((a, b))
  {
    assert s[|a|..|a| + |sep|] == sep;
    assert OccursAt(s, sep, |a|);
    var r := SplitFirst(s, sep);
    var a' := r.value.0;
    if |a'| < |a| {
      assert s[|a'|..|a'| + |sep|] == sep;
      assert OccursAt(s, sep, |a'|);
    } else if |a'| > |a| {
    } else {
      assert a' == s[..|a|] == a;
      assert r.value.1 == s[|a| + |sep|..] == b;
    }
  }

  /** The piece before the first occurrence of a char does not hold that char. */
  lemma SplitFirstCharPrefix(s: string, c: char)
    requires SplitFirst(s, [c]).Some?
    ensures c !in SplitFirst(s, [c]).value.0
  {
    var a := SplitFirst(s, [c]).value.0;
    forall j | 0 <= j < |a|
      ensures a[j] != c
    {
      assert !OccursAt(s, [c], j);
      assert s[j..j + 1] == [s[j]];
    }
  }

  /** `split` on a single char cuts at its first occurrence. */
  lemma SplitFirstChar(a: string, c: char, b: string)
    requires c !in a
    ensures SplitFirst(a + [c] + b, [c]) == Some((a, b))
  {
    var s := a + [c] + b;
    forall j | 0 <= j < |a|
      ensures !OccursAt(s, [c], j)
    {
      assert s[j] == a[j];
    }
    SplitFirstAt(s, [c], a, b);
  }

  // ------------------------------------------------- split(c) and String.join

  /** Every piece of `s` between occurrences of `c`, empty pieces included. */
  function SplitAll(s: string, c: char): (r: seq<string>)
    ensures |r| >= 1
    ensures forall i :: 0 <= i < |r| ==> c !in r[i]
    ensures Join(r, c) == s
    decreases |s|
  {
    if s == [] then [[]]
    else
      var rest := SplitAll(s[1..], c);
      if s[0] == c then
        assert ([[]] + rest)[1..] == rest;
        [[]] + rest
      else
        var r := [[s[0]] + rest[0]] + rest[1..];
        assert r[1..] == rest[1..];
        assert s == [s[0]] + s[1..];
        r
  }

  /** `String.join` with a one-char delimiter. */
  function Join(xs: seq<string>, c: char): string
  {
    if xs == [] then []
    else if |xs| == 1 then xs[0]
    else xs[0] + [c] + Join(xs[1..], c)
  }

  /** A join starts with its first piece and ends with its last. */
  lemma {:induction false} JoinEnds(xs: seq<string>, c: char)
    requires xs != []
    ensures StartsWith(Join(xs, c), xs[0]) && EndsWith(Join(xs, c), xs[|xs| - 1])
    decreases |xs|
  {
    if |xs| > 1 {
      var rest := Join(xs[1..], c);
      JoinEnds(xs[1..], c);
      assert xs[1..][|xs[1..]| - 1] == xs[|xs| - 1];
      var r := xs[0] + [c] + rest;
      assert Join(xs, c) == r;
      assert r[..|xs[0]|] == xs[0];
      assert r[|r| - |rest|..] == rest;
    }
  }

  /** When no piece holds the delimiter, a join holds one delimiter fewer than there are
      pieces: each delimiter in it is one `String.join` put between two pieces. */
  lemma {:induction false} JoinDelimiterCount(xs: seq<string>, c: char)
    requires xs != []
    requires forall i :: 0 <= i < |xs| ==> c !in xs[i]
    ensures multiset(Join(xs, c))[c] == |xs| - 1
    decreases |xs|
  {
    assert multiset(xs[0])[c] == 0;
    if |xs| > 1 {
      assert forall i :: 0 <= i < |xs[1..]| ==> xs[1..][i] == xs[i + 1];
      JoinDelimiterCount(xs[1..], c);
      assert Join(xs, c) == xs[0] + [c] + Join(xs[1..], c);
    }
  }

  lemma {:induction false} JoinSnoc(xs: seq<string>, x: string, c: char)
    ensures Join(xs + [x], c) == if xs == [] then x else Join(xs, c) + [c] + x
    decreases |xs|
  {
    if xs == [] {
      assert xs + [x] == [x];
    } else if |xs| == 1 {
      assert xs + [x] == [xs[0], x];
    } else {
      assert (xs + [x])[1..] == xs[1..] + [x];
      JoinSnoc(xs[1..], x, c);
    }
  }

  /** Drops the empty strings at the end, as `split` does when called without a limit. */
  function DropTrailingEmpty(xs: seq<string>): (r: seq<string>)
    ensures |r| <= |xs| && r == xs[..|r|]
    ensures forall i :: |r| <= i < |xs| ==> xs[i] == []
    ensures r == [] || r[|r| - 1] != []
  {
    if xs != [] && xs[|xs| - 1] == [] then
      var r := DropTrailingEmpty(xs[..|xs| - 1]);
      assert xs[..|xs| - 1][..|r|] == xs[..|r|];
      r
    else xs
  }

  /** `s.split(String.valueOf(c))`: an empty string yields one empty piece, otherwise
      all pieces with the trailing empty ones removed. */
  function JavaSplit(s: string, c: char): (r: seq<string>)
    ensures forall i :: 0 <= i < |r| ==> c !in r[i]
    ensures s == [] ==> r == [[]]
    ensures s != [] ==> r == [] || r[|r| - 1] != []
    ensures s != [] ==> StartsWith(s, Join(r, c)) && forall i :: |Join(r, c)| <= i < |s| ==> s[i] == c
  {
    if s == [] then [[]]
    else
      DropTrailingRejoin(SplitAll(s, c), c);
      DropTrailingEmpty(SplitAll(s, c))
  }

  /** Dropping trailing empty pieces drops only trailing delimiters from the join. */
  lemma {:induction false} DropTrailingRejoin(xs: seq<string>, c: char)
    ensures var j := Join(xs, c);
      var k := Join(DropTrailingEmpty(xs), c);
      StartsWith(j, k) && forall i :: |k| <= i < |j| ==> j[i] == c
    decreases |xs|
  {
    if xs != [] && xs[|xs| - 1] == [] {
      var init := xs[..|xs| - 1];
      DropTrailingRejoin(init, c);
      assert xs == init + [[]];
      JoinSnoc(init, [], c);
      var k := Join(DropTrailingEmpty(xs), c);
      assert DropTrailingEmpty(xs) == DropTrailingEmpty(init);
      if init != [] {
        var ji := Join(init, c);
        assert Join(xs, c) == ji + [c];
        assert (ji + [c])[..|k|] == ji[..|k|];
      }
    }
  }

  lemma {:induction false} SplitAllNoSeparator(s: string, c: char)
    requires c !in s
    ensures SplitAll(s, c) == [s]
    decreases |s|
  {
    if s != [] {
      SplitAllNoSeparator(s[1..], c);
      assert [s[0]] + s[1..] == s;
    }
  }

  lemma {:induction false} SplitAllAfterPiece(a: string, c: char, b: string)
    requires c !in a
    ensures SplitAll(a + [c] + b, c) == [a] + SplitAll(b, c)
    decreases |a|
  {
    if a == [] {
      assert (a + [c] + b)[1..] == b;
    } else {
      assert (a + [c] + b)[1..] == a[1..] + [c] + b;
      SplitAllAfterPiece(a[1..], c, b);
      assert [a[0]] + a[1..] == a;
    }
  }

  /** `split` undoes `String.join` when no piece holds the delimiter. */
  lemma {:induction false} SplitAllOfJoin(xs: seq<string>, c: char)
    requires |xs| >= 1
    requires forall i :: 0 <= i < |xs| ==> c !in xs[i]
    ensures SplitAll(Join(xs, c), c) == xs
    decreases |xs|
  {
    if |xs| == 1 {
      SplitAllNoSeparator(xs[0], c);
    } else {
      SplitAllOfJoin(xs[1..], c);
      SplitAllAfterPiece(xs[0], c, Join(xs[1..], c));
      assert [xs[0]] + xs[1..] == xs;
    }
  }

  lemma JavaSplitOfJoin(xs: seq<string>, c: char)
    requires |xs| >= 1
    requires forall i :: 0 <= i < |xs| ==> c !in xs[i] && xs[i] != []
    ensures JavaSplit(Join(xs, c), c) == xs
  {
    SplitAllOfJoin(xs, c);
    assert Join(xs, c) != [] by {
      if |xs| > 1 {
        assert Join(xs, c) == xs[0] + [c] + Join(xs[1..], c);
      }
    }
  }

  // ------------------------------------------------- toLowerCase / endsWith

  /** `Character.toLowerCase` restricted to ASCII letters. */
  function LowerAscii(c: char): char {
    if 'A' <= c <= 'Z' then (c as int - 'A' as int + 'a' as int) as char else c
  }

  function ToLowerAscii(s: string): (r: string)
    ensures |r| == |s|
    ensures forall i :: 0 <= i < |s| ==> r[i] == LowerAscii(s[i])
  {
    seq(|s|, i requires 0 <= i < |s| => LowerAscii(s[i]))
  }
}

/**
 * The handful of Ruby `String` operations the script relies on, modelled on
 * `seq<char>`: `start_with?`, `include?`, `gsub` with a literal pattern and an
 * empty replacement, `strip`, and `split("\n")`.
 */
module Text {

  /** `s.start_with?(prefix)`. */
  predicate StartsWith(s: string, prefix: string) {
    |prefix| <= |s| && s[..|prefix|] == prefix
  }

  /** `p` occurs in `s` beginning at index `i`. */
  predicate OccursAt(s: string, p: string, i: int) {
    0 <= i && i + |p| <= |s| && s[i..i + |p|] == p
  }

  /** `s.include?(p)`: scans `s` left to right for an occurrence of `p`. */
  predicate Contains(s: string, p: string)
    decreases |s|
  {
    StartsWith(s, p) || (|s| > 0 && Contains(s[1..], p))
  }

  /** Dropping the first character shifts every occurrence one place left. */
  lemma OccursShift(s: string, p: string, j: int)
    requires |s| > 0 && j >= 0
    ensures OccursAt(s[1..], p, j) <==> OccursAt(s, p, j + 1)
  {
    if 0 <= j && j + |p| <= |s| - 1 {
      assert s[1..][j..j + |p|] == s[j + 1..j + 1 + |p|];
    }
  }

  /** `include?` holds exactly when `p` occurs somewhere in `s`. */
  lemma {:induction false} ContainsIff(s: string, p: string)
    ensures Contains(s, p) <==> exists i :: OccursAt(s, p, i)
    decreases |s|
  {
    if StartsWith(s, p) {
      assert OccursAt(s, p, 0);
    } else if |s| > 0 {
      ContainsIff(s[1..], p);
      if i :| OccursAt(s, p, i) {
        assert i != 0;
        OccursShift(s, p, i - 1);
      }
      if j :| OccursAt(s[1..], p, j) {
        OccursShift(s, p, j);
      }
    }
  }

  /** A pattern longer than the text never occurs in it. */
  lemma {:induction false} ContainsFits(s: string, p: string)
    requires Contains(s, p)
    ensures |p| <= |s|
    decreases |s|
  {
    if !StartsWith(s, p) {
      ContainsFits(s[1..], p);
    }
  }

  /** A pattern whose first character does not appear in the text does not occur in it. */
  lemma {:induction false} FirstCharAbsent(s: string, p: string)
    requires |p| > 0 && p[0] !in s
    ensures !Contains(s, p)
    decreases |s|
  {
    if |s| > 0 {
      assert s[0] != p[0];
      FirstCharAbsent(s[1..], p);
    }
  }

  /** Text with the pattern written out in the middle contains it. */
  lemma ContainsMiddle(a: string, p: string, b: string)
    ensures Contains(a + p + b, p)
  {
    assert (a + p + b)[|a|..|a| + |p|] == p;
    assert OccursAt(a + p + b, p, |a|);
    ContainsIff(a + p + b, p);
  }

  /** A character that cannot open the pattern, put in front of the text, adds no occurrence. */
  lemma ContainsCons(c: char, s: string, p: string)
    requires |p| > 0 && p[0] != c
    ensures Contains([c] + s, p) <==> Contains(s, p)
  {
    assert ([c] + s)[1..] == s;
    assert ([c] + s)[0] == c;
  }

  /** A prefix holding no opening character of the pattern adds no occurrence. */
  lemma {:induction false} ContainsAfter(pre: string, s: string, p: string)
    requires |p| > 0 && p[0] !in pre
    ensures Contains(pre + s, p) <==> Contains(s, p)
    decreases |pre|
  {
    if |pre| > 0 {
      ContainsAfter(pre[1..], s, p);
      assert pre + s == [pre[0]] + (pre[1..] + s);
      ContainsCons(pre[0], pre[1..] + s, p);
    } else {
      assert pre + s == s;
    }
  }

  /**
   * `s.gsub(p, '')` for a literal `p`: the leftmost occurrence is removed and
   * the scan resumes right after it, so occurrences never overlap. An empty
   * pattern leaves `s` as it is.
   */
  function RemoveAll(s: string, p: string): (r: string)
    ensures |r| <= |s|
    decreases |s|
  {
    if |p| == 0 || |s| == 0 then s
    else if StartsWith(s, p) then RemoveAll(s[|p|..], p)
    else [s[0]] + RemoveAll(s[1..], p)
  }

  /** Where `p` does not occur, `gsub` changes nothing. */
  lemma {:induction false} RemoveAllAbsent(s: string, p: string)
    requires !Contains(s, p)
    ensures RemoveAll(s, p) == s
    decreases |s|
  {
    if |p| != 0 && |s| != 0 {
      RemoveAllAbsent(s[1..], p);
      assert [s[0]] + s[1..] == s;
    }
  }

  /**
   * `gsub` cuts out the leftmost occurrence of `p` and carries on with the
   * text after it: the text before the first match is kept verbatim.
   */
  lemma {:induction false} RemoveAllLeftmost(s: string, p: string, i: nat)
    requires |p| > 0
    requires OccursAt(s, p, i)
    requires forall j :: 0 <= j < i ==> !OccursAt(s, p, j)
    ensures RemoveAll(s, p) == s[..i] + RemoveAll(s[i + |p|..], p)
    decreases i
  {
    if i > 0 {
      RemoveAllSkip(s, p);
      NoEarlierAfterShift(s, p, i);
      OccursShift(s, p, i - 1);
      RemoveAllLeftmost(s[1..], p, i - 1);
      ConsSlices(s, i, |p|, RemoveAll(s[1..][i - 1 + |p|..], p));
    } else {
      assert StartsWith(s, p);
    }
  }

  /** Without a match at the front, `gsub` keeps the first character and carries on. */
  lemma RemoveAllSkip(s: string, p: string)
    requires |p| > 0 && |s| > 0 && !OccursAt(s, p, 0)
    ensures RemoveAll(s, p) == [s[0]] + RemoveAll(s[1..], p)
  {
    assert !StartsWith(s, p);
  }

  lemma ConsSlices(s: string, i: int, n: nat, x: string)
    requires 0 < i && i + n <= |s|
    ensures [s[0]] + (s[1..][..i - 1] + x) == s[..i] + x
    ensures s[1..][i - 1 + n..] == s[i + n..]
  {
    assert [s[0]] + s[1..][..i - 1] == s[..i];
  }

  lemma NoEarlierAfterShift(s: string, p: string, i: nat)
    requires 0 < i <= |s|
    requires forall j :: 0 <= j < i ==> !OccursAt(s, p, j)
    ensures forall j :: 0 <= j < i - 1 ==> !OccursAt(s[1..], p, j)
  {
    forall j | 0 <= j < i - 1
      ensures !OccursAt(s[1..], p, j)
    {
      OccursShift(s, p, j);
    }
  }

  /** Each removed occurrence shortens the text by the pattern's length. */
  lemma {:induction false} RemoveAllShrinks(s: string, p: string)
    requires |p| > 0 && Contains(s, p)
    ensures |RemoveAll(s, p)| <= |s| - |p|
    decreases |s|
  {
    if !StartsWith(s, p) {
      RemoveAllShrinks(s[1..], p);
    }
  }

  /**
   * The characters Ruby's `strip` removes from either end: NUL, horizontal
   * tab, line feed, vertical tab, form feed, carriage return and space.
   */
  predicate IsSpace(c: char) {
    c == '\0' || c == '\t' || c == '\n' || c == '\U{B}' || c == '\U{C}' || c == '\r' || c == ' '
  }

  predicate AllSpace(s: string) {
    forall k :: 0 <= k < |s| ==> IsSpace(s[k])
  }

  /** Neither end of `s` is whitespace. */
  predicate IsStripped(s: string) {
    |s| == 0 || (!IsSpace(s[0]) && !IsSpace(s[|s| - 1]))
  }

  /** `lstrip`: the suffix left after dropping leading whitespace. */
  function StripLeft(s: string): (r: string)
    ensures |r| <= |s| && r == s[|s| - |r|..]
    ensures |r| == 0 || !IsSpace(r[0])
    decreases |s|
  {
    if |s| > 0 && IsSpace(s[0]) then
      var r := StripLeft(s[1..]);
      assert s[1..][|s| - 1 - |r|..] == s[|s| - |r|..];
      r
    else s
  }

  /** What `lstrip` drops is whitespace. */
  lemma {:induction false} StripLeftDropsOnlySpace(s: string)
    ensures AllSpace(s[..|s| - |StripLeft(s)|])
    decreases |s|
  {
    if |s| > 0 && IsSpace(s[0]) {
      StripLeftDropsOnlySpace(s[1..]);
      SpaceBefore(s, StripLeft(s[1..]));
    }
  }

  /** `rstrip`: the prefix left after dropping trailing whitespace. */
  function StripRight(s: string): (r: string)
    ensures |r| <= |s| && r == s[..|r|]
    ensures |r| == 0 || !IsSpace(r[|r| - 1])
    decreases |s|
  {
    if |s| > 0 && IsSpace(s[|s| - 1]) then
      var r := StripRight(s[..|s| - 1]);
      assert s[..|s| - 1][..|r|] == s[..|r|];
      r
    else s
  }

  /** What `rstrip` drops is whitespace. */
  lemma {:induction false} StripRightDropsOnlySpace(s: string)
    ensures AllSpace(s[|StripRight(s)|..])
    decreases |s|
  {
    if |s| > 0 && IsSpace(s[|s| - 1]) {
      StripRightDropsOnlySpace(s[..|s| - 1]);
      SpaceBehind(s, StripRight(s[..|s| - 1]));
    }
  }

  /** One more leading whitespace character in front of what `StripLeft` dropped. */
  lemma SpaceBefore(s: string, r: string)
    requires |s| > 0 && IsSpace(s[0])
    requires |r| <= |s| - 1
    requires AllSpace(s[1..][..|s| - 1 - |r|])
    ensures AllSpace(s[..|s| - |r|])
  {
    var d := s[..|s| - |r|];
    assert d == [s[0]] + s[1..][..|s| - 1 - |r|];
    assert forall k :: 1 <= k < |d| ==> d[k] == s[1..][..|s| - 1 - |r|][k - 1];
  }

  /** One more trailing whitespace character behind what `StripRight` dropped. */
  lemma SpaceBehind(s: string, r: string)
    requires |s| > 0 && IsSpace(s[|s| - 1])
    requires |r| <= |s| - 1
    requires AllSpace(s[..|s| - 1][|r|..])
    ensures AllSpace(s[|r|..])
  {
    var d := s[|r|..];
    assert d == s[..|s| - 1][|r|..] + [s[|s| - 1]];
    assert forall k :: 0 <= k < |d| - 1 ==> d[k] == s[..|s| - 1][|r|..][k];
  }

  /** `r` is the piece of `s` at `i` with nothing but whitespace around it. */
  predicate TrimmedAt(s: string, r: string, i: int) {
    0 <= i <= |s| - |r| && r == s[i..i + |r|] && AllSpace(s[..i]) && AllSpace(s[i + |r|..])
  }

  /**
   * `strip`: `s` with its leading and trailing whitespace removed; what is
   * left is a contiguous piece of `s` with whitespace only around it.
   */
  function Strip(s: string): (r: string)
    ensures IsStripped(r)
    ensures |r| <= |s|
  {
    var t := StripLeft(s);
    var r := StripRight(t);
    StripEnds(t, r);
    r
  }

  lemma StripEnds(t: string, r: string)
    requires |t| == 0 || !IsSpace(t[0])
    requires |r| <= |t| && r == t[..|r|]
    requires |r| == 0 || !IsSpace(r[|r| - 1])
    ensures IsStripped(r)
  {
    if |r| > 0 {
      assert r[0] == t[0];
    }
  }

  /** `strip` returns a contiguous piece of the text with nothing but whitespace cut from either side. */
  lemma StripTrimmed(s: string)
    ensures exists i :: TrimmedAt(s, Strip(s), i)
  {
    var t := StripLeft(s);
    StripLeftDropsOnlySpace(s);
    StripRightDropsOnlySpace(t);
    StripPieces(s, t, StripRight(t));
    assert TrimmedAt(s, Strip(s), |s| - |t|);
  }

  /** What the two one-sided strips promise, put together. */
  lemma StripPieces(s: string, t: string, r: string)
    requires |t| <= |s| && t == s[|s| - |t|..] && AllSpace(s[..|s| - |t|])
    requires |t| == 0 || !IsSpace(t[0])
    requires |r| <= |t| && r == t[..|r|] && AllSpace(t[|r|..])
    requires |r| == 0 || !IsSpace(r[|r| - 1])
    ensures IsStripped(r)
    ensures TrimmedAt(s, r, |s| - |t|)
  {
    if |r| > 0 {
      assert r[0] == t[0];
    }
    assert r == s[|s| - |t|..|s| - |t| + |r|];
    assert s[|s| - |t| + |r|..] == t[|r|..];
  }

  /** Whitespace wrapped around already-stripped text is exactly what `strip` removes. */
  lemma StripSurrounded(a: string, m: string, b: string)
    requires AllSpace(a) && AllSpace(b) && IsStripped(m)
    ensures Strip(a + m + b) == m
  {
    if |m| == 0 {
      AllSpaceAround(a, m, b);
      AllSpaceStripsToEmpty(a + m + b);
    } else {
      StripSurroundedText(a, m, b, a + m + b);
    }
  }

  lemma StripSurroundedText(a: string, m: string, b: string, t: string)
    requires AllSpace(a) && AllSpace(b) && IsStripped(m) && |m| > 0
    requires t == a + m + b
    ensures Strip(t) == m
  {
    assert t == a + (m + b);
    StripLeftDropsSpace(a, m + b);
    StripRightDropsSpace(m, b);
  }

  lemma AllSpaceAround(a: string, m: string, b: string)
    requires AllSpace(a) && AllSpace(b) && |m| == 0
    ensures AllSpace(a + m + b)
  {
    var s := a + m + b;
    assert forall k :: |a| <= k < |s| ==> s[k] == b[k - |a|];
  }

  lemma StripOfStripped(m: string)
    requires IsStripped(m)
    ensures Strip(m) == m
  {
    if |m| > 0 {
      assert StripLeft(m) == m;
      assert StripRight(m) == m;
    }
  }

  /** `strip` leaves already-stripped text alone, so stripping twice is stripping once. */
  lemma StripIdempotent(s: string)
    ensures Strip(Strip(s)) == Strip(s)
  {
    StripOfStripped(Strip(s));
  }

  lemma {:induction false} AllSpaceStripsToEmpty(s: string)
    requires AllSpace(s)
    ensures StripLeft(s) == []
    ensures Strip(s) == []
    decreases |s|
  {
    if |s| > 0 {
      AllSpaceStripsToEmpty(s[1..]);
    }
  }

  lemma {:induction false} StripLeftDropsSpace(a: string, t: string)
    requires AllSpace(a)
    requires |t| > 0 && !IsSpace(t[0])
    ensures StripLeft(a + t) == t
    decreases |a|
  {
    if |a| > 0 {
      assert (a + t)[1..] == a[1..] + t;
      StripLeftDropsSpace(a[1..], t);
    } else {
      assert a + t == t;
    }
  }

  lemma {:induction false} StripRightDropsSpace(t: string, b: string)
    requires AllSpace(b)
    requires |t| > 0 && !IsSpace(t[|t| - 1])
    ensures StripRight(t + b) == t
    decreases |b|
  {
    if |b| > 0 {
      assert (t + b)[..|t + b| - 1] == t + b[..|b| - 1];
      StripRightDropsSpace(t, b[..|b| - 1]);
    } else {
      assert t + b == t;
    }
  }

  /**
   * The raw pieces of `s` between line feeds, empty pieces included: one more
   * piece than there are line feeds.
   */
  function Fields(s: string): (r: seq<string>)
    ensures |r| >= 1
    decreases |s|
  {
    if |s| == 0 then [[]]
    else
      var rest := Fields(s[1..]);
      if s[0] == '\n' then [[]] + rest
      else [[s[0]] + rest[0]] + rest[1..]
  }

  /** No piece holds a line feed. */
  lemma {:induction false} FieldsNoLineFeed(s: string)
    ensures forall k :: 0 <= k < |Fields(s)| ==> '\n' !in Fields(s)[k]
    decreases |s|
  {
    if |s| > 0 {
      FieldsNoLineFeed(s[1..]);
      var rest := Fields(s[1..]);
      if s[0] != '\n' {
        var f := [[s[0]] + rest[0]] + rest[1..];
        assert forall k :: 1 <= k < |f| ==> f[k] == rest[k];
      }
    }
  }

  /** The lines `fields` joined back together with a line feed between neighbours. */
  function JoinLines(fields: seq<string>): string
    decreases |fields|
  {
    if |fields| == 0 then []
    else if |fields| == 1 then fields[0]
    else fields[0] + "\n" + JoinLines(fields[1..])
  }

  /** Cutting at line feeds and joining again gives back the original text. */
  lemma {:induction false} JoinFields(s: string)
    ensures JoinLines(Fields(s)) == s
    decreases |s|
  {
    if |s| > 0 {
      var rest := Fields(s[1..]);
      JoinFields(s[1..]);
      if s[0] == '\n' {
        JoinEmptyFront(rest);
      } else {
        JoinGlue(s[0], rest, [[s[0]] + rest[0]] + rest[1..]);
      }
      assert [s[0]] + s[1..] == s;
    }
  }

  lemma JoinEmptyFront(rest: seq<string>)
    requires |rest| >= 1
    ensures JoinLines([[]] + rest) == "\n" + JoinLines(rest)
  {
    assert ([[]] + rest)[1..] == rest;
  }

  /** A character glued onto the first line comes first in the joined text. */
  lemma JoinGlue(c: char, rest: seq<string>, f: seq<string>)
    requires |rest| >= 1 && f == [[c] + rest[0]] + rest[1..]
    ensures JoinLines(f) == [c] + JoinLines(rest)
  {
    assert |f| == |rest| && f[0] == [c] + rest[0];
    if |rest| > 1 {
      assert f[1..] == rest[1..];
      var j := JoinLines(rest[1..]);
      assert JoinLines(f) == ([c] + rest[0]) + "\n" + j;
      assert JoinLines(rest) == rest[0] + "\n" + j;
    }
  }

  /** Text without a line feed glues onto the first piece of whatever follows it. */
  lemma {:induction false} FieldsOfPrefix(f: string, u: string)
    requires '\n' !in f
    ensures Fields(f + u) == [f + Fields(u)[0]] + Fields(u)[1..]
    decreases |f|
  {
    if |f| == 0 {
      assert f + u == u;
      assert f + Fields(u)[0] == Fields(u)[0];
      assert Fields(u) == [Fields(u)[0]] + Fields(u)[1..];
    } else {
      assert (f + u)[1..] == f[1..] + u;
      FieldsOfPrefix(f[1..], u);
      assert [f[0]] + (f[1..] + Fields(u)[0]) == f + Fields(u)[0];
    }
  }

  /** Joining newline-free lines and cutting again gives back the same lines. */
  lemma {:induction false} FieldsJoin(fields: seq<string>)
    requires |fields| >= 1
    requires forall k :: 0 <= k < |fields| ==> '\n' !in fields[k]
    ensures Fields(JoinLines(fields)) == fields
    decreases |fields|
  {
    var f := fields[0];
    if |fields| == 1 {
      FieldsOfPrefix(f, []);
      assert f + [] == f;
    } else {
      var u := JoinLines(fields[1..]);
      FieldsJoin(fields[1..]);
      assert Fields("\n" + u) == [[]] + Fields(u);
      FieldsOfPrefix(f, "\n" + u);
      assert f + "\n" + u == f + ("\n" + u);
      assert f + [] == f;
    }
  }

  /** `fields` without its trailing run of empty strings. */
  function DropTrailingEmpty(fields: seq<string>): (r: seq<string>)
    ensures |r| <= |fields|
    decreases |fields|
  {
    if |fields| > 0 && fields[|fields| - 1] == [] then DropTrailingEmpty(fields[..|fields| - 1])
    else fields
  }

  /** Only a trailing run of empty strings goes, and what is left does not end in one. */
  lemma {:induction false} DropTrailingEmptyShape(fields: seq<string>)
    ensures var r := DropTrailingEmpty(fields);
            && r == fields[..|r|]
            && (forall k :: |r| <= k < |fields| ==> fields[k] == [])
            && (|r| == 0 || r[|r| - 1] != [])
    decreases |fields|
  {
    if |fields| > 0 && fields[|fields| - 1] == [] {
      var init := fields[..|fields| - 1];
      DropTrailingEmptyShape(init);
      var r := DropTrailingEmpty(init);
      assert init[..|r|] == fields[..|r|];
      assert forall k :: |r| <= k < |init| ==> init[k] == fields[k];
    }
  }

  /**
   * Ruby's `s.split("\n")`: the pieces between line feeds with trailing empty
   * pieces dropped, so `""` and `"\n\n"` both split into no lines at all.
   */
  function Split(s: string): seq<string> {
    DropTrailingEmpty(Fields(s))
  }

  /** `split("\n")` gives a prefix of the raw pieces, none holding a line feed and the last not empty. */
  lemma SplitShape(s: string)
    ensures var lines := Split(s);
            && (forall k :: 0 <= k < |lines| ==> '\n' !in lines[k])
            && (|lines| == 0 || lines[|lines| - 1] != [])
            && |lines| <= |Fields(s)| && lines == Fields(s)[..|lines|]
            && (|s| == 0 ==> |lines| == 0)
  {
    var f := Fields(s);
    var lines := DropTrailingEmpty(f);
    FieldsNoLineFeed(s);
    DropTrailingEmptyShape(f);
    assert forall k :: 0 <= k < |lines| ==> lines[k] == f[k];
  }

  /** `n` line feeds. */
  function Newlines(n: nat): string {
    seq(n, _ => '\n')
  }

  /** Splitting what was joined gives back the lines, provided none holds a line feed and the last is not empty. */
  lemma SplitJoin(lines: seq<string>)
    requires forall k :: 0 <= k < |lines| ==> '\n' !in lines[k]
    requires |lines| == 0 || lines[|lines| - 1] != []
    ensures Split(JoinLines(lines)) == lines
  {
    if |lines| == 0 {
      assert Fields([]) == [[]];
    } else {
      FieldsJoin(lines);
    }
  }

  /** The last line is joined on behind a line feed. */
  lemma {:induction false} JoinInitLast(fields: seq<string>)
    requires |fields| >= 2
    ensures JoinLines(fields) == JoinLines(fields[..|fields| - 1]) + "\n" + fields[|fields| - 1]
    decreases |fields|
  {
    var init := fields[..|fields| - 1];
    if |fields| == 2 {
      assert fields[1..] == [fields[1]];
      assert init == [fields[0]];
    } else {
      JoinInitLast(fields[1..]);
      assert fields[1..][..|fields| - 2] == init[1..];
      assert init[0] == fields[0];
    }
  }

  /** Joined lines are the joined lines without their trailing empty ones, plus one line feed per dropped line. */
  lemma {:induction false} JoinDropTrailingEmpty(fields: seq<string>)
    ensures var j, d := JoinLines(fields), JoinLines(DropTrailingEmpty(fields));
            |d| <= |j| && j == d + Newlines(|j| - |d|)
    decreases |fields|
  {
    if |fields| > 0 && fields[|fields| - 1] == [] {
      var init := fields[..|fields| - 1];
      JoinDropTrailingEmpty(init);
      var d := JoinLines(DropTrailingEmpty(init));
      assert DropTrailingEmpty(fields) == DropTrailingEmpty(init);
      if |init| >= 1 {
        JoinInitLast(fields);
        NewlinesSnoc(JoinLines(init), d, JoinLines(fields));
      } else {
        assert JoinLines(fields) == [];
        assert d == [];
      }
    } else {
      assert JoinLines(fields) == JoinLines(fields) + Newlines(0);
    }
  }

  lemma NewlinesSnoc(j: string, d: string, j': string)
    requires |d| <= |j| && j == d + Newlines(|j| - |d|)
    requires j' == j + "\n" + []
    ensures |d| <= |j'| && j' == d + Newlines(|j'| - |d|)
  {
    var a := |j| - |d|;
    assert Newlines(a + 1) == Newlines(a) + "\n";
    assert j' == d + (Newlines(a) + "\n");
  }

  /** `split("\n")` loses nothing but the line feeds at the very end of the text. */
  lemma SplitLosesOnlyTrailingNewlines(s: string)
    ensures var j := JoinLines(Split(s));
            |j| <= |s| && s == j + Newlines(|s| - |j|)
  {
    JoinFields(s);
    JoinDropTrailingEmpty(Fields(s));
  }
}

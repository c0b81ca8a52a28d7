/**
 * The few JavaScript string and array built-ins the loader relies on,
 * modelled on Dafny strings (sequences of Unicode scalar values):
 *   - `s.split(/\r?\n/)`      as SplitLines
 *   - `s.split(c)`            as SplitOn, for a one-character separator
 *   - `parts.join(sep)`       as Join
 *   - `s.trim()`              as Trim, over the ECMAScript white-space set
 * Each comes with the properties that pin it down: the round trips of
 * splitting and joining, and the characterisation of trimming.
 */
module JsString {

  /** The characters `String.prototype.trim` removes: the ECMAScript
      WhiteSpace (TAB, VT, FF, ZWNBSP and every Unicode space separator)
      and LineTerminator (LF, CR, LS, PS) code points. */
  predicate IsSpace(c: char) {
    || c == '\t' || c == '\n' || c == '\U{000B}' || c == '\U{000C}' || c == '\r'
    || c == ' ' || c == '\U{00A0}' || c == '\U{1680}'
    || ('\U{2000}' <= c <= '\U{200A}')
    || c == '\U{2028}' || c == '\U{2029}' || c == '\U{202F}' || c == '\U{205F}'
    || c == '\U{3000}' || c == '\U{FEFF}'
  }

  predicate AllSpace(s: string) {
    forall i :: 0 <= i < |s| ==> IsSpace(s[i])
  }

  // ---------------------------------------------------------------------
  // Array.prototype.join

  /** `parts.join(sep)`: the parts with `sep` between neighbours; `[]` gives "". */
  function Join(parts: seq<string>, sep: string): (r: string)
    ensures |parts| >= 1 ==> parts[0] <= r
  {
    if |parts| == 0 then ""
    else if |parts| == 1 then parts[0]
    else parts[0] + sep + Join(parts[1..], sep)
  }

  lemma JoinCons(x: string, parts: seq<string>, sep: string)
    requires |parts| >= 1
    ensures Join([x + parts[0]] + parts[1..], sep) == x + Join(parts, sep)
  {
    var ps := [x + parts[0]] + parts[1..];
    assert ps[1..] == parts[1..];
  }

  // ---------------------------------------------------------------------
  // String.prototype.split with a one-character separator

  /** `s.split(c)`: the maximal pieces of `s` free of `c`, in order.
      Like JavaScript, the empty string splits into one empty piece. */
  function SplitOn(s: string, c: char): (r: seq<string>)
    ensures |r| >= 1
    ensures forall i :: 0 <= i < |r| ==> c !in r[i]
  {
    if s == [] then [""]
    else if s[0] == c then [""] + SplitOn(s[1..], c)
    else
      var rest := SplitOn(s[1..], c);
      [[s[0]] + rest[0]] + rest[1..]
  }

  /** A prefix free of the separator is glued onto the first piece. */
  lemma {:induction false} SplitOnCons(x: string, t: string, c: char)
    requires c !in x
    ensures SplitOn(x + t, c) == [x + SplitOn(t, c)[0]] + SplitOn(t, c)[1..]
  {
    if x == [] {
      assert x + t == t;
      assert x + SplitOn(t, c)[0] == SplitOn(t, c)[0];
      assert [SplitOn(t, c)[0]] + SplitOn(t, c)[1..] == SplitOn(t, c);
    } else {
      var s := x + t;
      assert s[0] == x[0] && s[1..] == x[1..] + t;
      SplitOnCons(x[1..], t, c);
      assert [x[0]] + (x[1..] + SplitOn(t, c)[0]) == x + SplitOn(t, c)[0];
    }
  }

  /** Joining the pieces with the separator gives back the string. */
  lemma {:induction false} JoinSplitOn(s: string, c: char)
    ensures Join(SplitOn(s, c), [c]) == s
  {
    if s == [] {
    } else if s[0] == c {
      JoinSplitOn(s[1..], c);
      assert s == [c] + s[1..];
    } else {
      JoinSplitOn(s[1..], c);
      JoinCons([s[0]], SplitOn(s[1..], c), [c]);
      assert s == [s[0]] + s[1..];
    }
  }

  /** Splitting a join of separator-free pieces gives back the pieces. */
  lemma {:induction false} SplitOnJoin(parts: seq<string>, c: char)
    requires |parts| >= 1
    requires forall i :: 0 <= i < |parts| ==> c !in parts[i]
    ensures SplitOn(Join(parts, [c]), c) == parts
  {
    if |parts| == 1 {
      SplitOnCons(parts[0], "", c);
      assert parts[0] + "" == parts[0];
    } else {
      var tail := Join(parts[1..], [c]);
      var t := [c] + tail;
      assert Join(parts, [c]) == parts[0] + t;
      SplitOnCons(parts[0], t, c);
      assert t[0] == c && t[1..] == tail;
      SplitOnJoin(parts[1..], c);
      assert SplitOn(t, c) == [""] + parts[1..];
      assert SplitOn(t, c)[0] == "" && SplitOn(t, c)[1..] == parts[1..];
      assert parts[0] + "" == parts[0];
      assert parts == [parts[0]] + parts[1..];
    }
  }

  /** The first piece is the text before the first separator, and the
      remaining pieces joined back are the text after it. */
  lemma SplitOnFirst(s: string, c: char, p: nat)
    requires p < |s| && s[p] == c && c !in s[..p]
    ensures SplitOn(s, c)[0] == s[..p]
    ensures Join(SplitOn(s, c)[1..], [c]) == s[p + 1..]
  {
    assert s == s[..p] + s[p..];
    SplitOnCons(s[..p], s[p..], c);
    var t := s[p..];
    assert t[0] == c && t[1..] == s[p + 1..];
    assert SplitOn(t, c) == [""] + SplitOn(s[p + 1..], c);
    JoinSplitOn(s[p + 1..], c);
  }

  /** A string without the separator is a single piece. */
  lemma SplitOnNone(s: string, c: char)
    requires c !in s
    ensures SplitOn(s, c) == [s]
  {
    SplitOnCons(s, "", c);
    assert s + "" == s;
  }

  // ---------------------------------------------------------------------
  // String.prototype.split(/\r?\n/)

  /** `s.split(/\r?\n/)`: the text cut at every "\n" and every "\r\n",
      scanning from the left; a "\r" not followed by "\n" stays in its line.
      The empty string gives one empty line, and a trailing line break
      gives a trailing empty line. */
  function SplitLines(s: string): (r: seq<string>)
    ensures |r| >= 1
    ensures forall i :: 0 <= i < |r| ==> '\n' !in r[i]
    decreases |s|
  {
    if s == [] then [""]
    else if s[0] == '\n' then [""] + SplitLines(s[1..])
    else if s[0] == '\r' && |s| >= 2 && s[1] == '\n' then [""] + SplitLines(s[2..])
    else
      var rest := SplitLines(s[1..]);
      [[s[0]] + rest[0]] + rest[1..]
  }

  /** `t` begins at a line break when written right after `x`. */
  predicate BreakAfter(x: string, t: string) {
    || t == []
    || (|t| >= 2 && t[0] == '\r' && t[1] == '\n')
    || (t[0] == '\n' && (x == [] || x[|x| - 1] != '\r'))
  }

  /** A text free of "\n" followed by a line break is glued onto the first line. */
  lemma {:induction false} SplitLinesCons(x: string, t: string)
    requires '\n' !in x
    requires BreakAfter(x, t)
    ensures SplitLines(x + t) == [x + SplitLines(t)[0]] + SplitLines(t)[1..]
  {
    if x == [] {
      assert x + t == t;
    } else {
      var s := x + t;
      assert s[0] == x[0] && s[1..] == x[1..] + t;
      assert BreakAfter(x[1..], t);
      SplitLinesCons(x[1..], t);
      assert [x[0]] + (x[1..] + SplitLines(t)[0]) == x + SplitLines(t)[0];
    }
  }

  /** Joining the lines of a text without carriage returns by "\n" gives it back. */
  lemma {:induction false} JoinSplitLines(s: string)
    requires '\r' !in s
    ensures Join(SplitLines(s), "\n") == s
  {
    if s == [] {
    } else if s[0] == '\n' {
      JoinSplitLines(s[1..]);
      assert s == "\n" + s[1..];
    } else {
      JoinSplitLines(s[1..]);
      JoinCons([s[0]], SplitLines(s[1..]), "\n");
      assert s == [s[0]] + s[1..];
    }
  }

  /** Splitting lines joined by "\r\n", or by "\n" when no line but the last
      ends in "\r", gives back the lines. */
  lemma {:induction false} SplitLinesJoin(lines: seq<string>, sep: string)
    requires sep == "\n" || sep == "\r\n"
    requires |lines| >= 1
    requires forall i :: 0 <= i < |lines| ==> '\n' !in lines[i]
    requires sep == "\n" ==>
      forall i :: 0 <= i < |lines| - 1 ==> lines[i] == [] || lines[i][|lines[i]| - 1] != '\r'
    ensures SplitLines(Join(lines, sep)) == lines
  {
    if |lines| == 1 {
      SplitLinesCons(lines[0], "");
      assert lines[0] + "" == lines[0];
    } else {
      var tail := Join(lines[1..], sep);
      var t := sep + tail;
      assert Join(lines, sep) == lines[0] + t;
      SplitLinesCons(lines[0], t);
      assert t[|sep|..] == tail;
      SplitLinesJoin(lines[1..], sep);
      assert SplitLines(t) == [""] + lines[1..];
      assert SplitLines(t)[0] == "" && SplitLines(t)[1..] == lines[1..];
      assert lines[0] + "" == lines[0];
      assert lines == [lines[0]] + lines[1..];
    }
  }

  /** A line break `split(/\r?\n/)` cuts at. */
  predicate IsBreak(sep: string) {
    sep == "\n" || sep == "\r\n"
  }

  /** The lines with their own separator in each gap: `seps[i]` sits
      between `lines[i]` and `lines[i + 1]`. */
  function JoinWith(lines: seq<string>, seps: seq<string>): string
    requires |lines| >= 1 && |seps| == |lines| - 1
  {
    if |lines| == 1 then lines[0]
    else lines[0] + seps[0] + JoinWith(lines[1..], seps[1..])
  }

  lemma JoinWithCons(x: string, lines: seq<string>, seps: seq<string>)
    requires |lines| >= 1 && |seps| == |lines| - 1
    ensures JoinWith([x + lines[0]] + lines[1..], seps) == x + JoinWith(lines, seps)
  {
    var ls := [x + lines[0]] + lines[1..];
    assert ls[1..] == lines[1..];
  }

  /** The line breaks of a text, in order: the n - 1 separators between
      its n lines. */
  function LineBreaks(s: string): (r: seq<string>)
    ensures |r| == |SplitLines(s)| - 1
    ensures forall i :: 0 <= i < |r| ==> IsBreak(r[i])
    decreases |s|
  {
    if s == [] then []
    else if s[0] == '\n' then ["\n"] + LineBreaks(s[1..])
    else if s[0] == '\r' && |s| >= 2 && s[1] == '\n' then ["\r\n"] + LineBreaks(s[2..])
    else LineBreaks(s[1..])
  }

  /** Every text, with any mixture of line endings, is its lines joined
      back with its own line breaks. */
  lemma {:induction false} JoinWithSplitLines(s: string)
    ensures JoinWith(SplitLines(s), LineBreaks(s)) == s
    decreases |s|
  {
    if s == [] {
    } else if s[0] == '\n' {
      JoinWithSplitLines(s[1..]);
      var ls := SplitLines(s);
      assert ls[1..] == SplitLines(s[1..]);
      assert s == "\n" + s[1..];
    } else if s[0] == '\r' && |s| >= 2 && s[1] == '\n' {
      JoinWithSplitLines(s[2..]);
      var ls := SplitLines(s);
      assert ls[1..] == SplitLines(s[2..]);
      assert s == "\r\n" + s[2..];
    } else {
      JoinWithSplitLines(s[1..]);
      JoinWithCons([s[0]], SplitLines(s[1..]), LineBreaks(s[1..]));
      assert s == [s[0]] + s[1..];
    }
  }

  /** Splitting lines joined by any mixture of "\n" and "\r\n" gives back
      the lines, provided no "\n" gap follows a line ending in "\r" (that
      "\r" would join the break). */
  lemma {:induction false} SplitLinesJoinWith(lines: seq<string>, seps: seq<string>)
    requires |lines| >= 1 && |seps| == |lines| - 1
    requires forall i :: 0 <= i < |seps| ==> IsBreak(seps[i])
    requires forall i :: 0 <= i < |lines| ==> '\n' !in lines[i]
    requires forall i :: 0 <= i < |seps| && seps[i] == "\n" ==>
      lines[i] == [] || lines[i][|lines[i]| - 1] != '\r'
    ensures SplitLines(JoinWith(lines, seps)) == lines
  {
    if |lines| == 1 {
      SplitLinesCons(lines[0], "");
      assert lines[0] + "" == lines[0];
    } else {
      var sep := seps[0];
      var tail := JoinWith(lines[1..], seps[1..]);
      var t := sep + tail;
      assert JoinWith(lines, seps) == lines[0] + t;
      SplitLinesCons(lines[0], t);
      assert t[|sep|..] == tail;
      SplitLinesJoinWith(lines[1..], seps[1..]);
      assert SplitLines(t) == [""] + lines[1..];
      assert SplitLines(t)[0] == "" && SplitLines(t)[1..] == lines[1..];
      assert lines[0] + "" == lines[0];
      assert lines == [lines[0]] + lines[1..];
    }
  }

  /** A text without "\n" is a single line: a lone "\r" does not break it. */
  lemma SplitLinesNone(s: string)
    requires '\n' !in s
    ensures SplitLines(s) == [s]
  {
    SplitLinesCons(s, "");
    assert s + "" == s;
  }

  // ---------------------------------------------------------------------
  // String.prototype.trim

  /** Leading white space removed. */
  function TrimStart(s: string): (r: string)
    ensures |r| <= |s| && r == s[|s| - |r|..]
    ensures AllSpace(s[..|s| - |r|])
    ensures r == [] || !IsSpace(r[0])
  {
    if s != [] && IsSpace(s[0]) then TrimStart(s[1..]) else s
  }

  /** Trailing white space removed. */
  function TrimEnd(s: string): (r: string)
    ensures |r| <= |s| && r == s[..|r|]
    ensures AllSpace(s[|r|..])
    ensures r == [] || !IsSpace(r[|r| - 1])
  {
    if s != [] && IsSpace(s[|s| - 1]) then TrimEnd(s[..|s| - 1]) else s
  }

  /** `s.trim()`: white space removed from both ends. */
  function Trim(s: string): (r: string)
    ensures |r| <= |s|
    ensures r == [] <==> AllSpace(s)
    ensures r != [] ==> !IsSpace(r[0]) && !IsSpace(r[|r| - 1])
  {
    var t := TrimStart(s);
    var u := TrimEnd(t);
    assert u == [] ==> AllSpace(s) by {
      if u == [] {
        assert t == [];
        assert s[..|s|] == s;
      }
    }
    u
  }

  lemma {:induction false} TrimStartUnique(s: string, i: nat)
    requires i <= |s| && AllSpace(s[..i])
    requires i == |s| || !IsSpace(s[i])
    ensures TrimStart(s) == s[i..]
  {
    if i > 0 {
      assert IsSpace(s[..i][0]);
      assert s[1..][..i - 1] == s[..i][1..];
      TrimStartUnique(s[1..], i - 1);
      assert s[1..][i - 1..] == s[i..];
    }
  }

  lemma {:induction false} TrimEndUnique(s: string, j: nat)
    requires j <= |s| && AllSpace(s[j..])
    requires j == 0 || !IsSpace(s[j - 1])
    ensures TrimEnd(s) == s[..j]
  {
    if j < |s| {
      assert IsSpace(s[j..][|s| - 1 - j]);
      var s' := s[..|s| - 1];
      assert s'[j..] == s[j..|s| - 1];
      assert AllSpace(s'[j..]) by {
        forall k | 0 <= k < |s'[j..]| ensures IsSpace(s'[j..][k]) {
          assert s'[j..][k] == s[j..][k];
        }
      }
      TrimEndUnique(s', j);
      assert s'[..j] == s[..j];
    }
  }

  lemma AllSpaceConcat(a: string, b: string)
    ensures AllSpace(a + b) <==> AllSpace(a) && AllSpace(b)
  {
    if AllSpace(a) && AllSpace(b) {
      forall k | 0 <= k < |a + b| ensures IsSpace((a + b)[k]) {
        if k < |a| { assert (a + b)[k] == a[k]; } else { assert (a + b)[k] == b[k - |a|]; }
      }
    }
    if AllSpace(a + b) {
      forall k | 0 <= k < |a| ensures IsSpace(a[k]) { assert (a + b)[k] == a[k]; }
      forall k | 0 <= k < |b| ensures IsSpace(b[k]) { assert (a + b)[k + |a|] == b[k]; }
    }
  }

  /** Trim is determined by its meaning: a slice of `s` surrounded only by
      white space and, unless empty, beginning and ending with a non-space
      character is the trimmed string. */
  lemma TrimUnique(s: string, i: nat, j: nat)
    requires i <= j <= |s|
    requires AllSpace(s[..i]) && AllSpace(s[j..])
    requires i == j || (!IsSpace(s[i]) && !IsSpace(s[j - 1]))
    ensures Trim(s) == s[i..j]
  {
    if i == j {
      TrimAllSpace(s, i);
    } else {
      TrimStartUnique(s, i);
      TrimEndSlice(s, i, j);
      assert Trim(s) == TrimEnd(TrimStart(s));
    }
  }

  lemma TrimEndSlice(s: string, i: nat, j: nat)
    requires i < j <= |s|
    requires AllSpace(s[j..]) && !IsSpace(s[j - 1])
    ensures TrimEnd(s[i..]) == s[i..j]
  {
    var t := s[i..];
    assert t[j - i..] == s[j..];
    assert t[j - i - 1] == s[j - 1];
    TrimEndUnique(t, j - i);
    assert t[..j - i] == s[i..j];
  }

  lemma TrimAllSpace(s: string, i: nat)
    requires i <= |s|
    requires AllSpace(s[..i]) && AllSpace(s[i..])
    ensures Trim(s) == []
  {
    AllSpaceConcat(s[..i], s[i..]);
    assert s[..i] + s[i..] == s;
  }

  /** The trimmed string starts with a non-space character `c` exactly when
      `c` is the first non-space character of `s`. */
  lemma TrimFirst(s: string, c: char)
    requires !IsSpace(c)
    ensures (Trim(s) != [] && Trim(s)[0] == c) <==>
            exists i :: 0 <= i < |s| && s[i] == c && AllSpace(s[..i])
  {
    var t := TrimStart(s);
    var k := |s| - |t|;
    assert Trim(s) == TrimEnd(t);
    if Trim(s) != [] && Trim(s)[0] == c {
      assert t[0] == c && s[k] == t[0];
    }
    if exists i :: 0 <= i < |s| && s[i] == c && AllSpace(s[..i]) {
      var i :| 0 <= i < |s| && s[i] == c && AllSpace(s[..i]);
      TrimStartUnique(s, i);
      assert t[0] == c;
    }
  }

  /** Trimming twice is trimming once. */
  lemma TrimIdempotent(s: string)
    ensures Trim(Trim(s)) == Trim(s)
  {
    if Trim(s) != [] {
      TrimNoop(Trim(s));
    }
  }

  /** A string with non-space ends is its own trim. */
  lemma TrimNoop(s: string)
    requires s != [] && !IsSpace(s[0]) && !IsSpace(s[|s| - 1])
    ensures Trim(s) == s
  {
    TrimUnique(s, 0, |s|);
    assert s[..0] == [] && s[|s|..] == [] && s[0..|s|] == s;
  }
}

/** The handful of Python string operations the converter relies on
    (str.isspace, str.lower, str.startswith, str.rstrip, str.strip,
    str.replace, str.join, str.split(sep), str.splitlines), restricted to
    ASCII and written as total functions on `string`.

    Small lemmas such as `PrefixCons`, `ConsPrefix`, `SkipTail`, `ReplaceShort`,
    `ReplaceMissFirst` and `ReplaceMissLong` restate
    sequence facts Dafny already knows; they are stated apart so that each
    proof that uses them stays cheap for the solver. */
module Text {

  datatype Option<T> = None | Some(value: T)

  /** ASCII whitespace as both str.isspace() and the regex class \s see it:
      TAB, LF, VT, FF, CR, the four separators 0x1C-0x1F, and SPACE. */
  predicate IsSpace(c: char) {
    var n := c as int;
    n == 32 || 9 <= n <= 13 || 28 <= n <= 31
  }

  /** The regex class \d, restricted to ASCII. */
  predicate IsDigit(c: char) {
    '0' <= c <= '9'
  }

  /** str.lower() on one ASCII character. */
  function LowerChar(c: char): char {
    if 'A' <= c <= 'Z' then (c as int + 32) as char else c
  }

  predicate StartsWith(s: string, p: string) {
    |p| <= |s| && s[..|p|] == p
  }

  /** `p in s` for strings: p occurs as a contiguous piece of s. */
  predicate Occurs(s: string, p: string)
    decreases |s|
  {
    StartsWith(s, p) || (s != [] && Occurs(s[1..], p))
  }

  predicate NoSpace(s: string) {
    forall i :: 0 <= i < |s| ==> !IsSpace(s[i])
  }

  /** str.rstrip(): the longest prefix that does not end in whitespace. */
  function RStrip(s: string): (r: string)
    ensures |r| <= |s| && r == s[..|r|]
    ensures forall i :: |r| <= i < |s| ==> IsSpace(s[i])
    ensures r == [] || !IsSpace(r[|r| - 1])
    decreases |s|
  {
    if s == [] || !IsSpace(s[|s| - 1]) then s else RStrip(s[..|s| - 1])
  }

  /** str.lstrip(): the longest suffix that does not start with whitespace. */
  function LStrip(s: string): (r: string)
    ensures |r| <= |s| && r == s[|s| - |r|..]
    ensures forall i :: 0 <= i < |s| - |r| ==> IsSpace(s[i])
    ensures r == [] || !IsSpace(r[0])
    decreases |s|
  {
    if s == [] || !IsSpace(s[0]) then s else LStrip(s[1..])
  }

  /** r is s[k..k + |r|] and everything of s around it is whitespace. */
  predicate TrimmedAt(s: string, k: nat, r: string) {
    k + |r| <= |s| && r == s[k..k + |r|]
    && (forall i :: 0 <= i < k ==> IsSpace(s[i]))
    && (forall i :: k + |r| <= i < |s| ==> IsSpace(s[i]))
  }

  /** str.strip(): s with its leading and trailing whitespace removed. */
  function Strip(s: string): (r: string)
    ensures r == [] || (!IsSpace(r[0]) && !IsSpace(r[|r| - 1]))
    ensures exists k: nat :: TrimmedAt(s, k, r)
  {
    var t := RStrip(s);
    var r := LStrip(t);
    assert TrimmedAt(s, |t| - |r|, r);
    r
  }

  /** The position of the first c in s, or |s| when there is none. */
  function IndexOf(s: string, c: char): (k: nat)
    ensures k <= |s|
    ensures forall i :: 0 <= i < k ==> s[i] != c
    ensures k < |s| ==> s[k] == c
    decreases |s|
  {
    if s == [] then 0 else if s[0] == c then 0 else 1 + IndexOf(s[1..], c)
  }

  /** str.replace(pat, rep): every occurrence of pat, found left to right
      without overlap, replaced by rep. */
  function Replace(s: string, pat: string, rep: string): string
    requires pat != []
    decreases |s|
  {
    if |s| < |pat| then s
    else if s[..|pat|] == pat then rep + Replace(s[|pat|..], pat, rep)
    else [s[0]] + Replace(s[1..], pat, rep)
  }

  /** Replacing a pattern that does not occur changes nothing. */
  lemma {:induction false} ReplaceAbsent(s: string, pat: string, rep: string)
    requires pat != [] && !Occurs(s, pat)
    ensures Replace(s, pat, rep) == s
    decreases |s|
  {
    if |s| >= |pat| {
      ReplaceAbsent(s[1..], pat, rep);
    }
  }

  /** A character in neither s nor rep is not in the result of replacing. */
  lemma {:induction false} ReplaceKeepsOut(s: string, pat: string, rep: string, c: char)
    requires pat != [] && c !in s && c !in rep
    ensures c !in Replace(s, pat, rep)
    decreases |s|
  {
    if |s| < |pat| {
    } else if s[..|pat|] == pat {
      ReplaceKeepsOut(s[|pat|..], pat, rep, c);
    } else {
      ReplaceKeepsOut(s[1..], pat, rep, c);
    }
  }

  /** Replacing a single character by a string without it removes it. */
  lemma {:induction false} ReplaceRemovesChar(s: string, c: char, rep: string)
    requires c !in rep
    ensures c !in Replace(s, [c], rep)
    decreases |s|
  {
    if s != [] {
      ReplaceRemovesChar(s[1..], c, rep);
    }
  }

  /** When none of the first n characters can begin the pattern, the first n
      characters pass through unchanged. */
  lemma {:induction false} ReplaceSkip(s: string, pat: string, rep: string, n: nat)
    requires pat != [] && n <= |s|
    requires forall i :: 0 <= i < n ==> s[i] != pat[0]
    ensures Replace(s, pat, rep) == s[..n] + Replace(s[n..], pat, rep)
    decreases n
  {
    if n == 0 {
      ReplaceSkipNone(s, pat, rep);
    } else if |s| < |pat| {
      ReplaceSkipShort(s, pat, rep, n);
    } else {
      ReplaceFirst(s, pat, rep);
      SkipTail(s, pat[0], n);
      ReplaceSkip(s[1..], pat, rep, n - 1);
      PrefixCons(s, n);
      ConsPrefix(s, n, Replace(s[n..], pat, rep));
    }
  }

  lemma SkipTail(s: string, c: char, n: nat)
    requires 0 < n <= |s|
    requires forall i :: 0 <= i < n ==> s[i] != c
    ensures forall i :: 0 <= i < n - 1 ==> s[1..][i] != c
  {
  }

  lemma ReplaceSkipNone(s: string, pat: string, rep: string)
    requires pat != []
    ensures Replace(s, pat, rep) == s[..0] + Replace(s[0..], pat, rep)
  {
    assert s[..0] == [] && s[0..] == s;
  }

  lemma ReplaceSkipShort(s: string, pat: string, rep: string, n: nat)
    requires pat != [] && n <= |s| < |pat|
    ensures Replace(s, pat, rep) == s[..n] + Replace(s[n..], pat, rep)
  {
    assert s[..n] + s[n..] == s;
  }

  lemma ConsPrefix(s: string, n: nat, tail: string)
    requires 0 < n <= |s|
    ensures [s[0]] + (s[1..][..n - 1] + tail) == s[..n] + tail
  {
    PrefixCons(s, n);
  }

  lemma ReplaceFirst(s: string, pat: string, rep: string)
    requires pat != [] && |pat| <= |s| && s[0] != pat[0]
    ensures Replace(s, pat, rep) == [s[0]] + Replace(s[1..], pat, rep)
  {
    assert s[..|pat|][0] == s[0];
  }

  lemma PrefixCons(s: string, n: nat)
    requires 0 < n <= |s|
    ensures [s[0]] + s[1..][..n - 1] == s[..n] && s[1..][n - 1..] == s[n..]
  {
  }

  /** A piece without the pattern's first character passes replace unchanged. */
  lemma ReplaceFreeThen(x: string, rest: string, pat: string, rep: string)
    requires pat != [] && pat[0] !in x
    ensures Replace(x + rest, pat, rep) == x + Replace(rest, pat, rep)
  {
    var s := x + rest;
    forall i | 0 <= i < |x| ensures s[i] != pat[0] {
      assert s[i] == x[i];
    }
    ReplaceSkip(s, pat, rep, |x|);
    assert s[..|x|] == x && s[|x|..] == rest;
  }

  /** A piece that differs from the pattern at k, and holds the pattern's
      first character at most at its front, passes replace unchanged. */
  lemma ReplaceMissThen(x: string, rest: string, pat: string, rep: string, k: nat)
    requires pat != [] && k < |x| && k < |pat| && x[k] != pat[k] && pat[0] !in x[1..]
    ensures Replace(x + rest, pat, rep) == x + Replace(rest, pat, rep)
  {
    if |x + rest| < |pat| {
      ReplaceShort(x + rest, pat, rep);
      ReplaceShort(rest, pat, rep);
    } else {
      assert (x + rest)[..|pat|][k] == x[k];
      ReplaceMissLong(x, rest, pat, rep);
    }
  }

  lemma ReplaceMissLong(x: string, rest: string, pat: string, rep: string)
    requires pat != [] && x != [] && |pat| <= |x + rest| && (x + rest)[..|pat|] != pat
    requires pat[0] !in x[1..]
    ensures Replace(x + rest, pat, rep) == x + Replace(rest, pat, rep)
  {
    var s := x + rest;
    ReplaceMissFirst(s, pat, rep);
    assert s[1..] == x[1..] + rest;
    ReplaceFreeThen(x[1..], rest, pat, rep);
    var t := Replace(rest, pat, rep);
    assert [x[0]] + (x[1..] + t) == ([x[0]] + x[1..]) + t;
    assert [x[0]] + x[1..] == x;
  }

  lemma ReplaceShort(s: string, pat: string, rep: string)
    requires pat != [] && |s| < |pat|
    ensures Replace(s, pat, rep) == s
  {
  }

  lemma ReplaceMissFirst(s: string, pat: string, rep: string)
    requires pat != [] && |pat| <= |s| && s[..|pat|] != pat
    ensures Replace(s, pat, rep) == [s[0]] + Replace(s[1..], pat, rep)
  {
  }

  /** Replacing a single character distributes over concatenation: no
      occurrence can straddle the seam. */
  lemma {:induction false} ReplaceCharAppend(x: string, y: string, pat: string, rep: string)
    requires |pat| == 1
    ensures Replace(x + y, pat, rep) == Replace(x, pat, rep) + Replace(y, pat, rep)
    decreases |x|
  {
    if x == [] {
      assert x + y == y;
    } else {
      var s := x + y;
      assert s[..1] == x[..1] && s[1..] == x[1..] + y;
      ReplaceCharAppend(x[1..], y, pat, rep);
    }
  }

  /** A single character that does not occur is not replaced. */
  lemma ReplaceCharAbsent(s: string, pat: string, rep: string)
    requires |pat| == 1 && pat[0] !in s
    ensures Replace(s, pat, rep) == s
  {
    ReplaceFreeThen(s, [], pat, rep);
    assert s + [] == s;
  }

  /** An occurrence of the pattern at the front is replaced. */
  lemma ReplaceHitThen(pat: string, rest: string, rep: string)
    requires pat != []
    ensures Replace(pat + rest, pat, rep) == rep + Replace(rest, pat, rep)
  {
    var s := pat + rest;
    assert s[..|pat|] == pat && s[|pat|..] == rest;
  }

  /** str.join: the pieces with sep between each two neighbours. */
  function Join(ls: seq<string>, sep: string): string
    decreases |ls|
  {
    if ls == [] then [] else if |ls| == 1 then ls[0] else ls[0] + sep + Join(ls[1..], sep)
  }

  /** str.split(c) for a single-character separator: the pieces between the
      occurrences of c; there is always at least one piece. */
  function SplitOn(s: string, c: char): (r: seq<string>)
    ensures |r| >= 1
    ensures forall i :: 0 <= i < |r| ==> c !in r[i]
    decreases |s|
  {
    var k := IndexOf(s, c);
    if k == |s| then [s] else [s[..k]] + SplitOn(s[k + 1..], c)
  }

  /** Splitting on c and joining back with c gives the original string. */
  lemma {:induction false} SplitOnJoin(s: string, c: char)
    ensures Join(SplitOn(s, c), [c]) == s
    decreases |s|
  {
    var k := IndexOf(s, c);
    if k < |s| {
      var rest := s[k + 1..];
      SplitOnJoin(rest, c);
      SplitOnAt(s, c, k);
      SplitAround(s, k, c);
      JoinCons(s[..k], SplitOn(rest, c), [c]);
    }
  }

  /** The first separator splits off the first piece. */
  lemma SplitOnAt(s: string, c: char, k: nat)
    requires k == IndexOf(s, c) < |s|
    ensures SplitOn(s, c) == [s[..k]] + SplitOn(s[k + 1..], c)
  {
  }

  lemma SplitAround(s: string, k: nat, c: char)
    requires k < |s| && s[k] == c
    ensures s == s[..k] + [c] + s[k + 1..]
  {
  }

  /** The image of the first element, then the images of the rest, are the
      images of all the elements. */
  lemma MapCons<T, U>(xs: seq<T>, ys: seq<U>, f: T -> U)
    requires xs != [] && |ys| == |xs| - 1
    requires forall i :: 0 <= i < |xs| - 1 ==> ys[i] == f(xs[1..][i])
    ensures forall i :: 0 <= i < |xs| ==> ([f(xs[0])] + ys)[i] == f(xs[i])
  {
    forall i | 0 <= i < |xs|
      ensures ([f(xs[0])] + ys)[i] == f(xs[i])
    {
      if i > 0 {
        assert xs[1..][i - 1] == xs[i];
      }
    }
  }

  /** str.splitlines() for '\n' line ends: a trailing '\n' ends the last
      line and does not start a new one; the empty text has no lines. */
  function Lines(s: string): (r: seq<string>)
    ensures forall i :: 0 <= i < |r| ==> '\n' !in r[i]
    ensures s == [] <==> r == []
    decreases |s|
  {
    if s == [] then []
    else
      var k := IndexOf(s, '\n');
      if k == |s| then [s] else [s[..k]] + Lines(s[k + 1..])
  }

  /** The text without one trailing '\n', if it has one. */
  function DropFinalNewline(s: string): string {
    if s != [] && s[|s| - 1] == '\n' then s[..|s| - 1] else s
  }

  /** Joining the lines with '\n' gives back the text, less one trailing '\n'. */
  lemma {:induction false} LinesJoin(s: string)
    ensures Join(Lines(s), "\n") == DropFinalNewline(s)
    decreases |s|
  {
    if s != [] {
      var k := IndexOf(s, '\n');
      if k + 1 < |s| {
        var rest := s[k + 1..];
        LinesJoin(rest);
        LinesAt(s, k);
        LinesNonEmpty(rest);
        SplitAround(s, k, '\n');
        LinesJoinStep(s[..k], rest, Lines(rest));
      } else {
        LinesOne(s);
      }
    }
  }

  /** A line break before the last character splits off the first line. */
  lemma LinesAt(s: string, k: nat)
    requires k == IndexOf(s, '\n') && k + 1 < |s|
    ensures Lines(s) == [s[..k]] + Lines(s[k + 1..])
  {
  }

  lemma LinesNonEmpty(s: string)
    requires s != []
    ensures Lines(s) != []
  {
  }

  /** Text whose only line break, if any, is its last character is one line. */
  lemma LinesOne(s: string)
    requires s != [] && IndexOf(s, '\n') + 1 >= |s|
    ensures Join(Lines(s), "\n") == DropFinalNewline(s)
  {
    var k := IndexOf(s, '\n');
    if k < |s| {
      LinesLastBreak(s);
    } else {
      assert Lines(s) == [s];
    }
  }

  lemma LinesLastBreak(s: string)
    requires s != [] && IndexOf(s, '\n') + 1 == |s|
    ensures Lines(s) == [s[..|s| - 1]] && DropFinalNewline(s) == s[..|s| - 1]
  {
  }

  /** One line, then the lines of the rest of the text. */
  lemma LinesJoinStep(head: string, rest: string, tail: seq<string>)
    requires rest != [] && tail != []
    requires Join(tail, "\n") == DropFinalNewline(rest)
    ensures Join([head] + tail, "\n") == DropFinalNewline(head + "\n" + rest)
  {
    JoinCons(head, tail, "\n");
    DropFinalNewlineAppend(head + "\n", rest);
  }

  lemma DropFinalNewlineAppend(x: string, y: string)
    requires y != []
    ensures DropFinalNewline(x + y) == x + DropFinalNewline(y)
  {
    if y[|y| - 1] == '\n' {
      assert (x + y)[..|x + y| - 1] == x + y[..|y| - 1];
    }
  }

  lemma JoinCons(x: string, ls: seq<string>, sep: string)
    requires ls != []
    ensures Join([x] + ls, sep) == x + sep + Join(ls, sep)
  {
    assert ([x] + ls)[1..] == ls;
  }
}

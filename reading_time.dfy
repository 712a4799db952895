/** estimate_reading_time: the number of whitespace-separated words divided
    by 200 words per minute, rounded half to even, and at least 1. */
module ReadingTime {
  import opened Text

  /** The position of the first whitespace character of s, or |s|. */
  function SpaceIndex(s: string): (k: nat)
    ensures k <= |s|
    ensures forall i :: 0 <= i < k ==> !IsSpace(s[i])
    ensures k < |s| ==> IsSpace(s[k])
    decreases |s|
  {
    if s == [] || IsSpace(s[0]) then 0 else 1 + SpaceIndex(s[1..])
  }

  /** str.split() with no separator: the maximal runs of non-whitespace
      characters, in order; leading, trailing and repeated whitespace give
      no empty words. */
  function Words(s: string): (ws: seq<string>)
    ensures forall i :: 0 <= i < |ws| ==> ws[i] != [] && NoSpace(ws[i])
    decreases |s|
  {
    var t := LStrip(s);
    if t == [] then []
    else
      FirstWord(t);
      var k := SpaceIndex(t);
      var rest := Words(t[k..]);
      AllWordsCons(t[..k], rest);
      [t[..k]] + rest
  }

  lemma AllWordsCons(w: string, ws: seq<string>)
    requires w != [] && NoSpace(w)
    requires forall i :: 0 <= i < |ws| ==> ws[i] != [] && NoSpace(ws[i])
    ensures forall i :: 0 <= i < |[w] + ws| ==> ([w] + ws)[i] != [] && NoSpace(([w] + ws)[i])
  {
  }

  /** Text that starts with a non-whitespace character starts with a word. */
  lemma FirstWord(t: string)
    requires t != [] && !IsSpace(t[0])
    ensures SpaceIndex(t) > 0 && NoSpace(t[..SpaceIndex(t)])
  {
  }

  /** Words joined by single spaces split back into the same words. */
  lemma {:induction false} WordsJoin(ws: seq<string>)
    requires forall i :: 0 <= i < |ws| ==> ws[i] != [] && NoSpace(ws[i])
    ensures Words(Join(ws, " ")) == ws
    decreases |ws|
  {
    if |ws| > 0 {
      WordsTail(ws);
      if |ws| == 1 {
        WordsJoinOne(ws);
      } else {
        WordsJoin(ws[1..]);
        WordsJoinCons(ws);
      }
    }
  }

  lemma WordsJoinOne(ws: seq<string>)
    requires |ws| == 1 && ws[0] != [] && NoSpace(ws[0])
    ensures Words(Join(ws, " ")) == ws
  {
    SingleWord(ws[0]);
  }

  lemma WordsJoinCons(ws: seq<string>)
    requires |ws| > 1 && ws[0] != [] && NoSpace(ws[0])
    requires Words(Join(ws[1..], " ")) == ws[1..]
    ensures Words(Join(ws, " ")) == ws
  {
    assert ws == [ws[0]] + ws[1..];
    WordsJoinStep(ws[0], ws[1..]);
  }

  lemma WordsTail(ws: seq<string>)
    requires ws != []
    requires forall i :: 0 <= i < |ws| ==> ws[i] != [] && NoSpace(ws[i])
    ensures ws[0] != [] && NoSpace(ws[0])
    ensures forall i :: 0 <= i < |ws[1..]| ==> ws[1..][i] != [] && NoSpace(ws[1..][i])
  {
    assert forall i :: 0 <= i < |ws[1..]| ==> ws[1..][i] == ws[i + 1];
  }

  /** One more word in front of words that split back. */
  lemma WordsJoinStep(w: string, rest: seq<string>)
    requires w != [] && NoSpace(w) && rest != []
    requires Words(Join(rest, " ")) == rest
    ensures Words(Join([w] + rest, " ")) == [w] + rest
  {
    JoinCons(w, rest, " ");
    WordThenSpace(w, Join(rest, " "));
  }

  lemma SingleWord(w: string)
    requires w != [] && NoSpace(w)
    ensures Words(w) == [w]
  {
    assert LStrip(w) == w;
    assert SpaceIndex(w) == |w|;
    assert w[..|w|] == w && w[|w|..] == [];
    assert Words([]) == [];
  }

  /** A word, a space, then more text: the word, then the words of the rest. */
  lemma WordThenSpace(w: string, rest: string)
    requires w != [] && NoSpace(w)
    ensures Words(w + " " + rest) == [w] + Words(rest)
  {
    var s := w + " " + rest;
    assert s[0] == w[0];
    assert LStrip(s) == s;
    SpaceAfterWord(w, rest);
    assert s[..|w|] == w;
    assert s[|w|..] == " " + rest;
    SpaceThenWords(rest);
  }

  lemma SpaceAfterWord(w: string, rest: string)
    requires NoSpace(w)
    ensures SpaceIndex(w + " " + rest) == |w|
  {
    var s := w + " " + rest;
    assert forall i :: 0 <= i < |w| ==> s[i] == w[i];
    assert IsSpace(s[|w|]);
  }

  /** One leading space does not change the words. */
  lemma SpaceThenWords(rest: string)
    ensures Words(" " + rest) == Words(rest)
  {
    LStripSpace(rest);
  }

  lemma LStripSpace(rest: string)
    ensures LStrip(" " + rest) == LStrip(rest)
  {
    var s := " " + rest;
    assert IsSpace(s[0]);
    assert s[1..] == rest;
  }

  /** round(n / 200) as Python computes it for an int n >= 0: to the
      nearest integer, and to the even one of two equally near. */
  function RoundDiv200(n: nat): nat {
    var q := n / 200;
    var rem := n % 200;
    if rem < 100 then q
    else if rem > 100 then q + 1
    else if q % 2 == 0 then q else q + 1
  }

  /** r is n / 200 rounded half to even: no farther than one half from it,
      and even when exactly one half away. */
  predicate IsRoundedQuotient(n: nat, r: nat) {
    var d := if n >= 200 * r then n - 200 * r else 200 * r - n;
    d <= 100 && (d == 100 ==> r % 2 == 0)
  }

  lemma RoundDiv200Spec(n: nat)
    ensures IsRoundedQuotient(n, RoundDiv200(n))
  {
    var q := n / 200;
    assert n == 200 * q + n % 200;
  }

  /** There is only one correctly rounded quotient. */
  lemma RoundedQuotientUnique(n: nat, r1: nat, r2: nat)
    requires IsRoundedQuotient(n, r1) && IsRoundedQuotient(n, r2)
    ensures r1 == r2
  {
  }

  /** max(1, round(words / 200)) */
  function Minutes(words: nat): (m: nat)
    ensures m >= 1
    ensures IsRoundedQuotient(words, m) || (m == 1 && IsRoundedQuotient(words, 0))
  {
    RoundDiv200Spec(words);
    var r := RoundDiv200(words);
    if r < 1 then 1 else r
  }

  /** estimate_reading_time: minutes to read text at 200 words a minute. */
  function EstimateReadingTime(text: string): (m: nat)
    ensures m >= 1
    ensures IsRoundedQuotient(|Words(text)|, m) || (m == 1 && IsRoundedQuotient(|Words(text)|, 0))
  {
    Minutes(|Words(text)|)
  }

  /** 400 words take 2 minutes, 50 take 1 (never less), 300 round up to 2
      and 500 round down to 2 (ties go to the even number). */
  lemma MinutesExamples()
    ensures Minutes(400) == 2 && Minutes(50) == 1 && Minutes(300) == 2 && Minutes(500) == 2
  {
    RoundDiv200Spec(400);
    RoundDiv200Spec(300);
    RoundDiv200Spec(500);
  }

  /** A text of n words joined by spaces takes Minutes(n). */
  lemma ReadingTimeOfWords(ws: seq<string>)
    requires forall i :: 0 <= i < |ws| ==> ws[i] != [] && NoSpace(ws[i])
    ensures EstimateReadingTime(Join(ws, " ")) == Minutes(|ws|)
  {
    WordsJoin(ws);
  }
}

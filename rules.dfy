/** What each inline substitution of escape_inline does to a well-formed
    occurrence of its pattern, and what the fixed order of the five
    substitutions means for images, links, bold and italic.

    Small lemmas such as `BoldFirstShape` and `StrongEmText` restate
    sequence facts Dafny already knows; they are stated apart so that each
    proof that uses them stays cheap for the solver, and model nothing. */
module InlineRules {
  import opened Text
  import opened Inline

  /** The character every match of a rule begins with. */
  function StartChar(r: Rule): char {
    match r
    case Image => '!'
    case Link => '['
    case Bold => '*'
    case Italic => '*'
    case Code => '`'
  }

  lemma NoMatchWithoutStart(r: Rule, s: string)
    requires s != [] && s[0] != StartChar(r)
    ensures MatchAt(r, s) == None
  {
  }

  lemma SubCopies(r: Rule, s: string)
    requires s != [] && MatchAt(r, s) == None
    ensures Sub(r, s) == [s[0]] + Sub(r, s[1..])
  {
  }

  /** Text without the rule's start character is copied unchanged, and the
      scan resumes right after it. */
  lemma {:induction false} SubSkip(r: Rule, p: string, rest: string)
    requires StartChar(r) !in p
    ensures Sub(r, p + rest) == p + Sub(r, rest)
    decreases |p|
  {
    if p != [] {
      var s := p + rest;
      NoMatchWithoutStart(r, s);
      assert s[1..] == p[1..] + rest;
      calc {
        Sub(r, s);
        == { SubCopies(r, s); }
        [s[0]] + Sub(r, s[1..]);
        == { SubSkip(r, p[1..], rest); }
        [p[0]] + (p[1..] + Sub(r, rest));
        == { assert [p[0]] + p[1..] == p; }
        p + Sub(r, rest);
      }
    } else {
      assert p + rest == rest;
    }
  }

  /** pat occurs in s at j. */
  predicate PatAt(s: string, pat: string, j: nat) {
    j + |pat| <= |s| && s[j..j + |pat|] == pat
  }

  /** The lazy scan stops at the first occurrence of pat, provided no '\n'
      comes before it. */
  lemma FindInLineIs(s: string, pat: string, i: nat, k: nat)
    requires pat != [] && pat[0] != '\n' && i <= k
    requires PatAt(s, pat, k) && InLine(s, i, k)
    requires forall j :: i <= j < k ==> !PatAt(s, pat, j)
    ensures FindInLine(s, pat, i) == Some(k)
  {
    var r := FindInLine(s, pat, i);
    if r.Some? && r.value < k {
      assert PatAt(s, pat, r.value);
    } else if r.None? || r.value > k {
      FindInLineFirst(s, pat, i, k);
    }
  }

  /** Started at off, where the text x lies, the lazy scan for pat stops
      right after x, when x holds neither pat's first character nor '\n'
      and pat follows it. */
  lemma FindAfter(s: string, off: nat, x: string, pat: string)
    requires pat != [] && pat[0] != '\n' && pat[0] !in x && '\n' !in x
    requires off + |x| + |pat| <= |s|
    requires s[off..off + |x|] == x && s[off + |x|..off + |x| + |pat|] == pat
    ensures FindInLine(s, pat, off) == Some(off + |x|)
  {
    forall j | off <= j < off + |x| ensures s[j] != '\n' && !PatAt(s, pat, j) {
      assert s[j] == x[j - off];
    }
    FindInLineIs(s, pat, off, off + |x|);
  }

  /** The image rule at the front of `![a](u)...` */
  lemma ImageAtPattern(a: string, u: string, rest: string)
    requires ']' !in a && '\n' !in a && ')' !in u && '\n' !in u
    ensures ImageAt("![" + a + "](" + u + ")" + rest) == Some(Match(|a| + |u| + 5, ImgTag(a, u)))
  {
    var s := "![" + a + "](" + u + ")" + rest;
    var j := 2 + |a|;
    var k := j + 2 + |u|;
    assert s[0] == '!' && s[1] == '[';
    assert s[2..j] == a && s[j..j + 2] == "](";
    assert s[j + 2..k] == u && s[k..k + 1] == ")";
    ImageAtFound(s, a, u);
  }

  lemma ImageAtFound(s: string, a: string, u: string)
    requires ']' !in a && '\n' !in a && ')' !in u && '\n' !in u
    requires |a| + |u| + 5 <= |s| && s[0] == '!' && s[1] == '['
    requires s[2..2 + |a|] == a && s[2 + |a|..4 + |a|] == "]("
    requires s[4 + |a|..4 + |a| + |u|] == u && s[4 + |a| + |u|..5 + |a| + |u|] == ")"
    ensures ImageAt(s) == Some(Match(|a| + |u| + 5, ImgTag(a, u)))
  {
    FindAfter(s, 2, a, "](");
    FindAfter(s, 4 + |a|, u, ")");
    ImageAtIs(s, 2 + |a|, 4 + |a| + |u|);
  }

  lemma ImageAtIs(s: string, j: nat, k: nat)
    requires |s| >= 2 && s[0] == '!' && s[1] == '[' && 2 <= j
    requires FindInLine(s, "](", 2) == Some(j) && FindInLine(s, ")", j + 2) == Some(k)
    ensures ImageAt(s) == Some(Match(k + 1, ImgTag(s[2..j], s[j + 2..k])))
  {
  }

  /** The image rule turns `![a](u)` into an img tag, when the alt text has
      no ']' and the URL no ')', and neither spans a line. */
  lemma ImageStep(a: string, u: string, rest: string)
    requires ']' !in a && '\n' !in a && ')' !in u && '\n' !in u
    ensures Sub(Image, "![" + a + "](" + u + ")" + rest) == ImgTag(a, u) + Sub(Image, rest)
  {
    var s := "![" + a + "](" + u + ")" + rest;
    ImageAtPattern(a, u, rest);
    assert s[|a| + |u| + 5..] == rest;
  }

  /** The link rule at the front of `[t](u)...` */
  lemma LinkAtPattern(t: string, u: string, rest: string)
    requires ']' !in t && '\n' !in t && ')' !in u && '\n' !in u
    ensures LinkAt("[" + t + "](" + u + ")" + rest) == Some(Match(|t| + |u| + 4, AnchorTag(t, u)))
  {
    var s := "[" + t + "](" + u + ")" + rest;
    var j := 1 + |t|;
    var k := j + 2 + |u|;
    assert s[0] == '[';
    assert s[1..j] == t && s[j..j + 2] == "](";
    assert s[j + 2..k] == u && s[k..k + 1] == ")";
    LinkAtFound(s, t, u);
  }

  lemma LinkAtFound(s: string, t: string, u: string)
    requires ']' !in t && '\n' !in t && ')' !in u && '\n' !in u
    requires |t| + |u| + 4 <= |s| && s[0] == '['
    requires s[1..1 + |t|] == t && s[1 + |t|..3 + |t|] == "]("
    requires s[3 + |t|..3 + |t| + |u|] == u && s[3 + |t| + |u|..4 + |t| + |u|] == ")"
    ensures LinkAt(s) == Some(Match(|t| + |u| + 4, AnchorTag(t, u)))
  {
    FindAfter(s, 1, t, "](");
    FindAfter(s, 3 + |t|, u, ")");
    assert s[1..1 + |t|] == t && s[3 + |t|..3 + |t| + |u|] == u;
  }

  /** The link rule turns `[t](u)` into an anchor, when the text has no ']'
      and the URL no ')', and neither spans a line. */
  lemma LinkStep(t: string, u: string, rest: string)
    requires ']' !in t && '\n' !in t && ')' !in u && '\n' !in u
    ensures Sub(Link, "[" + t + "](" + u + ")" + rest) == AnchorTag(t, u) + Sub(Link, rest)
  {
    var s := "[" + t + "](" + u + ")" + rest;
    LinkAtPattern(t, u, rest);
    assert s[|t| + |u| + 4..] == rest;
  }

  /** The bold rule turns `**b**` into a strong element, when b has no '*'
      and does not span a line. */
  lemma BoldStep(b: string, rest: string)
    requires '*' !in b && '\n' !in b
    ensures Sub(Bold, "**" + b + "**" + rest) == "<strong>" + b + "</strong>" + Sub(Bold, rest)
  {
    var s := "**" + b + "**" + rest;
    var j := 2 + |b|;
    assert s[0] == '*' && s[1] == '*';
    assert s[2..j] == b && s[j..j + 2] == "**" && s[j + 2..] == rest;
    FindAfter(s, 2, b, "**");
  }

  /** The italic rule turns `*t*` into an em element, when t has no '*'
      and does not span a line. */
  lemma ItalicStep(t: string, rest: string)
    requires '*' !in t && '\n' !in t
    ensures Sub(Italic, "*" + t + "*" + rest) == "<em>" + t + "</em>" + Sub(Italic, rest)
  {
    var s := "*" + t + "*" + rest;
    var j := 1 + |t|;
    assert s[0] == '*';
    assert s[1..j] == t && s[j..j + 1] == "*" && s[j + 1..] == rest;
    FindAfter(s, 1, t, "*");
  }

  /** The code rule turns `` `c` `` into a code element, for any non-empty
      c without a backtick (it may span lines). */
  lemma CodeStep(c: string, rest: string)
    requires c != [] && '`' !in c
    ensures Sub(Code, "`" + c + "`" + rest) == "<code>" + c + "</code>" + Sub(Code, rest)
  {
    var s := "`" + c + "`" + rest;
    var k := 1 + |c|;
    assert s[0] == '`';
    assert s[1..] == c + "`" + rest;
    assert s[1..][|c|] == '`';
    assert IndexOf(s[1..], '`') == |c| by {
      forall m | 0 <= m < |c| ensures s[1..][m] != '`' {
        assert s[1..][m] == c[m];
      }
    }
    assert s[1..k] == c && s[k + 1..] == rest;
  }

  /** Text with no two '*' in a row is left alone by the bold rule. */
  lemma {:induction false} BoldAbsent(s: string)
    requires forall m :: 0 <= m < |s| - 1 ==> !(s[m] == '*' && s[m + 1] == '*')
    ensures Sub(Bold, s) == s
    decreases |s|
  {
    if s != [] {
      assert BoldAt(s) == None;
      BoldAbsent(s[1..]);
    }
  }

  /** Text without the rule's start character is left alone. */
  lemma SubNone(r: Rule, p: string)
    requires StartChar(r) !in p
    ensures Sub(r, p) == p
  {
    SubSkip(r, p, []);
    assert p + [] == p;
  }

  /** Images are substituted before links: `![a](u)` becomes an img tag and
      the link rule finds nothing left to turn into an anchor. */
  lemma ImageBeforeLink(a: string, u: string)
    requires ']' !in a && '\n' !in a && ')' !in u && '\n' !in u
    requires '[' !in a && '*' !in a && '`' !in a
    requires '[' !in u && '*' !in u && '`' !in u
    ensures Substitute("![" + a + "](" + u + ")") == ImgTag(a, u)
  {
    var t := ImgTag(a, u);
    ImageOnly(a, u);
    ImgTagQuiet(a, u);
    QuietStages(t);
  }

  lemma ImgTagQuiet(a: string, u: string)
    requires '[' !in a && '*' !in a && '`' !in a
    requires '[' !in u && '*' !in u && '`' !in u
    ensures Quiet(ImgTag(a, u))
  {
    var t := ImgTag(a, u);
    assert '[' !in t && '*' !in t && '`' !in t;
    QuietByMembership(t);
  }

  lemma ImageOnly(a: string, u: string)
    requires ']' !in a && '\n' !in a && ')' !in u && '\n' !in u
    ensures Sub(Image, "![" + a + "](" + u + ")") == ImgTag(a, u)
  {
    var s := "![" + a + "](" + u + ")";
    ImageStep(a, u, []);
    assert s + [] == s;
    assert ImgTag(a, u) + [] == ImgTag(a, u);
  }

  /** Quiet text passes the link, bold, italic and code rules unchanged. */
  lemma QuietStages(t: string)
    requires Quiet(t)
    ensures Sub(Code, Sub(Italic, Sub(Bold, Sub(Link, t)))) == t
  {
    SubQuiet(Link, t);
    SubQuiet(Bold, t);
    SubQuiet(Italic, t);
    SubQuiet(Code, t);
  }

  /** Bold is substituted before italic: in `**b** and *i*` the double
      stars become strong and the single ones em. */
  lemma BoldBeforeItalic(b: string, i: string)
    requires i != []
    requires '*' !in b && '\n' !in b && '!' !in b && '[' !in b && '`' !in b
    requires '*' !in i && '\n' !in i && '!' !in i && '[' !in i && '`' !in i
    ensures Substitute("**" + b + "** and *" + i + "*") == "<strong>" + b + "</strong> and <em>" + i + "</em>"
  {
    var s := "**" + b + "** and *" + i + "*";
    var head := "<strong>" + b + "</strong> and ";
    var out := "<strong>" + b + "</strong> and <em>" + i + "</em>";
    SubNone(Image, s);
    SubNone(Link, s);
    BoldFirst(b, i);
    StrongEmText(b, i);
    ItalicSecond(head, i);
    SubNone(Code, out);
  }

  lemma StrongEmText(b: string, i: string)
    requires '*' !in b && '`' !in b && '`' !in i
    ensures '*' !in "<strong>" + b + "</strong> and "
    ensures '`' !in "<strong>" + b + "</strong> and <em>" + i + "</em>"
    ensures "<strong>" + b + "</strong> and " + ("<em>" + i + "</em>")
            == "<strong>" + b + "</strong> and <em>" + i + "</em>"
  {
  }

  lemma BoldFirst(b: string, i: string)
    requires i != [] && '*' !in b && '\n' !in b && '*' !in i
    ensures Sub(Bold, "**" + b + "** and *" + i + "*") == "<strong>" + b + "</strong> and " + ("*" + i + "*")
  {
    var tail := " and *" + i + "*";
    BoldFirstShape(b, i);
    BoldStep(b, tail);
    SingleStars(i);
    BoldAbsent(tail);
  }

  lemma BoldFirstShape(b: string, i: string)
    ensures "**" + b + "** and *" + i + "*" == "**" + b + "**" + (" and *" + i + "*")
    ensures "<strong>" + b + "</strong>" + (" and *" + i + "*")
            == "<strong>" + b + "</strong> and " + ("*" + i + "*")
  {
  }

  lemma SingleStars(i: string)
    requires i != [] && '*' !in i
    ensures var tail := " and *" + i + "*";
            forall m :: 0 <= m < |tail| - 1 ==> !(tail[m] == '*' && tail[m + 1] == '*')
  {
    var tail := " and *" + i + "*";
    forall m | 0 <= m < |tail| - 1 ensures !(tail[m] == '*' && tail[m + 1] == '*') {
      if 6 <= m < |tail| - 1 {
        assert tail[m] == i[m - 6];
      }
    }
  }

  lemma ItalicSecond(head: string, i: string)
    requires '*' !in head && '*' !in i && '\n' !in i
    ensures Sub(Italic, head + ("*" + i + "*")) == head + ("<em>" + i + "</em>")
  {
    SubSkip(Italic, head, "*" + i + "*");
    ItalicStep(i, []);
    assert "*" + i + "*" + [] == "*" + i + "*";
    assert "<em>" + i + "</em>" + [] == "<em>" + i + "</em>";
  }

  /** The anchor-open and image tags are restored only up to `<a href=` and
      `<img `: no '>' of escape_inline's result follows a quote, a slash or
      a space, so the `'>` that closes an anchor's opening tag and the
      ` />` that closes an img tag never appear as markup. EscapeLink and
      EscapeImage below show them as `&gt;`. */
  lemma TagEndsStayEscaped(text: string)
    ensures var r := EscapeInline(text);
            forall i :: 0 < i < |r| && r[i] == '>' ==> r[i - 1] != '\'' && r[i - 1] != '/' && r[i - 1] != ' '
  {
    EscapeInlineSafe(text);
    LetterBeforeCloser(EscapeInline(text));
  }

  lemma LetterBeforeCloser(r: string)
    requires forall i :: 0 <= i < |r| && r[i] == '>' ==> EndsWithCloser(r[..i + 1])
    ensures forall i :: 0 < i < |r| && r[i] == '>' ==> 'a' <= r[i - 1] <= 'z'
  {
    forall i | 0 < i < |r| && r[i] == '>'
      ensures 'a' <= r[i - 1] <= 'z'
    {
      CloserLetter(r[..i + 1]);
    }
  }

  /** Every whitelisted fragment ending in '>' has a letter before it. */
  lemma CloserLetter(s: string)
    requires EndsWithCloser(s)
    ensures |s| >= 2 && 'a' <= s[|s| - 2] <= 'z'
  {
    if EndsWith(s, "<strong>") { BeforeLast(s, "<strong>"); }
    else if EndsWith(s, "</strong>") { BeforeLast(s, "</strong>"); }
    else if EndsWith(s, "<em>") { BeforeLast(s, "<em>"); }
    else if EndsWith(s, "</em>") { BeforeLast(s, "</em>"); }
    else if EndsWith(s, "<code>") { BeforeLast(s, "<code>"); }
    else if EndsWith(s, "</code>") { BeforeLast(s, "</code>"); }
    else { BeforeLast(s, "</a>"); }
  }

  /** The character before the last one of s is that of its suffix t. */
  lemma BeforeLast(s: string, t: string)
    requires |t| >= 2 && EndsWith(s, t)
    ensures |s| >= 2 && s[|s| - 2] == t[|t| - 2]
  {
    assert s[|s| - |t|..][|t| - 2] == t[|t| - 2];
  }
}

/** What escape_inline returns for a lone link and a lone image: the
    restore step turns back only `<a href=` and `<img `, so the '>' that
    ends the anchor's opening tag and the ` />` of the img tag stay
    escaped, and an image never becomes an anchor.

    The helpers below the two main lemmas cut the text into pieces and
    follow each step over them; `LiteralCuts`, the `Assoc` lemmas and the
    one-fact literal lemmas only regroup sequences, stated apart to keep
    each proof cheap for the solver. */
module InlineResults {
  import opened Text
  import opened Inline
  import opened InlineRules

  /** Text none of whose characters the inline rules, the escape step or the
      restore step look at. */
  predicate Inert(s: string) {
    '[' !in s && ']' !in s && '(' !in s && ')' !in s && '*' !in s && '`' !in s
    && '!' !in s && '<' !in s && '>' !in s && '&' !in s && '\n' !in s
  }

  /** `[t](u)` comes out of escape_inline as an anchor whose opening tag
      still ends in `&gt;`. */
  lemma EscapeLink(t: string, u: string)
    requires Inert(t) && Inert(u)
    ensures EscapeInline("[" + t + "](" + u + ")") == "<a href='" + u + "'&gt;" + t + "</a>"
  {
    LinkOnly(t, u);
    AnchorEscaped(t, u);
    LinkRestored(t, u);
  }

  /** `![a](u)` comes out of escape_inline as an img tag that still ends in
      ` /&gt;`, and no anchor. */
  lemma EscapeImage(a: string, u: string)
    requires Inert(a) && Inert(u)
    ensures EscapeInline("![" + a + "](" + u + ")") == "<img src='" + u + "' alt='" + a + "' /&gt;"
  {
    ImageBeforeLink(a, u);
    ImgEscaped(a, u);
    ImgRestored(a, u);
  }

  // ---------------------------------------------------------------------
  // The substitutions

  lemma LinkOnly(t: string, u: string)
    requires Inert(t) && Inert(u)
    ensures Substitute("[" + t + "](" + u + ")") == AnchorTag(t, u)
  {
    LinkSubstituted(t, u);
    AnchorUntouched(t, u);
  }

  lemma LinkSubstituted(t: string, u: string)
    requires Inert(t) && Inert(u)
    ensures Sub(Link, Sub(Image, "[" + t + "](" + u + ")")) == AnchorTag(t, u)
  {
    var s := "[" + t + "](" + u + ")";
    assert '!' !in s;
    SubNone(Image, s);
    LinkStep(t, u, []);
    assert s + [] == s;
  }

  lemma AnchorUntouched(t: string, u: string)
    requires Inert(t) && Inert(u)
    ensures Sub(Code, Sub(Italic, Sub(Bold, AnchorTag(t, u)))) == AnchorTag(t, u)
  {
    var r := AnchorTag(t, u);
    assert '*' !in r && '`' !in r;
    SubNone(Bold, r);
    SubNone(Italic, r);
    SubNone(Code, r);
  }

  // ---------------------------------------------------------------------
  // The escape step, piece by piece

  /** Replacing one character in five concatenated pieces. */
  lemma CharReplaceFive(p1: string, p2: string, p3: string, p4: string, p5: string, pat: string, rep: string)
    requires |pat| == 1
    ensures Replace(p1 + p2 + p3 + p4 + p5, pat, rep)
            == Replace(p1, pat, rep) + Replace(p2, pat, rep) + Replace(p3, pat, rep)
               + Replace(p4, pat, rep) + Replace(p5, pat, rep)
  {
    ReplaceCharAppend(p1 + p2 + p3 + p4, p5, pat, rep);
    ReplaceCharAppend(p1 + p2 + p3, p4, pat, rep);
    ReplaceCharAppend(p1 + p2, p3, pat, rep);
    ReplaceCharAppend(p1, p2, pat, rep);
  }

  lemma LtFront(x: string)
    requires '<' !in x
    ensures Replace("<" + x, "<", "&lt;") == "&lt;" + x
  {
    ReplaceHitThen("<", x, "&lt;");
    ReplaceCharAbsent(x, "<", "&lt;");
  }

  lemma GtBack(x: string)
    requires '>' !in x
    ensures Replace(x + ">", ">", "&gt;") == x + "&gt;"
  {
    ReplaceFreeThen(x, ">", ">", "&gt;");
    ReplaceHitThen(">", [], "&gt;");
    assert ">" + [] == ">" && "&gt;" + [] == "&gt;";
  }

  /** The escape step on the literal pieces of an anchor. */
  lemma AnchorOpenEscaped()
    ensures Replace("<a href='", "<", "&lt;") == "&lt;a href='"
  {
    LtPiece("a href='", "<a href='", "&lt;a href='");
  }

  lemma AnchorOpenKept()
    ensures Replace("&lt;a href='", ">", "&gt;") == "&lt;a href='"
  {
    ReplaceCharAbsent("&lt;a href='", ">", "&gt;");
  }

  lemma AnchorMidEscaped()
    ensures Replace("'>", "<", "&lt;") == "'>"
    ensures Replace("'>", ">", "&gt;") == "'&gt;"
  {
    ReplaceCharAbsent("'>", "<", "&lt;");
    GtPiece("'", "'>", "'&gt;");
  }

  lemma AnchorCloseEscaped()
    ensures Replace("</a>", "<", "&lt;") == "&lt;/a>"
    ensures Replace("&lt;/a>", ">", "&gt;") == "&lt;/a&gt;"
  {
    LtPiece("/a>", "</a>", "&lt;/a>");
    GtPiece("&lt;/a", "&lt;/a>", "&lt;/a&gt;");
  }

  lemma LtPiece(x: string, whole: string, escaped: string)
    requires '<' !in x && whole == "<" + x && escaped == "&lt;" + x
    ensures Replace(whole, "<", "&lt;") == escaped
  {
    LtFront(x);
  }

  lemma GtPiece(x: string, whole: string, escaped: string)
    requires '>' !in x && whole == x + ">" && escaped == x + "&gt;"
    ensures Replace(whole, ">", "&gt;") == escaped
  {
    GtBack(x);
  }

  lemma AnchorEscaped(t: string, u: string)
    requires Inert(t) && Inert(u)
    ensures EscapeAngles(AnchorTag(t, u)) == "&lt;a href='" + u + "'&gt;" + t + "&lt;/a&gt;"
  {
    AnchorOpenEscaped();
    AnchorOpenKept();
    AnchorMidEscaped();
    AnchorCloseEscaped();
    CharReplaceFive("<a href='", u, "'>", t, "</a>", "<", "&lt;");
    ReplaceCharAbsent(u, "<", "&lt;");
    ReplaceCharAbsent(t, "<", "&lt;");
    CharReplaceFive("&lt;a href='", u, "'>", t, "&lt;/a>", ">", "&gt;");
    ReplaceCharAbsent(u, ">", "&gt;");
    ReplaceCharAbsent(t, ">", "&gt;");
  }

  /** The escape step on the literal pieces of an img tag. */
  lemma ImgOpenEscaped()
    ensures Replace("<img src='", "<", "&lt;") == "&lt;img src='"
  {
    LtPiece("img src='", "<img src='", "&lt;img src='");
  }

  lemma ImgOpenKept()
    ensures Replace("&lt;img src='", ">", "&gt;") == "&lt;img src='"
  {
    ReplaceCharAbsent("&lt;img src='", ">", "&gt;");
  }

  lemma ImgMidEscaped()
    ensures Replace("' alt='", "<", "&lt;") == "' alt='"
    ensures Replace("' alt='", ">", "&gt;") == "' alt='"
  {
    ReplaceCharAbsent("' alt='", "<", "&lt;");
    ReplaceCharAbsent("' alt='", ">", "&gt;");
  }

  lemma ImgCloseEscaped()
    ensures Replace("' />", "<", "&lt;") == "' />"
    ensures Replace("' />", ">", "&gt;") == "' /&gt;"
  {
    ReplaceCharAbsent("' />", "<", "&lt;");
    GtPiece("' /", "' />", "' /&gt;");
  }

  lemma ImgEscaped(a: string, u: string)
    requires Inert(a) && Inert(u)
    ensures EscapeAngles(ImgTag(a, u)) == "&lt;img src='" + u + "' alt='" + a + "' /&gt;"
  {
    ImgOpenEscaped();
    ImgOpenKept();
    ImgMidEscaped();
    ImgCloseEscaped();
    CharReplaceFive("<img src='", u, "' alt='", a, "' />", "<", "&lt;");
    ReplaceCharAbsent(u, "<", "&lt;");
    ReplaceCharAbsent(a, "<", "&lt;");
    CharReplaceFive("&lt;img src='", u, "' alt='", a, "' />", ">", "&gt;");
    ReplaceCharAbsent(u, ">", "&gt;");
    ReplaceCharAbsent(a, ">", "&gt;");
  }

  // ---------------------------------------------------------------------
  // The restore step, piece by piece

  /** An escaped '>' passes a restoration whose pattern begins "&l". */
  lemma GtPass(rest: string, pat: string, rep: string)
    requires |pat| > 1 && pat[0] == '&' && pat[1] == 'l'
    ensures Replace("&gt;" + rest, pat, rep) == "&gt;" + Replace(rest, pat, rep)
  {
    assert "&gt;"[1..] == "gt;";
    ReplaceMissThen("&gt;", rest, pat, rep, 1);
  }

  /** A final escaped '>' is shorter than every restoration pattern. */
  lemma GtLast(pat: string, rep: string)
    requires |pat| > 4
    ensures Replace("&gt;", pat, rep) == "&gt;"
  {
  }

  /** The first n restorations leave s alone: restoring starts at the n-th. */
  lemma {:induction false} RestoreKeeps(s: string, rs: seq<(string, string)>, n: nat)
    requires n <= |rs|
    requires forall i :: 0 <= i < |rs| ==> rs[i].0 != []
    requires forall i :: 0 <= i < n ==> Replace(s, rs[i].0, rs[i].1) == s
    ensures RestoreAll(s, rs) == RestoreAll(s, rs[n..])
    decreases n
  {
    if n > 0 {
      RestoreKeeps(s, rs[1..], n - 1);
      assert rs[1..][n - 1..] == rs[n..];
    }
  }

  lemma RestoreThree(s: string, p: (string, string), q: (string, string), r: (string, string))
    requires p.0 != [] && q.0 != [] && r.0 != []
    ensures RestoreAll(s, [p, q, r]) == Replace(Replace(Replace(s, p.0, p.1), q.0, q.1), r.0, r.1)
  {
    assert [p, q, r][1..] == [q, r];
    assert [q, r][1..] == [r];
    assert [r][1..] == [];
    var s1 := Replace(s, p.0, p.1);
    var s2 := Replace(s1, q.0, q.1);
    assert RestoreAll(s, [p, q, r]) == RestoreAll(s1, [q, r]);
    assert RestoreAll(s1, [q, r]) == RestoreAll(s2, [r]);
    assert RestoreAll(s2, [r]) == RestoreAll(Replace(s2, r.0, r.1), []);
  }

  lemma RestorationsFacts()
    ensures |Restorations| == 9
    ensures forall i :: 0 <= i < 9 ==> |Restorations[i].0| > 5 && Restorations[i].0[0] == '&' && Restorations[i].0[1] == 'l'
    ensures forall i :: 0 <= i < 6 ==> Restorations[i].0[4] != 'a' && (Restorations[i].0[4] != '/' || Restorations[i].0[5] != 'a')
    ensures forall i :: 0 <= i < 8 ==> Restorations[i].0[4] != 'i'
    ensures Restorations[6..] == [("&lt;a href=", "<a href="), ("&lt;/a&gt;", "</a>"), ("&lt;img ", "<img ")]
    ensures Restorations[8..] == [("&lt;img ", "<img ")]
  {
  }

  /** Literal pieces cut where the restore step needs them. */
  lemma LiteralCuts()
    ensures "&lt;a href='" == "&lt;a href=" + "'"
    ensures "'&gt;" == "'" + "&gt;"
    ensures "&lt;/a&gt;" == "&lt;/a" + "&gt;"
    ensures "<a href='" == "<a href=" + "'"
    ensures "&lt;img src='" == "&lt;img " + "src='"
    ensures "' /&gt;" == "' /" + "&gt;"
    ensures "<img src='" == "<img " + "src='"
    ensures "&lt;a href="[1..] == "lt;a href="
    ensures "&lt;/a"[1..] == "lt;/a"
    ensures "&lt;img "[1..] == "lt;img "
  {
  }

  lemma AssocAnchor(p1: string, p2: string, p3: string, p4: string, p5: string, p6: string, p7: string, p8: string)
    ensures p1 + p2 + p3 + (p4 + p5) + p6 + (p7 + p8)
            == p1 + (p2 + (p3 + (p4 + (p5 + (p6 + (p7 + p8))))))
  {
  }

  lemma AssocAnchorOut(p1: string, p2: string, p3: string, p4: string, p5: string, p6: string, p7: string)
    ensures p1 + (p2 + (p3 + (p4 + (p5 + (p6 + p7)))))
            == p1 + p2 + p3 + (p4 + p5) + p6 + p7
  {
  }

  lemma AssocImg(p1: string, p2: string, p3: string, p4: string, p5: string, p6: string, p7: string)
    ensures p1 + p2 + p3 + p4 + p5 + (p6 + p7)
            == p1 + (p2 + (p3 + (p4 + (p5 + (p6 + p7)))))
  {
  }

  /** The escaped anchor, cut into the pieces the restore step sees. */
  function EscapedAnchor(t: string, u: string): string {
    "&lt;a href=" + ("'" + (u + ("'" + ("&gt;" + (t + ("&lt;/a" + "&gt;"))))))
  }

  lemma EscapedAnchorIs(t: string, u: string)
    ensures "&lt;a href='" + u + "'&gt;" + t + "&lt;/a&gt;" == EscapedAnchor(t, u)
  {
    LiteralCuts();
    AssocAnchor("&lt;a href=", "'", u, "'", "&gt;", t, "&lt;/a", "&gt;");
  }

  /** The six restorations before `&lt;a href=` leave the escaped anchor alone. */
  lemma AnchorKept(t: string, u: string, pat: string, rep: string)
    requires Inert(t) && Inert(u)
    requires |pat| > 5 && pat[0] == '&' && pat[1] == 'l' && pat[4] != 'a' && (pat[4] != '/' || pat[5] != 'a')
    ensures Replace(EscapedAnchor(t, u), pat, rep) == EscapedAnchor(t, u)
  {
    LiteralCuts();
    var r5 := "&lt;/a" + "&gt;";
    var r4 := t + r5;
    var r3 := "&gt;" + r4;
    var r2 := "'" + r3;
    var r1 := u + r2;
    ReplaceMissThen("&lt;a href=", "'" + r1, pat, rep, 4);
    ReplaceFreeThen("'", r1, pat, rep);
    ReplaceFreeThen(u, r2, pat, rep);
    ReplaceFreeThen("'", r3, pat, rep);
    GtPass(r4, pat, rep);
    ReplaceFreeThen(t, r5, pat, rep);
    ReplaceMissThen("&lt;/a", "&gt;", pat, rep, if pat[4] != '/' then 4 else 5);
    GtLast(pat, rep);
  }

  /** `&lt;a href=` is restored at the front, and nowhere else. */
  lemma AnchorOpened(t: string, u: string)
    requires Inert(t) && Inert(u)
    ensures Replace(EscapedAnchor(t, u), "&lt;a href=", "<a href=")
            == "<a href=" + ("'" + (u + ("'" + ("&gt;" + (t + ("&lt;/a" + "&gt;"))))))
  {
    LiteralCuts();
    var pat := "&lt;a href=";
    var r5 := "&lt;/a" + "&gt;";
    var r4 := t + r5;
    var r3 := "&gt;" + r4;
    var r2 := "'" + r3;
    var r1 := u + r2;
    ReplaceHitThen(pat, "'" + r1, "<a href=");
    ReplaceFreeThen("'", r1, pat, "<a href=");
    ReplaceFreeThen(u, r2, pat, "<a href=");
    ReplaceFreeThen("'", r3, pat, "<a href=");
    GtPass(r4, pat, "<a href=");
    ReplaceFreeThen(t, r5, pat, "<a href=");
    ReplaceMissThen("&lt;/a", "&gt;", pat, "<a href=", 4);
    GtLast(pat, "<a href=");
  }

  /** `&lt;/a&gt;` is restored at the end. */
  lemma AnchorClosed(t: string, u: string)
    requires Inert(t) && Inert(u)
    ensures Replace("<a href=" + ("'" + (u + ("'" + ("&gt;" + (t + ("&lt;/a" + "&gt;")))))), "&lt;/a&gt;", "</a>")
            == "<a href=" + ("'" + (u + ("'" + ("&gt;" + (t + "</a>")))))
  {
    LiteralCuts();
    var pat := "&lt;/a&gt;";
    var r4 := t + pat;
    var r3 := "&gt;" + r4;
    var r2 := "'" + r3;
    var r1 := u + r2;
    ReplaceFreeThen("<a href=", "'" + r1, pat, "</a>");
    ReplaceFreeThen("'", r1, pat, "</a>");
    ReplaceFreeThen(u, r2, pat, "</a>");
    ReplaceFreeThen("'", r3, pat, "</a>");
    GtPass(r4, pat, "</a>");
    ReplaceFreeThen(t, pat, pat, "</a>");
    ReplaceHitThen(pat, [], "</a>");
    assert pat + [] == pat && "</a>" + [] == "</a>";
  }

  /** `&lt;img ` does not occur in the restored anchor. */
  lemma AnchorNoImg(t: string, u: string)
    requires Inert(t) && Inert(u)
    ensures Replace("<a href=" + ("'" + (u + ("'" + ("&gt;" + (t + "</a>"))))), "&lt;img ", "<img ")
            == "<a href=" + ("'" + (u + ("'" + ("&gt;" + (t + "</a>")))))
  {
    var pat := "&lt;img ";
    var r4 := t + "</a>";
    var r3 := "&gt;" + r4;
    var r2 := "'" + r3;
    var r1 := u + r2;
    ReplaceFreeThen("<a href=", "'" + r1, pat, "<img ");
    ReplaceFreeThen("'", r1, pat, "<img ");
    ReplaceFreeThen(u, r2, pat, "<img ");
    ReplaceFreeThen("'", r3, pat, "<img ");
    GtPass(r4, pat, "<img ");
    ReplaceFreeThen(t, "</a>", pat, "<img ");
    ReplaceCharFreeLast("</a>", pat, "<img ");
  }

  /** A piece without the pattern's first character, at the end, is kept. */
  lemma ReplaceCharFreeLast(x: string, pat: string, rep: string)
    requires pat != [] && pat[0] !in x
    ensures Replace(x, pat, rep) == x
  {
    ReplaceFreeThen(x, [], pat, rep);
    assert x + [] == x;
  }

  lemma LinkRestored(t: string, u: string)
    requires Inert(t) && Inert(u)
    ensures RestoreAll("&lt;a href='" + u + "'&gt;" + t + "&lt;/a&gt;", Restorations) == "<a href='" + u + "'&gt;" + t + "</a>"
  {
    var e := EscapedAnchor(t, u);
    EscapedAnchorIs(t, u);
    RestorationsFacts();
    forall i | 0 <= i < 6 ensures Replace(e, Restorations[i].0, Restorations[i].1) == e {
      AnchorKept(t, u, Restorations[i].0, Restorations[i].1);
    }
    RestoreKeeps(e, Restorations, 6);
    RestoreThree(e, ("&lt;a href=", "<a href="), ("&lt;/a&gt;", "</a>"), ("&lt;img ", "<img "));
    AnchorOpened(t, u);
    AnchorClosed(t, u);
    AnchorNoImg(t, u);
    LiteralCuts();
    AssocAnchorOut("<a href=", "'", u, "'", "&gt;", t, "</a>");
  }

  /** The escaped img tag, cut into the pieces the restore step sees. */
  function EscapedImg(a: string, u: string): string {
    "&lt;img " + ("src='" + (u + ("' alt='" + (a + ("' /" + "&gt;")))))
  }

  lemma EscapedImgIs(a: string, u: string)
    ensures "&lt;img src='" + u + "' alt='" + a + "' /&gt;" == EscapedImg(a, u)
  {
    LiteralCuts();
    AssocImg("&lt;img ", "src='", u, "' alt='", a, "' /", "&gt;");
  }

  /** The eight restorations before `&lt;img ` leave the escaped img tag alone. */
  lemma ImgKept(a: string, u: string, pat: string, rep: string)
    requires Inert(a) && Inert(u)
    requires |pat| > 5 && pat[0] == '&' && pat[1] == 'l' && pat[4] != 'i'
    ensures Replace(EscapedImg(a, u), pat, rep) == EscapedImg(a, u)
  {
    LiteralCuts();
    var r4 := "' /" + "&gt;";
    var r3 := a + r4;
    var r2 := "' alt='" + r3;
    var r1 := u + r2;
    ReplaceMissThen("&lt;img ", "src='" + r1, pat, rep, 4);
    ReplaceFreeThen("src='", r1, pat, rep);
    ReplaceFreeThen(u, r2, pat, rep);
    ReplaceFreeThen("' alt='", r3, pat, rep);
    ReplaceFreeThen(a, r4, pat, rep);
    ReplaceFreeThen("' /", "&gt;", pat, rep);
    GtLast(pat, rep);
  }

  /** `&lt;img ` is restored at the front. */
  lemma ImgOpened(a: string, u: string)
    requires Inert(a) && Inert(u)
    ensures Replace(EscapedImg(a, u), "&lt;img ", "<img ")
            == "<img " + ("src='" + (u + ("' alt='" + (a + ("' /" + "&gt;")))))
  {
    var pat := "&lt;img ";
    var r4 := "' /" + "&gt;";
    var r3 := a + r4;
    var r2 := "' alt='" + r3;
    var r1 := u + r2;
    ReplaceHitThen(pat, "src='" + r1, "<img ");
    ReplaceFreeThen("src='", r1, pat, "<img ");
    ReplaceFreeThen(u, r2, pat, "<img ");
    ReplaceFreeThen("' alt='", r3, pat, "<img ");
    ReplaceFreeThen(a, r4, pat, "<img ");
    ReplaceFreeThen("' /", "&gt;", pat, "<img ");
    GtLast(pat, "<img ");
  }

  lemma ImgRestored(a: string, u: string)
    requires Inert(a) && Inert(u)
    ensures RestoreAll("&lt;img src='" + u + "' alt='" + a + "' /&gt;", Restorations) == "<img src='" + u + "' alt='" + a + "' /&gt;"
  {
    var e := EscapedImg(a, u);
    EscapedImgIs(a, u);
    RestorationsFacts();
    forall i | 0 <= i < 8 ensures Replace(e, Restorations[i].0, Restorations[i].1) == e {
      ImgKept(a, u, Restorations[i].0, Restorations[i].1);
    }
    RestoreKeeps(e, Restorations, 8);
    ImgOpened(a, u);
    assert RestoreAll(e, [("&lt;img ", "<img ")]) == Replace(e, "&lt;img ", "<img ");
    LiteralCuts();
    AssocImg("<img ", "src='", u, "' alt='", a, "' /", "&gt;");
  }
}

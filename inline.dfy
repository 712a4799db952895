/** Inline markup of one line: `escape_inline` and `process_images`.

    Each `re.sub` with a lazy pattern becomes a scanner (`Sub`) that tries
    the pattern at the current position; on a match it emits the
    replacement and resumes right after the match, otherwise it copies one
    character and moves on. Lazy `.*?` captures take the first closing
    delimiter that lies before the next '\n' (the regex `.` does not match
    a newline); the code rule's `[^`]+` may span newlines. */
module Inline {
  import opened Text

  /** No '\n' lies in s[i..j]. */
  predicate InLine(s: string, i: nat, j: nat)
    requires i <= j <= |s|
  {
    forall k :: i <= k < j ==> s[k] != '\n'
  }

  /** Where a lazy `.*?` followed by the literal pat, started at i, stops:
      the first occurrence of pat at or after i that comes before any '\n'. */
  function FindInLine(s: string, pat: string, i: nat): (r: Option<nat>)
    requires pat != [] && pat[0] != '\n' && i <= |s|
    ensures r.Some? ==> i <= r.value && r.value + |pat| <= |s|
                        && s[r.value..r.value + |pat|] == pat && InLine(s, i, r.value)
    decreases |s| - i
  {
    if i + |pat| > |s| then None
    else if s[i..i + |pat|] == pat then Some(i)
    else if s[i] == '\n' then None
    else FindInLine(s, pat, i + 1)
  }

  /** FindInLine finds the first occurrence: pat does not occur at any j on
      the same line before the position found (or at all on the line, when
      nothing is found). */
  lemma {:induction false} FindInLineFirst(s: string, pat: string, i: nat, j: nat)
    requires pat != [] && pat[0] != '\n' && i <= j && j + |pat| <= |s| && InLine(s, i, j)
    requires FindInLine(s, pat, i).Some? ==> j < FindInLine(s, pat, i).value
    ensures s[j..j + |pat|] != pat
    decreases j - i
  {
    if j > i {
      assert s[i] != '\n';
      assert InLine(s, i + 1, j);
      FindInLineFirst(s, pat, i + 1, j);
    }
  }

  /** A match of one rule at the front of the remaining text: how many
      characters it consumes and what replaces them. */
  datatype Match = Match(len: nat, text: string)

  /** The five inline substitutions, in the order escape_inline applies them. */
  datatype Rule = Image | Link | Bold | Italic | Code

  function ImgTag(alt: string, src: string): string {
    "<img src='" + src + "' alt='" + alt + "' />"
  }

  function AnchorTag(text: string, href: string): string {
    "<a href='" + href + "'>" + text + "</a>"
  }

  /** `!\[(.*?)\]\((.*?)\)` tried at the front of s. */
  function ImageAt(s: string): (m: Option<Match>)
    ensures m.Some? ==> 0 < m.value.len <= |s|
  {
    if |s| >= 2 && s[0] == '!' && s[1] == '[' then
      match FindInLine(s, "](", 2)
      case None => None
      case Some(j) =>
        match FindInLine(s, ")", j + 2)
        case None => None
        case Some(k) => Some(Match(k + 1, ImgTag(s[2..j], s[j + 2..k])))
    else None
  }

  /** `\[(.*?)\]\((.*?)\)` tried at the front of s. */
  function LinkAt(s: string): (m: Option<Match>)
    ensures m.Some? ==> 0 < m.value.len <= |s|
  {
    if |s| >= 1 && s[0] == '[' then
      match FindInLine(s, "](", 1)
      case None => None
      case Some(j) =>
        match FindInLine(s, ")", j + 2)
        case None => None
        case Some(k) => Some(Match(k + 1, AnchorTag(s[1..j], s[j + 2..k])))
    else None
  }

  /** `\*\*(.*?)\*\*` tried at the front of s. */
  function BoldAt(s: string): (m: Option<Match>)
    ensures m.Some? ==> 0 < m.value.len <= |s|
  {
    if |s| >= 2 && s[0] == '*' && s[1] == '*' then
      match FindInLine(s, "**", 2)
      case None => None
      case Some(j) => Some(Match(j + 2, "<strong>" + s[2..j] + "</strong>"))
    else None
  }

  /** `\*(.*?)\*` tried at the front of s. */
  function ItalicAt(s: string): (m: Option<Match>)
    ensures m.Some? ==> 0 < m.value.len <= |s|
  {
    if |s| >= 1 && s[0] == '*' then
      match FindInLine(s, "*", 1)
      case None => None
      case Some(j) => Some(Match(j + 1, "<em>" + s[1..j] + "</em>"))
    else None
  }

  /** `` `([^`]+)` `` tried at the front of s: the capture runs to the next
      backtick and must not be empty. */
  function CodeAt(s: string): (m: Option<Match>)
    ensures m.Some? ==> 0 < m.value.len <= |s|
  {
    if |s| >= 1 && s[0] == '`' then
      var k := 1 + IndexOf(s[1..], '`');
      if 1 < k < |s| then Some(Match(k + 1, "<code>" + s[1..k] + "</code>")) else None
    else None
  }

  function MatchAt(r: Rule, s: string): (m: Option<Match>)
    ensures m.Some? ==> 0 < m.value.len <= |s|
  {
    match r
    case Image => ImageAt(s)
    case Link => LinkAt(s)
    case Bold => BoldAt(s)
    case Italic => ItalicAt(s)
    case Code => CodeAt(s)
  }

  /** re.sub(pattern of r, replacement of r, s). */
  function Sub(r: Rule, s: string): string
    decreases |s|
  {
    if s == [] then []
    else
      match MatchAt(r, s)
      case Some(m) => m.text + Sub(r, s[m.len..])
      case None => [s[0]] + Sub(r, s[1..])
  }

  /** process_images: the image substitution alone, with no escaping. */
  function ProcessImages(line: string): string {
    Sub(Image, line)
  }

  /** On a line that starts with '!', the output of process_images starts
      with that '!' (no image there) or with an img tag. */
  lemma ProcessImagesHead(l: string)
    requires l != [] && l[0] == '!'
    ensures ProcessImages(l) != []
    ensures ProcessImages(l)[0] == '!' || StartsWith(ProcessImages(l), "<img ")
  {
    match ImageAt(l)
    case Some(m) =>
      var tail := Sub(Image, l[m.len..]);
      assert ProcessImages(l) == m.text + tail;
      assert StartsWith(m.text, "<img ");
    case None =>
      assert ProcessImages(l) == [l[0]] + Sub(Image, l[1..]);
  }

  /** Step 6 of escape_inline: every '<' and every '>' escaped. */
  function EscapeAngles(s: string): string {
    Replace(Replace(s, "<", "&lt;"), ">", "&gt;")
  }

  /** The restore step of escape_inline, in its order: each pair is an
      escaped fragment and the markup it is turned back into. Only the
      prefixes of the anchor-open and image tags are restored. */
  const Restorations: seq<(string, string)> := [
    ("&lt;strong&gt;", "<strong>"), ("&lt;/strong&gt;", "</strong>"),
    ("&lt;em&gt;", "<em>"), ("&lt;/em&gt;", "</em>"),
    ("&lt;code&gt;", "<code>"), ("&lt;/code&gt;", "</code>"),
    ("&lt;a href=", "<a href="), ("&lt;/a&gt;", "</a>"),
    ("&lt;img ", "<img ")
  ]

  function RestoreAll(s: string, rs: seq<(string, string)>): string
    requires forall i :: 0 <= i < |rs| ==> rs[i].0 != []
    decreases |rs|
  {
    if rs == [] then s else RestoreAll(Replace(s, rs[0].0, rs[0].1), rs[1..])
  }

  /** The five substitutions of escape_inline, in their order. */
  function Substitute(text: string): string {
    Sub(Code, Sub(Italic, Sub(Bold, Sub(Link, Sub(Image, text)))))
  }

  /** escape_inline: image, link, bold, italic, code; then escape every
      angle bracket; then restore the whitelisted fragments. */
  function EscapeInline(text: string): string {
    RestoreAll(EscapeAngles(Substitute(text)), Restorations)
  }

  // ---------------------------------------------------------------------
  // Escaping safety

  /** The length of the whitelisted markup fragment s begins with, 0 if none. */
  function TagLen(s: string): (n: nat)
    ensures n > 0 ==> n <= |s| && s[0] == '<' && IsTag(s[..n])
  {
    if StartsWith(s, "<strong>") then 8
    else if StartsWith(s, "</strong>") then 9
    else if StartsWith(s, "<em>") then 4
    else if StartsWith(s, "</em>") then 5
    else if StartsWith(s, "<code>") then 6
    else if StartsWith(s, "</code>") then 7
    else if StartsWith(s, "<a href=") then 8
    else if StartsWith(s, "</a>") then 4
    else if StartsWith(s, "<img ") then 5
    else 0
  }

  predicate IsTag(t: string) {
    t == "<strong>" || t == "</strong>" || t == "<em>" || t == "</em>" || t == "<code>"
    || t == "</code>" || t == "<a href=" || t == "</a>" || t == "<img "
  }

  predicate EndsWith(s: string, t: string) {
    |t| <= |s| && s[|s| - |t|..] == t
  }

  /** s ends with one of the whitelisted fragments that end in '>'. */
  predicate EndsWithCloser(s: string) {
    EndsWith(s, "<strong>") || EndsWith(s, "</strong>") || EndsWith(s, "<em>")
    || EndsWith(s, "</em>") || EndsWith(s, "<code>") || EndsWith(s, "</code>")
    || EndsWith(s, "</a>")
  }

  /** s is a sequence of characters other than '<' and '>' and of whole
      whitelisted fragments. */
  predicate Markup(s: string)
    decreases |s|
  {
    if s == [] then true
    else if s[0] == '<' then 0 < TagLen(s) && Markup(s[TagLen(s)..])
    else s[0] != '>' && Markup(s[1..])
  }

  /** A whitelisted fragment at the front is recognised with its own length. */
  lemma TagLenOfTag(t: string, x: string)
    requires IsTag(t)
    ensures TagLen(t + x) == |t|
  {
    var s := t + x;
    assert s[..|t|] == t;
    assert s[1] == t[1] && s[2] == t[2];
    if t[1] == '/' {
      ClosingTagLen(t, s);
    } else {
      OpeningTagLen(t, s);
    }
  }

  lemma OpeningTagLen(t: string, s: string)
    requires IsTag(t) && t[1] != '/' && StartsWith(s, t) && s[1] == t[1]
    ensures TagLen(s) == |t|
  {
  }

  lemma ClosingTagLen(t: string, s: string)
    requires IsTag(t) && t[1] == '/' && StartsWith(s, t) && s[1] == t[1] && s[2] == t[2]
    ensures TagLen(s) == |t|
  {
  }

  /** Where '<', '>' and '&' sit inside a whitelisted fragment. */
  lemma TagChars(t: string)
    requires IsTag(t)
    ensures '&' !in t
    ensures forall i :: 0 < i < |t| ==> t[i] != '<'
    ensures forall i :: 0 <= i < |t| - 1 ==> t[i] != '>'
    ensures t[|t| - 1] == '>' ==> EndsWithCloser(t)
  {
  }

  /** The same facts, read off the text a fragment begins. */
  lemma TagAtFront(s: string)
    requires TagLen(s) > 0
    ensures forall i :: 0 < i < TagLen(s) ==> s[i] != '<'
    ensures forall i :: 0 <= i < TagLen(s) - 1 ==> s[i] != '>'
    ensures s[TagLen(s) - 1] == '>' ==> EndsWithCloser(s[..TagLen(s)])
  {
    var n := TagLen(s);
    TagChars(s[..n]);
    assert forall i :: 0 <= i < n ==> s[..n][i] == s[i];
  }

  lemma NoAngleIsMarkup(s: string)
    requires '<' !in s && '>' !in s
    ensures Markup(s)
    decreases |s|
  {
    if s != [] {
      NoAngleIsMarkup(s[1..]);
    }
  }

  /** Dropping leading characters that are not angle brackets keeps Markup. */
  lemma {:induction false} MarkupDrop(s: string, n: nat)
    requires Markup(s) && n <= |s|
    requires forall i :: 0 <= i < n ==> s[i] != '<' && s[i] != '>'
    ensures Markup(s[n..])
    decreases n
  {
    if n > 0 {
      MarkupDrop(s[1..], n - 1);
      assert s[1..][n - 1..] == s[n..];
    }
  }

  /** Replacing an '&'-led pattern without angle brackets by a whitelisted
      fragment keeps the text Markup: the pattern never meets a fragment. */
  lemma {:induction false} ReplaceKeepsMarkup(s: string, pat: string, tag: string)
    requires Markup(s) && pat != [] && pat[0] == '&' && '<' !in pat && '>' !in pat
    requires IsTag(tag)
    ensures Markup(Replace(s, pat, tag))
    decreases |s|
  {
    if |s| < |pat| {
    } else if s[..|pat|] == pat {
      assert forall i :: 0 <= i < |pat| ==> s[i] == pat[i];
      MarkupDrop(s, |pat|);
      ReplaceKeepsMarkup(s[|pat|..], pat, tag);
      MarkupTagThen(tag, Replace(s[|pat|..], pat, tag));
    } else if s[0] == '<' {
      var n := TagLen(s);
      var t := s[..n];
      TagChars(t);
      assert forall i :: 0 <= i < n ==> s[i] == t[i];
      ReplaceSkip(s, pat, tag, n);
      ReplaceKeepsMarkup(s[n..], pat, tag);
      MarkupTagThen(t, Replace(s[n..], pat, tag));
    } else {
      ReplaceKeepsMarkup(s[1..], pat, tag);
      MarkupCharThen(s[0], Replace(s[1..], pat, tag));
    }
  }

  /** A whitelisted fragment followed by markup is markup. */
  lemma MarkupTagThen(t: string, rest: string)
    requires IsTag(t) && Markup(rest)
    ensures Markup(t + rest)
  {
    TagLenOfTag(t, rest);
    assert (t + rest)[0] == t[0];
    assert (t + rest)[|t|..] == rest;
  }

  /** A character other than '<' and '>' followed by markup is markup. */
  lemma MarkupCharThen(c: char, rest: string)
    requires c != '<' && c != '>' && Markup(rest)
    ensures Markup([c] + rest)
  {
    assert ([c] + rest)[1..] == rest;
  }

  /** An escaped fragment free of angle brackets, led by '&', restored to a
      whitelisted fragment. */
  predicate RestoresTag(p: (string, string)) {
    p.0 != [] && p.0[0] == '&' && '<' !in p.0 && '>' !in p.0 && IsTag(p.1)
  }

  lemma RestorationsRestoreTags()
    ensures forall i :: 0 <= i < |Restorations| ==> RestoresTag(Restorations[i])
  {
  }

  lemma {:induction false} RestoreKeepsMarkup(s: string, rs: seq<(string, string)>)
    requires Markup(s)
    requires forall i :: 0 <= i < |rs| ==> rs[i].0 != [] && RestoresTag(rs[i])
    ensures Markup(RestoreAll(s, rs))
    decreases |rs|
  {
    if rs != [] {
      ReplaceKeepsMarkup(s, rs[0].0, rs[0].1);
      RestoreKeepsMarkup(Replace(s, rs[0].0, rs[0].1), rs[1..]);
    }
  }

  lemma EndsWithExtend(a: string, b: string, t: string)
    requires EndsWith(b, t)
    ensures EndsWith(a + b, t)
  {
    assert (a + b)[|a + b| - |t|..] == b[|b| - |t|..];
  }

  lemma EndsWithCloserExtend(a: string, b: string)
    requires EndsWithCloser(b)
    ensures EndsWithCloser(a + b)
  {
    if EndsWith(b, "<strong>") { EndsWithExtend(a, b, "<strong>"); }
    else if EndsWith(b, "</strong>") { EndsWithExtend(a, b, "</strong>"); }
    else if EndsWith(b, "<em>") { EndsWithExtend(a, b, "<em>"); }
    else if EndsWith(b, "</em>") { EndsWithExtend(a, b, "</em>"); }
    else if EndsWith(b, "<code>") { EndsWithExtend(a, b, "<code>"); }
    else if EndsWith(b, "</code>") { EndsWithExtend(a, b, "</code>"); }
    else { EndsWithExtend(a, b, "</a>"); }
  }

  /** In Markup text every '<' begins a whitelisted fragment. */
  lemma {:induction false} MarkupOpens(s: string)
    requires Markup(s)
    ensures forall i :: 0 <= i < |s| && s[i] == '<' ==> TagLen(s[i..]) > 0
    decreases |s|
  {
    if s != [] {
      var n := if s[0] == '<' then TagLen(s) else 1;
      var rest := s[n..];
      MarkupOpens(rest);
      if s[0] == '<' {
        TagAtFront(s);
      }
      forall i | 0 <= i < |s| && s[i] == '<'
        ensures TagLen(s[i..]) > 0
      {
        if i >= n {
          assert rest[i - n] == s[i];
          assert rest[i - n..] == s[i..];
        }
      }
    }
  }

  /** In Markup text every '>' ends a whitelisted fragment. */
  lemma {:induction false} MarkupCloses(s: string)
    requires Markup(s)
    ensures forall i :: 0 <= i < |s| && s[i] == '>' ==> EndsWithCloser(s[..i + 1])
    decreases |s|
  {
    if s != [] {
      var n := if s[0] == '<' then TagLen(s) else 1;
      MarkupCloses(s[n..]);
      if s[0] == '<' {
        TagAtFront(s);
      }
      forall i | 0 <= i < |s| && s[i] == '>'
        ensures EndsWithCloser(s[..i + 1])
      {
        CloserAt(s, n, i);
      }
    }
  }

  lemma CloserAt(s: string, n: nat, i: nat)
    requires 0 < n <= |s| && i < |s| && s[i] == '>'
    requires forall i :: 0 <= i < n - 1 ==> s[i] != '>'
    requires s[n - 1] == '>' ==> EndsWithCloser(s[..n])
    requires forall i :: 0 <= i < |s[n..]| && s[n..][i] == '>' ==> EndsWithCloser(s[n..][..i + 1])
    ensures EndsWithCloser(s[..i + 1])
  {
    var rest := s[n..];
    if i >= n {
      assert rest[i - n] == s[i];
      EndsWithCloserExtend(s[..n], rest[..i - n + 1]);
      assert s[..n] + rest[..i - n + 1] == s[..i + 1];
    } else {
      assert s[..i + 1] == s[..n];
    }
  }

  /** The escaping guarantee of escape_inline: in its result every '<'
      begins one of <strong>, </strong>, <em>, </em>, <code>, </code>,
      <a href=, </a>, <img ; every '>' ends one of <strong>, </strong>,
      <em>, </em>, <code>, </code>, </a>. No other raw angle bracket is
      left; InlineResults.EscapeLink and InlineResults.EscapeImage give the
      exact result for links and images. */
  lemma EscapeInlineSafe(text: string)
    ensures Markup(EscapeInline(text))
    ensures var r := EscapeInline(text);
            (forall i :: 0 <= i < |r| && r[i] == '<' ==> TagLen(r[i..]) > 0)
            && (forall i :: 0 <= i < |r| && r[i] == '>' ==> EndsWithCloser(r[..i + 1]))
  {
    var t := Substitute(text);
    var e1 := Replace(t, "<", "&lt;");
    ReplaceRemovesChar(t, '<', "&lt;");
    ReplaceRemovesChar(e1, '>', "&gt;");
    ReplaceKeepsOut(e1, ">", "&gt;", '<');
    NoAngleIsMarkup(EscapeAngles(t));
    RestorationsRestoreTags();
    RestoreKeepsMarkup(EscapeAngles(t), Restorations);
    assert EscapeInline(text) == RestoreAll(EscapeAngles(t), Restorations);
    MarkupOpens(EscapeInline(text));
    MarkupCloses(EscapeInline(text));
  }

  // ---------------------------------------------------------------------
  // Plain text

  /** s holds none of the characters that can start an inline rule. */
  predicate Quiet(s: string) {
    forall i :: 0 <= i < |s| ==> s[i] != '[' && s[i] != '*' && s[i] != '`'
  }

  /** No substitution touches quiet text. */
  lemma {:induction false} SubQuiet(r: Rule, s: string)
    requires Quiet(s)
    ensures Sub(r, s) == s
    decreases |s|
  {
    if s != [] {
      assert MatchAt(r, s).None?;
      SubQuiet(r, s[1..]);
    }
  }

  lemma {:induction false} OccursChar(s: string, c: char)
    requires Occurs(s, [c])
    ensures c in s
    decreases |s|
  {
    if StartsWith(s, [c]) {
      assert s[0] == s[..1][0];
    } else {
      OccursChar(s[1..], c);
      assert s[1..] == s[1..] && forall x :: x in s[1..] ==> x in s;
    }
  }

  /** Where a string occurs, so does each of its prefixes. */
  lemma {:induction false} OccursPrefix(s: string, p: string, q: string)
    requires Occurs(s, p) && StartsWith(p, q)
    ensures Occurs(s, q)
    decreases |s|
  {
    if StartsWith(s, p) {
      assert s[..|q|] == p[..|q|];
    } else {
      OccursPrefix(s[1..], p, q);
    }
  }

  /** The restore step changes nothing in text without "&lt;". */
  lemma {:induction false} RestoreAbsent(s: string, rs: seq<(string, string)>)
    requires forall i :: 0 <= i < |rs| ==> rs[i].0 != [] && StartsWith(rs[i].0, "&lt;")
    requires !Occurs(s, "&lt;")
    ensures RestoreAll(s, rs) == s
    decreases |rs|
  {
    if rs != [] {
      if Occurs(s, rs[0].0) {
        OccursPrefix(s, rs[0].0, "&lt;");
      }
      ReplaceAbsent(s, rs[0].0, rs[0].1);
      RestoreAbsent(s, rs[1..]);
    }
  }

  lemma RestorationsStartEscaped()
    ensures forall i :: 0 <= i < |Restorations| ==> Restorations[i].0 != [] && StartsWith(Restorations[i].0, "&lt;")
  {
  }

  /** A line with no '[', '*', backtick, '<' or '>', and no "&lt;", comes
      out of escape_inline unchanged. */
  lemma EscapePlain(s: string)
    requires Quiet(s) && '<' !in s && '>' !in s && !Occurs(s, "&lt;")
    ensures EscapeInline(s) == s
  {
    SubQuiet(Image, s);
    SubQuiet(Link, s);
    SubQuiet(Bold, s);
    SubQuiet(Italic, s);
    SubQuiet(Code, s);
    if Occurs(s, "<") { OccursChar(s, '<'); }
    if Occurs(s, ">") { OccursChar(s, '>'); }
    ReplaceAbsent(s, "<", "&lt;");
    ReplaceAbsent(s, ">", "&gt;");
    assert EscapeAngles(s) == s;
    RestorationsStartEscaped();
    RestoreAbsent(s, Restorations);
  }

  /** On quiet text escape_inline is just the escape and restore steps. */
  lemma QuietEscape(s: string)
    requires Quiet(s)
    ensures EscapeInline(s) == RestoreAll(EscapeAngles(s), Restorations)
  {
    SubQuiet(Image, s);
    SubQuiet(Link, s);
    SubQuiet(Bold, s);
    SubQuiet(Italic, s);
    SubQuiet(Code, s);
  }

  lemma QuietByMembership(s: string)
    requires '[' !in s && '*' !in s && '`' !in s
    ensures Quiet(s)
  {
  }

  lemma AbsentChar(s: string, c: char)
    requires c !in s
    ensures !Occurs(s, [c])
  {
    if Occurs(s, [c]) {
      OccursChar(s, c);
    }
  }

  /** Text that is already an escaped whitelisted tag is turned into the
      tag itself: the restore step cannot tell it from markup it made. */
  lemma EscapedTagRestored(s: string)
    requires s == "&lt;em&gt;"
    ensures EscapeInline(s) == "<em>"
  {
    QuietByMembership(s);
    QuietEscape(s);
    EscapedEmAngleFree(s);
    RestoreEscapedEm(s);
  }

  lemma EscapedEmAngleFree(s: string)
    requires s == "&lt;em&gt;"
    ensures EscapeAngles(s) == s
  {
    AbsentChar(s, '<');
    AbsentChar(s, '>');
    ReplaceAbsent(s, "<", "&lt;");
    ReplaceAbsent(s, ">", "&gt;");
  }

  lemma RestoreEscapedEm(s: string)
    requires s == "&lt;em&gt;"
    ensures RestoreAll(s, Restorations) == "<em>"
  {
    SkipStrongRestorations(s);
    EmRestoration(s);
    RestoreTailAmpFree();
  }

  lemma SkipStrongRestorations(s: string)
    requires s == "&lt;em&gt;"
    ensures RestoreAll(s, Restorations) == RestoreAll(s, Restorations[2..])
  {
    var rs := Restorations;
    RestorationsHead(rs);
    ReplaceShort(s, rs[0].0, rs[0].1);
    ReplaceShort(s, rs[1].0, rs[1].1);
  }

  lemma EmRestoration(s: string)
    requires s == "&lt;em&gt;"
    ensures RestoreAll(s, Restorations[2..]) == RestoreAll("<em>", Restorations[3..])
  {
    RestorationsHead(Restorations);
    EmRestored(s);
  }

  lemma RestoreTailAmpFree()
    ensures RestoreAll("<em>", Restorations[3..]) == "<em>"
  {
    RestorationsRestoreTags();
    AmpFree("<em>", Restorations[3..]);
  }

  lemma RestorationsHead(rs: seq<(string, string)>)
    requires rs == Restorations
    ensures |rs| == 9
    ensures rs[0] == ("&lt;strong&gt;", "<strong>") && rs[1] == ("&lt;/strong&gt;", "</strong>")
    ensures rs[2] == ("&lt;em&gt;", "<em>")
  {
  }

  lemma EmRestored(s: string)
    requires s == "&lt;em&gt;"
    ensures Replace(s, "&lt;em&gt;", "<em>") == "<em>"
  {
    assert s[..10] == "&lt;em&gt;";
    assert s[10..] == [];
  }

  /** Text without '&' is left alone by the restore step. */
  lemma {:induction false} AmpFree(s: string, rs: seq<(string, string)>)
    requires '&' !in s
    requires forall i :: 0 <= i < |rs| ==> rs[i].0 != [] && RestoresTag(rs[i])
    ensures RestoreAll(s, rs) == s
    decreases |rs|
  {
    if rs != [] {
      if Occurs(s, rs[0].0) {
        OccursPrefix(s, rs[0].0, "&");
        OccursChar(s, '&');
      }
      ReplaceAbsent(s, rs[0].0, rs[0].1);
      AmpFree(s, rs[1..]);
    }
  }
}

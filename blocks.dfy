/** md_to_html: each line of the document, right-stripped, is classified by
    its prefix and turned into one output line; runs of list items are
    wrapped in <ul>/<ol> containers that are opened and closed as the kind
    of line changes. The converter itself (`MdToHtml`) is the for loop of
    md_to_html with its two flags; `Render` is the same conversion stated
    line by line, and the lemmas below are about `Render`.

    Small lemmas such as `AppendAssoc` and `BetweenSplit` restate sequence
    facts Dafny already knows; they are stated apart so that each proof
    that uses them stays cheap for the solver, and model nothing. */
module Blocks {
  import opened Text
  import opened Inline
  import InlineRules

  type Level = n: nat | 1 <= n <= 3 witness 1

  /** What one right-stripped line is, by the first prefix that matches. */
  datatype Block =
    | Blank
    | Heading(level: Level, text: string)
    | Quote(text: string)
    | Item(ordered: bool, text: string)
    | ImageLine(line: string)
    | Para(text: string)

  /** The length of the run of digits s begins with. */
  function LeadingDigits(s: string): (n: nat)
    ensures n <= |s|
    ensures forall i :: 0 <= i < n ==> IsDigit(s[i])
    ensures n < |s| ==> !IsDigit(s[n])
    decreases |s|
  {
    if s != [] && IsDigit(s[0]) then 1 + LeadingDigits(s[1..]) else 0
  }

  /** `^\d+\.\s` matches s with d digits: d > 0 digits, a '.', whitespace. */
  predicate OrderedMarkerAt(s: string, d: nat) {
    0 < d && d + 2 <= |s| && (forall i :: 0 <= i < d ==> IsDigit(s[i]))
    && s[d] == '.' && IsSpace(s[d + 1])
  }

  /** The length of the numbered-list marker s begins with, 0 if none. */
  function OrderedPrefix(s: string): (n: nat)
    ensures n > 0 ==> n >= 3 && OrderedMarkerAt(s, n - 2)
  {
    var d := LeadingDigits(s);
    if OrderedMarkerAt(s, d) then d + 2 else 0
  }

  /** The prefix dispatch of md_to_html, on a right-stripped line. */
  function Classify(line: string): Block {
    if line == [] then Blank
    else if StartsWith(line, "### ") then Heading(3, line[4..])
    else if StartsWith(line, "## ") then Heading(2, line[3..])
    else if StartsWith(line, "# ") then Heading(1, line[2..])
    else if StartsWith(line, "> ") then Quote(line[2..])
    else if OrderedPrefix(line) > 0 then Item(true, line[OrderedPrefix(line)..])
    else if StartsWith(line, "- ") then Item(false, line[2..])
    else if StartsWith(line, "![") then ImageLine(line)
    else Para(line)
  }

  function LineBlock(line: string): Block {
    Classify(RStrip(line))
  }

  function HeadingOpen(n: Level): string {
    if n == 1 then "<h1>" else if n == 2 then "<h2>" else "<h3>"
  }

  function HeadingClose(n: Level): string {
    if n == 1 then "</h1>" else if n == 2 then "</h2>" else "</h3>"
  }

  // The line templates of md_to_html. The inline converter is a parameter
  // `esc` so that what is proved about lines and containers holds whatever
  // it does; the converter itself passes EscapeInline.

  /** f"<h{n}>{escape_inline(text)}</h{n}>" */
  function HeadingHtml(n: Level, text: string, esc: string -> string): string {
    HeadingOpen(n) + esc(text) + HeadingClose(n)
  }

  function QuoteHtml(text: string, esc: string -> string): string {
    "<blockquote>" + esc(text) + "</blockquote>"
  }

  function ItemHtml(text: string, esc: string -> string): string {
    "  <li>" + esc(text) + "</li>"
  }

  function ParaHtml(text: string, esc: string -> string): string {
    "<p>" + esc(text) + "</p>"
  }

  /** The output line a block becomes (container tags aside), with esc
      converting inline markup. */
  function Content(b: Block, esc: string -> string): string {
    match b
    case Blank => ""
    case Heading(n, t) => HeadingHtml(n, t, esc)
    case Quote(t) => QuoteHtml(t, esc)
    case Item(_, t) => ItemHtml(t, esc)
    case ImageLine(l) => ProcessImages(l)
    case Para(t) => ParaHtml(t, esc)
  }

  /** The output line an input line becomes. */
  function LineHtml(line: string, esc: string -> string): string {
    Content(LineBlock(line), esc)
  }

  /** Which list container is open: at most one ever is. */
  datatype ListKind = NoList | Unordered | Ordered

  function KindOf(b: Block): ListKind {
    if !b.Item? then NoList else if b.ordered then Ordered else Unordered
  }

  function OpenTags(k: ListKind): seq<string> {
    match k
    case NoList => []
    case Unordered => ["<ul>"]
    case Ordered => ["<ol>"]
  }

  function CloseTags(k: ListKind): seq<string> {
    match k
    case NoList => []
    case Unordered => ["</ul>"]
    case Ordered => ["</ol>"]
  }

  /** The container tags emitted before a line of kind next when the open
      container is prev. */
  function Between(prev: ListKind, next: ListKind): seq<string> {
    if prev == next then [] else CloseTags(prev) + OpenTags(next)
  }

  /** The output lines for the remaining input lines, with container open
      before them. */
  function Render(lines: seq<string>, open: ListKind, esc: string -> string): seq<string>
    decreases |lines|
  {
    if lines == [] then CloseTags(open)
    else
      var b := LineBlock(lines[0]);
      Between(open, KindOf(b)) + [Content(b, esc)] + Render(lines[1..], KindOf(b), esc)
  }

  /** The container the two flags of md_to_html say is open. */
  function State(inList: bool, inOl: bool): ListKind {
    if inList then Unordered else if inOl then Ordered else NoList
  }

  /** The statement pair md_to_html repeats before every line that is not a
      list item: close the <ul> if one is open, then the <ol>. */
  method CloseLists(inList0: bool, inOl0: bool) returns (closed: seq<string>, inList: bool, inOl: bool)
    requires !(inList0 && inOl0)
    ensures closed == CloseTags(State(inList0, inOl0))
    ensures !inList && !inOl
  {
    closed := [];
    inList, inOl := inList0, inOl0;
    if inList { closed := closed + ["</ul>"]; inList := false; }
    if inOl { closed := closed + ["</ol>"]; inOl := false; }
  }

  /** The statement pair md_to_html runs before a list item of kind k:
      close the container of the other kind if it is open, then open one of
      kind k unless it is already open. */
  method OpenList(inList0: bool, inOl0: bool, k: ListKind) returns (tags: seq<string>, inList: bool, inOl: bool)
    requires !(inList0 && inOl0) && k != NoList
    ensures tags == Between(State(inList0, inOl0), k)
    ensures State(inList, inOl) == k && !(inList && inOl)
  {
    tags := [];
    inList, inOl := inList0, inOl0;
    if k == Ordered {
      if inList { tags := tags + ["</ul>"]; inList := false; }
      if !inOl { tags := tags + ["<ol>"]; inOl := true; }
    } else {
      if inOl { tags := tags + ["</ol>"]; inOl := false; }
      if !inList { tags := tags + ["<ul>"]; inList := true; }
    }
  }

  /** Moving to a line that is no list item closes the open container. */
  lemma BetweenToNone(prev: ListKind)
    ensures Between(prev, NoList) == CloseTags(prev)
  {
  }

  /** The body of md_to_html's loop for one right-stripped line: the lines
      it appends and the new values of the two flags. */
  method ConvertLine(line: string, inList0: bool, inOl0: bool, esc: string -> string)
    returns (emitted: seq<string>, inList: bool, inOl: bool)
    requires !(inList0 && inOl0)
    ensures !(inList && inOl)
    ensures State(inList, inOl) == KindOf(Classify(line))
    ensures emitted == Between(State(inList0, inOl0), KindOf(Classify(line))) + [Content(Classify(line), esc)]
  {
    BetweenToNone(State(inList0, inOl0));
    if line == [] {
      emitted, inList, inOl := CloseLists(inList0, inOl0);
      emitted := emitted + [""];
      assert Classify(line) == Blank;
      return;
    }
    if StartsWith(line, "### ") {
      emitted, inList, inOl := CloseLists(inList0, inOl0);
      emitted := emitted + [HeadingHtml(3, line[4..], esc)];
      assert Classify(line) == Heading(3, line[4..]);
      return;
    }
    if StartsWith(line, "## ") {
      emitted, inList, inOl := CloseLists(inList0, inOl0);
      emitted := emitted + [HeadingHtml(2, line[3..], esc)];
      assert Classify(line) == Heading(2, line[3..]);
      return;
    }
    if StartsWith(line, "# ") {
      emitted, inList, inOl := CloseLists(inList0, inOl0);
      emitted := emitted + [HeadingHtml(1, line[2..], esc)];
      assert Classify(line) == Heading(1, line[2..]);
      return;
    }
    if StartsWith(line, "> ") {
      emitted, inList, inOl := CloseLists(inList0, inOl0);
      emitted := emitted + [QuoteHtml(line[2..], esc)];
      assert Classify(line) == Quote(line[2..]);
      return;
    }
    emitted, inList, inOl := ConvertItemOrPara(line, inList0, inOl0, esc);
  }

  /** The rest of the loop body, for a line that is not blank, not a
      heading and not a quote: a numbered item, a bulleted item, or a
      paragraph (an image line when it starts with "!["). */
  method ConvertItemOrPara(line: string, inList0: bool, inOl0: bool, esc: string -> string)
    returns (emitted: seq<string>, inList: bool, inOl: bool)
    requires !(inList0 && inOl0)
    requires line != [] && !StartsWith(line, "### ") && !StartsWith(line, "## ")
    requires !StartsWith(line, "# ") && !StartsWith(line, "> ")
    ensures !(inList && inOl)
    ensures State(inList, inOl) == KindOf(Classify(line))
    ensures emitted == Between(State(inList0, inOl0), KindOf(Classify(line))) + [Content(Classify(line), esc)]
  {
    ClassifyRest(line);
    BetweenToNone(State(inList0, inOl0));
    emitted := [];
    inList, inOl := inList0, inOl0;
    var marker := OrderedPrefix(line);
    if marker > 0 {
      emitted, inList, inOl := OpenList(inList0, inOl0, Ordered);
      var text := line[marker..];
      emitted := emitted + [ItemHtml(text, esc)];
      return;
    }
    if StartsWith(line, "- ") {
      emitted, inList, inOl := OpenList(inList0, inOl0, Unordered);
      emitted := emitted + [ItemHtml(line[2..], esc)];
      return;
    }
    emitted, inList, inOl := CloseLists(inList0, inOl0);
    if StartsWith(line, "![") {
      emitted := emitted + [ProcessImages(line)];
    } else {
      emitted := emitted + [ParaHtml(line, esc)];
    }
  }

  /** Classification of a line that is not blank, a heading or a quote. */
  lemma ClassifyRest(line: string)
    requires line != [] && !StartsWith(line, "### ") && !StartsWith(line, "## ")
    requires !StartsWith(line, "# ") && !StartsWith(line, "> ")
    ensures Classify(line)
         == if OrderedPrefix(line) > 0 then Item(true, line[OrderedPrefix(line)..])
            else if StartsWith(line, "- ") then Item(false, line[2..])
            else if StartsWith(line, "![") then ImageLine(line)
            else Para(line)
  {
  }

  lemma RenderStep(lines: seq<string>, i: nat, k: ListKind, esc: string -> string)
    requires i < |lines|
    ensures Render(lines[i..], k, esc)
         == Between(k, KindOf(Classify(RStrip(lines[i])))) + [Content(Classify(RStrip(lines[i])), esc)]
            + Render(lines[i + 1..], KindOf(Classify(RStrip(lines[i]))), esc)
  {
    RenderUnfold(lines[i..], k, esc);
    assert lines[i..][0] == lines[i] && lines[i..][1..] == lines[i + 1..];
  }

  /** md_to_html: the lines of the text converted one by one, the open
      container closed at the end, the output lines joined with '\n'. */
  method MdToHtml(mdText: string) returns (html: string)
    ensures html == Join(Render(Lines(mdText), NoList, EscapeInline), "\n")
  {
    var lines := Lines(mdText);
    var htmlLines: seq<string> := [];
    var inList := false;
    var inOl := false;
    assert lines[0..] == lines;
    for i := 0 to |lines|
      invariant !(inList && inOl)
      invariant htmlLines + Render(lines[i..], State(inList, inOl), EscapeInline) == Render(lines, NoList, EscapeInline)
    {
      RenderStep(lines, i, State(inList, inOl), EscapeInline);
      var emitted;
      emitted, inList, inOl := ConvertLine(RStrip(lines[i]), inList, inOl, EscapeInline);
      AppendAssoc(htmlLines, emitted, Render(lines[i + 1..], State(inList, inOl), EscapeInline));
      htmlLines := htmlLines + emitted;
    }
    assert lines[|lines|..] == [];
    assert htmlLines + CloseTags(State(inList, inOl)) == Render(lines, NoList, EscapeInline);
    if inList { htmlLines := htmlLines + ["</ul>"]; }
    if inOl { htmlLines := htmlLines + ["</ol>"]; }
    assert htmlLines == Render(lines, NoList, EscapeInline);
    html := Join(htmlLines, "\n");
  }

  lemma AppendAssoc(a: seq<string>, b: seq<string>, c: seq<string>)
    ensures (a + b) + c == a + (b + c)
  {
  }

  // ---------------------------------------------------------------------
  // Prefix dispatch

  /** `^\d+\.\s` can only match with the whole run of leading digits, so a
      line has at most one numbered-list marker and OrderedPrefix finds it. */
  lemma OrderedPrefixFinds(s: string, d: nat)
    requires OrderedMarkerAt(s, d)
    ensures OrderedPrefix(s) == d + 2
  {
    var n := LeadingDigits(s);
    assert !IsDigit(s[d]);
    assert n < |s| ==> !IsDigit(s[n]);
  }

  /** A line has a numbered-list marker exactly when OrderedPrefix is positive. */
  lemma OrderedPrefixSpec(s: string)
    ensures OrderedPrefix(s) > 0 <==> exists d :: OrderedMarkerAt(s, d)
  {
    if d :| OrderedMarkerAt(s, d) {
      OrderedPrefixFinds(s, d);
    }
  }

  /** "# ", "## ", "### " */
  function HeadingPrefix(n: Level): string {
    if n == 1 then "# " else if n == 2 then "## " else "### "
  }

  lemma ClassifyBlank(line: string)
    ensures Classify(line) == Blank <==> line == []
  {
  }

  /** A line is a heading of level n with text t exactly when it is n '#'
      characters, a space, and t. */
  lemma ClassifyHeading(line: string, n: Level, t: string)
    ensures Classify(line) == Heading(n, t) <==> line == HeadingPrefix(n) + t
  {
    if line == HeadingPrefix(n) + t {
      var p := HeadingPrefix(n);
      assert line[..|p|] == p;
      assert line[|p|..] == t;
      if n < 3 {
        assert line[n] == ' ';
        assert !StartsWith(line, "### ");
      }
      if n == 1 {
        assert !StartsWith(line, "## ");
      }
    }
    if Classify(line) == Heading(n, t) {
      assert line == line[..|HeadingPrefix(n)|] + line[|HeadingPrefix(n)|..];
    }
  }

  /** A line is a quote with text t exactly when it is "> " and t. */
  lemma ClassifyQuote(line: string, t: string)
    ensures Classify(line) == Quote(t) <==> line == "> " + t
  {
    if line == "> " + t {
      assert line[..2] == "> ";
      assert line[2..] == t;
      assert line[0] == '>';
    }
    if Classify(line) == Quote(t) {
      assert line == line[..2] + line[2..];
    }
  }

  /** A line is a bulleted item with text t exactly when it is "- " and t. */
  lemma ClassifyBullet(line: string, t: string)
    ensures Classify(line) == Item(false, t) <==> line == "- " + t
  {
    if line == "- " + t {
      assert line[..2] == "- ";
      assert line[2..] == t;
      assert line[0] == '-' && !IsDigit(line[0]);
      assert LeadingDigits(line) == 0;
    }
    if Classify(line) == Item(false, t) {
      assert line == line[..2] + line[2..];
    }
  }

  /** A line is a numbered item with text t exactly when it has a marker of
      digits, '.', whitespace, and t is what follows the marker. */
  lemma ClassifyNumbered(line: string, t: string)
    ensures Classify(line) == Item(true, t)
        <==> exists d :: OrderedMarkerAt(line, d) && t == line[d + 2..]
  {
    if d :| OrderedMarkerAt(line, d) && t == line[d + 2..] {
      OrderedPrefixFinds(line, d);
      assert IsDigit(line[0]);
    }
    if Classify(line) == Item(true, t) {
      var n := OrderedPrefix(line);
      assert OrderedMarkerAt(line, n - 2) && t == line[n..];
    }
  }

  /** A line is an image line exactly when it starts with "![" . */
  lemma ClassifyImage(line: string, l: string)
    ensures Classify(line) == ImageLine(l) <==> l == line && StartsWith(line, "![")
  {
    if StartsWith(line, "![") {
      assert line[0] == '!' && !IsDigit(line[0]);
      assert LeadingDigits(line) == 0;
    }
  }

  /** An image line is passed through process_images only: the img tag is
      produced and the text around it is neither escaped nor wrapped, so the
      escaping function plays no part. */
  lemma ImageLineUnescaped(a: string, u: string, rest: string, esc: string -> string)
    requires ']' !in a && '\n' !in a && ')' !in u && '\n' !in u && '!' !in rest
    requires rest == [] || !IsSpace(rest[|rest| - 1])
    ensures LineHtml("![" + a + "](" + u + ")" + rest, esc) == ImgTag(a, u) + rest
  {
    var line := "![" + a + "](" + u + ")" + rest;
    ImageLineShape(a, u, rest);
    ClassifyImage(line, line);
    ImageLineProcessed(a, u, rest);
  }

  lemma ImageLineShape(a: string, u: string, rest: string)
    requires rest == [] || !IsSpace(rest[|rest| - 1])
    ensures var line := "![" + a + "](" + u + ")" + rest;
            RStrip(line) == line && StartsWith(line, "![")
  {
    var line := "![" + a + "](" + u + ")" + rest;
    assert line[|line| - 1] == if rest == [] then ')' else rest[|rest| - 1];
    assert line[..2] == "![";
  }

  lemma ImageLineProcessed(a: string, u: string, rest: string)
    requires ']' !in a && '\n' !in a && ')' !in u && '\n' !in u && '!' !in rest
    ensures ProcessImages("![" + a + "](" + u + ")" + rest) == ImgTag(a, u) + rest
  {
    InlineRules.ImageStep(a, u, rest);
    InlineRules.SubNone(Image, rest);
  }

  /** Four or more '#' make a paragraph, not a heading. */
  lemma FourHashesPara(t: string)
    ensures Classify("####" + t) == Para("####" + t)
  {
    var line := "####" + t;
    assert line[..4] == "####";
    assert line[3] == '#' && line[2] == '#' && line[1] == '#';
    assert !IsDigit(line[0]) && LeadingDigits(line) == 0;
  }

  /** A '#' not followed by a space or another '#' makes a paragraph. */
  lemma HashWithoutSpacePara(t: string)
    requires t != [] && t[0] != ' ' && t[0] != '#'
    ensures Classify("#" + t) == Para("#" + t)
  {
    var line := "#" + t;
    assert line[1] == t[0];
    assert !IsDigit(line[0]) && LeadingDigits(line) == 0;
  }

  // ---------------------------------------------------------------------
  // Output lines and containers

  predicate IsContainerTag(s: string) {
    s == "<ul>" || s == "</ul>" || s == "<ol>" || s == "</ol>"
  }

  predicate IsItemLine(s: string) {
    StartsWith(s, "  <li>")
  }

  /** The four container tags are different strings. */
  lemma TagsDistinct()
    ensures "<ul>" != "</ul>" && "<ul>" != "<ol>" && "<ul>" != "</ol>"
    ensures "</ul>" != "<ol>" && "</ul>" != "</ol>" && "<ol>" != "</ol>"
  {
    assert "<ul>"[1] != "<ol>"[1];
    assert "</ul>"[2] != "</ol>"[2];
    assert |"<ul>"| != |"</ul>"| && |"<ol>"| != |"</ol>"|;
    assert |"<ul>"| != |"</ol>"| && |"<ol>"| != |"</ul>"|;
  }

  /** A line whose second character is none of 'u', 'o', '/' is no container tag. */
  lemma NotContainerTag(c: string)
    requires |c| >= 2 && c[1] != 'u' && c[1] != 'o' && c[1] != '/'
    ensures !IsContainerTag(c)
  {
    assert "<ul>"[1] == 'u' && "<ol>"[1] == 'o' && "</ul>"[1] == '/' && "</ol>"[1] == '/';
  }

  /** The output line of a classified line is never a container tag, is an
      item line exactly when the line is a list item, and is empty exactly
      when the line is blank. */
  lemma ContentShape(line: string, esc: string -> string)
    ensures !IsContainerTag(Content(Classify(line), esc))
    ensures IsItemLine(Content(Classify(line), esc)) <==> Classify(line).Item?
    ensures Content(Classify(line), esc) == [] <==> line == []
  {
    var b := Classify(line);
    ClassifyBlank(line);
    if b.ImageLine? {
      ClassifyImage(line, b.line);
    }
    BlockShape(b, esc);
  }

  lemma BlockShape(b: Block, esc: string -> string)
    requires b.ImageLine? ==> StartsWith(b.line, "![")
    ensures !IsContainerTag(Content(b, esc))
    ensures IsItemLine(Content(b, esc)) <==> b.Item?
    ensures Content(b, esc) == [] <==> b.Blank?
  {
    match b
    case Blank =>
    case Heading(n, t) => HeadingShape(n, t, esc);
    case Quote(t) => WrappedShape("<blockquote>", esc(t), "</blockquote>");
    case Item(_, t) => ItemShape(t, esc);
    case ImageLine(l) => ImageShape(l);
    case Para(t) => WrappedShape("<p>", esc(t), "</p>");
  }

  lemma HeadingShape(n: Level, t: string, esc: string -> string)
    ensures |HeadingHtml(n, t, esc)| >= 2 && HeadingHtml(n, t, esc)[..2] == "<h"
    ensures !IsContainerTag(HeadingHtml(n, t, esc)) && !IsItemLine(HeadingHtml(n, t, esc))
  {
    var c := HeadingHtml(n, t, esc);
    assert c == HeadingOpen(n) + (esc(t) + HeadingClose(n));
    assert c[0] == '<' && c[1] == 'h';
    NotContainerTag(c);
  }

  /** open + x + close, for a tag open of a letter other than 'u' and 'o'. */
  lemma WrappedShape(open: string, x: string, close: string)
    requires |open| >= 2 && open[0] == '<' && open[1] != 'u' && open[1] != 'o' && open[1] != '/'
    ensures open + x + close != [] && !IsContainerTag(open + x + close) && !IsItemLine(open + x + close)
  {
    var c := open + x + close;
    assert c[0] == '<' && c[1] == open[1];
    NotContainerTag(c);
  }

  lemma ItemShape(t: string, esc: string -> string)
    ensures ItemHtml(t, esc) != [] && !IsContainerTag(ItemHtml(t, esc)) && IsItemLine(ItemHtml(t, esc))
  {
    var c := ItemHtml(t, esc);
    assert c == "  <li>" + (esc(t) + "</li>");
    assert c[..6] == "  <li>";
    assert c[0] == ' ';
  }

  lemma ImageShape(l: string)
    requires StartsWith(l, "![")
    ensures ProcessImages(l) != [] && !IsContainerTag(ProcessImages(l)) && !IsItemLine(ProcessImages(l))
  {
    var c := ProcessImages(l);
    ProcessImagesHead(l);
    if c[0] != '!' {
      assert c[..5] == "<img ";
      assert c[0] == '<' && c[1] == 'i';
      NotContainerTag(c);
    }
  }

  /** The output lines, read top to bottom with container open, open and
      close containers properly: a container is opened only when none is
      open, closed only when it is the open one, item lines appear exactly
      while a container is open, and none is open at the end. */
  predicate Nested(out: seq<string>, open: ListKind)
    decreases |out|
  {
    if out == [] then open == NoList
    else
      var l := out[0];
      if l == "<ul>" then open == NoList && Nested(out[1..], Unordered)
      else if l == "<ol>" then open == NoList && Nested(out[1..], Ordered)
      else if l == "</ul>" then open == Unordered && Nested(out[1..], NoList)
      else if l == "</ol>" then open == Ordered && Nested(out[1..], NoList)
      else (IsItemLine(l) <==> open != NoList) && Nested(out[1..], open)
  }

  lemma NestedContent(c: string, rest: seq<string>, k: ListKind)
    requires !IsContainerTag(c) && (IsItemLine(c) <==> k != NoList)
    requires Nested(rest, k)
    ensures Nested([c] + rest, k)
  {
    assert ([c] + rest)[1..] == rest;
  }

  /** A container tag in front of lines that continue from the matching state. */
  lemma NestedTag(tag: string, rest: seq<string>, before: ListKind, after: ListKind)
    requires tag == "<ul>" ==> before == NoList && after == Unordered
    requires tag == "<ol>" ==> before == NoList && after == Ordered
    requires tag == "</ul>" ==> before == Unordered && after == NoList
    requires tag == "</ol>" ==> before == Ordered && after == NoList
    requires IsContainerTag(tag) && Nested(rest, after)
    ensures Nested([tag] + rest, before)
  {
    TagsDistinct();
    var x := [tag] + rest;
    assert x[0] == tag && x[1..] == rest;
  }

  lemma NestedOpen(rest: seq<string>, k: ListKind)
    requires k != NoList && Nested(rest, k)
    ensures Nested(OpenTags(k) + rest, NoList)
  {
    if k == Unordered {
      NestedTag("<ul>", rest, NoList, k);
    } else {
      NestedTag("<ol>", rest, NoList, k);
    }
  }

  lemma NestedClose(rest: seq<string>, k: ListKind)
    requires Nested(rest, NoList)
    ensures Nested(CloseTags(k) + rest, k)
  {
    if k == Unordered {
      NestedTag("</ul>", rest, k, NoList);
    } else if k == Ordered {
      NestedTag("</ol>", rest, k, NoList);
    } else {
      assert CloseTags(k) + rest == rest;
    }
  }

  lemma NestedStep(open: ListKind, next: ListKind, c: string, rest: seq<string>)
    requires !IsContainerTag(c) && (IsItemLine(c) <==> next != NoList)
    requires Nested(rest, next)
    ensures Nested(Between(open, next) + [c] + rest, open)
  {
    NestedContent(c, rest, next);
    var x := [c] + rest;
    BetweenSplit(open, next, c, rest);
    if open != next {
      var y := OpenTags(next) + x;
      if next != NoList {
        NestedOpen(x, next);
      }
      NestedClose(y, open);
    }
  }

  lemma BetweenSplit(open: ListKind, next: ListKind, c: string, rest: seq<string>)
    ensures Between(open, next) + [c] + rest
         == if open == next then [c] + rest else CloseTags(open) + (OpenTags(next) + ([c] + rest))
    ensures next == NoList ==> OpenTags(next) + ([c] + rest) == [c] + rest
  {
  }

  /** The output of md_to_html, before joining, is properly nested. */
  lemma {:induction false} RenderNested(lines: seq<string>, open: ListKind, esc: string -> string)
    ensures Nested(Render(lines, open, esc), open)
    decreases |lines|
  {
    if lines == [] {
      NestedClose([], open);
      assert CloseTags(open) + [] == CloseTags(open);
    } else {
      var line := RStrip(lines[0]);
      var b := Classify(line);
      RenderNested(lines[1..], KindOf(b), esc);
      ContentShape(line, esc);
      NestedStep(open, KindOf(b), Content(b, esc), Render(lines[1..], KindOf(b), esc));
    }
  }

  // ---------------------------------------------------------------------
  // One container per run of items

  /** The container kind each input line asks for. */
  function Kinds(lines: seq<string>): (ks: seq<ListKind>)
    ensures |ks| == |lines|
    decreases |lines|
  {
    if lines == [] then [] else [KindOf(LineBlock(lines[0]))] + Kinds(lines[1..])
  }

  /** How many maximal runs of k begin in ks, when the kind before ks is prev. */
  function RunStarts(ks: seq<ListKind>, prev: ListKind, k: ListKind): nat
    decreases |ks|
  {
    if ks == [] then 0
    else (if ks[0] == k && prev != k then 1 else 0) + RunStarts(ks[1..], ks[0], k)
  }

  /** How many maximal runs of k end in ks or at its end, when the kind
      before ks is prev. */
  function RunEnds(ks: seq<ListKind>, prev: ListKind, k: ListKind): nat
    decreases |ks|
  {
    if ks == [] then (if prev == k then 1 else 0)
    else (if prev == k && ks[0] != k then 1 else 0) + RunEnds(ks[1..], ks[0], k)
  }

  /** Every run that begins also ends: starting outside any run, there are as
      many ends as starts. */
  lemma {:induction false} RunsBalanced(ks: seq<ListKind>, prev: ListKind, k: ListKind)
    ensures RunEnds(ks, prev, k) == RunStarts(ks, prev, k) + (if prev == k then 1 else 0)
    decreases |ks|
  {
    if ks != [] {
      RunsBalanced(ks[1..], ks[0], k);
    }
  }

  function OpenTag(k: ListKind): string {
    if k == Ordered then "<ol>" else "<ul>"
  }

  function CloseTag(k: ListKind): string {
    if k == Ordered then "</ol>" else "</ul>"
  }

  /** How many times the container tags of kind k occur among the tags
      emitted between a line of kind prev and one of kind next. */
  lemma BetweenCounts(prev: ListKind, next: ListKind, k: ListKind)
    requires k != NoList
    ensures multiset(Between(prev, next))[OpenTag(k)] == (if next == k && prev != k then 1 else 0)
    ensures multiset(Between(prev, next))[CloseTag(k)] == (if prev == k && next != k then 1 else 0)
  {
    TagsDistinct();
    if prev != next {
      assert Between(prev, next) == CloseTags(prev) + OpenTags(next);
    }
  }

  lemma CloseCounts(prev: ListKind, k: ListKind)
    requires k != NoList
    ensures multiset(CloseTags(prev))[OpenTag(k)] == 0
    ensures multiset(CloseTags(prev))[CloseTag(k)] == (if prev == k then 1 else 0)
  {
    TagsDistinct();
  }

  lemma CountsStep(open: ListKind, next: ListKind, c: string, rest: seq<string>, k: ListKind)
    requires k != NoList && c != OpenTag(k) && c != CloseTag(k)
    ensures multiset(Between(open, next) + [c] + rest)[OpenTag(k)]
         == (if next == k && open != k then 1 else 0) + multiset(rest)[OpenTag(k)]
    ensures multiset(Between(open, next) + [c] + rest)[CloseTag(k)]
         == (if open == k && next != k then 1 else 0) + multiset(rest)[CloseTag(k)]
  {
    BetweenCounts(open, next, k);
    assert multiset(Between(open, next) + [c] + rest)
        == multiset(Between(open, next)) + multiset([c]) + multiset(rest);
  }

  /** The output holds one opening tag of kind k per maximal run of items of
      kind k, and one closing tag per run that ends. */
  lemma {:induction false} RenderCounts(lines: seq<string>, open: ListKind, k: ListKind, esc: string -> string)
    requires k != NoList
    ensures multiset(Render(lines, open, esc))[OpenTag(k)] == RunStarts(Kinds(lines), open, k)
    ensures multiset(Render(lines, open, esc))[CloseTag(k)] == RunEnds(Kinds(lines), open, k)
    decreases |lines|
  {
    if lines == [] {
      CloseCounts(open, k);
    } else {
      var b := LineBlock(lines[0]);
      var next := KindOf(b);
      RenderCounts(lines[1..], next, k, esc);
      ContentNotTag(lines[0], k, esc);
      CountsStep(open, next, Content(b, esc), Render(lines[1..], next, esc), k);
      RenderUnfold(lines, open, esc);
      RunsStep(lines, open, k);
    }
  }

  lemma ContentNotTag(line: string, k: ListKind, esc: string -> string)
    requires k != NoList
    ensures Content(LineBlock(line), esc) != OpenTag(k) && Content(LineBlock(line), esc) != CloseTag(k)
  {
    ContentShape(RStrip(line), esc);
  }

  lemma RenderUnfold(lines: seq<string>, open: ListKind, esc: string -> string)
    requires lines != []
    ensures Render(lines, open, esc)
         == Between(open, KindOf(LineBlock(lines[0]))) + [Content(LineBlock(lines[0]), esc)]
            + Render(lines[1..], KindOf(LineBlock(lines[0])), esc)
  {
  }

  lemma RunsStep(lines: seq<string>, open: ListKind, k: ListKind)
    requires lines != []
    ensures var next := KindOf(LineBlock(lines[0]));
            RunStarts(Kinds(lines), open, k)
            == (if next == k && open != k then 1 else 0) + RunStarts(Kinds(lines[1..]), next, k)
    ensures var next := KindOf(LineBlock(lines[0]));
            RunEnds(Kinds(lines), open, k)
            == (if open == k && next != k then 1 else 0) + RunEnds(Kinds(lines[1..]), next, k)
  {
    KindsStep(lines);
  }

  lemma KindsStep(lines: seq<string>)
    requires lines != []
    ensures Kinds(lines)[0] == KindOf(LineBlock(lines[0])) && Kinds(lines)[1..] == Kinds(lines[1..])
  {
  }

  /** Starting with no container open, the output of md_to_html opens and
      closes each kind of container equally often, once per maximal run of
      items of that kind. */
  lemma RenderBalanced(lines: seq<string>, k: ListKind, esc: string -> string)
    requires k != NoList
    ensures multiset(Render(lines, NoList, esc))[OpenTag(k)] == RunStarts(Kinds(lines), NoList, k)
    ensures multiset(Render(lines, NoList, esc))[CloseTag(k)] == RunStarts(Kinds(lines), NoList, k)
  {
    RenderCounts(lines, NoList, k, esc);
    RunsBalanced(Kinds(lines), NoList, k);
  }

  // ---------------------------------------------------------------------
  // One output line per input line

  /** The output lines that are not container tags. */
  function Contents(out: seq<string>): seq<string>
    decreases |out|
  {
    if out == [] then []
    else (if IsContainerTag(out[0]) then [] else [out[0]]) + Contents(out[1..])
  }

  lemma {:induction false} ContentsAppend(a: seq<string>, b: seq<string>)
    ensures Contents(a + b) == Contents(a) + Contents(b)
    decreases |a|
  {
    if a != [] {
      ContentsAppend(a[1..], b);
      var h: seq<string> := if IsContainerTag(a[0]) then [] else [a[0]];
      assert (a + b)[0] == a[0];
      assert (a + b)[1..] == a[1..] + b;
      assert Contents(a + b) == h + Contents(a[1..] + b);
      assert Contents(a) == h + Contents(a[1..]);
      assert h + (Contents(a[1..]) + Contents(b)) == (h + Contents(a[1..])) + Contents(b);
    } else {
      assert a + b == b;
    }
  }

  lemma BetweenContents(prev: ListKind, next: ListKind)
    ensures Contents(Between(prev, next)) == []
    ensures Contents(CloseTags(prev)) == []
  {
    ContentsAppend(CloseTags(prev), OpenTags(next));
  }

  /** Leaving out the container tags, the output has exactly one line per
      input line: the i-th is what the i-th input line converts to. */
  lemma {:induction false} RenderContents(lines: seq<string>, open: ListKind, esc: string -> string)
    ensures |Contents(Render(lines, open, esc))| == |lines|
    ensures forall i :: 0 <= i < |lines| ==> Contents(Render(lines, open, esc))[i] == LineHtml(lines[i], esc)
    decreases |lines|
  {
    if lines == [] {
      BetweenContents(open, NoList);
    } else {
      var b := LineBlock(lines[0]);
      var next := KindOf(b);
      var rest := Render(lines[1..], next, esc);
      RenderContents(lines[1..], next, esc);
      RenderUnfold(lines, open, esc);
      ContentShape(RStrip(lines[0]), esc);
      ContentsStep(open, next, Content(b, esc), rest);
      MapCons(lines, Contents(rest), l => LineHtml(l, esc));
    }
  }

  /** Container tags drop out; the line's own output line stays. */
  lemma ContentsStep(open: ListKind, next: ListKind, c: string, rest: seq<string>)
    requires !IsContainerTag(c)
    ensures Contents(Between(open, next) + [c] + rest) == [c] + Contents(rest)
  {
    BetweenContents(open, next);
    ContentsAppend(Between(open, next), [c]);
    ContentsAppend(Between(open, next) + [c], rest);
    assert Contents([c]) == [c];
  }

  /** An input line gives the empty output line exactly when it is blank
      (empty or all whitespace). */
  lemma LineHtmlEmpty(line: string, esc: string -> string)
    ensures LineHtml(line, esc) == [] <==> RStrip(line) == []
  {
    ContentShape(RStrip(line), esc);
  }
}

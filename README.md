# md_to_html, modelled in Dafny

`scripts/md_to_html.py` turns a Markdown blog post into the HTML body of an
IACWave page. This project models its core:

- **the frontmatter scan** (module `Frontmatter`). An optional `# Title` first
  line is followed by `Author:`, `Tags:` and `Description:` lines, with keys
  matched case-insensitively. The body starts at the first line that has no key.
- **the block converter `md_to_html`** (module `Blocks`). Each right-stripped line
  is dispatched on its prefix into a heading, a blockquote, a numbered or
  bulleted item, an image line, a paragraph or a blank line. Two flags track
  the open `<ul>` or `<ol>` container.
- **the inline converter `escape_inline` and `process_images`** (modules `Inline`
  and `InlineRules`). There are five regular-expression substitutions:
  images, links, bold, italic and code. Then every `<` and `>` is escaped,
  and a fixed list of tags is restored.
- **`estimate_reading_time`** (module `ReadingTime`). The word count is divided
  by 200 and rounded half to even, with a minimum of 1.

The module `Text` models the Python string operations the script uses:
`rstrip`, `strip`, `split(sep)`, `join`, `replace`, `splitlines` and `lower`.
The no-argument `split()` of `estimate_reading_time` is `ReadingTime.Words`.

The two loops of the script are methods with loops:

- `Blocks.MdToHtml` is the `for` loop of `md_to_html`, with its two flags. It is
  proved equal to `Blocks.Render`, a line-by-line definition of the same
  output. The structural lemmas are proved about `Render`.
- `Frontmatter.ScanKeys` is the `while` loop of the frontmatter scan. It is
  proved against the last-value functions `AuthorIn`, `TagsIn` and
  `DescriptionIn`.

Each `re.sub` is modelled as a left-to-right scanner (`Inline.Sub`) that tries
its pattern at each position. A lazy `.*?` stops at the first occurrence of
what follows it, and never crosses a line break, as in Python's default mode.
The class `[^`]+` does cross line breaks.

The block-level lemmas take the inline converter as a parameter `esc`. That
makes them hold for any inline conversion. `MdToHtml` instantiates `esc` with
`Inline.EscapeInline`.

## Model

| member | source | states |
|---|---|---|
| Blocks.MdToHtml | scripts/md_to_html.py:28-100 | The output is the rendering of the input's lines: converted one by one, the open container closed at the end, joined with '\n'. |
| Blocks.Render | scripts/md_to_html.py:31-98 | The line-by-line definition of md_to_html's output. Its properties are stated by Blocks.RenderNested, Blocks.RenderCounts, Blocks.RenderBalanced and Blocks.RenderContents, and Blocks.MdToHtml is proved equal to it. |
| Blocks.Classify | scripts/md_to_html.py:35-93 | The prefix dispatch of one right-stripped line, first match winning. Its cases are stated by the Blocks.Classify* lemmas below. |
| Blocks.LineHtml | scripts/md_to_html.py:35-93 | The output line of one input line. It is stated by Blocks.ContentShape, Blocks.LineHtmlEmpty and Blocks.ImageLineUnescaped. |
| Blocks.LineBlock | scripts/md_to_html.py:35-93 | One input line's block: rstrip, then the prefix dispatch. Blocks.LineHtmlEmpty states that the block is Blank exactly when the line is whitespace-only. |
| Blocks.Content | scripts/md_to_html.py:43-93 | The output line of each kind of block: '' for a blank line, the heading, quote, item or paragraph template, or process_images for an image line. Blocks.ContentShape states the shapes that follow. |
| Blocks.HeadingHtml | scripts/md_to_html.py:50-60 | The template `<hN>` + converted text + `</hN>`. Blocks.HeadingShape states its shape. |
| Blocks.QuoteHtml | scripts/md_to_html.py:67 | The template `<blockquote>` + converted text + `</blockquote>`. Blocks.ContentShape states that it is neither a container tag nor an item. |
| Blocks.ItemHtml | scripts/md_to_html.py:75-82 | The template `  <li>` + converted text + `</li>`. Blocks.ItemShape states its shape. |
| Blocks.ParaHtml | scripts/md_to_html.py:93 | The template `<p>` + converted text + `</p>`. Blocks.ContentShape states that it is neither a container tag nor an item. |
| Blocks.Between | scripts/md_to_html.py:37-87 | The container tags emitted before a line, given the list that is open and the kind of the line: none when they agree, otherwise the close of one and the open of the other. Blocks.ConvertLine, Blocks.OpenList and Blocks.RenderNested state it against the two flags. |
| Blocks.ConvertLine | scripts/md_to_html.py:35-93 | One loop step emits exactly the container tags needed to move from the open container to the line's own kind, then the line's output line. Afterwards the flags name the line's kind, and the two flags are never both set. |
| Blocks.ConvertItemOrPara | scripts/md_to_html.py:70-93 | For a line that is not blank, a heading or a quote, the step emits the container tags for the move to the line's kind, then the line's output line. Numbered items are tried before bulleted ones, and image lines are passed to process_images unescaped. |
| Blocks.OpenList | scripts/md_to_html.py:72-81 | Before a list item, the container of the other kind is closed if it is open, and one of the item's kind is opened unless it is already open. The emitted tags are exactly those needed to move to the new kind, and the flags then name that kind. |
| Blocks.CloseLists | scripts/md_to_html.py:37-42 | Closing before a non-item line emits `</ul>` if a `<ul>` was open, then `</ol>` if an `<ol>` was open, and clears both flags. |
| Blocks.ClassifyBlank | scripts/md_to_html.py:35-44 | A line gives a blank output line exactly when it is empty after rstrip. |
| Blocks.ClassifyHeading | scripts/md_to_html.py:47-61 | A line is a heading of level n with text t exactly when it is n '#' characters, a space, and t. |
| Blocks.ClassifyQuote | scripts/md_to_html.py:64-68 | A line is a blockquote with text t exactly when it is "> " followed by t. |
| Blocks.ClassifyNumbered | scripts/md_to_html.py:71-76 | A line is a numbered item with text t exactly when it starts with digits, '.', and one whitespace character, and t is what follows that marker. |
| Blocks.OrderedPrefixSpec | scripts/md_to_html.py:71 | The marker `^\d+\.\s` is found exactly when the line has one. |
| Blocks.ClassifyBullet | scripts/md_to_html.py:79-83 | A line is a bulleted item with text t exactly when it is "- " followed by t. |
| Blocks.ClassifyImage | scripts/md_to_html.py:90-91 | A line is an image line exactly when it starts with "![" and none of the earlier prefixes apply. |
| Blocks.ImageLineUnescaped | scripts/md_to_html.py:90-91 | A line `![a](u)` followed by rest becomes the img tag followed by rest, when the alt text a has no ']', the URL u has no ')', neither holds a line break, and rest has no '!' and does not end in whitespace. The rest is neither escaped nor wrapped in `<p>`, and the result does not depend on the inline converter. |
| Blocks.FourHashesPara | scripts/md_to_html.py:47-61 | "####" followed by anything is a paragraph, not a heading. |
| Blocks.HashWithoutSpacePara | scripts/md_to_html.py:57 | A '#' followed by a character other than a space or '#' starts a paragraph. |
| Blocks.ContentShape | scripts/md_to_html.py:43-93 | A line's output line is never a container tag. It is an `<li>` line exactly when the line is a list item, and empty exactly when the line is blank. |
| Blocks.RenderNested | scripts/md_to_html.py:31-98 | The output is properly nested: a container opens only when none is open, closes only when it is the open one, item lines appear exactly inside a container, and nothing is left open at the end. |
| Blocks.RunsBalanced | scripts/md_to_html.py:71-98 | Starting outside any run, every maximal run of list items that begins also ends. |
| Blocks.RenderCounts | scripts/md_to_html.py:71-98 | The output holds one opening tag per maximal run of items of that kind, and one closing tag per run that ends. |
| Blocks.RenderBalanced | scripts/md_to_html.py:31-98 | From the initial state, `<ul>` and `</ul>` each occur once per run of bulleted items, and `<ol>` and `</ol>` once per run of numbered items. |
| Blocks.RenderContents | scripts/md_to_html.py:34-93 | Leaving the container tags out, the output has exactly one line per input line, and the i-th such line is the conversion of the i-th input line. |
| Blocks.LineHtmlEmpty | scripts/md_to_html.py:35-44 | An input line gives an empty output line exactly when it is blank after rstrip. |
| Inline.FindInLineFirst | scripts/md_to_html.py:111-117 | A lazy `.*?` stops at the first occurrence of what follows it. No earlier position on the same line matches, and when the scan finds nothing, no position on the line matches. |
| Inline.FindInLine | scripts/md_to_html.py:111-117 | Where a lazy `.*?` followed by a literal stops: a position found lies on the same line, at or after the start, and holds the literal. Inline.FindInLineFirst states that it is the first such position. |
| Inline.ImageAt | scripts/md_to_html.py:111 | The image pattern tried at the front of the text; a match consumes at least one character. InlineRules.ImageStep states what it matches. |
| Inline.LinkAt | scripts/md_to_html.py:113 | The link pattern tried at the front of the text; a match consumes at least one character. InlineRules.LinkStep states what it matches. |
| Inline.BoldAt | scripts/md_to_html.py:115 | The bold pattern tried at the front of the text; a match consumes at least one character. InlineRules.BoldStep states what it matches. |
| Inline.ItalicAt | scripts/md_to_html.py:117 | The italic pattern tried at the front of the text; a match consumes at least one character. InlineRules.ItalicStep states what it matches. |
| Inline.CodeAt | scripts/md_to_html.py:119 | The code pattern tried at the front of the text; a match consumes at least one character. InlineRules.CodeStep states what it matches. |
| Inline.Sub | scripts/md_to_html.py:110-119 | One `re.sub`, scanning left to right without overlap. It is stated by InlineRules.SubSkip and the step lemmas. |
| Inline.ProcessImages | scripts/md_to_html.py:103-105 | process_images, the image substitution alone. It is stated by Inline.ProcessImagesHead and Blocks.ImageLineUnescaped. |
| Inline.EscapeAngles | scripts/md_to_html.py:121 | The escape step: '<' then '>' replaced. Inline.EscapeInlineSafe uses that no raw bracket survives it. |
| Inline.RestoreAll | scripts/md_to_html.py:122-127 | The restore step, the nine replacements in their order. It is stated by Inline.EscapeInlineSafe, Inline.EscapedTagRestored and the InlineResults lemmas. |
| Inline.Substitute | scripts/md_to_html.py:110-119 | The five `re.sub` calls of escape_inline in their order: image, link, bold, italic, code. InlineRules.ImageBeforeLink and InlineRules.BoldBeforeItalic state what that order decides. |
| Inline.EscapeInline | scripts/md_to_html.py:108-128 | escape_inline: the five substitutions, then the escape and restore steps. It is stated by Inline.EscapeInlineSafe, Inline.EscapePlain, Inline.EscapedTagRestored, InlineRules.TagEndsStayEscaped, InlineResults.EscapeLink and InlineResults.EscapeImage. |
| Inline.ProcessImagesHead | scripts/md_to_html.py:103-105 | On a line starting with '!', process_images' result starts either with that '!' or with an `<img ` tag. |
| Inline.EscapeInlineSafe | scripts/md_to_html.py:108-128 | In escape_inline's result, every '<' begins one of the restored tags (`<strong>`, `</strong>`, `<em>`, `</em>`, `<code>`, `</code>`, `<a href=`, `</a>`, `<img `), and every '>' ends one of `<strong>`, `</strong>`, `<em>`, `</em>`, `<code>`, `</code>`, `</a>`. No other raw angle bracket is left. What the escaped brackets become is stated for links and images by InlineResults.EscapeLink and InlineResults.EscapeImage. |
| Inline.EscapePlain | scripts/md_to_html.py:108-128 | Text without '[', '*', a backtick, '<', '>' or "&lt;" comes out of escape_inline unchanged. |
| Inline.QuietEscape | scripts/md_to_html.py:110-128 | On text none of the five patterns can match, escape_inline is just the escape step followed by the restore step. |
| Inline.EscapedTagRestored | scripts/md_to_html.py:121-127 | The text "&lt;em&gt;" comes out as the tag `<em>`: the restore step cannot tell escaped input from markup it made itself. |
| InlineRules.SubSkip | scripts/md_to_html.py:110-119 | A substitution leaves unchanged a prefix that lacks its pattern's first character. |
| InlineRules.ImageStep | scripts/md_to_html.py:111 | `![a](u)` becomes `<img src='u' alt='a' />`, and the scan resumes after the ')'. |
| InlineRules.LinkStep | scripts/md_to_html.py:113 | `[t](u)` becomes `<a href='u'>t</a>`, and the scan resumes after the ')'. |
| InlineRules.BoldStep | scripts/md_to_html.py:115 | `**b**` becomes `<strong>b</strong>`. |
| InlineRules.ItalicStep | scripts/md_to_html.py:117 | `*t*` becomes `<em>t</em>`. |
| InlineRules.CodeStep | scripts/md_to_html.py:119 | A backtick, a non-empty text without backticks and a backtick become `<code>…</code>`. |
| InlineRules.BoldAbsent | scripts/md_to_html.py:115 | Text without "**" passes the bold substitution unchanged. |
| InlineRules.ImageBeforeLink | scripts/md_to_html.py:110-119 | Because images are substituted before links, `![a](u)` gives an img tag and no anchor. |
| InlineRules.BoldBeforeItalic | scripts/md_to_html.py:114-117 | Because bold is substituted before italic, `**b** and *i*` gives `<strong>b</strong> and <em>i</em>`. |
| InlineRules.TagEndsStayEscaped | scripts/md_to_html.py:121-127 | No raw '>' in escape_inline's result follows a quote, a slash or a space. So the `'>` that ends an anchor's opening tag and the ` />` that ends an img tag never appear as markup. |
| InlineResults.EscapeLink | scripts/md_to_html.py:108-128 | For text t and URL u free of ``[ ] ( ) * ` ! < > &`` and line breaks, escape_inline turns `[t](u)` into `<a href='u'&gt;t</a>`: only `<a href=` and `</a>` are restored, and the '>' of the opening tag stays escaped. |
| InlineResults.EscapeImage | scripts/md_to_html.py:108-128 | For alt text a and URL u free of the same characters, escape_inline turns `![a](u)` into `<img src='u' alt='a' /&gt;`: the image rule runs before the link rule, so no anchor appears, and only `<img ` is restored. |
| ReadingTime.EstimateReadingTime | scripts/md_to_html.py:131-135 | The result is at least 1. It is the word count divided by 200, rounded to the nearest integer with ties to even, except that 0 becomes 1. |
| ReadingTime.Words | scripts/md_to_html.py:133 | `text.split()`: the maximal runs of non-whitespace characters, each non-empty and free of whitespace. ReadingTime.WordsJoin states the round trip. |
| ReadingTime.Minutes | scripts/md_to_html.py:134 | `max(1, round(words / 200))` on the word count: at least 1, and otherwise the quotient rounded half to even. ReadingTime.RoundDiv200Spec and ReadingTime.MinutesExamples state the rounding. |
| ReadingTime.RoundDiv200 | scripts/md_to_html.py:134 | `round(words / 200)` for a word count, rounding half to even. ReadingTime.RoundDiv200Spec and ReadingTime.RoundedQuotientUnique state that it is the one rounded quotient. |
| ReadingTime.RoundDiv200Spec | scripts/md_to_html.py:134 | The integer rounding is within one half of n / 200, and even when exactly one half away. |
| ReadingTime.RoundedQuotientUnique | scripts/md_to_html.py:134 | Only one integer is correctly rounded in that sense. |
| ReadingTime.MinutesExamples | scripts/md_to_html.py:134 | 400 words take 2 minutes, 50 take 1, 300 take 2 and 500 take 2. |
| ReadingTime.WordsJoin | scripts/md_to_html.py:133 | Non-empty words without whitespace, joined by single spaces, split back into the same words. |
| ReadingTime.ReadingTimeOfWords | scripts/md_to_html.py:131-135 | n words joined by spaces take the minutes for n words. |
| Frontmatter.ParseFrontmatter | scripts/md_to_html.py:168-195 | The keyed lines run from after the title to the body start, and the line at the body start has no key. The title and each field are those of the header lines. The body is `'\n'.join(lines[start_idx:]).strip()`. With no title and no keyed first line, the body starts at line 0 and is the whole text stripped. |
| Frontmatter.TitleOf | scripts/md_to_html.py:169-177 | The title: the first line less its '# ', stripped, when it starts with '# ', otherwise 'Post'. Frontmatter.ParseFrontmatter states that the header carries it. |
| Frontmatter.KeyOf | scripts/md_to_html.py:183-192 | Which key a line carries, tried in the order author, tags, description. It is stated by Frontmatter.KeyValue, Frontmatter.UpperCaseKey and Frontmatter.KeyOnlyAtStart. |
| Frontmatter.AfterColon | scripts/md_to_html.py:184-190 | `split(':', 1)[1]`: when the line holds a ':', the text after the first one. |
| Frontmatter.TagList | scripts/md_to_html.py:187 | The comma-split, stripped tags of a value. It is stated by Frontmatter.TagListSpec. |
| Frontmatter.LowerStartsWith | scripts/md_to_html.py:183 | `line.lower().startswith(p)` for a lower-case prefix p. Frontmatter.KeyValue, Frontmatter.UpperCaseKey and Frontmatter.KeyOnlyAtStart state its effect. |
| Frontmatter.AuthorIn | scripts/md_to_html.py:171-184 | The author the header loop leaves: the value of the last author line, or 'IACWave'. Frontmatter.ScanKeys, Frontmatter.LastKeyedIsLast, Frontmatter.LastKeyedNone and Frontmatter.LaterAuthorWins state it. |
| Frontmatter.DescriptionIn | scripts/md_to_html.py:170-190 | The description the header loop leaves: the value of the last description line, or ''. Frontmatter.ScanKeys, Frontmatter.LastKeyedIsLast and Frontmatter.LastKeyedNone state it. |
| Frontmatter.TagsIn | scripts/md_to_html.py:172-187 | The tags the header loop leaves: the tag list of the last tags line, or []. Frontmatter.ScanKeys, Frontmatter.LastKeyedIsLast and Frontmatter.TagListSpec state it. |
| Frontmatter.ScanKeys | scripts/md_to_html.py:181-193 | The loop stops at the first line without a key. Each field holds the value of the last line that set it, or its default. |
| Frontmatter.KeyValue | scripts/md_to_html.py:183-190 | A keyed line starts with its key in any case, and `split(':', 1)[1]` is exactly what follows the key. |
| Frontmatter.LastKeyedIsLast | scripts/md_to_html.py:181-193 | The last line carrying a key is the one whose value is kept. |
| Frontmatter.LastKeyedNone | scripts/md_to_html.py:169-172 | A field keeps its default exactly when no header line carries its key. |
| Frontmatter.LaterAuthorWins | scripts/md_to_html.py:183-185 | An author line overrides every earlier one. |
| Frontmatter.TagListSpec | scripts/md_to_html.py:187 | There is one tag per comma-separated piece, and the pieces join back into the value. Each tag is its piece stripped, contains no comma, and has no whitespace at either end. |
| Frontmatter.UpperCaseKey | scripts/md_to_html.py:186 | Keys match whatever their case: "TAGS: a" is a tags line. |
| Frontmatter.KeyOnlyAtStart | scripts/md_to_html.py:183 | A key counts only at the very start of the line: " author: Ann" has none. |
| Text.SplitOnJoin | scripts/md_to_html.py:187 | `','.join(s.split(','))` gives back s. |
| Text.LinesJoin | scripts/md_to_html.py:168-195 | Joining the lines with '\n' gives back the text, less one trailing '\n'. |
| Text.Lines | scripts/md_to_html.py:34 | `splitlines()` on '\n': no line holds a '\n', and the list is empty exactly when the text is. Text.LinesJoin states that joining the lines gives the text back, less one trailing '\n'. |
| Text.RStrip | scripts/md_to_html.py:35 | `rstrip()`: the longest prefix that does not end in whitespace; everything removed is whitespace. |
| Text.Strip | scripts/md_to_html.py:177 | `strip()`: a piece of the text that neither starts nor ends in whitespace, with only whitespace around it. |
| Text.Replace | scripts/md_to_html.py:121-127 | `str.replace`, left to right without overlap. It is stated by Text.ReplaceAbsent, Text.ReplaceSkip and Text.ReplaceCharAppend. |
| Text.SplitOn | scripts/md_to_html.py:187 | `split(',')`: Text.SplitOnJoin states that joining the pieces gives the text back. |
| Text.Join | scripts/md_to_html.py:100 | `sep.join(pieces)`: the pieces with sep between each two neighbours. It is the output of md_to_html and the body at line 195. Text.LinesJoin, Text.SplitOnJoin and ReadingTime.WordsJoin state its round trips with splitlines, split(sep) and split(). |
| Text.StartsWith | scripts/md_to_html.py:47-90 | `str.startswith`: p is a prefix of s. The prefix tests of md_to_html are stated through it by the Blocks.Classify* lemmas. |
| Text.LowerChar | scripts/md_to_html.py:183 | `str.lower()` on one character: A-Z map to a-z, and nothing else changes. Frontmatter.UpperCaseKey shows its effect on a key line. |

## Left out

- `splitlines` is modelled for '\n' line ends only. Python also splits on '\r', '\v', '\f', '\x1c'-'\x1e', '\x85' and the Unicode separators.
- Characters are treated as ASCII:
  - `\s`, `strip` and `split` use ASCII whitespace (9-13, 28-31 and 32);
  - `\d` is '0'-'9';
  - `lower` only folds 'A'-'Z'.
- `round(words / 200)` is computed on floats in the source. The model rounds the exact quotient half to even. For word counts of realistic size, floats divide by 200 exactly enough for the two to agree.
- Of `main`, only the frontmatter scan (lines 168-195) is modelled. `md_to_html`, `process_images`, `escape_inline` and `estimate_reading_time` are modelled in full. The rest of `main` is left out:
  - argument parsing, reading and writing files, `render_template`, today's date, the URL, the JSON-LD block and the console output;
  - everything after line 196, apart from the `estimate_reading_time` function it calls.
- The filter `if l is not None` at line 100 is dropped: no output line is ever `None`.
- The block-level lemmas take the inline converter as a parameter. They hold for `escape_inline` and for any other converter.
- InlineRules.ImageStep, InlineRules.LinkStep, InlineRules.BoldStep, InlineRules.ItalicStep: each states one match for captures without the closing delimiter or a line break. What the regex does when a capture would contain them is defined by `Inline.Sub` but not stated as a separate lemma.
- InlineRules.ImageBeforeLink, InlineRules.BoldBeforeItalic: the order examples are stated at the substitution stage (`Inline.Substitute`). For images, InlineResults.EscapeImage carries the example through the escape and restore steps. For bold and italic, the full escape_inline result of `**b** and *i*` is not stated as a lemma.
- Inline.EscapePlain: requires the text to contain no "&lt;" at all. That is sufficient but stronger than needed: only the escaped forms of the restored tags are turned back into tags.

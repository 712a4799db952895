/** The frontmatter scan at the top of the converter's entry point: an
    optional `# ` title line, then any number of `author:`, `tags:` and
    `description:` lines (matched case-insensitively), then the body.

    Small lemmas such as `SliceSnoc` restate sequence facts Dafny already
    knows; they are stated apart so that the loop's proof stays cheap for
    the solver, and model nothing. */
module Frontmatter {
  import opened Text

  datatype Key = Author | Tags | Description

  /** The header fields with the index of the first body line. */
  datatype Header = Header(title: string, author: string, description: string,
                           tags: seq<string>, bodyStart: nat)

  /** The lower-case prefix that introduces a header line of kind k. */
  function KeyName(k: Key): string {
    match k
    case Author => "author:"
    case Tags => "tags:"
    case Description => "description:"
  }

  /** s.lower().startswith(p), for ASCII text s and a lower-case prefix p. */
  predicate LowerStartsWith(s: string, p: string) {
    |p| <= |s| && forall i :: 0 <= i < |p| ==> LowerChar(s[i]) == p[i]
  }

  /** Which header key a line carries, trying author, tags, description in
      that order; None ends the header. */
  function KeyOf(line: string): Option<Key> {
    if LowerStartsWith(line, "author:") then Some(Author)
    else if LowerStartsWith(line, "tags:") then Some(Tags)
    else if LowerStartsWith(line, "description:") then Some(Description)
    else None
  }

  /** line.split(':', 1)[1]: everything after the first ':'. */
  function AfterColon(s: string): (r: string)
    ensures ':' in s ==> |r| < |s| && s[|s| - |r| - 1] == ':'
                         && ':' !in s[..|s| - |r| - 1] && r == s[|s| - |r|..]
  {
    var k := IndexOf(s, ':');
    if k < |s| then
      assert s[..k] == s[..|s| - |s[k + 1..]| - 1];
      s[k + 1..]
    else []
  }

  /** [t.strip() for t in value.split(',')] */
  function TagList(value: string): seq<string> {
    StripAll(SplitOn(value, ','))
  }

  function StripAll(ps: seq<string>): (r: seq<string>)
    ensures |r| == |ps|
    decreases |ps|
  {
    if ps == [] then [] else [Strip(ps[0])] + StripAll(ps[1..])
  }

  /** The last line of xs that carries key k, if any. */
  function LastKeyed(xs: seq<string>, k: Key): Option<string>
    decreases |xs|
  {
    if xs == [] then None
    else if KeyOf(xs[|xs| - 1]) == Some(k) then Some(xs[|xs| - 1])
    else LastKeyed(xs[..|xs| - 1], k)
  }

  /** The author a run of header lines leaves: the last author line's value,
      or the default 'IACWave'. */
  function AuthorIn(xs: seq<string>): string {
    match LastKeyed(xs, Author)
    case None => "IACWave"
    case Some(l) => Strip(AfterColon(l))
  }

  function DescriptionIn(xs: seq<string>): string {
    match LastKeyed(xs, Description)
    case None => ""
    case Some(l) => Strip(AfterColon(l))
  }

  function TagsIn(xs: seq<string>): seq<string> {
    match LastKeyed(xs, Tags)
    case None => []
    case Some(l) => TagList(AfterColon(l))
  }

  predicate HasTitle(lines: seq<string>) {
    lines != [] && StartsWith(lines[0], "# ")
  }

  /** The title: the first line less its '# ', stripped, or 'Post'. */
  function TitleOf(lines: seq<string>): string {
    if HasTitle(lines) then Strip(lines[0][2..]) else "Post"
  }

  /** Where the keyed lines begin: after the title line, if there is one. */
  function KeysStart(lines: seq<string>): nat {
    if HasTitle(lines) then 1 else 0
  }

  /** Splits the Markdown text into its header and its body text:
      '\n'.join(lines[start_idx:]).strip(). */
  method ParseFrontmatter(md: string) returns (h: Header, body: string)
    ensures KeysStart(Lines(md)) <= h.bodyStart <= |Lines(md)|
    ensures h.title == TitleOf(Lines(md))
    ensures forall j :: KeysStart(Lines(md)) <= j < h.bodyStart ==> KeyOf(Lines(md)[j]).Some?
    ensures h.bodyStart < |Lines(md)| ==> KeyOf(Lines(md)[h.bodyStart]) == None
    ensures h.author == AuthorIn(Lines(md)[KeysStart(Lines(md))..h.bodyStart])
    ensures h.description == DescriptionIn(Lines(md)[KeysStart(Lines(md))..h.bodyStart])
    ensures h.tags == TagsIn(Lines(md)[KeysStart(Lines(md))..h.bodyStart])
    ensures body == Strip(Join(Lines(md)[h.bodyStart..], "\n"))
    ensures !HasTitle(Lines(md)) && (Lines(md) == [] || KeyOf(Lines(md)[0]) == None)
            ==> h.bodyStart == 0 && body == Strip(DropFinalNewline(md))
  {
    var lines := Lines(md);
    var title := "Post";
    var startIdx := 0;
    if lines != [] && StartsWith(lines[0], "# ") {
      title := Strip(lines[0][2..]);
      startIdx := 1;
    }
    var author, description, tags;
    startIdx, author, description, tags := ScanKeys(lines, startIdx);
    h := Header(title, author, description, tags, startIdx);
    body := Strip(Join(lines[startIdx..], "\n"));
    if startIdx == 0 {
      assert lines[0..] == lines;
      LinesJoin(md);
    }
  }

  /** The while loop over the keyed lines from index k0: it stops at the
      first line without a key, and each field holds the value of the last
      line that set it, or its default. */
  method ScanKeys(lines: seq<string>, k0: nat)
    returns (startIdx: nat, author: string, description: string, tags: seq<string>)
    requires k0 <= |lines|
    ensures k0 <= startIdx <= |lines|
    ensures forall j :: k0 <= j < startIdx ==> KeyOf(lines[j]).Some?
    ensures startIdx < |lines| ==> KeyOf(lines[startIdx]) == None
    ensures author == AuthorIn(lines[k0..startIdx])
    ensures description == DescriptionIn(lines[k0..startIdx])
    ensures tags == TagsIn(lines[k0..startIdx])
  {
    description := "";
    author := "IACWave";
    tags := [];
    startIdx := k0;
    ghost var seen: seq<string> := [];
    while startIdx < |lines|
      invariant k0 <= startIdx <= |lines|
      invariant seen == lines[k0..startIdx]
      invariant forall j :: 0 <= j < |seen| ==> KeyOf(seen[j]).Some?
      invariant author == AuthorIn(seen)
      invariant description == DescriptionIn(seen)
      invariant tags == TagsIn(seen)
      decreases |lines| - startIdx
    {
      var line := lines[startIdx];
      match KeyOf(line) {
        case Some(Author) => author := Strip(AfterColon(line));
        case Some(Tags) => tags := TagList(AfterColon(line));
        case Some(Description) => description := Strip(AfterColon(line));
        case None => break;
      }
      HeaderStep(seen, line);
      KeyedSnoc(seen, line);
      SliceSnoc(lines, k0, startIdx);
      seen := seen + [line];
      startIdx := startIdx + 1;
    }
    KeyedRun(lines, k0, startIdx, seen);
  }

  lemma KeyedSnoc(seen: seq<string>, line: string)
    requires KeyOf(line).Some?
    requires forall j :: 0 <= j < |seen| ==> KeyOf(seen[j]).Some?
    ensures forall j :: 0 <= j < |seen + [line]| ==> KeyOf((seen + [line])[j]).Some?
  {
  }

  lemma SliceSnoc(lines: seq<string>, k0: nat, i: nat)
    requires k0 <= i < |lines|
    ensures lines[k0..i] + [lines[i]] == lines[k0..i + 1]
  {
  }

  lemma KeyedRun(lines: seq<string>, k0: nat, i: nat, seen: seq<string>)
    requires k0 <= i <= |lines| && seen == lines[k0..i]
    requires forall j :: 0 <= j < |seen| ==> KeyOf(seen[j]).Some?
    ensures forall j :: k0 <= j < i ==> KeyOf(lines[j]).Some?
  {
    forall j | k0 <= j < i
      ensures KeyOf(lines[j]).Some?
    {
      assert seen[j - k0] == lines[j];
    }
  }

  /** One more header line changes only the field its key names. */
  lemma HeaderStep(seen: seq<string>, line: string)
    ensures AuthorIn(seen + [line])
            == if KeyOf(line) == Some(Author) then Strip(AfterColon(line)) else AuthorIn(seen)
    ensures DescriptionIn(seen + [line])
            == if KeyOf(line) == Some(Description) then Strip(AfterColon(line)) else DescriptionIn(seen)
    ensures TagsIn(seen + [line])
            == if KeyOf(line) == Some(Tags) then TagList(AfterColon(line)) else TagsIn(seen)
  {
    LastKeyedSnoc(seen, line, Author);
    LastKeyedSnoc(seen, line, Description);
    LastKeyedSnoc(seen, line, Tags);
  }

  lemma LastKeyedSnoc(seen: seq<string>, line: string, k: Key)
    ensures LastKeyed(seen + [line], k)
            == if KeyOf(line) == Some(k) then Some(line) else LastKeyed(seen, k)
  {
    var xs := seen + [line];
    assert xs[|xs| - 1] == line;
    assert xs[..|xs| - 1] == seen;
  }

  /** A keyed line's value is what follows its key: the key's own ':' is the
      line's first. */
  lemma KeyValue(line: string, k: Key)
    requires KeyOf(line) == Some(k)
    ensures LowerStartsWith(line, KeyName(k))
    ensures |KeyName(k)| <= |line| && AfterColon(line) == line[|KeyName(k)|..]
  {
    var n := |KeyName(k)|;
    assert forall i :: 0 <= i < n - 1 ==> line[i] != ':' by {
      forall i | 0 <= i < n - 1 ensures line[i] != ':' {
        assert LowerChar(line[i]) == KeyName(k)[i] != ':';
      }
    }
    assert LowerChar(line[n - 1]) == ':';
    assert line[n - 1] == ':';
    assert IndexOf(line, ':') == n - 1;
  }

  /** The last repeated key wins: the line LastKeyed picks is keyed k, and
      no later line is. */
  lemma {:induction false} LastKeyedIsLast(xs: seq<string>, k: Key, j: nat)
    requires j < |xs| && KeyOf(xs[j]) == Some(k)
    requires forall i :: j < i < |xs| ==> KeyOf(xs[i]) != Some(k)
    ensures LastKeyed(xs, k) == Some(xs[j])
    decreases |xs|
  {
    if j < |xs| - 1 {
      var ys := xs[..|xs| - 1];
      LastKeyedIsLast(ys, k, j);
    }
  }

  /** A key that never occurs keeps its default. */
  lemma {:induction false} LastKeyedNone(xs: seq<string>, k: Key)
    ensures LastKeyed(xs, k) == None <==> forall i :: 0 <= i < |xs| ==> KeyOf(xs[i]) != Some(k)
    decreases |xs|
  {
    if xs != [] {
      var ys := xs[..|xs| - 1];
      LastKeyedNone(ys, k);
      assert forall i :: 0 <= i < |ys| ==> ys[i] == xs[i];
    }
  }

  /** An author line repeated later overrides the earlier one. */
  lemma LaterAuthorWins(xs: seq<string>, a: string, ys: seq<string>)
    requires KeyOf(a) == Some(Author)
    requires forall i :: 0 <= i < |ys| ==> KeyOf(ys[i]) != Some(Author)
    ensures AuthorIn(xs + [a] + ys) == Strip(a[|"author:"|..])
  {
    var zs := xs + [a] + ys;
    assert zs[|xs|] == a;
    assert forall i :: |xs| < i < |zs| ==> zs[i] == ys[i - |xs| - 1];
    LastKeyedIsLast(zs, Author, |xs|);
    KeyValue(a, Author);
  }

  /** Tags are the comma-separated pieces of the value, each stripped: joining
      the pieces with ',' gives the value back, every tag is its piece less
      surrounding whitespace, and no tag holds a ',' or starts or ends with
      whitespace. */
  lemma TagListSpec(value: string)
    ensures |TagList(value)| == |SplitOn(value, ',')| >= 1
    ensures Join(SplitOn(value, ','), ",") == value
    ensures forall i :: 0 <= i < |TagList(value)| ==>
              TagList(value)[i] == Strip(SplitOn(value, ',')[i])
    ensures forall i :: 0 <= i < |TagList(value)| ==> ',' !in TagList(value)[i]
    ensures forall i :: 0 <= i < |TagList(value)| ==>
              (TagList(value)[i] == []
               || (!IsSpace(TagList(value)[i][0]) && !IsSpace(TagList(value)[i][|TagList(value)[i]| - 1])))
  {
    var ps := SplitOn(value, ',');
    SplitOnJoin(value, ',');
    StripAllSpec(ps);
    forall i | 0 <= i < |ps| ensures ',' !in TagList(value)[i] {
      StripKeepsOut(ps[i], ',');
    }
  }

  lemma {:induction false} StripAllSpec(ps: seq<string>)
    ensures forall i :: 0 <= i < |ps| ==> StripAll(ps)[i] == Strip(ps[i])
    decreases |ps|
  {
    if ps != [] {
      StripAllSpec(ps[1..]);
      MapCons(ps, StripAll(ps[1..]), p => Strip(p));
    }
  }

  /** Stripping only removes characters. */
  lemma StripKeepsOut(s: string, c: char)
    requires c !in s
    ensures c !in Strip(s)
  {
    var r := Strip(s);
    var k: nat :| TrimmedAt(s, k, r);
    assert forall i :: 0 <= i < |r| ==> r[i] == s[k + i];
  }

  /** Keys match whatever their case. */
  lemma UpperCaseKey()
    ensures KeyOf("TAGS: a") == Some(Tags)
  {
    var line := "TAGS: a";
    assert !LowerStartsWith(line, "author:") by {
      assert LowerChar(line[0]) == 't';
    }
    assert LowerStartsWith(line, "tags:") by {
      assert LowerChar(line[0]) == 't' && LowerChar(line[1]) == 'a';
      assert LowerChar(line[2]) == 'g' && LowerChar(line[3]) == 's';
      assert LowerChar(line[4]) == ':';
    }
  }

  /** A key counts only at the very start of the line. */
  lemma KeyOnlyAtStart()
    ensures KeyOf(" author: Ann") == None
  {
    var line := " author: Ann";
    assert LowerChar(line[0]) == ' ';
  }
}

/**
  The renderer: `MarkdownConverter` configures a TurndownService (ATX
  headings, fenced code blocks, `*` for emphasis, the GFM plugin) and adds
  three rules of its own; `convert` turns markup into Markdown behind a YAML
  frontmatter block. Turndown's own conversion is a parameter (`Turndown`);
  what is modelled is the configuration, the framing, and the filters and
  replacements of the three rules.
 */
module Markdown {
  import opened Wrappers
  import opened Strings
  import opened Dom

  // ---------------------------------------------------------------------
  // Configuration
  // ---------------------------------------------------------------------

  /** The TurndownService options that matter here. */
  datatype Options = Options(headingStyle: string, codeBlockStyle: string,
                             emDelimiter: string, fence: string)

  /** What the converter passes, with Turndown's default fence. */
  const ConverterOptions := Options("atx", "fenced", "*", "```")

  datatype Plugin = Gfm

  datatype RuleName = FencedCodeBlock | SalesforceCallouts | RemoveEmptyLinks

  /** A TurndownService's configuration: its options, the plugins it uses
      and its added rules, in the order it consults them. `addRule` puts a
      rule in front of those added before it. */
  datatype Service = Service(options: Options, plugins: seq<Plugin>, rules: seq<RuleName>)

  /** The rules `addSalesforceRules` adds, in the order they are consulted. */
  const SalesforceRules := [RemoveEmptyLinks, SalesforceCallouts, FencedCodeBlock]

  /** `metadata.title` and `metadata.url`, either of which may be missing. */
  datatype Metadata = Metadata(title: Option<string>, url: Option<string>)

  /** `turndownService.turndown(html)` under a configuration. */
  type Turndown = (Service, string) -> string

  class MarkdownConverter {
    var turndownService: Service

    constructor ()
      ensures turndownService == Service(ConverterOptions, [Gfm], SalesforceRules)
    {
      turndownService := Service(ConverterOptions, [], []);
      new;
      turndownService := turndownService.(plugins := turndownService.plugins + [Gfm]);
      AddSalesforceRules();
    }

    /** Registers the three rules; the one registered last is consulted first. */
    method AddSalesforceRules()
      modifies this
      ensures turndownService
           == old(turndownService).(rules := SalesforceRules + old(turndownService.rules))
    {
      turndownService := turndownService.(rules := [FencedCodeBlock] + turndownService.rules);
      turndownService := turndownService.(rules := [SalesforceCallouts] + turndownService.rules);
      turndownService := turndownService.(rules := [RemoveEmptyLinks] + turndownService.rules);
    }

    /** `convert(html, metadata)`, with the clock's ISO 8601 reading as
        `fetchedAt`. No markup, no output; otherwise the frontmatter, then
        Turndown's Markdown unchanged. */
    function Convert(html: Option<string>, metadata: Metadata, fetchedAt: string,
                     turndown: Turndown): (r: string)
      reads this
      ensures html.None? || html == Some("") ==> r == ""
      ensures html.Some? && html.value != "" ==>
                StartsWith(r, "---\n") && EndsWith(r, turndown(turndownService, html.value))
    {
      if html.None? || html.value == "" then ""
      else
        var markdown := turndown(turndownService, html.value);
        Frontmatter(Header(TitleText(metadata.title), UrlText(metadata.url), fetchedAt)) + markdown
    }
  }

  // ---------------------------------------------------------------------
  // Frontmatter
  // ---------------------------------------------------------------------

  /** `metadata.title || 'Untitled'` */
  function TitleText(title: Option<string>): (r: string)
    ensures r != ""
    ensures title.Some? && title.value != "" ==> r == title.value
    ensures r == "Untitled" <==> title.None? || title.value == "" || title.value == "Untitled"
  {
    if title.None? || title.value == "" then "Untitled" else title.value
  }

  /** `${metadata.url}`: a missing URL prints as "undefined". */
  function UrlText(url: Option<string>): (r: string)
    ensures url.Some? ==> r == url.value
    ensures url.None? ==> r == "undefined"
  {
    url.GetOr("undefined")
  }

  /** The three values of the frontmatter block. */
  datatype Header = Header(title: string, url: string, fetchedAt: string)

  /** `parts.join(sep)` */
  function Join(parts: seq<string>, sep: string): string {
    if parts == [] then ""
    else if |parts| == 1 then parts[0]
    else parts[0] + sep + Join(parts[1..], sep)
  }

  /** The frontmatter block: seven lines joined by line feeds, the last two
      empty. It opens with a `---` line and closes with a `---` line and a
      blank line, so the Markdown after it starts on a line of its own. */
  function Frontmatter(h: Header): (r: string)
    ensures StartsWith(r, "---\n")
    ensures EndsWith(r, "\n---\n\n")
  {
    var tl := TitleField + h.title + "\"";
    var ul := UrlField + h.url + "\"";
    var fl := FetchedAtField + h.fetchedAt + "\"";
    SevenLines(tl, ul, fl);
    Join(["---", tl, ul, fl, "---", "", ""], "\n")
  }

  /** The openings of the three field lines. */
  const TitleField := "title: \""
  const UrlField := "url: \""
  const FetchedAtField := "fetched_at: \""

  /** One field line: its opening, the value, a closing quote, a line feed. */
  function FieldLine(open: string, value: string): string {
    open + value + "\"" + "\n"
  }

  /** The same block written line by line: an opening delimiter, the three
      fields, a closing delimiter and one blank line. */
  function Block(h: Header): string {
    "---\n" + (FieldLine(TitleField, h.title) + (FieldLine(UrlField, h.url)
      + (FieldLine(FetchedAtField, h.fetchedAt) + "---\n\n")))
  }

  lemma ClosingLines(last: string)
    ensures Join([last, "---", "", ""], "\n") == last + "\n" + "---\n\n"
  {
    assert Join(["", ""], "\n") == "" + "\n" + Join([""], "\n");
    assert Join(["---", "", ""], "\n") == "---" + "\n" + Join(["", ""], "\n");
  }

  /** The seven lines of the block, joined. */
  lemma SevenLines(tl: string, ul: string, fl: string)
    ensures Join(["---", tl, ul, fl, "---", "", ""], "\n")
         == "---\n" + (tl + "\n" + (ul + "\n" + (fl + "\n" + "---\n\n")))
  {
    ClosingLines(fl);
    assert Join([ul, fl, "---", "", ""], "\n") == ul + "\n" + Join([fl, "---", "", ""], "\n");
    assert Join([tl, ul, fl, "---", "", ""], "\n") == tl + "\n" + Join([ul, fl, "---", "", ""], "\n");
  }

  /** Joining the seven lines gives the block line by line. */
  lemma FrontmatterLines(h: Header)
    ensures Frontmatter(h) == Block(h)
  {
    SevenLines(TitleField + h.title + "\"", UrlField + h.url + "\"", FetchedAtField + h.fetchedAt + "\"");
  }

  /** No line feed in `s`. */
  predicate SingleLine(s: string) {
    forall k :: 0 <= k < |s| ==> s[k] != '\n'
  }

  /** The first index at or after `i` that holds `c`, or `|s|`. */
  function Find(s: string, c: char, i: nat): (k: nat)
    requires i <= |s|
    ensures i <= k <= |s|
    ensures forall m :: i <= m < k ==> s[m] != c
    ensures k < |s| ==> s[k] == c
    decreases |s| - i
  {
    if i < |s| && s[i] != c then Find(s, c, i + 1) else i
  }

  /** Where a character is first found after a prefix free of it. */
  lemma {:induction false} FindAfter(a: string, c: char, b: string, i: nat)
    requires i <= |a| && forall m :: i <= m < |a| ==> a[m] != c
    requires b != [] && b[0] == c
    ensures Find(a + b, c, i) == |a|
    decreases |a| - i
  {
    if i < |a| {
      FindAfter(a, c, b, i + 1);
    }
  }

  /** Reads one field line with this opening off the front of `s`: the
      value and what follows the line. */
  function ReadField(s: string, open: string): (r: Option<(string, string)>)
    ensures r.Some? ==> SingleLine(r.value.0) && s == FieldLine(open, r.value.0) + r.value.1
  {
    var e := Find(s, '\n', 0);
    if e < |s| && |open| + 1 <= e && s[..|open|] == open && s[e - 1] == '"' then
      var v := s[|open|..e - 1];
      assert s == FieldLine(open, v) + s[e + 1..] by {
        assert s == s[..|open|] + v + s[e - 1..e + 1] + s[e + 1..];
      }
      Some((v, s[e + 1..]))
    else None
  }

  lemma ReadFieldLine(open: string, v: string, rest: string)
    requires SingleLine(open) && SingleLine(v)
    ensures ReadField(FieldLine(open, v) + rest, open) == Some((v, rest))
  {
    var s := FieldLine(open, v) + rest;
    var line := open + v + "\"";
    assert s == line + ("\n" + rest);
    forall m | 0 <= m < |line| ensures line[m] != '\n' {
      if m < |open| {
        assert line[m] == open[m];
      } else if |open| <= m < |open| + |v| {
        assert line[m] == v[m - |open|];
      }
    }
    FindAfter(line, '\n', "\n" + rest, 0);
    assert s[..|open|] == open;
    assert s[|line| - 1] == '"';
    assert s[|open|..|line| - 1] == v;
    assert s[|line| + 1..] == rest;
  }

  /** Splits a document into its frontmatter and the text after it. */
  function ReadDocument(s: string): (r: Option<(Header, string)>)
    ensures r.Some? ==> s == Block(r.value.0) + r.value.1
  {
    if !StartsWith(s, "---\n") then None
    else match ReadField(s[4..], TitleField)
      case None => None
      case Some((t, s1)) =>
        match ReadField(s1, UrlField)
        case None => None
        case Some((u, s2)) =>
          match ReadField(s2, FetchedAtField)
          case None => None
          case Some((f, s3)) =>
            if StartsWith(s3, "---\n\n") then
              BlockThen(Header(t, u, f), s3[5..]);
              assert s3 == "---\n\n" + s3[5..];
              assert s == "---\n" + s[4..];
              Some((Header(t, u, f), s3[5..]))
            else None
  }

  /** The block followed by a text, line by line. */
  lemma BlockThen(h: Header, body: string)
    ensures Block(h) + body
         == "---\n" + (FieldLine(TitleField, h.title) + (FieldLine(UrlField, h.url)
              + (FieldLine(FetchedAtField, h.fetchedAt) + ("---\n\n" + body))))
  {
  }

  /** The field openings are one line each. */
  lemma OpeningsSingleLine()
    ensures SingleLine(TitleField) && SingleLine(UrlField) && SingleLine(FetchedAtField)
  {
  }

  /** A frontmatter block of one-line values reads back, and so does the
      text after it. */
  lemma FrontmatterReadsBack(h: Header, body: string)
    requires SingleLine(h.title) && SingleLine(h.url) && SingleLine(h.fetchedAt)
    ensures ReadDocument(Block(h) + body) == Some((h, body))
  {
    var rest3 := "---\n\n" + body;
    var rest2 := FieldLine(FetchedAtField, h.fetchedAt) + rest3;
    var rest1 := FieldLine(UrlField, h.url) + rest2;
    var s := Block(h) + body;
    OpeningsSingleLine();
    assert StartsWith(s, "---\n") && s[4..] == FieldLine(TitleField, h.title) + rest1 by {
      assert s == "---\n" + (FieldLine(TitleField, h.title) + rest1);
    }
    ReadFieldLine(TitleField, h.title, rest1);
    ReadFieldLine(UrlField, h.url, rest2);
    ReadFieldLine(FetchedAtField, h.fetchedAt, rest3);
    assert StartsWith(rest3, "---\n\n") && rest3[5..] == body;
  }

  /** What `convert` returns for markup reads back as the header it was
      given and exactly the Markdown Turndown made. */
  lemma ConvertReadsBack(c: MarkdownConverter, html: string, metadata: Metadata,
                         fetchedAt: string, turndown: Turndown)
    requires html != ""
    requires SingleLine(TitleText(metadata.title)) && SingleLine(UrlText(metadata.url))
    requires SingleLine(fetchedAt)
    ensures ReadDocument(c.Convert(Some(html), metadata, fetchedAt, turndown))
         == Some((Header(TitleText(metadata.title), UrlText(metadata.url), fetchedAt),
                  turndown(c.turndownService, html)))
  {
    var h := Header(TitleText(metadata.title), UrlText(metadata.url), fetchedAt);
    FrontmatterLines(h);
    FrontmatterReadsBack(h, turndown(c.turndownService, html));
  }

  // ---------------------------------------------------------------------
  // Rule: fencedCodeBlock
  // ---------------------------------------------------------------------

  /** `/language-(\S+)/` matches at `i`: "language-" followed by at least
      one character that is not whitespace. */
  predicate LanguageAt(s: string, i: nat) {
    OccursAt(s, "language-", i) && i + 9 < |s| && !IsJsWhitespace(s[i + 9])
  }

  /** The leftmost match at or after `i`. */
  function FindLanguage(s: string, i: nat): (r: Option<nat>)
    ensures r.None? <==> forall k :: i <= k ==> !LanguageAt(s, k)
    ensures r.Some? ==> i <= r.value && LanguageAt(s, r.value)
    ensures r.Some? ==> forall k :: i <= k < r.value ==> !LanguageAt(s, k)
    decreases |s| - i
  {
    if |s| <= i then None
    else if LanguageAt(s, i) then Some(i)
    else FindLanguage(s, i + 1)
  }

  /** The end of the run of non-whitespace that starts at `i`. */
  function RunEnd(s: string, i: nat): (k: nat)
    requires i <= |s|
    ensures i <= k <= |s|
    ensures forall m :: i <= m < k ==> !IsJsWhitespace(s[m])
    ensures k < |s| ==> IsJsWhitespace(s[k])
    decreases |s| - i
  {
    if i < |s| && !IsJsWhitespace(s[i]) then RunEnd(s, i + 1) else i
  }

  /** `(className.match(/language-(\S+)/) || [null, ''])[1]`: the group of
      the leftmost match, which `\S+` makes as long as it can be; "" when
      nothing matches. */
  function Language(cls: string): (r: string)
    ensures NoWhitespace(r)
    ensures r == "" <==> forall k :: !LanguageAt(cls, k)
    ensures r != "" ==>
              var k := FindLanguage(cls, 0).value;
              && k + 9 + |r| <= |cls| && cls[k + 9..k + 9 + |r|] == r
              && (k + 9 + |r| < |cls| ==> IsJsWhitespace(cls[k + 9 + |r|]))
  {
    var m := FindLanguage(cls, 0);
    if m.None? then ""
    else
      LanguageRun(cls, m.value);
      cls[m.value + 9..RunEnd(cls, m.value + 9)]
  }

  /** The group of a match at `k`: a non-empty run without whitespace,
      ended by whitespace or by the end of the class list. */
  lemma LanguageRun(cls: string, k: nat)
    requires LanguageAt(cls, k)
    ensures var r := cls[k + 9..RunEnd(cls, k + 9)];
            && r != "" && NoWhitespace(r)
            && k + 9 + |r| <= |cls| && cls[k + 9..k + 9 + |r|] == r
            && (k + 9 + |r| < |cls| ==> IsJsWhitespace(cls[k + 9 + |r|]))
  {
    var e := RunEnd(cls, k + 9);
    var r := cls[k + 9..e];
    assert |r| == e - (k + 9);
    assert r[0] == cls[k + 9];
    forall m | 0 <= m < |r| ensures !IsJsWhitespace(r[m]) {
      assert r[m] == cls[k + 9 + m];
    }
  }

  /** A class list whose first entry is `language-` and a token yields the
      token, whatever entries follow. */
  lemma LanguageOfToken(token: string, rest: string)
    requires token != "" && NoWhitespace(token)
    requires rest == "" || IsJsWhitespace(rest[0])
    ensures Language("language-" + token + rest) == token
  {
    var s := "language-" + token + rest;
    assert s[0..9] == "language-";
    assert s[9] == token[0];
    assert LanguageAt(s, 0);
    assert FindLanguage(s, 0) == Some(0);
    var e := RunEnd(s, 9);
    forall m | 9 <= m < 9 + |token| ensures !IsJsWhitespace(s[m]) {
      assert s[m] == token[m - 9];
    }
    assert 9 + |token| < |s| ==> s[9 + |token|] == rest[0];
    assert e == 9 + |token|;
    assert s[9..e] == token;
  }

  /** `pre > code` under fenced style: a `PRE` whose first child node is a
      `CODE` element. Text counts as a child node, so a `pre` that starts
      with whitespace before its `code` is left to Turndown. */
  predicate FencedFilter(n: Node, options: Options): (r: bool)
    ensures r ==> n.Element? && n.children != [] && n.children[0].Element?
    ensures n.Element? && n.children != [] && !n.children[0].Element? ==> !r
  {
    && options.codeBlockStyle == "fenced"
    && NodeName(n) == "PRE"
    && FirstChild(n).Some?
    && NodeName(FirstChild(n).value) == "CODE"
  }

  /** The fenced block: the language on the opening fence, the code
      element's raw text between the fences. */
  function FencedReplacement(content: string, n: Node, options: Options): (r: string)
    requires FirstChild(n).Some?
    ensures StartsWith(r, "\n\n" + options.fence)
    ensures EndsWith(r, "\n" + options.fence + "\n\n")
  {
    var code := FirstChild(n).value;
    "\n\n" + options.fence + Language(ClassName(code)) + "\n" + TextContent(code)
      + "\n" + options.fence + "\n\n"
  }

  /** Splits a fenced block into its info string and its code. */
  function ReadFence(r: string, fence: string): (p: Option<(string, string)>)
    ensures p.Some? ==>
              SingleLine(p.value.0)
              && r == "\n\n" + fence + p.value.0 + "\n" + p.value.1 + "\n" + fence + "\n\n"
  {
    var open := "\n\n" + fence;
    var close := "\n" + fence + "\n\n";
    if StartsWith(r, open) && |open| + |close| <= |r| && EndsWith(r, close) then
      var inner := r[|open|..|r| - |close|];
      var e := Find(inner, '\n', 0);
      if e < |inner| then
        assert r == open + inner + close;
        FenceSplit(fence, inner, e);
        Some((inner[..e], inner[e + 1..]))
      else None
    else None
  }

  /** Cutting the inside of a fenced block at a line feed. */
  lemma FenceSplit(fence: string, inner: string, e: nat)
    requires e < |inner| && inner[e] == '\n'
    ensures "\n\n" + fence + inner + ("\n" + fence + "\n\n")
         == "\n\n" + fence + inner[..e] + "\n" + inner[e + 1..] + "\n" + fence + "\n\n"
  {
    assert inner == inner[..e] + "\n" + inner[e + 1..];
  }

  /** A fenced block with a one-line info string reads back as that info
      string and, verbatim, the code between the fences. */
  lemma FenceReadsBack(fence: string, info: string, code: string)
    requires SingleLine(info)
    ensures ReadFence("\n\n" + fence + info + "\n" + code + "\n" + fence + "\n\n", fence)
         == Some((info, code))
  {
    var open := "\n\n" + fence;
    var close := "\n" + fence + "\n\n";
    var inner := info + ("\n" + code);
    var r := "\n\n" + fence + info + "\n" + code + "\n" + fence + "\n\n";
    assert r == open + inner + close;
    assert r[..|open|] == open;
    assert r[|r| - |close|..] == close;
    assert r[|open|..|r| - |close|] == inner;
    FindAfter(info, '\n', "\n" + code, 0);
    assert inner[..|info|] == info && inner[|info| + 1..] == code;
  }

  /** The block reads back as the class's language and, verbatim, the
      code element's text. */
  lemma FencedReadsBack(content: string, n: Node, options: Options)
    requires FirstChild(n).Some?
    ensures ReadFence(FencedReplacement(content, n, options), options.fence)
         == Some((Language(ClassName(FirstChild(n).value)), TextContent(FirstChild(n).value)))
  {
    var code := FirstChild(n).value;
    var lang := Language(ClassName(code));
    forall m | 0 <= m < |lang| ensures lang[m] != '\n' {
      assert !IsJsWhitespace(lang[m]);
    }
    FenceReadsBack(options.fence, lang, TextContent(code));
  }

  // ---------------------------------------------------------------------
  // Rule: salesforceCallouts
  // ---------------------------------------------------------------------

  /** A `DIV` whose class string contains one of the three box markers: an
      element with a class attribute in which "box-" occurs. */
  predicate CalloutFilter(n: Node): (r: bool)
    ensures r ==> n.Element? && NodeName(n) == "DIV" && "class" in n.attrs && Contains(n.attrs["class"], "box-")
  {
    var cls := ClassName(n);
    ContainsStart(cls, "box-info", "box-");
    ContainsStart(cls, "box-warning", "box-");
    ContainsStart(cls, "box-tip", "box-");
    NodeName(n) == "DIV"
    && (Contains(cls, "box-info") || Contains(cls, "box-warning") || Contains(cls, "box-tip"))
  }

  /** "Note", then "Warning" if the class string contains "warning", then
      "Tip" if it contains "tip": the later test wins. */
  function CalloutLabel(cls: string): (r: string)
    ensures r == "Note" || r == "Warning" || r == "Tip"
    ensures r == "Tip" <==> Contains(cls, "tip")
    ensures r == "Warning" <==> Contains(cls, "warning") && !Contains(cls, "tip")
  {
    var kind := if Contains(cls, "warning") then "Warning" else "Note";
    if Contains(cls, "tip") then "Tip" else kind
  }

  /** A tip box is labelled a tip, a warning box without "tip" in its
      class string a warning, and an info box with neither word a note. */
  lemma CalloutMarkers(cls: string)
    ensures Contains(cls, "box-tip") ==> CalloutLabel(cls) == "Tip"
    ensures Contains(cls, "box-warning") && !Contains(cls, "tip") ==> CalloutLabel(cls) == "Warning"
    ensures Contains(cls, "box-info") && !Contains(cls, "warning") && !Contains(cls, "tip")
            ==> CalloutLabel(cls) == "Note"
  {
    if Contains(cls, "box-tip") {
      ContainsIff(cls, "box-tip");
      var k :| OccursAt(cls, "box-tip", k);
      assert OccursAt(cls, "tip", k + 4) by {
        assert cls[k + 4..k + 7] == cls[k..k + 7][4..];
      }
      ContainsIff(cls, "tip");
    }
    if Contains(cls, "box-warning") {
      ContainsIff(cls, "box-warning");
      var k :| OccursAt(cls, "box-warning", k);
      assert OccursAt(cls, "warning", k + 4) by {
        assert cls[k + 4..k + 11] == cls[k..k + 11][4..];
      }
      ContainsIff(cls, "warning");
    }
  }

  /** The markers are found anywhere in the class string: a warning box
      with a "tooltip" class is labelled a tip. */
  lemma TooltipWarningIsTip()
    ensures CalloutLabel("box-warning tooltip") == "Tip"
  {
    var cls := "box-warning tooltip";
    assert cls[16..19] == "tip";
    assert OccursAt(cls, "tip", 16);
    ContainsIff(cls, "tip");
  }

  /** A block quote: the bold label, then the trimmed content. It starts a
      new line and ends with a blank one. */
  function CalloutReplacement(content: string, n: Node): (r: string)
    ensures StartsWith(r, "\n> **")
    ensures EndsWith(r, "\n\n")
  {
    "\n> **" + CalloutLabel(ClassName(n)) + ":** " + Trim(content) + "\n\n"
  }

  /** Splits a callout into its label and its text. */
  function ReadCallout(r: string): (p: Option<(string, string)>)
    ensures p.Some? ==> r == "\n> **" + p.value.0 + ":** " + p.value.1 + "\n\n"
  {
    if StartsWith(r, "\n> **") && EndsWith(r, "\n\n") && 7 <= |r| then
      var e := Find(r, ':', 5);
      if e + 4 <= |r| - 2 && r[e..e + 4] == ":** " then
        Cuts(r, 5, e, e + 4, |r| - 2);
        Some((r[5..e], r[e + 4..|r| - 2]))
      else None
    else None
  }

  /** A string is the concatenation of its pieces between cut points. */
  lemma Cuts(r: string, a: nat, b: nat, c: nat, d: nat)
    requires a <= b <= c <= d <= |r|
    ensures r == r[..a] + r[a..b] + r[b..c] + r[c..d] + r[d..]
  {
    assert r[..a] + r[a..b] == r[..b];
    assert r[..b] + r[b..c] == r[..c];
    assert r[..c] + r[c..d] == r[..d];
  }

  /** A block quote with a label free of ':' reads back as that label and
      whatever text follows it. */
  lemma QuoteReadsBack(kind: string, text: string)
    requires ColonFree(kind)
    ensures ReadCallout("\n> **" + kind + ":** " + text + "\n\n") == Some((kind, text))
  {
    var head := "\n> **" + kind;
    var tail := ":** " + text + "\n\n";
    var r := "\n> **" + kind + ":** " + text + "\n\n";
    assert r == head + tail;
    FindAfter(head, ':', tail, 5);
    assert r[..5] == "\n> **" && r[|r| - 2..] == "\n\n";
    assert r[|head|..|head| + 4] == ":** ";
    assert r[5..|head|] == kind && r[|head| + 4..|r| - 2] == text;
  }

  /** The callout reads back as its label and the trimmed content, which
      neither starts nor ends with whitespace. */
  lemma CalloutReadsBack(content: string, n: Node)
    ensures ReadCallout(CalloutReplacement(content, n))
         == Some((CalloutLabel(ClassName(n)), Trim(content)))
    ensures Trim(content) != "" ==>
              !IsJsWhitespace(Trim(content)[0]) && !IsJsWhitespace(Trim(content)[|Trim(content)| - 1])
  {
    var kind := CalloutLabel(ClassName(n));
    assert ColonFree(kind);
    QuoteReadsBack(kind, Trim(content));
    TrimFacts(content);
  }

  /** No ':' in `s`. */
  predicate ColonFree(s: string) {
    forall k :: 0 <= k < |s| ==> s[k] != ':'
  }

  // ---------------------------------------------------------------------
  // Rule: removeEmptyLinks
  // ---------------------------------------------------------------------

  /** An `A` with a non-empty `href` whose text trims to nothing: exactly
      an anchor with a non-empty `href` and only whitespace for text. */
  predicate EmptyLinkFilter(n: Node): (r: bool)
    ensures r <==>
              NodeName(n) == "A" && n.Element? && "href" in n.attrs && n.attrs["href"] != ""
              && AllWhitespace(TextContent(n))
  {
    TrimFacts(TextContent(n));
    NodeName(n) == "A" && GetAttribute(n, "href").GetOr("") != "" && Trim(TextContent(n)) == ""
  }

  // ---------------------------------------------------------------------
  // Rule dispatch
  // ---------------------------------------------------------------------

  predicate Accepts(rule: RuleName, n: Node, options: Options) {
    match rule
    case FencedCodeBlock => FencedFilter(n, options)
    case SalesforceCallouts => CalloutFilter(n)
    case RemoveEmptyLinks => EmptyLinkFilter(n)
  }

  /** The rule's output for a node it accepts, given its converted content. */
  function Replacement(rule: RuleName, content: string, n: Node, options: Options): string
    requires Accepts(rule, n, options)
  {
    match rule
    case FencedCodeBlock => FencedReplacement(content, n, options)
    case SalesforceCallouts => CalloutReplacement(content, n)
    case RemoveEmptyLinks => ""
  }

  /** The first added rule, in the order Turndown consults them, that
      accepts `n`; `None` leaves `n` to Turndown's own rules. */
  function RuleFor(rules: seq<RuleName>, n: Node, options: Options): (r: Option<RuleName>)
    ensures r.None? <==> forall k :: 0 <= k < |rules| ==> !Accepts(rules[k], n, options)
    ensures r.Some? ==> r.value in rules && Accepts(r.value, n, options)
  {
    if rules == [] then None
    else if Accepts(rules[0], n, options) then Some(rules[0])
    else RuleFor(rules[1..], n, options)
  }

  /** No node is accepted by two of the rules: they ask for different
      node names. */
  lemma FiltersExclusive(n: Node, options: Options, a: RuleName, b: RuleName)
    requires Accepts(a, n, options) && Accepts(b, n, options)
    ensures a == b
  {
    assert "PRE" != "DIV" && "PRE" != "A" && "DIV" != "A";
  }

  /** So the order in which the rules were added makes no difference: any
      arrangement of them picks the one rule that accepts the node. */
  lemma RuleForAnyOrder(rules: seq<RuleName>, n: Node, options: Options, rule: RuleName)
    requires multiset(rules) == multiset(SalesforceRules)
    ensures RuleFor(rules, n, options) == Some(rule) <==> Accepts(rule, n, options)
  {
    assert rule in SalesforceRules;
    assert rule in multiset(rules);
    if Accepts(rule, n, options) {
      var r := RuleFor(rules, n, options);
      assert r.Some?;
      FiltersExclusive(n, options, r.value, rule);
    }
  }

  /** In a new converter each rule gets exactly the nodes its filter
      accepts: an empty link becomes nothing, a callout a labelled quote
      of the trimmed content, a code block a fence around the code. */
  lemma ConverterDispatch(c: MarkdownConverter, n: Node, content: string)
    requires c.turndownService == Service(ConverterOptions, [Gfm], SalesforceRules)
    ensures EmptyLinkFilter(n) ==>
              RuleFor(c.turndownService.rules, n, ConverterOptions) == Some(RemoveEmptyLinks)
              && Replacement(RemoveEmptyLinks, content, n, ConverterOptions) == ""
    ensures CalloutFilter(n) ==>
              RuleFor(c.turndownService.rules, n, ConverterOptions) == Some(SalesforceCallouts)
              && ReadCallout(Replacement(SalesforceCallouts, content, n, ConverterOptions))
                 == Some((CalloutLabel(ClassName(n)), Trim(content)))
    ensures FencedFilter(n, ConverterOptions) ==>
              RuleFor(c.turndownService.rules, n, ConverterOptions) == Some(FencedCodeBlock)
              && ReadFence(Replacement(FencedCodeBlock, content, n, ConverterOptions), "```")
                 == Some((Language(ClassName(n.children[0])), TextContent(n.children[0])))
  {
    var rules := c.turndownService.rules;
    if EmptyLinkFilter(n) {
      RuleForAnyOrder(rules, n, ConverterOptions, RemoveEmptyLinks);
    }
    if CalloutFilter(n) {
      RuleForAnyOrder(rules, n, ConverterOptions, SalesforceCallouts);
      CalloutReadsBack(content, n);
    }
    if FencedFilter(n, ConverterOptions) {
      RuleForAnyOrder(rules, n, ConverterOptions, FencedCodeBlock);
      FencedReadsBack(content, n, ConverterOptions);
    }
  }

  // ---------------------------------------------------------------------
  // Two conversions
  // ---------------------------------------------------------------------

  /** `<pre><code class="language-apex">System.debug('hi');</code></pre>`
      is a fenced block tagged `apex` holding the code as it was written. */
  lemma ApexBlock(code: Node, pre: Node)
    requires code == Element("code", map["class" := "language-apex"],
                             [Text("System.debug('hi');")], NoShadow)
    requires pre == Element("pre", map[], [code], NoShadow)
    ensures FencedFilter(pre, ConverterOptions)
    ensures ReadFence(FencedReplacement("", pre, ConverterOptions), "```")
         == Some(("apex", "System.debug('hi');"))
  {
    assert ToUpper("pre") == "PRE";
    assert ToUpper("code") == "CODE";
    assert ClassName(code) == "language-" + "apex" + "";
    LanguageOfToken("apex", "");
    assert TextContent(code) == "System.debug('hi');" by {
      assert ChildText(code.children) == "System.debug('hi');" + ChildText([]);
    }
    FencedReadsBack("", pre, ConverterOptions);
  }

  /** The lines of a block and the text after it all occur in the whole. */
  lemma LinesShown(t: string, u: string, rest: string, body: string)
    ensures var md := "---\n" + (t + "\n" + (u + "\n" + rest)) + body;
            Contains(md, t) && Contains(md, u) && Contains(md, body)
  {
    var md := "---\n" + (t + "\n" + (u + "\n" + rest)) + body;
    assert md == "---\n" + t + ("\n" + u + "\n" + rest + body);
    ContainsMiddle("---\n", t, "\n" + u + "\n" + rest + body);
    assert md == ("---\n" + t + "\n") + u + ("\n" + rest + body);
    ContainsMiddle("---\n" + t + "\n", u, "\n" + rest + body);
    assert md == "---\n" + (t + "\n" + (u + "\n" + rest)) + body + "";
    ContainsMiddle("---\n" + (t + "\n" + (u + "\n" + rest)), body, "");
  }

  /** For markup, `convert` shows the title line, the URL line and
      Turndown's Markdown. */
  lemma ConvertShowsFields(c: MarkdownConverter, html: string, metadata: Metadata,
                           fetchedAt: string, turndown: Turndown)
    requires html != ""
    ensures var md := c.Convert(Some(html), metadata, fetchedAt, turndown);
            && Contains(md, TitleField + TitleText(metadata.title) + "\"")
            && Contains(md, UrlField + UrlText(metadata.url) + "\"")
            && Contains(md, turndown(c.turndownService, html))
  {
    var h := Header(TitleText(metadata.title), UrlText(metadata.url), fetchedAt);
    var body := turndown(c.turndownService, html);
    var md := Frontmatter(h) + body;
    FrontmatterLines(h);
    var t := TitleField + h.title + "\"";
    var u := UrlField + h.url + "\"";
    var f := FieldLine(FetchedAtField, h.fetchedAt) + "---\n\n";
    assert Block(h) == "---\n" + (t + "\n" + (u + "\n" + f));
    LinesShown(t, u, f, body);
  }
}

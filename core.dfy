/**
  The memo parser and Markdown conversion rules of `lib/flomo/core.ts`.

  The HTML parser and turndown's base HTML-to-Markdown conversion are foreign
  libraries: a parsed export page is given as a `Document` holding the strings
  `querySelector` / `innerHTML` / `textContent` return, and the base conversion
  is a function parameter `turndown`. The two custom turndown rules (list items
  and images) are modelled as the pure functions turndown calls.
*/
module Core {
  import opened Wrappers
  import opened Strings

  /** `HIGHLIGHT_PLACEHOLDER` of `lib/flomo/const.ts`. */
  const Highlight: string := "FLOMO_IMPORTER_HIGHLIGHT_MARK_PLACEHOLDER"

  const MarkOpen: string := "<mark>"
  const MarkClose: string := "</mark>"

  /** The raw attachment prefix of image sources in a backup. */
  const AttachmentPrefix: string := "file/"

  /** turndown's `bulletListMarker` option as `extractContent` configures it. */
  const BulletListMarker: string := "-"

  /** Characters an abstract placeholder token is made of. */
  predicate PlaceholderChar(c: char) {
    ('A' <= c <= 'Z') || ('a' <= c <= 'z') || ('0' <= c <= '9') || c == '_' || c == '-' || c == '.' || c == '/'
  }

  /**
    `FILES_DIR_PLACEHOLDER`, whose value is not part of this model: any
    non-empty token of placeholder characters that does not contain the
    highlight placeholder (so in particular differs from it and holds no `<`).
  */
  type FilesPlaceholder = s: string
    | |s| > 0 && (forall k :: 0 <= k < |s| ==> PlaceholderChar(s[k])) && !Contains(s, Highlight, false)
    witness "FILES_DIR"

  // ---------------------------------------------------------------------------
  // Title, date and header
  // ---------------------------------------------------------------------------

  /** The characters `\s` matches in a JavaScript regular expression (and `trim` removes). */
  predicate IsJsSpace(c: char) {
    c == ' ' || c == '\t' || c == '\n' || c == '\r' || c == '\U{000B}' || c == '\U{000C}'
    || c == '\U{00A0}' || c == '\U{1680}' || ('\U{2000}' <= c <= '\U{200A}')
    || c == '\U{2028}' || c == '\U{2029}' || c == '\U{202F}' || c == '\U{205F}'
    || c == '\U{3000}' || c == '\U{FEFF}'
  }

  /** What `extractTitle`'s pattern `(-|:|\s)` matches. */
  predicate IsSlugSeparator(c: char) {
    c == '-' || c == ':' || IsJsSpace(c)
  }

  /** `extractTitle`: each `-`, `:` and whitespace character becomes `_`. */
  function ExtractTitle(dateTime: string): (r: string)
    ensures |r| == |dateTime|
    ensures forall k :: 0 <= k < |r| ==> r[k] == if IsSlugSeparator(dateTime[k]) then '_' else dateTime[k]
  {
    if |dateTime| == 0 then ""
    else [if IsSlugSeparator(dateTime[0]) then '_' else dateTime[0]] + ExtractTitle(dateTime[1..])
  }

  /** The title is safe as part of a file name: no separator character is left. */
  lemma TitleHasNoSeparator(dateTime: string)
    ensures forall k :: 0 <= k < |ExtractTitle(dateTime)| ==> !IsSlugSeparator(ExtractTitle(dateTime)[k])
  {
  }

  /** `dateTime.split(' ')[0]`. */
  function DateOf(dateTime: string): string {
    Split(dateTime, ' ')[0]
  }

  /** `dateTime.split(' ')[1]` in string concatenation: `"undefined"` when there is no space. */
  function TimeText(dateTime: string): string {
    var parts := Split(dateTime, ' ');
    if |parts| > 1 then parts[1] else "undefined"
  }

  /**
    The date is the text before the first space; the time is the text between
    the first and the second space (or the end), and with no space at all the
    date is the whole timestamp and the header shows `undefined`.
  */
  lemma DateTimeParts(dateTime: string)
    ensures ' ' !in DateOf(dateTime)
    ensures ' ' !in dateTime ==> DateOf(dateTime) == dateTime && TimeText(dateTime) == "undefined"
    ensures ' ' in dateTime ==>
      var prefix := DateOf(dateTime) + " " + TimeText(dateTime);
      ' ' !in TimeText(dateTime) && StartsWith(dateTime, prefix)
      && (|prefix| < |dateTime| ==> dateTime[|prefix|] == ' ')
  {
    SplitHead(dateTime, ' ');
    if ' ' in dateTime {
      DateTimeWithSpace(dateTime);
    } else {
      SplitWithoutSeparator(dateTime, ' ');
    }
  }

  lemma DateTimeWithSpace(dateTime: string)
    requires ' ' in dateTime
    ensures var prefix := DateOf(dateTime) + " " + TimeText(dateTime);
      ' ' !in TimeText(dateTime) && StartsWith(dateTime, prefix)
      && (|prefix| < |dateTime| ==> dateTime[|prefix|] == ' ')
  {
    SplitAtFirst(dateTime, ' ');
    var h := DateOf(dateTime);
    var rest := dateTime[|h| + 1..];
    SplitHead(dateTime, ' ');
    SplitHead(rest, ' ');
    var t := Split(rest, ' ')[0];
    assert TimeText(dateTime) == t;
    StartsWithThree(dateTime, h, ' ', t);
    if |h| + 1 + |t| < |dateTime| {
      assert dateTime[|h| + 1 + |t|] == rest[|t|];
    }
  }

  /** A text that starts with `h`, then `c`, then `t` starts with their concatenation. */
  lemma StartsWithThree(s: string, h: string, c: char, t: string)
    requires StartsWith(s, h) && |h| < |s| && s[|h|] == c && StartsWith(s[|h| + 1..], t)
    ensures StartsWith(s, h + [c] + t)
  {
    assert s[..|h| + 1 + |t|] == s[..|h|] + [s[|h|]] + s[|h| + 1..][..|t|];
  }

  /** The first line of every memo: `📅 [[date]] time` and a blank line. */
  function Header(dateTime: string): (r: string)
    ensures StartsWith(r, "\U{1F4C5} [[" + DateOf(dateTime) + "]] ") && EndsWith(r, "\n\n")
  {
    "\U{1F4C5} [[" + DateOf(dateTime) + "]]" + " " + TimeText(dateTime) + "\n\n"
  }

  // ---------------------------------------------------------------------------
  // Highlights
  // ---------------------------------------------------------------------------

  /** The two `replaceAll` calls of `loadMemos`: `<mark>`, then `</mark>`, become the placeholder. */
  function CollapseMarks(html: string): string {
    ReplaceAll(ReplaceAll(html, MarkOpen, Highlight, false), MarkClose, Highlight, false)
  }

  /** Reference definition: one left-to-right pass turning each mark tag, open or close, into one placeholder. */
  function MarksToPlaceholders(html: string): string
    decreases |html|
  {
    if |html| == 0 then ""
    else if MatchesAt(html, 0, MarkOpen, false) then Highlight + MarksToPlaceholders(html[|MarkOpen|..])
    else if MatchesAt(html, 0, MarkClose, false) then Highlight + MarksToPlaceholders(html[|MarkClose|..])
    else [html[0]] + MarksToPlaceholders(html[1..])
  }

  lemma HighlightHasNoAngle()
    ensures forall k :: 0 <= k < |Highlight| ==> Highlight[k] != '<'
    ensures forall k :: 0 <= k < |Highlight| ==> Highlight[k] !in MarkOpen && Highlight[k] !in MarkClose
  {
    assert forall k :: 0 <= k < |Highlight| ==> 'A' <= Highlight[k] <= 'Z' || Highlight[k] == '_';
    assert forall c :: c in MarkOpen || c in MarkClose ==> c == '<' || c == '/' || c == '>' || 'a' <= c <= 'z';
  }

  /**
    Each `<mark>` and each `</mark>` of the content HTML becomes exactly one
    placeholder, whether or not the tags are balanced: the two global
    replacements are one pass over the tags.
  */
  lemma {:induction false} CollapseMarksIsOnePass(html: string)
    ensures CollapseMarks(html) == MarksToPlaceholders(html)
    decreases |html|
  {
    if |html| == 0 {
    } else if MatchesAt(html, 0, MarkOpen, false) {
      CollapseAtOpen(html);
      CollapseMarksIsOnePass(html[|MarkOpen|..]);
    } else if MatchesAt(html, 0, MarkClose, false) {
      CollapseAtClose(html);
      CollapseMarksIsOnePass(html[|MarkClose|..]);
    } else {
      CollapseAtOther(html);
      CollapseMarksIsOnePass(html[1..]);
    }
  }

  /** A leading `<mark>` becomes the placeholder and the replacements go on after it. */
  lemma CollapseAtOpen(html: string)
    requires MatchesAt(html, 0, MarkOpen, false)
    ensures CollapseMarks(html) == Highlight + CollapseMarks(html[|MarkOpen|..])
  {
    HighlightHasNoAngle();
    var rest := html[|MarkOpen|..];
    assert ReplaceAll(html, MarkOpen, Highlight, false) == Highlight + ReplaceAll(rest, MarkOpen, Highlight, false);
    ReplaceAllSkipsPrefix(Highlight, ReplaceAll(rest, MarkOpen, Highlight, false), MarkClose, Highlight, false);
  }

  /** A leading `</mark>` is left alone by the first replacement and becomes the placeholder in the second. */
  lemma CollapseAtClose(html: string)
    requires !MatchesAt(html, 0, MarkOpen, false) && MatchesAt(html, 0, MarkClose, false)
    ensures CollapseMarks(html) == Highlight + CollapseMarks(html[|MarkClose|..])
  {
    var rest := html[|MarkClose|..];
    var tail := "/mark>";
    ExactMatchIsPrefix(html, MarkClose);
    assert html[1..] == tail + rest by {
      assert html[..|MarkClose|] == MarkClose;
      assert html[1..|MarkClose|] == MarkClose[1..] == tail;
      assert html[1..] == html[1..|MarkClose|] + rest;
    }
    ReplaceAllSkipsPrefix(tail, rest, MarkOpen, Highlight, false);
    var a := ReplaceAll(html, MarkOpen, Highlight, false);
    var x := ReplaceAll(rest, MarkOpen, Highlight, false);
    assert a == [html[0]] + ReplaceAll(html[1..], MarkOpen, Highlight, false);
    assert a == [html[0]] + (tail + x);
    ConsAssoc(html[0], tail, x);
    assert [html[0]] + tail == MarkClose;
    ReplaceAllAtPattern(ReplaceAll(rest, MarkOpen, Highlight, false), MarkClose, Highlight, false);
  }

  /** Any other first character is copied by both replacements. */
  lemma CollapseAtOther(html: string)
    requires |html| > 0 && !MatchesAt(html, 0, MarkOpen, false) && !MatchesAt(html, 0, MarkClose, false)
    ensures CollapseMarks(html) == [html[0]] + CollapseMarks(html[1..])
  {
    HighlightHasNoAngle();
    var rest := html[1..];
    var ra := ReplaceAll(rest, MarkOpen, Highlight, false);
    var a := ReplaceAll(html, MarkOpen, Highlight, false);
    assert a == [html[0]] + ra;
    if html[0] != '<' {
      ReplaceAllSkipsPrefix([html[0]], ra, MarkClose, Highlight, false);
    } else {
      assert !MatchesAt(a, 0, MarkClose, false) by {
        if MatchesAt(a, 0, MarkClose, false) {
          MatchesCons(a, MarkClose, false);
          assert a[1..] == ra;
          assert MarkClose[1..] == "/mark>";
          ReplaceAllKeepsPrefix(rest, "/mark>", MarkOpen, Highlight);
          MatchesCons(html, MarkClose, false);
          assert false;
        }
      }
      assert a[1..] == ra;
    }
  }

  /** After the replacement the content HTML holds neither `<mark>` nor `</mark>`. */
  lemma CollapseMarksRemovesTags(html: string)
    ensures !Contains(CollapseMarks(html), MarkOpen, false)
    ensures !Contains(CollapseMarks(html), MarkClose, false)
  {
    HighlightHasNoAngle();
    var a := ReplaceAll(html, MarkOpen, Highlight, false);
    ReplaceAllLeaves(html, MarkOpen, Highlight, MarkOpen);
    ReplaceAllLeaves(a, MarkClose, Highlight, MarkOpen);
    ReplaceAllLeaves(a, MarkClose, Highlight, MarkClose);
  }

  // ---------------------------------------------------------------------------
  // The list-item rule
  // ---------------------------------------------------------------------------

  /** `.replace(/^\n+/, '')`. */
  function StripLeadingNewlines(s: string): (r: string)
    ensures |r| == 0 || r[0] != '\n'
    ensures |r| <= |s| && r == s[|s| - |r|..]
    ensures forall k :: 0 <= k < |s| - |r| ==> s[k] == '\n'
  {
    if |s| > 0 && s[0] == '\n' then StripLeadingNewlines(s[1..]) else s
  }

  /** The text without its trailing run of newlines. */
  function StripTrailingNewlines(s: string): (r: string)
    ensures |r| == 0 || r[|r| - 1] != '\n'
    ensures |r| <= |s| && r == s[..|r|]
    ensures forall k :: |r| <= k < |s| ==> s[k] == '\n'
  {
    if |s| > 0 && s[|s| - 1] == '\n' then StripTrailingNewlines(s[..|s| - 1]) else s
  }

  /** `.replace(/\n+$/, '\n')`: a trailing run of newlines becomes one newline. */
  function CollapseTrailingNewlines(s: string): string {
    var t := StripTrailingNewlines(s);
    if |t| < |s| then t + "\n" else s
  }

  /** `.replace(/\n/gm, '\n    ')`. */
  function Indent(s: string): string {
    ReplaceAll(s, "\n", "\n    ", false)
  }

  /** The content transformation at the start of `liRule.replacement`. */
  function ListItemBody(content: string): string {
    Indent(CollapseTrailingNewlines(StripLeadingNewlines(content)))
  }

  /** The numeric value `Number(...)` gives a string, as far as the model follows it. */
  datatype JsNumber = Finite(value: int) | NaN

  function TrimStart(s: string): (r: string)
    ensures |r| <= |s| && r == s[|s| - |r|..]
    ensures |r| > 0 ==> !IsJsSpace(r[0])
  {
    if |s| > 0 && IsJsSpace(s[0]) then TrimStart(s[1..]) else s
  }

  function TrimEnd(s: string): (r: string)
    ensures |r| <= |s| && r == s[..|r|]
  {
    if |s| > 0 && IsJsSpace(s[|s| - 1]) then TrimEnd(s[..|s| - 1]) else s
  }

  predicate AllDigits(s: string) {
    forall k :: 0 <= k < |s| ==> IsDigit(s[k])
  }

  /**
    `Number(s)` for the decimal integers a `start` attribute holds: surrounding
    whitespace is ignored, an empty text is 0, an optional sign is allowed, and
    every other text is NaN.
  */
  function ToNumber(s: string): JsNumber {
    var t := TrimEnd(TrimStart(s));
    if t == "" then Finite(0)
    else if AllDigits(t) then Finite(DigitsValue(t))
    else if |t| > 1 && (t[0] == '+' || t[0] == '-') && AllDigits(t[1..]) then
      Finite(if t[0] == '-' then -(DigitsValue(t[1..]) as int) else DigitsValue(t[1..]))
    else NaN
  }

  /** `Number(start) + index` converted to a string. */
  function PlusToString(n: JsNumber, index: nat): string {
    match n
    case NaN => "NaN"
    case Finite(v) => IntToString(v + index)
  }

  /** A decimal text reads back as its value. */
  lemma ToNumberOfDecimal(n: nat)
    ensures ToNumber(NatToString(n)) == Finite(n)
  {
    var s := NatToString(n);
    TrimDigits(s);
    DigitsValueOfNatToString(n);
  }

  /** Trimming leaves a non-empty run of digits as it is. */
  lemma TrimDigits(s: string)
    requires |s| > 0 && forall k :: 0 <= k < |s| ==> IsDigit(s[k])
    ensures AllDigits(s) && TrimEnd(TrimStart(s)) == s
  {
    TrimStartAt(s);
    TrimEndAt(s);
  }

  lemma TrimStartAt(s: string)
    requires |s| > 0 && IsDigit(s[0])
    ensures TrimStart(s) == s
  {
  }

  lemma TrimEndAt(s: string)
    requires |s| > 0 && IsDigit(s[|s| - 1])
    ensures TrimEnd(s) == s
  {
  }

  /**
    The prefix `liRule` puts before an item: under an `OL` the item's number
    (`start` plus the index among the list's children when a non-empty `start`
    attribute exists, the index plus one otherwise) followed by a period and two
    spaces; elsewhere the bullet marker and a space.
  */
  function ListItemPrefix(parentIsOrdered: bool, start: Option<string>, index: nat): string {
    if parentIsOrdered then
      (if start.Some? && start.value != "" then PlusToString(ToNumber(start.value), index)
       else IntToString(index + 1)) + ".  "
    else BulletListMarker + " "
  }

  /** `liRule.replacement(content, node, options)`. */
  function ListItemReplacement(content: string, parentIsOrdered: bool, start: Option<string>,
                               index: nat, hasNextSibling: bool): string
  {
    var body := ListItemBody(content);
    ListItemPrefix(parentIsOrdered, start, index) + body
      + (if hasNextSibling && !EndsWith(body, "\n") then "\n" else "")
  }

  /** Item numbers: the `start` attribute plus the index, or the index plus one; bullets otherwise. */
  lemma ListItemNumbering(start: Option<string>, index: nat, n: nat)
    ensures ListItemPrefix(false, start, index) == "- "
    ensures ListItemPrefix(true, None, index) == NatToString(index + 1) + ".  "
    ensures ListItemPrefix(true, Some(""), index) == NatToString(index + 1) + ".  "
    ensures ListItemPrefix(true, Some(NatToString(n)), index) == NatToString(n + index) + ".  "
  {
    NumberedFromStart(n, index);
  }

  lemma NumberedFromStart(n: nat, index: nat)
    ensures ListItemPrefix(true, Some(NatToString(n)), index) == NatToString(n + index) + ".  "
  {
    ToNumberOfDecimal(n);
    PrefixOfNumber(NatToString(n), index, n);
  }

  /** A non-empty `start` that `Number` reads as `v` numbers the item `v + index`. */
  lemma PrefixOfNumber(start: string, index: nat, v: nat)
    requires start != "" && ToNumber(start) == Finite(v)
    ensures ListItemPrefix(true, Some(start), index) == NatToString(v + index) + ".  "
  {
  }

  /** Every newline produced by Indent is followed by four spaces. */
  lemma {:induction false} IndentFollowsNewlines(s: string)
    ensures var r := Indent(s);
      forall k :: 0 <= k < |r| && r[k] == '\n' ==> k + 4 < |r| && r[k + 1..k + 5] == "    "
    decreases |s|
  {
    var r := Indent(s);
    if |s| > 0 {
      MatchesOneChar(s, '\n');
      var head := if s[0] == '\n' then "\n    " else [s[0]];
      var tail := Indent(s[1..]);
      assert r == head + tail;
      IndentFollowsNewlines(s[1..]);
      forall k | 0 <= k < |r| && r[k] == '\n'
        ensures k + 4 < |r| && r[k + 1..k + 5] == "    "
      {
        if k >= |head| {
          assert tail[k - |head|] == '\n';
          assert r[k + 1..k + 5] == tail[k - |head| + 1..k - |head| + 5];
        } else {
          assert head == "\n    " && k == 0;
          assert r[1..5] == head[1..5];
        }
      }
    }
  }

  /**
    The list-item body: leading newlines are gone, a trailing run of newlines
    became one newline, every newline is followed by four spaces, and so the
    body never ends in a newline.
  */
  lemma ListItemBodyShape(content: string)
    ensures var t := StripTrailingNewlines(StripLeadingNewlines(content));
      ListItemBody(content) == Indent(t) + (if |t| < |StripLeadingNewlines(content)| then "\n    " else "")
    ensures var r := ListItemBody(content);
      forall k :: 0 <= k < |r| && r[k] == '\n' ==> k + 4 < |r| && r[k + 1..k + 5] == "    "
    ensures !EndsWith(ListItemBody(content), "\n")
  {
    var l := StripLeadingNewlines(content);
    var t := StripTrailingNewlines(l);
    if |t| < |l| {
      ReplaceCharSnoc(t, '\n', '\n', "\n    ");
    }
    var r := ListItemBody(content);
    IndentFollowsNewlines(CollapseTrailingNewlines(l));
    if |r| > 0 {
      assert r[|r| - 1] != '\n';
      assert r[|r| - 1..] != "\n" by {
        assert r[|r| - 1..][0] == r[|r| - 1];
      }
    }
  }

  /** Because the body never ends in a newline, the extra newline is added exactly when the item has a next sibling. */
  lemma ListItemSeparator(content: string, parentIsOrdered: bool, start: Option<string>, index: nat, hasNextSibling: bool)
    ensures ListItemReplacement(content, parentIsOrdered, start, index, hasNextSibling)
      == ListItemPrefix(parentIsOrdered, start, index) + ListItemBody(content) + (if hasNextSibling then "\n" else "")
  {
    ListItemBodyShape(content);
  }

  // ---------------------------------------------------------------------------
  // The image rule
  // ---------------------------------------------------------------------------

  /** The `imageAngleWrap` rule's replacement, from the node's `alt` and `src` (absent attributes read as ""). */
  function ImageReplacement(alt: string, src: string, files: FilesPlaceholder): string {
    if src == "" then ""
    else
      var src' := if StartsWith(src, AttachmentPrefix) then files + src[|AttachmentPrefix|..] else src;
      var url := if StartsWith(src', files) || StartsWith(src', AttachmentPrefix) then "<" + src' + ">" else src';
      "![" + alt + "](" + url + ")"
  }

  /**
    An image without a source is dropped; a backup attachment `file/x` becomes
    `<PLACEHOLDER x>`; a source already starting with the placeholder is wrapped
    in angle brackets; any other source is emitted as it is.
  */
  lemma ImageCases(alt: string, src: string, files: FilesPlaceholder)
    ensures src == "" ==> ImageReplacement(alt, src, files) == ""
    ensures StartsWith(src, AttachmentPrefix) ==>
      ImageReplacement(alt, src, files) == "![" + alt + "](<" + files + src[|AttachmentPrefix|..] + ">)"
    ensures src != "" && !StartsWith(src, AttachmentPrefix) && StartsWith(src, files) ==>
      ImageReplacement(alt, src, files) == "![" + alt + "](<" + src + ">)"
    ensures src != "" && !StartsWith(src, AttachmentPrefix) && !StartsWith(src, files) ==>
      ImageReplacement(alt, src, files) == "![" + alt + "](" + src + ")"
  {
    if StartsWith(src, AttachmentPrefix) {
      ImageOfAttachment(alt, src, files);
    }
  }

  lemma ImageOfAttachment(alt: string, src: string, files: FilesPlaceholder)
    requires StartsWith(src, AttachmentPrefix)
    ensures ImageReplacement(alt, src, files) == "![" + alt + "](<" + files + src[|AttachmentPrefix|..] + ">)"
  {
    var s' := files + src[|AttachmentPrefix|..];
    assert StartsWith(s', files) by {
      assert s'[..|files|] == files;
    }
  }

  // ---------------------------------------------------------------------------
  // Post-pass and per-memo record
  // ---------------------------------------------------------------------------

  /** The string fixes applied to turndown's output in `extractContent`. */
  function PostPass(md: string, files: FilesPlaceholder): string {
    var unescaped := ReplaceAll(ReplaceAll(md, "\\[", "[", false), "\\]", "]", false);
    ReplaceAll(unescaped, "](file/", "](" + files, true)
  }

  /** `extractContent`: turndown, then the post-pass. */
  function ExtractContent(turndown: string -> string, html: string, files: FilesPlaceholder): string {
    PostPass(turndown(html), files)
  }

  lemma NoBackslashNoEscape(s: string, c: char)
    requires '\\' !in s
    ensures !Contains(s, ['\\', c], false)
  {
    forall i: nat | i <= |s|
      ensures !MatchesAt(s, i, ['\\', c], false)
    {
      if i + 2 <= |s| {
        assert !CharEq(s[i + 0], ['\\', c][0], false);
      }
    }
  }

  /**
    Text without backslashes is only touched by the link fix: every
    `](file/`, in any letter case, becomes `](` and the placeholder; text with
    neither a backslash nor such a link passes unchanged.
  */
  lemma PostPassWithoutBackslash(md: string, files: FilesPlaceholder)
    requires '\\' !in md
    ensures PostPass(md, files) == ReplaceAll(md, "](file/", "](" + files, true)
    ensures !Contains(md, "](file/", true) ==> PostPass(md, files) == md
  {
    NoBackslashNoEscape(md, '[');
    ReplaceAllNoMatch(md, "\\[", "[", false);
    NoBackslashNoEscape(md, ']');
    ReplaceAllNoMatch(md, "\\]", "]", false);
    if !Contains(md, "](file/", true) {
      ReplaceAllNoMatch(md, "](file/", "](" + files, true);
    }
  }

  /** One exported memo. */
  datatype Memo = Memo(title: string, date: string, content: string)

  /**
    A `.memo` node as the parser sees it: the text of its `.time` node and the
    inner HTML of its `.content` and `.files` nodes, `None` where `querySelector`
    finds no such node.
  */
  datatype MemoNode = MemoNode(time: Option<string>, content: Option<string>, files: Option<string>)

  /** The parsed export page: the `.memo` nodes in document order and the option texts of `#tag`. */
  datatype Document = Document(memoNodes: seq<MemoNode>, tagOptions: Option<seq<string>>)

  /** The `TypeError` raised when a missing node is read as if it were there. */
  datatype LoadError = MissingTime(memo: nat) | MissingContent(memo: nat) | MissingFiles(memo: nat) | MissingTagSelector

  /** The record `loadMemos` pushes for one memo. */
  function BuildMemo(dateTime: string, contentHtml: string, filesHtml: string,
                     turndown: string -> string, files: FilesPlaceholder): (m: Memo)
    ensures m.title == ExtractTitle(dateTime) && m.date == DateOf(dateTime)
    ensures StartsWith(m.content, "\U{1F4C5} [[" + m.date + "]] ")
  {
    var body := ExtractContent(turndown, CollapseMarks(contentHtml), files);
    var attachments := ExtractContent(turndown, filesHtml, files);
    var m := Memo(ExtractTitle(dateTime), DateOf(dateTime), Header(dateTime) + body + "\n" + attachments);
    assert m.content[..|"\U{1F4C5} [[" + m.date + "]] "|] == "\U{1F4C5} [[" + m.date + "]] ";
    m
  }

  /** One step of `loadMemos`' `forEach`: a record, or the error for the first missing nested node. */
  function ReadMemo(node: MemoNode, index: nat, turndown: string -> string, files: FilesPlaceholder): (r: Result<Memo, LoadError>)
    ensures r.Success? <==> node.time.Some? && node.content.Some? && node.files.Some?
    ensures r.Failure? ==> !r.error.MissingTagSelector? && r.error.memo == index
    ensures r.Success? ==> r.value.date == DateOf(node.time.value)
  {
    if node.time.None? then Failure(MissingTime(index))
    else if node.content.None? then Failure(MissingContent(index))
    else if node.files.None? then Failure(MissingFiles(index))
    else Success(BuildMemo(node.time.value, node.content.value, node.files.value, turndown, files))
  }

  /** A memo's content: the header, the converted body, a newline and the converted attachments. */
  lemma MemoContentLayout(dateTime: string, contentHtml: string, filesHtml: string,
                          turndown: string -> string, files: FilesPlaceholder)
    ensures BuildMemo(dateTime, contentHtml, filesHtml, turndown, files).content ==
      "\U{1F4C5} [[" + DateOf(dateTime) + "]] " + TimeText(dateTime) + "\n\n"
      + PostPass(turndown(MarksToPlaceholders(contentHtml)), files) + "\n" + PostPass(turndown(filesHtml), files)
  {
    CollapseMarksIsOnePass(contentHtml);
  }

  /** `loadMemos`: one record per `.memo` node in document order; the first malformed node aborts. */
  method LoadMemos(nodes: seq<MemoNode>, turndown: string -> string, files: FilesPlaceholder)
    returns (r: Result<seq<Memo>, LoadError>)
    ensures r.Success? <==> forall i :: 0 <= i < |nodes| ==> ReadMemo(nodes[i], i, turndown, files).Success?
    ensures r.Success? ==> |r.value| == |nodes|
    ensures r.Success? ==>
      forall i :: 0 <= i < |nodes| ==> ReadMemo(nodes[i], i, turndown, files) == Success(r.value[i])
    ensures r.Failure? ==>
      exists i :: 0 <= i < |nodes| && ReadMemo(nodes[i], i, turndown, files) == Failure(r.error)
        && (forall j :: 0 <= j < i ==> ReadMemo(nodes[j], j, turndown, files).Success?)
  {
    var res: seq<Memo> := [];
    for i := 0 to |nodes|
      invariant |res| == i
      invariant forall j :: 0 <= j < i ==> ReadMemo(nodes[j], j, turndown, files) == Success(res[j])
    {
      var m := ReadMemo(nodes[i], i, turndown, files);
      if m.Failure? {
        return Failure(m.error);
      }
      res := res + [m.value];
    }
    return Success(res);
  }

  /** `loadTags`: the option texts after the first, in document order, duplicates kept. */
  method LoadTags(optionTexts: seq<string>) returns (r: seq<string>)
    ensures |r| == if |optionTexts| == 0 then 0 else |optionTexts| - 1
    ensures forall i :: 0 <= i < |r| ==> r[i] == optionTexts[i + 1]
  {
    var res: seq<string> := [];
    var rest := if |optionTexts| == 0 then [] else optionTexts[1..];
    for i := 0 to |rest|
      invariant res == rest[..i]
    {
      res := res + [rest[i]];
    }
    return res;
  }

  /** `order` lists every key of `m` exactly once: the insertion order a JavaScript object keeps. */
  ghost predicate KeyOrder<V>(m: map<string, V>, order: seq<string>) {
    (forall i, j :: 0 <= i < j < |order| ==> order[i] != order[j])
    && (forall k :: k in m <==> k in order)
  }

  /** The parser state `FlomoCore` holds: memos, tags and the path-to-pieces dictionary `files`. */
  class FlomoCore {
    var memos: seq<Memo>
    var tags: seq<string>
    /** `files`: destination path to the pieces written there, in append order. */
    var files: map<string, seq<string>>
    /** The keys of `files` in insertion order, the order `for ... in` visits them. */
    var fileOrder: seq<string>

    /** The key order lists every key of `files` exactly once. */
    ghost predicate Valid()
      reads this
    {
      KeyOrder(files, fileOrder)
    }

    /** The field initialisation of the constructor, once memos and tags are loaded. */
    constructor (memos: seq<Memo>, tags: seq<string>)
      ensures Valid()
      ensures this.memos == memos && this.tags == tags
      ensures files == map[] && fileOrder == []
    {
      this.memos := memos;
      this.tags := tags;
      this.files := map[];
      this.fileOrder := [];
    }
  }

  /** Every `.memo` node has its three nested nodes. */
  predicate AllMemosReadable(doc: Document, turndown: string -> string, files: FilesPlaceholder) {
    forall i :: 0 <= i < |doc.memoNodes| ==> ReadMemo(doc.memoNodes[i], i, turndown, files).Success?
  }

  /**
    The `FlomoCore` constructor on a parsed page: `loadMemos` on the `.memo`
    nodes, then `loadTags` on the options of `#tag`, then the field
    initialisation; a missing nested node or a missing `#tag` aborts.
  */
  method LoadCore(doc: Document, turndown: string -> string, files: FilesPlaceholder)
    returns (r: Result<FlomoCore, LoadError>)
    ensures r.Success? <==> AllMemosReadable(doc, turndown, files) && doc.tagOptions.Some?
    ensures !AllMemosReadable(doc, turndown, files) ==> r.Failure? && r.error != MissingTagSelector
    ensures AllMemosReadable(doc, turndown, files) && doc.tagOptions.None? ==> r == Failure(MissingTagSelector)
    ensures r.Success? ==> fresh(r.value)
    ensures r.Success? ==> r.value.Valid() && r.value.files == map[] && r.value.fileOrder == []
    ensures r.Success? ==> |r.value.memos| == |doc.memoNodes|
    ensures r.Success? ==>
      (forall i :: 0 <= i < |doc.memoNodes| ==> ReadMemo(doc.memoNodes[i], i, turndown, files) == Success(r.value.memos[i]))
    ensures r.Success? ==> r.value.tags == if |doc.tagOptions.value| == 0 then [] else doc.tagOptions.value[1..]
  {
    var memos := LoadMemos(doc.memoNodes, turndown, files);
    if memos.Failure? {
      return Failure(memos.error);
    }
    if doc.tagOptions.None? {
      return Failure(MissingTagSelector);
    }
    var opts := doc.tagOptions.value;
    var tags := LoadTags(opts);
    assert tags == if |opts| == 0 then [] else opts[1..];
    var core := new FlomoCore(memos.value, tags);
    return Success(core);
  }
}

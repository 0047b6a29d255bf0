/** The Aksözlük scraping route (app/api/aksozluk/route.ts): the URL it
    fetches, the chain of regex replacements that cleans the article's HTML,
    the loop that strips leading noise until nothing changes, and the reply
    status. The HTML parser is not modelled: a page is given by the inner HTML
    of its `article p` elements. Each regex is written out as a matcher. */
module Aksozluk {
  import opened Wrappers
  import opened Text
  import opened Route
  import opened GlobalReplace

  // ---------------------------------------------------------------------------
  // turkishToAscii

  /** `charMap[char] || char`: a Turkish letter becomes its Latin base letter. */
  function FoldTurkish(c: char): char {
    match c
    case 'ç' => 'c' case 'Ç' => 'C'
    case 'ğ' => 'g' case 'Ğ' => 'G'
    case 'ı' => 'i' case 'İ' => 'I'
    case 'ö' => 'o' case 'Ö' => 'O'
    case 'ş' => 's' case 'Ş' => 'S'
    case 'ü' => 'u' case 'Ü' => 'U'
    case _ => c
  }

  predicate IsTurkishLetter(c: char) {
    c in {'ç', 'Ç', 'ğ', 'Ğ', 'ı', 'İ', 'ö', 'Ö', 'ş', 'Ş', 'ü', 'Ü'}
  }

  /** `turkishToAscii`: each character folded, then lower-cased. */
  function TurkishToAscii(s: string): (r: string)
    ensures |r| == |s|
    ensures forall i :: 0 <= i < |s| ==> r[i] == LowerAscii(FoldTurkish(s[i]))
  {
    if s == [] then [] else [LowerAscii(FoldTurkish(s[0]))] + TurkishToAscii(s[1..])
  }

  /** The URL path is free of the twelve Turkish letters and of ASCII capitals,
      and folding it again changes nothing. */
  lemma TurkishToAsciiFolds(s: string)
    ensures var r := TurkishToAscii(s);
      && (forall i :: 0 <= i < |r| ==> !IsTurkishLetter(r[i]) && !('A' <= r[i] <= 'Z'))
      && TurkishToAscii(r) == r
  {
    var r := TurkishToAscii(s);
    forall i | 0 <= i < |r|
      ensures !IsTurkishLetter(r[i]) && !('A' <= r[i] <= 'Z')
    {
      var c := FoldTurkish(s[i]);
      assert !IsTurkishLetter(c);
    }
  }

  function PageUrl(word: string): string {
    "https://aksozluk.org/" + TurkishToAscii(word)
  }

  // ---------------------------------------------------------------------------
  // Pieces shared by the regexes

  /** How much `(\s|&nbsp;)*` consumes from index `i`, case-insensitively. */
  function BlankRun(s: string, i: nat): (n: nat)
    decreases |s| - i
    ensures i + n <= |s| || n == 0
  {
    if i < |s| && IsSpace(s[i]) then 1 + BlankRun(s, i + 1)
    else if OccursAtI(s, i, "&nbsp;") then 6 + BlankRun(s, i + 6)
    else 0
  }

  /** `\w`: the ASCII letters, digits and underscore. */
  predicate IsWordChar(c: char) {
    ('a' <= c <= 'z') || ('A' <= c <= 'Z') || IsDigit(c) || c == '_'
  }

  /** The end of the opening tag `<name[^>]*>` that starts `s`: the index of
      its '>', or -1 when `s` does not start with `<name` or has no '>'. */
  function OpenTagEnd(s: string, name: string): (e: int)
    ensures e == -1 || (|name| <= e < |s| && s[e] == '>')
  {
    if OccursAtI(s, 0, name) then IndexOfChar(s, '>', |name|) else -1
  }

  // ---------------------------------------------------------------------------
  // /^(\s*(<[^>]+>\s*)*)\d{1,2}\s+(Ocak|…|Aralık)\s+\d{4}\s*/i → '$1'

  const Months: seq<string> :=
    ["Ocak", "Şubat", "Mart", "Nisan", "Mayıs", "Haziran",
     "Temmuz", "Ağustos", "Eylül", "Ekim", "Kasım", "Aralık"]

  /** How much `\s*(<[^>]+>\s*)*` consumes from index `i`: white space and
      whole tags, a tag running to the first '>' and holding at least one
      character. */
  function TagsAndSpaces(s: string, i: nat): (n: nat)
    decreases |s| - i
    ensures i + n <= |s| || n == 0
  {
    if i < |s| && IsSpace(s[i]) then 1 + TagsAndSpaces(s, i + 1)
    else if i < |s| && s[i] == '<' then
      var e := IndexOfChar(s, '>', i + 1);
      if e > i + 1 then (e + 1 - i) + TagsAndSpaces(s, e + 1) else 0
    else 0
  }

  /** The length of the first month name (in the order of the alternation)
      at index `i`, case-insensitively, or 0. */
  function MonthAt(s: string, i: nat, k: nat := 0): (n: nat)
    requires k <= |Months|
    decreases |Months| - k
    ensures n == 0 || i + n <= |s|
  {
    if k == |Months| then 0
    else if OccursAtI(s, i, Months[k]) then |Months[k]|
    else MonthAt(s, i, k + 1)
  }

  /** Where `\d{1,2}` ends from index `p`: after two digits, one, or none. */
  function DayEnd(s: string, p: nat): (e: nat)
    ensures p <= e
  {
    if p < |s| && IsDigit(s[p]) then (if p + 1 < |s| && IsDigit(s[p + 1]) then p + 2 else p + 1) else p
  }

  /** Where the month name starts: after the white space that follows the day. */
  function MonthStart(s: string, p: nat): (b: nat)
    ensures DayEnd(s, p) <= b
  {
    DayEnd(s, p) + SpaceRun(s, DayEnd(s, p))
  }

  /** Where the month name ends. */
  function MonthEnd(s: string, p: nat): (c: nat)
    ensures MonthStart(s, p) <= c
  {
    MonthStart(s, p) + MonthAt(s, MonthStart(s, p))
  }

  /** Where the year starts: after the white space that follows the month. */
  function YearStart(s: string, p: nat): (y: nat)
    ensures MonthEnd(s, p) <= y
  {
    MonthEnd(s, p) + SpaceRun(s, MonthEnd(s, p))
  }

  /** `\d{4}` at index `y`. */
  predicate YearAt(s: string, y: nat) {
    y + 4 <= |s| && IsDigit(s[y]) && IsDigit(s[y + 1]) && IsDigit(s[y + 2]) && IsDigit(s[y + 3])
  }

  /** The length of `\d{1,2}\s+Month\s+\d{4}\s*` at index `p`, or 0: every
      part but the last run of white space must be non-empty. The digit,
      space and month parts never need backtracking: a shorter choice is
      always followed by a digit or a space where the next part cannot start. */
  function DateAt(s: string, p: nat): (n: nat)
    ensures n == 0 || p + n <= |s|
  {
    var y := YearStart(s, p);
    if DayEnd(s, p) == p || MonthStart(s, p) == DayEnd(s, p) || MonthEnd(s, p) == MonthStart(s, p)
      || y == MonthEnd(s, p) || !YearAt(s, y)
    then 0
    else y + 4 + SpaceRun(s, y + 4) - p
  }

  /** The leading-date replacement: the date after the leading tags and white
      space is cut out, and those are kept. */
  function StripLeadingDate(s: string): (r: string)
    ensures |r| <= |s|
  {
    var p := TagsAndSpaces(s, 0);
    var n := DateAt(s, p);
    if n == 0 then s else s[..p] + s[p + n..]
  }

  // ---------------------------------------------------------------------------
  // /<a\b[^>]*>(.*?)<\/a>/gi → '$1'

  /** Where the lazy `(.*?)<\/a>` from index `j` stops: the first "</a>" at or
      after `j`, as long as no line terminator comes first; -1 otherwise. */
  function AnchorClose(s: string, j: nat): (k: int)
    decreases |s| - j
    ensures k == -1 || (j <= k && OccursAtI(s, k, "</a>"))
  {
    if OccursAtI(s, j, "</a>") then j
    else if j < |s| && !IsLineTerminator(s[j]) then AnchorClose(s, j + 1)
    else -1
  }

  function AnchorAt(s: string): (h: Option<Hit>)
    ensures h.Some? ==> 0 < h.value.length <= |s| && |h.value.replacement| < h.value.length
  {
    if OccursAtI(s, 0, "<a") && (|s| == 2 || !IsWordChar(s[2])) then
      var e := IndexOfChar(s, '>', 2);
      if e == -1 then None
      else
        var k := AnchorClose(s, e + 1);
        if k == -1 then None else Some(Hit(k + 4, s[e + 1..k]))
    else None
  }

  // ---------------------------------------------------------------------------
  // /\s*style="[^"]*"/gi → '' and /\s*style='[^']*'/gi → ''

  /** `\s*style=` followed by the quote `q`, a run without `q`, and `q`. The
      white-space run is taken whole: `style` cannot start inside it. */
  function StyleAt(s: string, q: char): (h: Option<Hit>)
    ensures h.Some? ==> 0 < h.value.length <= |s| && h.value.replacement == []
  {
    var w := SpaceRun(s, 0);
    if OccursAtI(s, w, "style=") && w + 6 < |s| && s[w + 6] == q then
      var e := IndexOfChar(s, q, w + 7);
      if e == -1 then None else Some(Hit(e + 1, []))
    else None
  }

  function DoubleQuotedStyleAt(s: string): Option<Hit> { StyleAt(s, '"') }
  function SingleQuotedStyleAt(s: string): Option<Hit> { StyleAt(s, '\'') }

  function StripStyles(s: string): string {
    ReplaceAll(ReplaceAll(s, DoubleQuotedStyleAt), SingleQuotedStyleAt)
  }

  // ---------------------------------------------------------------------------
  // /<span[^>]*>(\s|&nbsp;)*<\/span>/gi → '' and /(<span[^>]*>)(\s|&nbsp;)+/gi → '$1'

  /** A span holding only white space and `&nbsp;`. */
  function EmptySpanAt(s: string): (h: Option<Hit>)
    ensures h.Some? ==> 0 < h.value.length <= |s| && h.value.replacement == []
  {
    var e := OpenTagEnd(s, "<span");
    if e == -1 then None
    else
      var n := BlankRun(s, e + 1);
      if OccursAtI(s, e + 1 + n, "</span>") then Some(Hit(e + 1 + n + 7, [])) else None
  }

  /** An opening span followed by white space or `&nbsp;`: the tag is kept. */
  function SpanOpeningAt(s: string): (h: Option<Hit>)
    ensures h.Some? ==> 0 < h.value.length <= |s| && |h.value.replacement| < h.value.length
  {
    var e := OpenTagEnd(s, "<span");
    if e == -1 then None
    else
      var n := BlankRun(s, e + 1);
      if n == 0 then None else Some(Hit(e + 1 + n, s[..e + 1]))
  }

  // ---------------------------------------------------------------------------
  // The leading-noise loop

  /** `replace(/^(\s|&nbsp;)+/gi, '')` */
  function DropLeadingBlanks(s: string): (r: string)
    ensures |r| <= |s|
  {
    Skip(s, BlankRun(s, 0))
  }

  /** `replace(/^<span[^>]*>(\s|&nbsp;)*<\/span>/gi, '')` */
  function DropLeadingEmptySpan(s: string): (r: string)
    ensures |r| <= |s|
  {
    if EmptySpanAt(s).Some? then Skip(s, EmptySpanAt(s).value.length) else s
  }

  /** One pass of the loop body. */
  function Pass(s: string): (r: string)
    ensures r == s || |r| < |s|
  {
    DropLeadingEmptySpan(DropLeadingBlanks(s))
  }

  /** `f` repeated from `s` until an application changes nothing; every
      application that changes its argument shortens it. */
  function Fix(f: string -> string, s: string): (r: string)
    requires forall x :: f(x) == x || |f(x)| < |x|
    decreases |s|
    ensures f(r) == r
    ensures |r| <= |s|
  {
    if f(s) == s then s else Fix(f, f(s))
  }

  /** What the loop leaves: passes repeated until one changes nothing. */
  function Settle(s: string): (r: string)
    ensures Pass(r) == r
    ensures |r| <= |s|
  {
    Fix(Pass, s)
  }

  // ---------------------------------------------------------------------------
  // The cleaning chain and the reply

  /** Shortest content accepted. */
  const MinContentLength := 10
  const FetchFailed := "Failed to fetch data from Aksözlük"

  /** `paragraphs.join(' ').trim()` over the trimmed paragraph HTML. */
  function Joined(paragraphs: seq<string>): string {
    Trim(Join(TrimAll(paragraphs), " "))
  }

  function TrimAll(paragraphs: seq<string>): (r: seq<string>)
    ensures |r| == |paragraphs|
    ensures forall i :: 0 <= i < |r| ==> r[i] == Trim(paragraphs[i])
  {
    if paragraphs == [] then [] else [Trim(paragraphs[0])] + TrimAll(paragraphs[1..])
  }

  /** The content after the replacements and before the loop. */
  function Replaced(paragraphs: seq<string>): string {
    var content := StripLeadingDate(Joined(paragraphs));
    var content := ReplaceAll(content, AnchorAt);
    var content := StripStyles(content);
    var content := ReplaceAll(content, EmptySpanAt);
    ReplaceAll(content, SpanOpeningAt)
  }

  /** The content the route accepts or refuses. */
  function Cleaned(paragraphs: seq<string>): (r: string)
    ensures Trimmed(r)
  {
    Trim(Settle(Replaced(paragraphs)))
  }

  /** The cleaning chain of `GET`, with its `while` loop. */
  method Clean(paragraphs: seq<string>) returns (content: string)
    ensures content == Cleaned(paragraphs)
  {
    content := Trim(Join(TrimAll(paragraphs), " "));
    content := StripLeadingDate(content);
    content := ReplaceAll(content, AnchorAt);
    content := ReplaceAll(content, DoubleQuotedStyleAt);
    content := ReplaceAll(content, SingleQuotedStyleAt);
    content := ReplaceAll(content, EmptySpanAt);
    content := ReplaceAll(content, SpanOpeningAt);
    var previousContent := "";
    while previousContent != content
      invariant Settle(content) == Settle(Replaced(paragraphs))
      invariant previousContent == content ==> Pass(content) == content
      decreases |content| + (if previousContent == content then 0 else 1)
    {
      previousContent := content;
      content := DropLeadingBlanks(content);
      content := DropLeadingEmptySpan(content);
    }
    content := Trim(content);
  }

  /** What `GET` replies for the `word` parameter, when fetching a URL gives
      `fetch(url)`; a loaded page is given by its paragraphs' inner HTML. */
  function Respond(word: Option<string>, fetch: string -> Fetch<seq<string>>): (r: Reply<string>)
    ensures MissingWord(word) ==> r == Failure(400, WordRequired)
    ensures r.Failure? ==> r.status == 400 || r.status == 404 || r.status == 500
    ensures r.Success? ==> && word.Some? && r.source == "aksozluk" && r.word == word.value
                           && Trimmed(r.data) && |r.data| >= MinContentLength
  {
    if MissingWord(word) then Failure(400, WordRequired)
    else
      match fetch(PageUrl(word.value))
      case NotOk => Failure(404, WordNotFound)
      case Thrown => Failure(500, FetchFailed)
      case Loaded(paragraphs) =>
        var content := Cleaned(paragraphs);
        if |content| < MinContentLength then Failure(404, NoContent)
        else Success("aksozluk", word.value, content)
  }

  /** `GET` */
  method Get(word: Option<string>, fetch: string -> Fetch<seq<string>>) returns (reply: Reply<string>)
    ensures reply == Respond(word, fetch)
  {
    if word.None? || word.value == [] {
      return Failure(400, WordRequired);
    }
    var response := fetch(PageUrl(word.value));
    if response.NotOk? {
      return Failure(404, WordNotFound);
    }
    if response.Thrown? {
      return Failure(500, FetchFailed);
    }
    var content := Clean(response.page);
    if content == [] || |content| < MinContentLength {
      return Failure(404, NoContent);
    }
    reply := Success("aksozluk", word.value, content);
  }

  // ---------------------------------------------------------------------------
  // Properties of the leading-noise loop

  /** A pass drops a prefix of the content: the first `n` characters. */
  lemma PassDropsPrefix(s: string) returns (n: nat)
    ensures n <= |s| && Pass(s) == Skip(s, n)
  {
    var b := BlankRun(s, 0);
    var t := DropLeadingBlanks(s);
    if EmptySpanAt(t).Some? {
      var m := EmptySpanAt(t).value.length;
      SkipSkip(s, b, m);
      n := b + m;
    } else {
      n := b;
    }
  }

  /** Repeating a function that keeps a suffix of its argument keeps a suffix. */
  lemma {:induction false} FixKeepsSuffix(f: string -> string, s: string)
    requires forall x :: f(x) == x || |f(x)| < |x|
    requires forall x :: |f(x)| <= |x| && f(x) == Skip(x, |x| - |f(x)|)
    decreases |s|
    ensures Fix(f, s) == Skip(s, |s| - |Fix(f, s)|)
  {
    var t := f(s);
    if t != s {
      var r := Fix(f, t);
      FixKeepsSuffix(f, t);
      SkipSkip(s, |s| - |t|, |t| - |r|);
    }
  }

  /** The loop only drops a prefix of the content: it leaves `s` without its
      first `n` characters. */
  lemma SettleDropsPrefix(s: string) returns (n: nat)
    ensures n <= |s| && Settle(s) == Skip(s, n)
  {
    forall x
      ensures |Pass(x)| <= |x| && Pass(x) == Skip(x, |x| - |Pass(x)|)
    {
      var k := PassDropsPrefix(x);
    }
    FixKeepsSuffix(Pass, s);
    n := |s| - |Settle(s)|;
  }

  /** Content that a pass leaves unchanged starts with neither white space,
      `&nbsp;` nor an empty span, and the loop leaves it as it is. */
  lemma PassUnchanged(r: string)
    requires Pass(r) == r
    ensures BlankRun(r, 0) == 0 && EmptySpanAt(r).None?
    ensures Settle(r) == r
  {
    assert DropLeadingBlanks(r) == r;
  }

  /** What the loop leaves is settled: a second run of the loop changes nothing. */
  lemma SettleIdempotent(s: string)
    ensures Settle(Settle(s)) == Settle(s)
    ensures BlankRun(Settle(s), 0) == 0 && EmptySpanAt(Settle(s)).None?
  {
    PassUnchanged(Settle(s));
  }

  // ---------------------------------------------------------------------------
  // Properties of the blank runs

  lemma {:induction false} BlankRunShift(x: string, t: string, j: nat)
    decreases |t| - j
    ensures BlankRun(x + t, |x| + j) == BlankRun(t, j)
  {
    OccursAtIShift(x, t, j, "&nbsp;");
    if j < |t| {
      assert (x + t)[|x| + j] == t[j];
    }
    if j < |t| && IsSpace(t[j]) {
      BlankRunShift(x, t, j + 1);
    } else if OccursAtI(t, j, "&nbsp;") {
      BlankRunShift(x, t, j + 6);
    }
  }

  /** A text of blanks followed by a text that does not start with one. */
  lemma {:induction false} BlankRunAppend(b: string, y: string, j: nat)
    requires j <= |b| && BlankRun(b, j) == |b| - j
    requires BlankRun(y, 0) == 0
    decreases |b| - j
    ensures BlankRun(b + y, j) == |b| - j
  {
    if j == |b| {
      BlankRunShift(b, y, 0);
    } else {
      assert (b + y)[j] == b[j];
      if IsSpace(b[j]) {
        BlankRunAppend(b, y, j + 1);
      } else {
        OccursAtIAppend(b, y, j, "&nbsp;");
        BlankRunAppend(b, y, j + 6);
      }
    }
  }

  /** Nothing starting with '<' starts with a blank. */
  lemma NoBlankAtTag(s: string, i: nat)
    requires i < |s| && s[i] == '<'
    ensures BlankRun(s, i) == 0
  {
    if OccursAtI(s, i, "&nbsp;") {
      OccursAtIChar(s, i, "&nbsp;", 0);
    }
  }

  /** A blank run that stops at least six characters before the end of `x`
      does not depend on what follows `x`. */
  lemma {:induction false} BlankRunPrefix(x: string, t: string, i: nat)
    requires i + BlankRun(x, i) + 6 <= |x|
    decreases |x| - i
    ensures BlankRun(x + t, i) == BlankRun(x, i)
  {
    assert (x + t)[i] == x[i];
    OccursAtIPrefix(x, t, i, "&nbsp;");
    if IsSpace(x[i]) {
      BlankRunPrefix(x, t, i + 1);
    } else if OccursAtI(x, i, "&nbsp;") {
      BlankRunPrefix(x, t, i + 6);
    }
  }

  // ---------------------------------------------------------------------------
  // Properties of the span replacements

  /** `t` is an opening span tag, as `<span[^>]*>` matches it in any case. */
  predicate OpeningSpan(t: string) {
    6 <= |t| && OccursAtI(t, 0, "<span") && t[|t| - 1] == '>'
    && forall i :: 5 <= i < |t| - 1 ==> t[i] != '>'
  }

  /** `t` is a closing span tag, `</span>` in any case. */
  predicate ClosingSpan(t: string) {
    |t| == 7 && OccursAtI(t, 0, "</span>")
  }

  lemma OpeningSpanEnd(t: string)
    requires OpeningSpan(t)
    ensures OpenTagEnd(t, "<span") == |t| - 1
  {
    IndexOfCharFinds(t, '>', 5, |t| - 1);
  }

  /** An opening tag found in `x` is the one found in `x + t`. */
  lemma OpenTagEndAppend(x: string, t: string, name: string)
    requires OpenTagEnd(x, name) != -1
    ensures OpenTagEnd(x + t, name) == OpenTagEnd(x, name)
  {
    OccursAtIAppend(x, t, 0, name);
    IndexOfCharAppend(x, t, '>', |name|);
  }

  lemma ClosingSpanNoBlank(t: string)
    requires ClosingSpan(t)
    ensures BlankRun(t, 0) == 0
  {
    OccursAtIChar(t, 0, "</span>", 0);
    NoBlankAtTag(t, 0);
  }

  /** The match of `EmptySpanAt` in terms of its three parts. */
  lemma EmptySpanAtParts(s: string, e: nat, n: nat)
    requires OpenTagEnd(s, "<span") == e && BlankRun(s, e + 1) == n
    requires OccursAtI(s, e + 1 + n, "</span>")
    ensures EmptySpanAt(s) == Some(Hit(e + 1 + n + 7, []))
  {
    assert OpenTagEnd(s, "<span") != -1;
  }

  /** The match of `SpanOpeningAt` in terms of its two parts. */
  lemma SpanOpeningAtParts(s: string, e: nat, n: nat)
    requires OpenTagEnd(s, "<span") == e && BlankRun(s, e + 1) == n && n > 0
    ensures e + 1 <= |s| && SpanOpeningAt(s) == Some(Hit(e + 1 + n, s[..e + 1]))
  {
  }

  /** A span holding only blanks is matched whole. */
  lemma EmptySpanMatches(open: string, blanks: string, close: string, rest: string)
    requires OpeningSpan(open) && BlankRun(blanks, 0) == |blanks| && ClosingSpan(close)
    ensures EmptySpanAt(open + blanks + close + rest) == Some(Hit(|open + blanks + close|, []))
  {
    SpanOpenAt(open, blanks, close, rest);
    SpanBlanksAt(open, blanks, close, rest);
    SpanCloseAt(open, blanks, close, rest);
    EmptySpanAtParts(open + blanks + close + rest, |open| - 1, |blanks|);
  }

  /** The opening tag of an empty span ends where it was written to end. */
  lemma SpanOpenAt(open: string, blanks: string, close: string, rest: string)
    requires OpeningSpan(open)
    ensures OpenTagEnd(open + blanks + close + rest, "<span") == |open| - 1
  {
    var x := open + blanks;
    var y := x + close;
    OpeningSpanEnd(open);
    OpenTagEndAppend(open, blanks, "<span");
    OpenTagEndAppend(x, close, "<span");
    OpenTagEndAppend(y, rest, "<span");
  }

  /** The blank run inside an empty span stops at its closing tag. */
  lemma SpanBlanksAt(open: string, blanks: string, close: string, rest: string)
    requires 0 < |open| && BlankRun(blanks, 0) == |blanks| && ClosingSpan(close)
    ensures BlankRun(open + blanks + close + rest, |open|) == |blanks|
  {
    var x := open + blanks;
    var y := x + close;
    BlankRunShift(open, blanks, 0);
    ClosingSpanNoBlank(close);
    BlankRunAppend(x, close, |open|);
    BlankRunPrefix(y, rest, |open|);
  }

  /** The closing tag of an empty span follows its blanks. */
  lemma SpanCloseAt(open: string, blanks: string, close: string, rest: string)
    requires ClosingSpan(close)
    ensures OccursAtI(open + blanks + close + rest, |open + blanks|, "</span>")
  {
    var x := open + blanks;
    OccursAtIShift(x, close, 0, "</span>");
    OccursAtIAppend(x + close, rest, |x|, "</span>");
  }

  /** A span holding only blanks is deleted. */
  lemma EmptySpanRemoved(open: string, blanks: string, close: string, rest: string)
    requires OpeningSpan(open) && BlankRun(blanks, 0) == |blanks| && ClosingSpan(close)
    ensures ReplaceAll(open + blanks + close + rest, EmptySpanAt) == ReplaceAll(rest, EmptySpanAt)
  {
    EmptySpanMatches(open, blanks, close, rest);
    ReplaceAllHit(open + blanks + close, rest, EmptySpanAt, []);
  }

  /** An opening span followed by blanks is matched up to the end of the blanks. */
  lemma SpanOpeningMatches(open: string, blanks: string, rest: string)
    requires OpeningSpan(open) && blanks != [] && BlankRun(blanks, 0) == |blanks|
    requires BlankRun(rest, 0) == 0
    ensures SpanOpeningAt(open + blanks + rest) == Some(Hit(|open + blanks|, open))
  {
    var x := open + blanks;
    OpeningSpanEnd(open);
    OpenTagEndAppend(open, blanks, "<span");
    OpenTagEndAppend(x, rest, "<span");
    BlankRunShift(open, blanks, 0);
    BlankRunAppend(x, rest, |open|);
    SpanOpeningAtParts(x + rest, |open| - 1, |blanks|);
    PrefixOfAppend(open, blanks, rest);
  }

  /** Blanks right after an opening span are deleted, and the tag is kept. */
  lemma SpanOpeningCleaned(open: string, blanks: string, rest: string)
    requires OpeningSpan(open) && blanks != [] && BlankRun(blanks, 0) == |blanks|
    requires BlankRun(rest, 0) == 0
    ensures ReplaceAll(open + blanks + rest, SpanOpeningAt) == open + ReplaceAll(rest, SpanOpeningAt)
  {
    SpanOpeningMatches(open, blanks, rest);
    ReplaceAllHit(open + blanks, rest, SpanOpeningAt, open);
  }

  // ---------------------------------------------------------------------------
  // Properties of the reply

  /** A missing word is refused with 400 before anything is fetched: the
      reply is the same whatever the fetch would give. */
  lemma MissingWordRefused(word: Option<string>, fetch: string -> Fetch<seq<string>>, other: string -> Fetch<seq<string>>)
    requires MissingWord(word)
    ensures Respond(word, fetch) == Respond(word, other) == Failure(400, WordRequired)
  {
  }

  /** A non-ok upstream answer is a 404 and a thrown error a 500. */
  lemma UpstreamFailures(word: string, fetch: string -> Fetch<seq<string>>)
    requires word != []
    ensures fetch(PageUrl(word)).NotOk? ==> Respond(Some(word), fetch) == Failure(404, WordNotFound)
    ensures fetch(PageUrl(word)).Thrown? ==> Respond(Some(word), fetch) == Failure(500, FetchFailed)
  {
  }

  /** A loaded page is refused with 404 exactly when its cleaned content is
      shorter than ten characters; otherwise the reply carries that content,
      which has no white space at either end and starts with neither `&nbsp;`
      nor an empty span. */
  lemma LoadedReply(word: string, fetch: string -> Fetch<seq<string>>)
    requires word != [] && fetch(PageUrl(word)).Loaded?
    ensures var reply := Respond(Some(word), fetch);
      var content := Cleaned(fetch(PageUrl(word)).page);
      && (Status(reply) == 404 <==> |content| < MinContentLength)
      && (reply.Success? ==>
        && reply == Success("aksozluk", word, content)
        && |content| >= MinContentLength
        && Trimmed(content) && BlankRun(content, 0) == 0 && EmptySpanAt(content).None?)
  {
    CleanedStartsClean(fetch(PageUrl(word)).page);
  }

  /** What the loop guarantees on exit survives the final trim: the content
      starts with neither white space, `&nbsp;` nor an empty span. */
  lemma CleanedStartsClean(paragraphs: seq<string>)
    ensures Trimmed(Cleaned(paragraphs))
    ensures BlankRun(Cleaned(paragraphs), 0) == 0 && EmptySpanAt(Cleaned(paragraphs)).None?
  {
    var r := Settle(Replaced(paragraphs));
    SettleIdempotent(Replaced(paragraphs));
    assert TrimStart(r) == r;
    var c := TrimEnd(r);
    TrimEndDropsSpace(r);
    BlankRunDropEnd(c, r[|c|..]);
    if EmptySpanAt(c).Some? {
      EmptySpanAtAppend(c, r[|c|..]);
    }
  }

  /** A text whose extension starts with no blank starts with none itself. */
  lemma BlankRunDropEnd(x: string, t: string)
    requires BlankRun(x + t, 0) == 0
    ensures BlankRun(x, 0) == 0
  {
    if x != [] {
      assert (x + t)[0] == x[0];
    }
    if 6 <= |x| {
      OccursAtIPrefix(x, t, 0, "&nbsp;");
    }
  }

  /** The three parts of a match of `EmptySpanAt`. */
  lemma EmptySpanAtSplit(s: string) returns (e: nat, n: nat)
    requires EmptySpanAt(s).Some?
    ensures OpenTagEnd(s, "<span") == e && BlankRun(s, e + 1) == n
    ensures OccursAtI(s, e + 1 + n, "</span>") && EmptySpanAt(s) == Some(Hit(e + 1 + n + 7, []))
  {
    e := OpenTagEnd(s, "<span");
    n := BlankRun(s, e + 1);
  }

  /** An empty span at the start of `x` is the one at the start of `x + t`. */
  lemma EmptySpanAtAppend(x: string, t: string)
    requires EmptySpanAt(x).Some?
    ensures EmptySpanAt(x + t) == EmptySpanAt(x)
  {
    var e, n := EmptySpanAtSplit(x);
    OpenTagEndAppend(x, t, "<span");
    BlankRunPrefix(x, t, e + 1);
    OccursAtIAppend(x, t, e + 1 + n, "</span>");
    EmptySpanAtParts(x + t, e, n);
  }

  // ---------------------------------------------------------------------------
  // Properties of the anchor replacement

  /** `t` is an opening anchor tag as `<a\b[^>]*>` matches it in any case. */
  predicate OpeningAnchor(t: string) {
    3 <= |t| && OccursAtI(t, 0, "<a") && !IsWordChar(t[2]) && t[|t| - 1] == '>'
    && forall i :: 2 <= i < |t| - 1 ==> t[i] != '>'
  }

  /** `t` is a closing anchor tag, `</a>` in any case. */
  predicate ClosingAnchor(t: string) {
    |t| == 4 && OccursAtI(t, 0, "</a>")
  }

  /** The lazy scan stops at the first `</a>` when no line terminator comes before it. */
  lemma {:induction false} AnchorCloseFinds(s: string, j: nat, k: nat)
    requires j <= k && OccursAtI(s, k, "</a>")
    requires forall i :: j <= i < k ==> !OccursAtI(s, i, "</a>") && !IsLineTerminator(s[i])
    decreases k - j
    ensures AnchorClose(s, j) == k
  {
    if j < k {
      AnchorCloseFinds(s, j + 1, k);
    }
  }

  /** The match of `AnchorAt` in terms of its opening tag and its closing scan. */
  lemma AnchorAtParts(s: string, e: nat, k: nat)
    requires OccursAtI(s, 0, "<a") && 2 < |s| && !IsWordChar(s[2])
    requires IndexOfChar(s, '>', 2) == e && AnchorClose(s, e + 1) == k
    ensures e + 1 <= k && AnchorAt(s) == Some(Hit(k + 4, s[e + 1..k]))
  {
  }

  /** The opening tag of `open + inner + close + rest` ends where `open` does. */
  lemma AnchorOpenAt(open: string, inner: string, close: string, rest: string)
    requires OpeningAnchor(open)
    ensures var s := open + inner + close + rest;
      OccursAtI(s, 0, "<a") && 2 < |s| && !IsWordChar(s[2]) && IndexOfChar(s, '>', 2) == |open| - 1
  {
    var x := open + inner;
    var y := x + close;
    OccursAtIAppend(open, inner, 0, "<a");
    OccursAtIAppend(x, close, 0, "<a");
    OccursAtIAppend(y, rest, 0, "<a");
    assert (y + rest)[2] == open[2];
    IndexOfCharFinds(open, '>', 2, |open| - 1);
    IndexOfCharAppend(open, inner, '>', 2);
    IndexOfCharAppend(x, close, '>', 2);
    IndexOfCharAppend(y, rest, '>', 2);
  }

  /** Whether `</a>` starts inside `inner` does not depend on what surrounds it. */
  lemma AnchorInnerShift(open: string, inner: string, close: string, rest: string, j: nat)
    requires j < |inner| && |close| == 4
    ensures OccursAtI(open + inner + close + rest, |open| + j, "</a>") <==> OccursAtI(inner + close, j, "</a>")
  {
    var y := open + inner + close;
    OccursAtIPrefix(y, rest, |open| + j, "</a>");
    assert y == open + (inner + close);
    OccursAtIShift(open, inner + close, j, "</a>");
  }

  /** The closing scan from the end of `open` stops at `close`. */
  lemma AnchorCloseAt(open: string, inner: string, close: string, rest: string)
    requires ClosingAnchor(close)
    requires forall j :: 0 <= j < |inner| ==> !OccursAtI(inner + close, j, "</a>") && !IsLineTerminator(inner[j])
    ensures AnchorClose(open + inner + close + rest, |open|) == |open + inner|
  {
    var x := open + inner;
    var s := x + close + rest;
    forall i | |open| <= i < |x|
      ensures !OccursAtI(s, i, "</a>") && !IsLineTerminator(s[i])
    {
      AnchorInnerShift(open, inner, close, rest, i - |open|);
      assert s[i] == inner[i - |open|];
    }
    OccursAtIShift(x, close, 0, "</a>");
    OccursAtIAppend(x + close, rest, |x|, "</a>");
    AnchorCloseFinds(s, |open|, |x|);
  }

  /** An anchor whose closing scan stops at `close` is matched whole. */
  lemma AnchorMatchesAt(open: string, inner: string, close: string, rest: string)
    requires OpeningAnchor(open) && |close| == 4
    requires AnchorClose(open + inner + close + rest, |open|) == |open + inner|
    ensures AnchorAt(open + inner + close + rest) == Some(Hit(|open + inner + close|, inner))
  {
    var s := open + inner + close + rest;
    AnchorOpenAt(open, inner, close, rest);
    AnchorAtParts(s, |open| - 1, |open + inner|);
    MiddleOfAppend(open, inner, close, rest);
  }

  /** An anchor whose text holds neither a line terminator nor an earlier
      `</a>` is matched whole, and its text is what replaces it. */
  lemma AnchorMatches(open: string, inner: string, close: string, rest: string)
    requires OpeningAnchor(open) && ClosingAnchor(close)
    requires forall j :: 0 <= j < |inner| ==> !OccursAtI(inner + close, j, "</a>") && !IsLineTerminator(inner[j])
    ensures AnchorAt(open + inner + close + rest) == Some(Hit(|open + inner + close|, inner))
  {
    AnchorCloseAt(open, inner, close, rest);
    AnchorMatchesAt(open, inner, close, rest);
  }

  /** An anchor is replaced by its text, and the scan goes on after it. */
  lemma AnchorUnwrapped(open: string, inner: string, close: string, rest: string)
    requires OpeningAnchor(open) && ClosingAnchor(close)
    requires forall j :: 0 <= j < |inner| ==> !OccursAtI(inner + close, j, "</a>") && !IsLineTerminator(inner[j])
    ensures ReplaceAll(open + inner + close + rest, AnchorAt) == inner + ReplaceAll(rest, AnchorAt)
  {
    AnchorMatches(open, inner, close, rest);
    ReplaceAllHit(open + inner + close, rest, AnchorAt, inner);
  }

  // ---------------------------------------------------------------------------
  // Properties of the style replacements

  /** `a` is a `style=` attribute in any case, its value quoted by `q`. */
  predicate StyleAttribute(a: string, q: char) {
    8 <= |a| && OccursAtI(a, 0, "style=") && a[6] == q && a[|a| - 1] == q
    && forall i :: 7 <= i < |a| - 1 ==> a[i] != q
  }

  /** The match of `StyleAt` in terms of its white space, name and closing quote. */
  lemma StyleAtParts(s: string, q: char, w: nat, e: nat)
    requires SpaceRun(s, 0) == w && OccursAtI(s, w, "style=") && w + 6 < |s| && s[w + 6] == q
    requires IndexOfChar(s, q, w + 7) == e
    ensures StyleAt(s, q) == Some(Hit(e + 1, []))
  {
  }

  /** A white-space run followed by a non-space is exactly that run. */
  lemma SpaceRunBefore(ws: string, a: string, rest: string)
    requires SpaceRun(ws, 0) == |ws| && a != [] && !IsSpace(a[0])
    ensures SpaceRun(ws + a + rest, 0) == |ws|
  {
    var s := ws + a + rest;
    assert s[|ws|] == a[0];
    forall k | 0 <= k < |ws|
      ensures IsSpace(s[k])
    {
      assert s[k] == ws[k];
    }
    SpaceRunExact(s, 0, |ws|);
  }

  /** White space followed by a style attribute is matched up to the closing quote. */
  lemma StyleMatches(ws: string, a: string, rest: string, q: char)
    requires SpaceRun(ws, 0) == |ws| && StyleAttribute(a, q)
    ensures StyleAt(ws + a + rest, q) == Some(Hit(|ws + a|, []))
  {
    StyleNameAt(ws, a, rest);
    StyleQuoteEnd(ws, a, rest, q);
    StyleAtParts(ws + a + rest, q, |ws|, |ws + a| - 1);
  }

  /** After the white space comes the attribute name. */
  lemma StyleNameAt(ws: string, a: string, rest: string)
    requires SpaceRun(ws, 0) == |ws| && OccursAtI(a, 0, "style=")
    ensures SpaceRun(ws + a + rest, 0) == |ws| && OccursAtI(ws + a + rest, |ws|, "style=")
  {
    OccursAtIChar(a, 0, "style=", 0);
    NotSpaceByCanon(a[0]);
    SpaceRunBefore(ws, a, rest);
    OccursAtIShift(ws, a, 0, "style=");
    OccursAtIAppend(ws + a, rest, |ws|, "style=");
  }

  /** The value of a style attribute ends at its closing quote. */
  lemma StyleQuoteEnd(ws: string, a: string, rest: string, q: char)
    requires StyleAttribute(a, q)
    ensures (ws + a + rest)[|ws| + 6] == q && IndexOfChar(ws + a + rest, q, |ws| + 7) == |ws + a| - 1
  {
    var s := ws + a + rest;
    forall j | |ws| + 6 <= j < |ws + a|
      ensures s[j] == a[j - |ws|]
    {
    }
    IndexOfCharFinds(s, q, |ws| + 7, |ws + a| - 1);
  }

  /** A double-quoted style attribute is deleted with the white space before it. */
  lemma DoubleQuotedStyleRemoved(ws: string, a: string, rest: string)
    requires SpaceRun(ws, 0) == |ws| && StyleAttribute(a, '"')
    ensures ReplaceAll(ws + a + rest, DoubleQuotedStyleAt) == ReplaceAll(rest, DoubleQuotedStyleAt)
  {
    StyleMatches(ws, a, rest, '"');
    ReplaceAllHit(ws + a, rest, DoubleQuotedStyleAt, []);
  }

  /** A single-quoted style attribute is deleted with the white space before it. */
  lemma SingleQuotedStyleRemoved(ws: string, a: string, rest: string)
    requires SpaceRun(ws, 0) == |ws| && StyleAttribute(a, '\'')
    ensures ReplaceAll(ws + a + rest, SingleQuotedStyleAt) == ReplaceAll(rest, SingleQuotedStyleAt)
  {
    StyleMatches(ws, a, rest, '\'');
    ReplaceAllHit(ws + a, rest, SingleQuotedStyleAt, []);
  }

  /** A style match at index `i` needs `style=` to occur in `s` at or after `i`. */
  lemma StyleNeedsName(s: string, i: nat, q: char)
    requires i < |s|
    ensures StyleAt(s[i..], q).Some? ==> OccursAtI(s, i + SpaceRun(s[i..], 0), "style=")
  {
    if StyleAt(s[i..], q).Some? {
      assert s == s[..i] + s[i..];
      OccursAtIShift(s[..i], s[i..], SpaceRun(s[i..], 0), "style=");
    }
  }

  /** Content in which `style=` occurs nowhere, in any case, keeps its styles
      replacements from changing anything. */
  lemma StylesAbsent(s: string)
    requires forall i :: 0 <= i < |s| ==> !OccursAtI(s, i, "style=")
    ensures StripStyles(s) == s
  {
    forall i | 0 <= i < |s|
      ensures !HitsAt(DoubleQuotedStyleAt, s[i..]) && !HitsAt(SingleQuotedStyleAt, s[i..])
    {
      StyleNeedsName(s, i, '"');
      StyleNeedsName(s, i, '\'');
    }
    ReplaceAllNoHit(s, DoubleQuotedStyleAt);
    ReplaceAllNoHit(s, SingleQuotedStyleAt);
  }

  // ---------------------------------------------------------------------------
  // Properties of the leading-date replacement

  /** The first three characters of `w` in their case-insensitive form. */
  function Canon3(w: string): string
    requires 3 <= |w|
  {
    [Canon(w[0]), Canon(w[1]), Canon(w[2])]
  }

  /** Which month name starts with the case-insensitive letters `code`. */
  function MonthIndex(code: string): int {
    if code == "OCA" then 0 else if code == "ŞUB" then 1 else if code == "MAR" then 2
    else if code == "NIS" then 3 else if code == "MAY" then 4 else if code == "HAZ" then 5
    else if code == "TEM" then 6 else if code == "AĞU" then 7 else if code == "EYL" then 8
    else if code == "EKI" then 9 else if code == "KAS" then 10 else if code == "ARA" then 11
    else -1
  }

  /** The first three letters of a month name tell it apart from the others. */
  lemma MonthCode(m: nat)
    requires m < |Months|
    ensures 4 <= |Months[m]| && MonthIndex(Canon3(Months[m])) == m
  {
    if m == 0 {} else if m == 1 {} else if m == 2 {} else if m == 3 {}
    else if m == 4 {} else if m == 5 {} else if m == 6 {} else if m == 7 {}
    else if m == 8 {} else if m == 9 {} else if m == 10 {} else {}
  }

  /** No month name starts with white space, in any case. */
  lemma MonthStartsWithLetter(m: nat)
    requires m < |Months|
    ensures 4 <= |Months[m]| && !IsSpace(Canon(Months[m][0]))
  {
    MonthCode(m);
    var code := Canon3(Months[m]);
    assert code[0] == Canon(Months[m][0]);
  }

  /** Two different month names never occur at the same place. */
  lemma MonthNotOther(s: string, i: nat, k: nat, m: nat)
    requires k < |Months| && m < |Months| && k != m && OccursAtI(s, i, Months[m])
    ensures !OccursAtI(s, i, Months[k])
  {
    MonthCode(k);
    MonthCode(m);
    OccursAtIChar(s, i, Months[m], 0);
    OccursAtIChar(s, i, Months[m], 1);
    OccursAtIChar(s, i, Months[m], 2);
  }

  /** What the alternation finds is a month name written at `i`. */
  lemma {:induction false} MonthAtIsMonth(s: string, i: nat, k: nat := 0) returns (m: nat)
    requires k <= |Months| && MonthAt(s, i, k) != 0
    decreases |Months| - k
    ensures k <= m < |Months| && MonthAt(s, i, k) == |Months[m]| && OccursAtI(s, i, Months[m])
  {
    if OccursAtI(s, i, Months[k]) {
      m := k;
    } else {
      m := MonthAtIsMonth(s, i, k + 1);
    }
  }

  /** The alternation tries the names in order and finds the one written. */
  lemma {:induction false} MonthAtFinds(s: string, i: nat, m: nat, k: nat := 0)
    requires k <= m < |Months| && OccursAtI(s, i, Months[m])
    decreases m - k
    ensures MonthAt(s, i, k) == |Months[m]|
  {
    if k < m {
      MonthNotOther(s, i, k, m);
      MonthAtFinds(s, i, m, k + 1);
    }
  }

  /** A date as the regex matches it: day, white space, month name, white
      space, year and the white space after it. */
  datatype Date = Date(day: string, gap1: string, month: string, gap2: string, year: string, gap3: string)

  predicate AllDigits(t: string) {
    forall i :: 0 <= i < |t| ==> IsDigit(t[i])
  }

  /** One of the twelve month names, in any case. */
  predicate IsMonthName(t: string) {
    exists m :: 0 <= m < |Months| && |t| == |Months[m]| && OccursAtI(t, 0, Months[m])
  }

  /** One or two digits, white space, a month name in any case, white space,
      four digits and possibly more white space. */
  predicate IsDate(d: Date) {
    && 1 <= |d.day| <= 2 && AllDigits(d.day)
    && d.gap1 != [] && SpaceRun(d.gap1, 0) == |d.gap1|
    && IsMonthName(d.month)
    && d.gap2 != [] && SpaceRun(d.gap2, 0) == |d.gap2|
    && |d.year| == 4 && AllDigits(d.year)
    && SpaceRun(d.gap3, 0) == |d.gap3|
  }

  function DateText(d: Date): string {
    d.day + d.gap1 + d.month + d.gap2 + d.year + d.gap3
  }

  /** What `\s*(<[^>]+>\s*)*` consumes whole. */
  predicate LeadingNoise(pre: string) {
    TagsAndSpaces(pre, 0) == |pre|
  }

  /** Leading white space and tags stop where a digit follows them. */
  lemma {:induction false} TagsAndSpacesAppend(x: string, y: string, i: nat)
    requires i <= |x| && TagsAndSpaces(x, i) == |x| - i
    requires y != [] && IsDigit(y[0])
    decreases |x| - i
    ensures TagsAndSpaces(x + y, i) == |x| - i
  {
    if i == |x| {
      assert (x + y)[i] == y[0];
    } else {
      assert (x + y)[i] == x[i];
      if IsSpace(x[i]) {
        TagsAndSpacesAppend(x, y, i + 1);
      } else {
        var e := IndexOfChar(x, '>', i + 1);
        IndexOfCharAppend(x, y, '>', i + 1);
        TagsAndSpacesAppend(x, y, e + 1);
      }
    }
  }


  /** The match of `DateAt` in terms of the positions of its parts. */
  lemma DateAtPositions(s: string, p: nat, a: nat, b: nat, c: nat, y: nat)
    requires DayEnd(s, p) == a && MonthStart(s, p) == b && MonthEnd(s, p) == c && YearStart(s, p) == y
    requires p < a < b < c < y && YearAt(s, y)
    ensures DateAt(s, p) == y + 4 + SpaceRun(s, y + 4) - p
  {
  }

  /** Leading noise, a date and the rest, as one left-nested concatenation. */
  function Dated(pre: string, d: Date, rest: string): string {
    pre + d.day + d.gap1 + d.month + d.gap2 + d.year + d.gap3 + rest
  }

  lemma DatedText(pre: string, d: Date, rest: string)
    ensures pre + DateText(d) + rest == Dated(pre, d, rest)
  {
  }

  /** The day ends after its one or two digits. */
  lemma DayEndAt(pre: string, d: Date, rest: string)
    requires IsDate(d)
    ensures DayEnd(Dated(pre, d, rest), |pre|) == |pre| + |d.day|
  {
    var s := Dated(pre, d, rest);
    assert s[|pre|] == d.day[0];
    if |d.day| == 2 {
      assert s[|pre| + 1] == d.day[1];
    } else {
      assert IsSpace(d.gap1[0]);
      assert s[|pre| + 1] == d.gap1[0];
    }
  }

  /** The white space after the day runs up to the month name. */
  lemma MonthStartAt(pre: string, d: Date, rest: string, m: nat)
    requires IsDate(d) && m < |Months| && |d.month| == |Months[m]| && OccursAtI(d.month, 0, Months[m])
    ensures MonthStart(Dated(pre, d, rest), |pre|) == |pre| + |d.day| + |d.gap1|
  {
    var x := pre + d.day;
    var v3 := x + d.gap1 + d.month;
    var v4 := v3 + d.gap2;
    var v5 := v4 + d.year;
    var v6 := v5 + d.gap3;
    DayEndAt(pre, d, rest);
    MonthStartsWithLetter(m);
    OccursAtIChar(d.month, 0, Months[m], 0);
    NotSpaceByCanon(d.month[0]);
    SpaceRunPart(x, d.gap1, d.month);
    SpaceRunAppend(v3, d.gap2, |x|);
    SpaceRunAppend(v4, d.year, |x|);
    SpaceRunAppend(v5, d.gap3, |x|);
    SpaceRunAppend(v6, rest, |x|);
  }

  /** The month name occurs where it is written. */
  lemma MonthOccursAt(pre: string, d: Date, rest: string, m: nat)
    requires m < |Months| && OccursAtI(d.month, 0, Months[m])
    ensures OccursAtI(Dated(pre, d, rest), |pre + d.day + d.gap1|, Months[m])
  {
    var x := pre + d.day + d.gap1;
    var v3 := x + d.month;
    var v4 := v3 + d.gap2;
    var v5 := v4 + d.year;
    var v6 := v5 + d.gap3;
    OccursAtIShift(x, d.month, 0, Months[m]);
    OccursAtIAppend(v3, d.gap2, |x|, Months[m]);
    OccursAtIAppend(v4, d.year, |x|, Months[m]);
    OccursAtIAppend(v5, d.gap3, |x|, Months[m]);
    OccursAtIAppend(v6, rest, |x|, Months[m]);
  }

  /** The month name is the one the alternation finds. */
  lemma MonthEndAt(pre: string, d: Date, rest: string, m: nat)
    requires IsDate(d) && m < |Months| && |d.month| == |Months[m]| && OccursAtI(d.month, 0, Months[m])
    ensures MonthEnd(Dated(pre, d, rest), |pre|) == |pre| + |d.day| + |d.gap1| + |d.month|
  {
    var s := Dated(pre, d, rest);
    var b := |pre + d.day + d.gap1|;
    MonthStartAt(pre, d, rest, m);
    assert MonthStart(s, |pre|) == b;
    MonthOccursAt(pre, d, rest, m);
    MonthAtFinds(s, b, m);
  }

  /** The white space after the month runs up to the year. */
  lemma YearStartAt(pre: string, d: Date, rest: string, m: nat)
    requires IsDate(d) && m < |Months| && |d.month| == |Months[m]| && OccursAtI(d.month, 0, Months[m])
    ensures YearStart(Dated(pre, d, rest), |pre|) == |pre| + |d.day| + |d.gap1| + |d.month| + |d.gap2|
  {
    var x := pre + d.day + d.gap1 + d.month;
    var v5 := x + d.gap2 + d.year;
    var v6 := v5 + d.gap3;
    MonthEndAt(pre, d, rest, m);
    SpaceRunPart(x, d.gap2, d.year);
    SpaceRunAppend(v5, d.gap3, |x|);
    SpaceRunAppend(v6, rest, |x|);
  }

  /** The year's four digits, and the white space after them up to `rest`. */
  lemma YearAndGapAt(pre: string, d: Date, rest: string)
    requires IsDate(d) && (rest == [] || !IsSpace(rest[0]))
    ensures var y := |pre| + |d.day| + |d.gap1| + |d.month| + |d.gap2|;
      YearAt(Dated(pre, d, rest), y) && SpaceRun(Dated(pre, d, rest), y + 4) == |d.gap3|
  {
    var x := pre + d.day + d.gap1 + d.month + d.gap2;
    var s := Dated(pre, d, rest);
    forall j | 0 <= j < 4
      ensures s[|x| + j] == d.year[j]
    {
    }
    SpaceRunPart(x + d.year, d.gap3, rest);
  }

  /** A date after any text is matched whole. */
  lemma DateAtDated(pre: string, d: Date, rest: string)
    requires IsDate(d) && (rest == [] || !IsSpace(rest[0]))
    ensures DateAt(Dated(pre, d, rest), |pre|) == |DateText(d)|
  {
    var a := |pre| + |d.day|;
    var b := a + |d.gap1|;
    var c := b + |d.month|;
    var y := c + |d.gap2|;
    DatePositions(pre, d, rest);
    YearAndGapAt(pre, d, rest);
    DateAtPositions(Dated(pre, d, rest), |pre|, a, b, c, y);
  }

  /** Where each part of a date after `pre` starts and ends. */
  lemma DatePositions(pre: string, d: Date, rest: string)
    requires IsDate(d)
    ensures var s := Dated(pre, d, rest);
      && DayEnd(s, |pre|) == |pre| + |d.day|
      && MonthStart(s, |pre|) == |pre| + |d.day| + |d.gap1|
      && MonthEnd(s, |pre|) == |pre| + |d.day| + |d.gap1| + |d.month|
      && YearStart(s, |pre|) == |pre| + |d.day| + |d.gap1| + |d.month| + |d.gap2|
      && 0 < |d.month|
  {
    var m :| 0 <= m < |Months| && |d.month| == |Months[m]| && OccursAtI(d.month, 0, Months[m]);
    MonthStartsWithLetter(m);
    DayEndAt(pre, d, rest);
    MonthStartAt(pre, d, rest, m);
    MonthEndAt(pre, d, rest, m);
    YearStartAt(pre, d, rest, m);
  }

  /** Leading noise stops at the day's first digit. */
  lemma NoiseBeforeDate(pre: string, d: Date, rest: string)
    requires LeadingNoise(pre) && IsDate(d)
    ensures TagsAndSpaces(Dated(pre, d, rest), 0) == |pre|
  {
    var s := Dated(pre, d, rest);
    assert s == pre + s[|pre|..];
    assert s[|pre|..][0] == d.day[0];
    TagsAndSpacesAppend(pre, s[|pre|..], 0);
  }

  /** A leading date is cut out with the white space after it, and the tags
      and white space before it are kept. */
  lemma LeadingDateRemoved(pre: string, d: Date, rest: string)
    requires LeadingNoise(pre) && IsDate(d) && (rest == [] || !IsSpace(rest[0]))
    ensures StripLeadingDate(pre + DateText(d) + rest) == pre + rest
  {
    var s := Dated(pre, d, rest);
    DatedText(pre, d, rest);
    NoiseBeforeDate(pre, d, rest);
    DateAtDated(pre, d, rest);
    CutMiddle(pre, DateText(d), rest);
  }

  /** The white space cut out at a run is white space through and through. */
  lemma SpaceRunSlice(s: string, i: nat, j: nat)
    requires i <= |s| && j == i + SpaceRun(s, i)
    ensures SpaceRun(s[i..j], 0) == j - i
  {
    var t := s[i..j];
    forall k | 0 <= k < j - i
      ensures IsSpace(t[k])
    {
      assert t[k] == s[i + k];
    }
    SpaceRunExact(t, 0, j - i);
  }

  /** The day the date pattern matches is one or two digits. */
  lemma DaySlice(s: string, p: nat, a: nat)
    requires a == DayEnd(s, p) && p < a
    ensures a <= |s| && 1 <= a - p <= 2 && AllDigits(s[p..a])
  {
  }

  /** The four digits of the year, cut out. */
  lemma YearSlice(s: string, y: nat)
    requires YearAt(s, y)
    ensures AllDigits(s[y..y + 4])
  {
  }

  /** The month the alternation matches, cut out, is a month name. */
  lemma MonthSlice(s: string, b: nat, c: nat)
    requires c == b + MonthAt(s, b) && b < c
    ensures c <= |s| && IsMonthName(s[b..c])
  {
    var m := MonthAtIsMonth(s, b);
    var t := s[b..c];
    forall k | 0 <= k < |Months[m]|
      ensures Canon(t[k]) == Canon(Months[m][k])
    {
      OccursAtIChar(s, b, Months[m], k);
    }
    assert OccursAtI(t, 0, Months[m]);
  }

  /** A white-space run ends at the end of the content or before a character
      that is not white space. */
  lemma RunEnds(s: string, i: nat, j: nat)
    requires i <= |s| && j == i + SpaceRun(s, i)
    ensures j <= |s| && SpaceRun(s, j) == 0
  {
  }

  /** Where the parts of a date match start and end. */
  lemma DateAtParts(s: string, p: nat)
    requires DateAt(s, p) != 0
    ensures var a, b, c, y := DayEnd(s, p), MonthStart(s, p), MonthEnd(s, p), YearStart(s, p);
      && p < a < b < c < y && YearAt(s, y)
      && b == a + SpaceRun(s, a) && c == b + MonthAt(s, b) && y == c + SpaceRun(s, c)
      && p + DateAt(s, p) == y + 4 + SpaceRun(s, y + 4)
  {
  }

  /** The parts of a match, each in its own place. */
  function PartsDate(s: string, p: nat, a: nat, b: nat, c: nat, y: nat, f: nat): Date
    requires p <= a <= b <= c <= y && y + 4 <= f <= |s|
  {
    Date(s[p..a], s[a..b], s[b..c], s[c..y], s[y..y + 4], s[y + 4..f])
  }

  /** The parts of a match make a date. */
  lemma PartsAreDate(s: string, p: nat, a: nat, b: nat, c: nat, y: nat, f: nat)
    requires DayEnd(s, p) == a && p < a < b < c < y && YearAt(s, y)
    requires b == a + SpaceRun(s, a) && c == b + MonthAt(s, b) && y == c + SpaceRun(s, c)
    requires f == y + 4 + SpaceRun(s, y + 4)
    ensures f <= |s| && IsDate(PartsDate(s, p, a, b, c, y, f))
  {
    DaySlice(s, p, a);
    SpaceRunSlice(s, a, b);
    MonthSlice(s, b, c);
    YearSlice(s, y);
    SpaceRunSlice(s, c, y);
    SpaceRunSlice(s, y + 4, f);
  }

  /** The parts of a match, put back together, are the match. */
  lemma PartsJoin(s: string, p: nat, a: nat, b: nat, c: nat, y: nat, f: nat)
    requires p <= a <= b <= c <= y && y + 4 <= f <= |s|
    ensures DateText(PartsDate(s, p, a, b, c, y, f)) == s[p..f]
  {
    SliceJoin(s, p, a, b);
    SliceJoin(s, p, b, c);
    SliceJoin(s, p, c, y);
    SliceJoin(s, p, y, y + 4);
    SliceJoin(s, p, y + 4, f);
  }

  /** Whatever the date pattern matches is a written date. */
  lemma DateAtIsDate(s: string, p: nat) returns (d: Date)
    requires DateAt(s, p) != 0
    ensures IsDate(d) && p + DateAt(s, p) <= |s| && s[p..p + DateAt(s, p)] == DateText(d)
  {
    DateAtParts(s, p);
    var a, b, c, y := DayEnd(s, p), MonthStart(s, p), MonthEnd(s, p), YearStart(s, p);
    var f := p + DateAt(s, p);
    PartsAreDate(s, p, a, b, c, y, f);
    PartsJoin(s, p, a, b, c, y, f);
    d := PartsDate(s, p, a, b, c, y, f);
  }

  /** A date match takes all the white space after the year: no white space
      follows it. */
  lemma DateAtEnds(s: string, p: nat)
    requires DateAt(s, p) != 0
    ensures p + DateAt(s, p) <= |s| && SpaceRun(s, p + DateAt(s, p)) == 0
  {
    DateAtParts(s, p);
    var y := YearStart(s, p);
    RunEnds(s, y + 4, p + DateAt(s, p));
  }

  /** The leading white space and tags, cut off the content, are consumed whole. */
  lemma {:induction false} TagsAndSpacesPrefix(s: string, i: nat, q: nat)
    requires i <= q <= |s| && i + TagsAndSpaces(s, i) == q
    decreases |s| - i
    ensures TagsAndSpaces(s[..q], i) == q - i
  {
    var x := s[..q];
    if i < q {
      assert x[i] == s[i];
      if IsSpace(s[i]) {
        TagsAndSpacesPrefix(s, i + 1, q);
      } else {
        var e := IndexOfChar(s, '>', i + 1);
        IndexOfCharFirst(s, '>', i + 1);
        IndexOfCharFinds(x, '>', i + 1, e);
        TagsAndSpacesPrefix(s, e + 1, q);
      }
    }
  }

  /** `s` is leading white space and tags, a date with all the white space
      after it, and the rest. */
  predicate DatedAs(s: string, pre: string, d: Date, rest: string) {
    && LeadingNoise(pre) && IsDate(d) && (rest == [] || !IsSpace(rest[0]))
    && s == pre + DateText(d) + rest
  }

  /** The leading-date replacement changes nothing unless the content is
      leading noise, a date and the rest; then only the date goes. */
  lemma NoLeadingDate(s: string)
    ensures StripLeadingDate(s) == s
      || exists pre, d, rest :: DatedAs(s, pre, d, rest) && StripLeadingDate(s) == pre + rest
  {
    if StripLeadingDate(s) != s {
      var pre, d, rest := LeadingDateParts(s);
    }
  }

  /** Content the leading-date replacement changes, taken apart. */
  lemma LeadingDateParts(s: string) returns (pre: string, d: Date, rest: string)
    requires StripLeadingDate(s) != s
    ensures DatedAs(s, pre, d, rest) && StripLeadingDate(s) == pre + rest
  {
    var p := TagsAndSpaces(s, 0);
    TagsAndSpacesPrefix(s, 0, p);
    pre, d, rest := DateSplit(s, p);
  }

  /** Content with a date match at `p`, taken apart around it. */
  lemma DateSplit(s: string, p: nat) returns (pre: string, d: Date, rest: string)
    requires DateAt(s, p) != 0
    ensures p + DateAt(s, p) <= |s| && pre == s[..p] && rest == s[p + DateAt(s, p)..]
    ensures IsDate(d) && s == pre + DateText(d) + rest && (rest == [] || !IsSpace(rest[0]))
  {
    var q := p + DateAt(s, p);
    d := DateAtIsDate(s, p);
    DateAtEnds(s, p);
    StrippedDated(s, p, q, DateText(d));
    pre, rest := s[..p], s[q..];
  }

  /** Content cut around a date match is what comes before it, the date and
      the rest, which does not start with white space. */
  lemma StrippedDated(s: string, p: nat, q: nat, t: string)
    requires p <= q <= |s| && s[p..q] == t && SpaceRun(s, q) == 0
    ensures s == s[..p] + t + s[q..] && (s[q..] == [] || !IsSpace(s[q..][0]))
  {
    SplitThree(s, p, q);
  }

  /** Content of that shape is always changed: the converse of `NoLeadingDate`. */
  lemma DatedChanges(s: string, pre: string, d: Date, rest: string)
    requires DatedAs(s, pre, d, rest)
    ensures StripLeadingDate(s) == pre + rest != s
  {
    LeadingDateRemoved(pre, d, rest);
  }
}

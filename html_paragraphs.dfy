/** `formatHtmlWithParagraphs` of the etymology card
    (components/UnifiedEtymologyCard.tsx): the leading clean-up regex, the
    text-only length, the scan that walks the markup counting text characters,
    and the splitting loop around it. */
module HtmlParagraphs {
  import opened Text
  import opened Paragraphs

  // ---------------------------------------------------------------------------
  // Leading clean-up: html.replace(/^(\s|&nbsp;|<br\s*\/?>|<span>\s*<\/span>|
  //                                   <em>\s*<\/em>|<strong>\s*<\/strong>)+/gi, '').trim()

  /** Length of a `<br\s*\/?>` at the start of `s`, or 0. */
  function BreakLen(s: string): (n: nat)
    ensures n <= |s|
  {
    if !OccursAtI(s, 0, "<br") then 0
    else
      var j := 3 + SpaceRun(s, 3);
      if j < |s| && s[j] == '>' then j + 1
      else if j + 1 < |s| && s[j] == '/' && s[j + 1] == '>' then j + 2
      else 0
  }

  /** Length of an empty element `<tag>\s*</tag>` at the start of `s`, or 0, given
      its opening and closing tags. */
  function EmptyPairLen(s: string, open: string, close: string): (n: nat)
    ensures n <= |s|
  {
    if !OccursAtI(s, 0, open) then 0
    else
      var j := |open| + SpaceRun(s, |open|);
      if OccursAtI(s, j, close) then j + |close| else 0
  }

  /** Length of the clean-up pattern's alternative that matches at the start of `s`,
      or 0 when none does. The alternatives start differently, so at most one matches. */
  function JunkLen(s: string): (n: nat)
    ensures n <= |s|
  {
    if |s| > 0 && IsSpace(s[0]) then 1
    else if OccursAtI(s, 0, "&nbsp;") then 6
    else if BreakLen(s) > 0 then BreakLen(s)
    else if EmptyPairLen(s, "<span>", "</span>") > 0 then EmptyPairLen(s, "<span>", "</span>")
    else if EmptyPairLen(s, "<em>", "</em>") > 0 then EmptyPairLen(s, "<em>", "</em>")
    else EmptyPairLen(s, "<strong>", "</strong>")
  }

  /** The anchored `(…)+` loop: drops leading alternatives for as long as one matches. */
  function StripJunk(s: string): (r: string)
    decreases |s|
    ensures |r| <= |s|
    ensures JunkLen(r) == 0
    ensures r == s[|s| - |r|..]
  {
    var n := JunkLen(s);
    if n == 0 then s
    else
      var t := s[n..];
      var r := StripJunk(t);
      assert |t| == |s| - n;
      SuffixOfDrop(s, n, |r|);
      r
  }

  /** `cleanedHtml` */
  function HtmlClean(html: string): (r: string)
    ensures Trimmed(r)
  {
    var r := Trim(StripJunk(html));
    assert Trimmed(r);
    r
  }

  /** A whole clean-up piece in front of the text is dropped, and the clean-up
      then goes on with the text after it. */
  lemma StripJunkPiece(a: string, b: string)
    requires JunkLen(a) == |a| > 0
    ensures StripJunk(a + b) == StripJunk(b)
  {
    JunkLenAppend(a, b);
    assert (a + b)[|a|..] == b;
  }

  /** Markup that starts with text and has no white space at its ends is left as is. */
  lemma HtmlCleanUnchanged(html: string)
    requires JunkLen(html) == 0 && Trimmed(html)
    ensures HtmlClean(html) == html
  {
    TrimNoop(html);
  }

  /** The cleaned markup is a piece of the original: the clean-up only drops
      characters at the two ends. */
  lemma HtmlCleanSlice(html: string) returns (d: nat)
    ensures d + |HtmlClean(html)| <= |html|
    ensures HtmlClean(html) == html[d..d + |HtmlClean(html)|]
  {
    d := TrimOfSuffix(html, StripJunk(html));
  }

  lemma BreakLenAppend(a: string, b: string)
    requires BreakLen(a) > 0
    ensures BreakLen(a + b) == BreakLen(a)
  {
    OccursAtIAppend(a, b, 0, "<br");
    SpaceRunAppend(a, b, 3);
  }

  lemma EmptyPairLenAppend(a: string, b: string, open: string, close: string)
    requires EmptyPairLen(a, open, close) > 0 && close != []
    ensures EmptyPairLen(a + b, open, close) == EmptyPairLen(a, open, close)
  {
    var j := |open| + SpaceRun(a, |open|);
    assert OccursAtI(a, 0, open) && OccursAtI(a, j, close);
    OccursAtIAppend(a, b, 0, open);
    SpaceRunAppend(a, b, |open|);
    OccursAtIAppend(a, b, j, close);
    EmptyPairLenMatch(a + b, open, close, j);
  }

  lemma EmptyPairLenMatch(s: string, open: string, close: string, j: nat)
    requires OccursAtI(s, 0, open) && j == |open| + SpaceRun(s, |open|) && OccursAtI(s, j, close)
    ensures EmptyPairLen(s, open, close) == j + |close|
  {
  }

  /** Whatever the pattern matches at the start of `a` it matches at the start of `a + b`. */
  lemma JunkLenAppend(a: string, b: string)
    requires JunkLen(a) > 0
    ensures JunkLen(a + b) == JunkLen(a)
  {
    var s := a + b;
    assert s[0] == a[0];
    if IsSpace(a[0]) {
    } else if OccursAtI(a, 0, "&nbsp;") {
      OccursAtIAppend(a, b, 0, "&nbsp;");
    } else if BreakLen(a) > 0 {
      OccursAtIChar(a, 0, "<br", 0);
      NotAt(s, "&nbsp;", 0);
      BreakLenAppend(a, b);
    } else {
      assert Canon(a[0]) == Canon('<') by {
        if EmptyPairLen(a, "<span>", "</span>") > 0 {
          OccursAtIChar(a, 0, "<span>", 0);
        } else if EmptyPairLen(a, "<em>", "</em>") > 0 {
          OccursAtIChar(a, 0, "<em>", 0);
        } else {
          OccursAtIChar(a, 0, "<strong>", 0);
        }
      }
      NotAt(s, "&nbsp;", 0);
      EmptyPairsAppend(a, b);
    }
  }

  lemma EmptyPairsAppend(a: string, b: string)
    requires BreakLen(a) == 0
    requires EmptyPairLen(a, "<span>", "</span>") > 0 || EmptyPairLen(a, "<em>", "</em>") > 0
      || EmptyPairLen(a, "<strong>", "</strong>") > 0
    ensures BreakLen(a + b) == 0
    ensures EmptyPairLen(a + b, "<span>", "</span>") == EmptyPairLen(a, "<span>", "</span>")
    ensures EmptyPairLen(a + b, "<em>", "</em>") == EmptyPairLen(a, "<em>", "</em>")
    ensures EmptyPairLen(a, "<span>", "</span>") == 0 && EmptyPairLen(a, "<em>", "</em>") == 0 ==>
      EmptyPairLen(a + b, "<strong>", "</strong>") == EmptyPairLen(a, "<strong>", "</strong>")
  {
    var s := a + b;
    assert s[1] == a[1] && s[2] == a[2];
    if EmptyPairLen(a, "<span>", "</span>") > 0 {
      OccursAtIChar(a, 0, "<span>", 1);
      NotAt(s, "<br", 1);
      EmptyPairLenAppend(a, b, "<span>", "</span>");
      NotAt(s, "<em>", 1);
    } else if EmptyPairLen(a, "<em>", "</em>") > 0 {
      OccursAtIChar(a, 0, "<em>", 1);
      NotAt(s, "<br", 1);
      NotAt(s, "<span>", 1);
      EmptyPairLenAppend(a, b, "<em>", "</em>");
    } else {
      OccursAtIChar(a, 0, "<strong>", 1);
      OccursAtIChar(a, 0, "<strong>", 2);
      NotAt(s, "<br", 1);
      NotAt(s, "<span>", 2);
      NotAt(s, "<em>", 1);
      EmptyPairLenAppend(a, b, "<strong>", "</strong>");
    }
  }

  /** A pattern whose `j`-th character differs, up to case, does not occur at the start. */
  lemma NotAt(s: string, pat: string, j: int)
    requires 0 <= j < |pat| && j < |s| && Canon(s[j]) != Canon(pat[j])
    ensures !OccursAtI(s, 0, pat)
  {
  }

  /** The cleaned markup starts with none of the pattern's alternatives: no white
      space, `&nbsp;`, line break or empty span/em/strong is left in front to shift
      the drop cap. */
  lemma HtmlCleanNoJunk(html: string)
    ensures JunkLen(HtmlClean(html)) == 0
    ensures Trimmed(HtmlClean(html))
  {
    var x := StripJunk(html);
    if x != [] {
      assert TrimStart(x) == x;
      var e := TrimEnd(x);
      TrimEndDropsSpace(x);
      if JunkLen(e) > 0 {
        JunkLenAppend(e, x[|e|..]);
        assert false;
      }
    }
  }

  /** Cleaning cleaned markup changes nothing. */
  lemma HtmlCleanIdempotent(html: string)
    ensures HtmlClean(HtmlClean(html)) == HtmlClean(html)
  {
    var c := HtmlClean(html);
    HtmlCleanNoJunk(html);
    assert StripJunk(c) == c;
    TrimNoop(c);
  }

  // ---------------------------------------------------------------------------
  // Text-only length: remaining.replace(/<[^>]+>/g, '')

  /** Drops every `<…>` with at least one character between the brackets; a `<`
      with no later `>`, or followed directly by `>`, stays as text. */
  function StripTags(s: string): (r: string)
    decreases |s|
    ensures |r| <= |s|
  {
    if s == [] then []
    else
      var e := IndexOfChar(s, '>', 1);
      if s[0] == '<' && e >= 2 then StripTags(s[e + 1..])
      else [s[0]] + StripTags(s[1..])
  }

  /** Markup-free text is its own text-only form. */
  lemma {:induction false} StripTagsPlain(s: string)
    requires forall i :: 0 <= i < |s| ==> s[i] != '<'
    ensures StripTags(s) == s
  {
    if s != [] {
      StripTagsPlain(s[1..]);
      assert s == [s[0]] + s[1..];
    }
  }

  // ---------------------------------------------------------------------------
  // The scan for a split point

  /** The scan's result from index `i` with `textPos` text characters already
      counted: a `<` with a later `>` is jumped over up to that `>`; any other
      character is counted, and the first ". " whose `.` is counted 150th or later
      is the cut, unless more than 350 characters were counted first. */
  function ScanCut(s: string, i: nat, textPos: nat): (k: int)
    decreases |s| - i
    ensures k == -1 || (i <= k && SentenceEndAt(s, k))
  {
    if i >= |s| then -1
    else if s[i] == '<' && IndexOfChar(s, '>', i) != -1 then ScanCut(s, IndexOfChar(s, '>', i) + 1, textPos)
    else if textPos + 1 >= SearchStart && SentenceEndAt(s, i) then i
    else if textPos + 1 > SearchLimit then -1
    else ScanCut(s, i + 1, textPos + 1)
  }

  /** Index of the `.` the HTML splitter cuts after (`splitIndex - 1`), or -1. */
  function HtmlCut(s: string): (k: int)
    ensures k == -1 || SentenceEndAt(s, k)
  {
    ScanCut(s, 0, 0)
  }

  /** The number of characters of `s[i..j]` the scan counts as text: those outside
      the `<…>` it jumps over. */
  function ScanCount(s: string, i: nat, j: nat): nat
    decreases j - i
  {
    if i >= j || i >= |s| then 0
    else if s[i] == '<' && IndexOfChar(s, '>', i) != -1 then
      var t := IndexOfChar(s, '>', i);
      if t < j then ScanCount(s, t + 1, j) else 0
    else 1 + ScanCount(s, i + 1, j)
  }

  lemma {:induction false} ScanCutCount(s: string, i: nat, textPos: nat)
    requires textPos <= SearchLimit
    decreases |s| - i
    ensures var k := ScanCut(s, i, textPos);
      k != -1 ==> SearchStart <= textPos + ScanCount(s, i, k + 1) <= SearchLimit + 1
  {
    if i < |s| {
      if s[i] == '<' && IndexOfChar(s, '>', i) != -1 {
        ScanCutCount(s, IndexOfChar(s, '>', i) + 1, textPos);
      } else if textPos + 1 >= SearchStart && SentenceEndAt(s, i) {
        assert ScanCount(s, i + 1, i + 1) == 0;
      } else if textPos + 1 <= SearchLimit {
        ScanCutCount(s, i + 1, textPos + 1);
      }
    }
  }

  /** The HTML cut falls after a `.` that is followed by a space, outside every
      tag, with between 150 and 351 text characters up to and including the `.`. */
  lemma HtmlCutCount(s: string)
    ensures var k := HtmlCut(s);
      k != -1 ==> SentenceEndAt(s, k) && SearchStart <= ScanCount(s, 0, k + 1) <= SearchLimit + 1
  {
    ScanCutCount(s, 0, 0);
  }

  /** Index `i` of `s` is outside every tag: each `<` before it that has a later
      `>` has that `>` before it too. */
  predicate OutsideTags(s: string, i: nat) {
    forall j :: 0 <= j < i && j < |s| && s[j] == '<' && IndexOfChar(s, '>', j) != -1 ==>
      IndexOfChar(s, '>', j) < i
  }

  /** Jumping from a `<` to its `>` keeps the scan outside every tag. */
  lemma TagJumpOutside(s: string, i: nat)
    requires i < |s| && s[i] == '<' && IndexOfChar(s, '>', i) != -1
    requires OutsideTags(s, i)
    ensures OutsideTags(s, IndexOfChar(s, '>', i) + 1)
  {
    var t := IndexOfChar(s, '>', i);
    IndexOfCharFirst(s, '>', i);
    forall j | i <= j <= t
      ensures IndexOfChar(s, '>', j) == t
    {
      IndexOfCharFinds(s, '>', j, t);
    }
  }

  /** The scan only stops outside every tag. */
  lemma {:induction false} ScanCutOutside(s: string, i: nat, textPos: nat)
    requires OutsideTags(s, i)
    decreases |s| - i
    ensures var k := ScanCut(s, i, textPos);
      k != -1 ==> OutsideTags(s, k)
  {
    if i < |s| {
      if s[i] == '<' && IndexOfChar(s, '>', i) != -1 {
        TagJumpOutside(s, i);
        ScanCutOutside(s, IndexOfChar(s, '>', i) + 1, textPos);
      } else if !(textPos + 1 >= SearchStart && SentenceEndAt(s, i)) && textPos + 1 <= SearchLimit {
        ScanCutOutside(s, i + 1, textPos + 1);
      }
    }
  }

  /** The HTML cut never falls inside a tag. */
  lemma HtmlCutOutside(s: string)
    ensures var k := HtmlCut(s);
      k != -1 ==> OutsideTags(s, k)
  {
    ScanCutOutside(s, 0, 0);
  }

  /** A step over a character the scan counts keeps it outside every tag. */
  lemma StepOutside(s: string, i: nat)
    requires i < |s| && !(s[i] == '<' && IndexOfChar(s, '>', i) != -1)
    requires OutsideTags(s, i)
    ensures OutsideTags(s, i + 1)
  {
  }

  /** Up to and including a counted character outside every tag, the scan counts
      at least one character. */
  lemma {:induction false} ScanCountPositive(s: string, i: nat, k: nat)
    requires i <= k < |s| && s[k] != '<' && OutsideTags(s, k)
    decreases k - i
    ensures ScanCount(s, i, k + 1) >= 1
  {
    if i < k && s[i] == '<' && IndexOfChar(s, '>', i) != -1 {
      ScanCountPositive(s, IndexOfChar(s, '>', i) + 1, k);
    }
  }

  /** The ". " positions outside every tag from `i` up to `k` whose text count
      stays below 150: none of them may be cut at. */
  predicate NoCutBefore(s: string, i: nat, textPos: nat, k: int) {
    forall j :: i <= j < k && SentenceEndAt(s, j) && OutsideTags(s, j) ==>
      textPos + ScanCount(s, i, j + 1) < SearchStart
  }

  /** The scan's cut is the first ". " outside every tag whose text count
      reaches 150. */
  lemma {:induction false} ScanCutFirst(s: string, i: nat, textPos: nat)
    requires OutsideTags(s, i)
    decreases |s| - i
    ensures var k := ScanCut(s, i, textPos);
      k != -1 ==> NoCutBefore(s, i, textPos, k)
  {
    var k := ScanCut(s, i, textPos);
    if i < |s| && k != -1 {
      if s[i] == '<' && IndexOfChar(s, '>', i) != -1 {
        JumpFirst(s, i, textPos);
      } else if !(textPos + 1 >= SearchStart && SentenceEndAt(s, i)) {
        StepFirst(s, i, textPos);
      }
    }
  }

  lemma {:induction false} JumpFirst(s: string, i: nat, textPos: nat)
    requires i < |s| && s[i] == '<' && IndexOfChar(s, '>', i) != -1
    requires OutsideTags(s, i)
    requires ScanCut(s, i, textPos) != -1
    decreases |s| - i, 0
    ensures NoCutBefore(s, i, textPos, ScanCut(s, i, textPos))
  {
    var t := IndexOfChar(s, '>', i);
    var k := ScanCut(s, t + 1, textPos);
    TagJumpOutside(s, i);
    ScanCutFirst(s, t + 1, textPos);
    forall j | i <= j < k && SentenceEndAt(s, j) && OutsideTags(s, j)
      ensures textPos + ScanCount(s, i, j + 1) < SearchStart
    {
      assert t < j;
      assert ScanCount(s, i, j + 1) == ScanCount(s, t + 1, j + 1);
    }
  }

  lemma {:induction false} StepFirst(s: string, i: nat, textPos: nat)
    requires i < |s| && !(s[i] == '<' && IndexOfChar(s, '>', i) != -1)
    requires !(textPos + 1 >= SearchStart && SentenceEndAt(s, i))
    requires OutsideTags(s, i)
    requires ScanCut(s, i, textPos) != -1
    decreases |s| - i, 0
    ensures NoCutBefore(s, i, textPos, ScanCut(s, i, textPos))
  {
    var k := ScanCut(s, i + 1, textPos + 1);
    StepOutside(s, i);
    ScanCutFirst(s, i + 1, textPos + 1);
    forall j | i <= j < k && SentenceEndAt(s, j) && OutsideTags(s, j)
      ensures textPos + ScanCount(s, i, j + 1) < SearchStart
    {
      assert ScanCount(s, i, j + 1) == 1 + ScanCount(s, i + 1, j + 1);
      if j == i {
        assert ScanCount(s, i + 1, i + 1) == 0;
      }
    }
  }

  /** Conversely, the first ". " outside every tag whose text count reaches 150
      is the cut, when its count is at most 351. */
  lemma {:induction false} ScanCutFinds(s: string, i: nat, textPos: nat, k: nat)
    requires i <= k && OutsideTags(s, i) && OutsideTags(s, k) && SentenceEndAt(s, k)
    requires SearchStart <= textPos + ScanCount(s, i, k + 1) <= SearchLimit + 1
    requires NoCutBefore(s, i, textPos, k)
    decreases k - i
    ensures ScanCut(s, i, textPos) == k
  {
    if i == k {
      assert ScanCount(s, k + 1, k + 1) == 0;
    } else if s[i] == '<' && IndexOfChar(s, '>', i) != -1 {
      JumpFinds(s, i, textPos, k);
    } else {
      StepFinds(s, i, textPos, k);
    }
  }

  lemma {:induction false} JumpFinds(s: string, i: nat, textPos: nat, k: nat)
    requires i < k && OutsideTags(s, i) && OutsideTags(s, k) && SentenceEndAt(s, k)
    requires s[i] == '<' && IndexOfChar(s, '>', i) != -1
    requires SearchStart <= textPos + ScanCount(s, i, k + 1) <= SearchLimit + 1
    requires NoCutBefore(s, i, textPos, k)
    decreases k - i, 0
    ensures ScanCut(s, i, textPos) == k
  {
    var t := IndexOfChar(s, '>', i);
    assert t < k;
    TagJumpOutside(s, i);
    assert ScanCount(s, i, k + 1) == ScanCount(s, t + 1, k + 1);
    forall j | t + 1 <= j < k && SentenceEndAt(s, j) && OutsideTags(s, j)
      ensures textPos + ScanCount(s, t + 1, j + 1) < SearchStart
    {
      assert ScanCount(s, i, j + 1) == ScanCount(s, t + 1, j + 1);
    }
    ScanCutFinds(s, t + 1, textPos, k);
  }

  lemma {:induction false} StepFinds(s: string, i: nat, textPos: nat, k: nat)
    requires i < k && OutsideTags(s, i) && OutsideTags(s, k) && SentenceEndAt(s, k)
    requires !(s[i] == '<' && IndexOfChar(s, '>', i) != -1)
    requires SearchStart <= textPos + ScanCount(s, i, k + 1) <= SearchLimit + 1
    requires NoCutBefore(s, i, textPos, k)
    decreases k - i, 0
    ensures ScanCut(s, i, textPos) == k
  {
    assert ScanCount(s, i, k + 1) == 1 + ScanCount(s, i + 1, k + 1);
    ScanCountPositive(s, i + 1, k);
    if SentenceEndAt(s, i) {
      assert ScanCount(s, i, i + 1) == 1 + ScanCount(s, i + 1, i + 1);
      assert ScanCount(s, i + 1, i + 1) == 0;
    }
    StepOutside(s, i);
    forall j | i + 1 <= j < k && SentenceEndAt(s, j) && OutsideTags(s, j)
      ensures textPos + 1 + ScanCount(s, i + 1, j + 1) < SearchStart
    {
      assert ScanCount(s, i, j + 1) == 1 + ScanCount(s, i + 1, j + 1);
    }
    ScanCutFinds(s, i + 1, textPos + 1, k);
  }

  /** The HTML cut is the first ". " outside every tag whose text count reaches 150. */
  lemma HtmlCutFirst(s: string)
    ensures var k := HtmlCut(s);
      k != -1 ==> NoCutBefore(s, 0, 0, k)
  {
    ScanCutFirst(s, 0, 0);
  }

  /** The first ". " outside every tag whose text count reaches 150 is the HTML
      cut whenever that count is at most 351: a cut is found when one exists. */
  lemma HtmlCutFinds(s: string, k: nat)
    requires OutsideTags(s, k) && SentenceEndAt(s, k)
    requires SearchStart <= ScanCount(s, 0, k + 1) <= SearchLimit + 1
    requires NoCutBefore(s, 0, 0, k)
    ensures HtmlCut(s) == k
  {
    ScanCutFinds(s, 0, 0, k);
  }

  lemma {:induction false} ScanCutPlain(s: string, i: nat)
    requires i <= SearchLimit
    requires forall j :: 0 <= j < |s| ==> s[j] != '<'
    decreases |s| - i
    ensures var from := if i < SearchStart - 1 then SearchStart - 1 else i;
      var p := IndexOfSentenceEnd(s, from);
      ScanCut(s, i, i) == if p != -1 && p <= SearchLimit then p else -1
  {
    if i < |s| && !(i + 1 >= SearchStart && SentenceEndAt(s, i)) && i + 1 <= SearchLimit {
      ScanCutPlain(s, i + 1);
    }
  }

  /** On markup-free text the HTML scan cuts at the first ". " at offset 149 or
      later, when that offset is at most 350 (one position wider on each side than
      the plain-text splitter's 150 to 349). */
  lemma HtmlCutPlain(s: string)
    requires forall j :: 0 <= j < |s| ==> s[j] != '<'
    ensures var p := IndexOfSentenceEnd(s, SearchStart - 1);
      HtmlCut(s) == if p != -1 && p <= SearchLimit then p else -1
  {
    ScanCutPlain(s, 0);
  }

  // ---------------------------------------------------------------------------
  // The splitting loop

  /** The paragraphs the loop pushes, starting from `remaining` after `splits`
      cuts, followed by the remainder pushed after the loop. */
  function HtmlLoop(remaining: string, splits: nat): seq<string>
    decreases MaxSplits - splits
  {
    if |remaining| == 0 || splits >= MaxSplits then Remainder(remaining)
    else if |StripTags(remaining)| <= TargetLength then [Trim(remaining)]
    else
      var k := HtmlCut(remaining);
      if k == -1 then Remainder(remaining)
      else [Trim(remaining[..k + 1])] + HtmlLoop(Trim(remaining[k + 2..]), splits + 1)
  }

  /** What `formatHtmlWithParagraphs(html)` returns. */
  function HtmlParagraphs(html: string): (r: seq<string>)
    ensures |r| <= MaxSplits + 1
  {
    if html == [] then [html]
    else
      var cleaned := HtmlClean(html);
      if |cleaned| <= TargetLength then [cleaned]
      else
        HtmlLoopBound(cleaned);
        NonEmpty(HtmlLoop(cleaned, 0))
  }

  method FormatHtmlWithParagraphs(html: string) returns (result: seq<string>)
    ensures result == HtmlParagraphs(html)
    ensures |result| <= MaxSplits + 1
  {
    if html == [] {
      return [html];
    }
    var cleanedHtml := HtmlClean(html);
    if |cleanedHtml| <= TargetLength {
      return [cleanedHtml];
    }
    HtmlCleanNoJunk(html);
    result := SplitCleanedHtml(cleanedHtml);
  }

  /** The splitting loop of `formatHtmlWithParagraphs`, run on the cleaned markup
      once it is longer than 200 characters. */
  method SplitCleanedHtml(cleanedHtml: string) returns (result: seq<string>)
    requires Trimmed(cleanedHtml) && |cleanedHtml| > TargetLength
    ensures result == NonEmpty(HtmlLoop(cleanedHtml, 0))
    ensures |result| <= MaxSplits + 1
  {
    var paragraphs: seq<string> := [];
    var remaining := cleanedHtml;
    var splits := 0;
    EmptyAppend(HtmlLoop(cleanedHtml, 0));
    while |remaining| > 0 && splits < MaxSplits
      invariant 0 <= splits <= MaxSplits
      invariant |paragraphs| == splits
      invariant paragraphs + HtmlLoop(remaining, splits) == HtmlLoop(cleanedHtml, 0)
    {
      var textOnly := StripTags(remaining);
      if |textOnly| <= TargetLength {
        HtmlLoopLast(remaining, splits);
        HtmlLoopStops([], splits);
        AppendAssoc(paragraphs, [Trim(remaining)], []);
        AppendEmpty([Trim(remaining)]);
        paragraphs := paragraphs + [Trim(remaining)];
        remaining := [];
        break;
      }
      var splitIndex := FindSplitIndex(remaining);
      if splitIndex != -1 {
        var piece, rest := Trim(remaining[..splitIndex]), Trim(remaining[splitIndex + 1..]);
        HtmlLoopSplitsAt(remaining, splits, splitIndex);
        AppendAssoc(paragraphs, [piece], HtmlLoop(rest, splits + 1));
        paragraphs := paragraphs + [piece];
        remaining := rest;
        splits := splits + 1;
      } else {
        break;
      }
    }
    HtmlLoopStops(remaining, splits);
    if |Trim(remaining)| > 0 {
      paragraphs := paragraphs + [Trim(remaining)];
    } else {
      AppendEmpty(paragraphs);
    }
    HtmlLoopBound(cleanedHtml);
    result := NonEmpty(paragraphs);
  }

  /** The `for` loop that walks the markup, tracking the text position, to find
      the split point: one past the cut's `.`, or -1. */
  method FindSplitIndex(remaining: string) returns (splitIndex: int)
    ensures splitIndex == if HtmlCut(remaining) == -1 then -1 else HtmlCut(remaining) + 1
  {
    var textPos := 0;
    splitIndex := -1;
    var i := 0;
    while i < |remaining|
      invariant 0 <= i <= |remaining|
      invariant textPos <= SearchLimit
      invariant ScanCut(remaining, i, textPos) == HtmlCut(remaining)
      invariant splitIndex == -1
      decreases |remaining| - i
    {
      if remaining[i] == '<' {
        var tagEnd := IndexOfChar(remaining, '>', i);
        if tagEnd != -1 {
          i := tagEnd + 1;
          continue;
        }
      }
      textPos := textPos + 1;
      if textPos >= SearchStart && i + 1 < |remaining| && remaining[i] == '.' && remaining[i + 1] == ' ' {
        splitIndex := i + 1;
        break;
      }
      if textPos > SearchLimit {
        break;
      }
      i := i + 1;
    }
  }

  // The three ways the loop goes on, one equation each.

  lemma HtmlLoopStops(remaining: string, splits: nat)
    requires |remaining| == 0 || splits >= MaxSplits
      || (|StripTags(remaining)| > TargetLength && HtmlCut(remaining) == -1)
    ensures HtmlLoop(remaining, splits) == Remainder(remaining)
  {
  }

  lemma HtmlLoopLast(remaining: string, splits: nat)
    requires 0 < |remaining| && |StripTags(remaining)| <= TargetLength && splits < MaxSplits
    ensures HtmlLoop(remaining, splits) == [Trim(remaining)]
  {
  }

  /** `HtmlLoopSplits` in terms of the method's split index, one past the cut. */
  lemma HtmlLoopSplitsAt(remaining: string, splits: nat, splitIndex: int)
    requires 0 < |remaining| && |StripTags(remaining)| > TargetLength && splits < MaxSplits
    requires HtmlCut(remaining) != -1 && splitIndex == HtmlCut(remaining) + 1
    ensures HtmlLoop(remaining, splits)
      == [Trim(remaining[..splitIndex])] + HtmlLoop(Trim(remaining[splitIndex + 1..]), splits + 1)
  {
    HtmlLoopSplits(remaining, splits, splitIndex - 1);
  }

  lemma HtmlLoopSplits(remaining: string, splits: nat, k: int)
    requires 0 < |remaining| && |StripTags(remaining)| > TargetLength && splits < MaxSplits
    requires k == HtmlCut(remaining) && k != -1
    ensures HtmlLoop(remaining, splits) == [Trim(remaining[..k + 1])] + HtmlLoop(Trim(remaining[k + 2..]), splits + 1)
  {
  }

  /** The HTML loop makes at most three paragraphs. */
  lemma HtmlLoopBound(cleanedHtml: string)
    requires Trimmed(cleanedHtml)
    ensures |HtmlLoop(cleanedHtml, 0)| <= MaxSplits + 1
  {
    HtmlLoopFacts(cleanedHtml, 0);
  }

  /** The facts the loop's paragraphs satisfy, proved branch by branch. */
  lemma {:induction false} HtmlLoopFacts(remaining: string, splits: nat)
    requires Trimmed(remaining)
    requires splits <= MaxSplits
    decreases MaxSplits - splits, 1
    ensures |HtmlLoop(remaining, splits)| + splits <= MaxSplits + 1
    ensures WellCut(HtmlLoop(remaining, splits))
    ensures NonSpace(Concat(HtmlLoop(remaining, splits))) == NonSpace(remaining)
  {
    if |remaining| == 0 || splits >= MaxSplits
      || (|StripTags(remaining)| > TargetLength && HtmlCut(remaining) == -1)
    {
      HtmlLoopStops(remaining, splits);
      RemainderKeepsText(remaining);
    } else if |StripTags(remaining)| <= TargetLength {
      HtmlLoopLast(remaining, splits);
      TrimNoop(remaining);
      WellCutSingle(remaining);
      ConcatSingle(remaining);
    } else {
      HtmlLoopCutFacts(remaining, splits);
    }
  }

  lemma {:induction false} HtmlLoopCutFacts(remaining: string, splits: nat)
    requires 0 < |remaining| && |StripTags(remaining)| > TargetLength && splits < MaxSplits
    requires HtmlCut(remaining) != -1
    decreases MaxSplits - splits, 0
    ensures |HtmlLoop(remaining, splits)| + splits <= MaxSplits + 1
    ensures WellCut(HtmlLoop(remaining, splits))
    ensures NonSpace(Concat(HtmlLoop(remaining, splits))) == NonSpace(remaining)
  {
    var k := HtmlCut(remaining);
    var p := Trim(remaining[..k + 1]);
    var rest := Trim(remaining[k + 2..]);
    HtmlLoopSplits(remaining, splits, k);
    CutKeepsText(remaining, k);
    HtmlLoopFacts(rest, splits + 1);
    WellCutCons(p, HtmlLoop(rest, splits + 1));
    ConcatCons(p, HtmlLoop(rest, splits + 1));
  }

  /** Markup that is long after cleaning becomes one to three trimmed, non-empty
      paragraphs; every one but the last ends at a sentence's period; and no
      character other than white space of the cleaned markup is lost or added. */
  lemma HtmlParagraphsShape(html: string)
    requires |HtmlClean(html)| > TargetLength
    ensures var r := HtmlParagraphs(html);
      && 1 <= |r| <= MaxSplits + 1
      && (forall i :: 0 <= i < |r| ==> r[i] != [] && Trimmed(r[i]))
      && (forall i :: 0 <= i < |r| - 1 ==> r[i][|r[i]| - 1] == '.')
      && NonSpace(Concat(r)) == NonSpace(HtmlClean(html))
  {
    var c := HtmlClean(html);
    HtmlCleanNoJunk(html);
    HtmlLoopFacts(c, 0);
    NonEmptyKeepsAll(HtmlLoop(c, 0));
    AppendEmpty(c);
    NonSpaceStart(c, []);
  }

  /** Markup whose text-only form has at most 200 characters stays one paragraph,
      however long its tags make it. */
  lemma HtmlShortTextUnsplit(html: string)
    requires |StripTags(HtmlClean(html))| <= TargetLength
    ensures HtmlParagraphs(html) == [HtmlClean(html)]
  {
    var c := HtmlClean(html);
    if |c| > TargetLength {
      HtmlCleanNoJunk(html);
      LongMarkupShortText(c);
    }
  }

  /** The long-markup branch of `HtmlShortTextUnsplit`. */
  lemma LongMarkupShortText(c: string)
    requires Trimmed(c) && |c| > TargetLength && |StripTags(c)| <= TargetLength
    ensures NonEmpty(HtmlLoop(c, 0)) == [c]
  {
    TrimNoop(c);
    HtmlLoopLast(c, 0);
    NonEmptyKeepsAll([c]);
  }

  /** When the first paragraph is cut, it is the cleaned markup up to and
      including the `.` of the first ". " outside every tag whose text count
      reaches 150, which is at most 351. */
  lemma HtmlFirstCut(html: string)
    requires html != []
    requires |HtmlClean(html)| > TargetLength && |StripTags(HtmlClean(html))| > TargetLength
    requires HtmlCut(HtmlClean(html)) != -1
    ensures var c := HtmlClean(html);
      var k := HtmlCut(c);
      var r := HtmlParagraphs(html);
      && r != [] && r[0] == Trim(c[..k + 1])
      && c[k] == '.' && c[k + 1] == ' '
      && SearchStart <= ScanCount(c, 0, k + 1) <= SearchLimit + 1
      && OutsideTags(c, k)
      && NoCutBefore(c, 0, 0, k)
  {
    var c := HtmlClean(html);
    var k := HtmlCut(c);
    HtmlCleanNoJunk(html);
    HtmlLoopSplits(c, 0, k);
    HtmlLoopFacts(c, 0);
    NonEmptyKeepsAll(HtmlLoop(c, 0));
    HtmlCutCount(c);
    HtmlCutOutside(c);
    HtmlCutFirst(c);
  }
}

/** The Etimoloji Türkçe scraping route (app/api/etimolojitr/route.ts): which
    text of the fetched page becomes the word's origin and oldest source, the
    fallbacks when the page has no such section, and the reply status. The
    HTML parser is not modelled: a page is given by what the route asks of it
    (each `h3` heading with the paragraph after it, the article paragraphs,
    and the body text). */
module EtimolojiTr {
  import opened Wrappers
  import opened Text
  import opened Route

  /** One `h3` element: its text, and the text of the `<p>` right after it
      ("" when the next element is not a paragraph). */
  datatype Heading = Heading(text: string, nextParagraph: string)

  /** The parts of the fetched page the route reads: the `h3` headings in
      document order, the texts of `article p, .content p, main p`, and the
      text of `body`. */
  datatype Page = Page(headings: seq<Heading>, paragraphs: seq<string>, bodyText: string)

  /** `EtimolojiTRData` */
  datatype EtimolojiData = EtimolojiData(origin: string, oldestSource: string, content: string)

  const OriginTitle := "Kelime Kökeni"
  const OldestSourceTitle := "Tarihte En Eski Kaynak"
  /** A fallback paragraph must be longer than this. */
  const MinParagraphLength := 20
  /** The fallback text is cut to this many characters. */
  const MaxFallbackLength := 500
  const FetchFailed := "Failed to fetch data from Etimoloji Türkçe"

  // ---------------------------------------------------------------------------
  // Section selection: the `$('h3').each` callback

  /** A heading whose text contains `title` and whose next paragraph has text. */
  predicate Feeds(h: Heading, title: string) {
    Contains(Trim(h.text), title) && Trim(h.nextParagraph) != []
  }

  /** The value the `each` loop leaves in the variable for `title`: the
      trimmed next paragraph of the last heading that feeds it, or "". */
  function SectionText(headings: seq<Heading>, title: string): (r: string)
    ensures Trimmed(r)
  {
    if headings == [] then []
    else
      var h := headings[|headings| - 1];
      if Feeds(h, title) then Trim(h.nextParagraph)
      else SectionText(headings[..|headings| - 1], title)
  }

  /** `$('h3').each(...)`: one pass over the headings, in which one heading
      may set both variables. */
  method SelectSections(headings: seq<Heading>) returns (origin: string, oldestSource: string)
    ensures origin == SectionText(headings, OriginTitle)
    ensures oldestSource == SectionText(headings, OldestSourceTitle)
  {
    origin := "";
    oldestSource := "";
    for i := 0 to |headings|
      invariant origin == SectionText(headings[..i], OriginTitle)
      invariant oldestSource == SectionText(headings[..i], OldestSourceTitle)
    {
      assert headings[..i + 1][..i] == headings[..i];
      assert headings[..i + 1][i] == headings[i];
      var headerText := Trim(headings[i].text);
      if Contains(headerText, OriginTitle) {
        var nextP := Trim(headings[i].nextParagraph);
        if nextP != [] {
          origin := nextP;
        }
      }
      if Contains(headerText, OldestSourceTitle) {
        var nextP := Trim(headings[i].nextParagraph);
        if nextP != [] {
          oldestSource := nextP;
        }
      }
    }
    assert headings[..|headings|] == headings;
  }

  /** The section text is "" exactly when no heading feeds the title. */
  lemma {:induction false} SectionTextEmpty(headings: seq<Heading>, title: string)
    ensures SectionText(headings, title) == [] <==> forall k :: 0 <= k < |headings| ==> !Feeds(headings[k], title)
  {
    if headings != [] {
      var init := headings[..|headings| - 1];
      SectionTextEmpty(init, title);
      assert forall k :: 0 <= k < |init| ==> init[k] == headings[k];
    }
  }

  /** The last heading that feeds the title decides: the headings before it
      do not matter, and those after it feed nothing. */
  lemma {:induction false} SectionTextLast(headings: seq<Heading>, title: string, k: int)
    requires 0 <= k < |headings| && Feeds(headings[k], title)
    requires forall j :: k < j < |headings| ==> !Feeds(headings[j], title)
    ensures SectionText(headings, title) == Trim(headings[k].nextParagraph)
    decreases |headings|
  {
    if k < |headings| - 1 {
      var init := headings[..|headings| - 1];
      assert forall j :: 0 <= j < |init| ==> init[j] == headings[j];
      SectionTextLast(init, title, k);
    }
  }

  // ---------------------------------------------------------------------------
  // Paragraph fallback

  /** The trimmed paragraphs longer than 20 characters, in order. */
  function LongParagraphs(paragraphs: seq<string>): (r: seq<string>)
    ensures forall i :: 0 <= i < |r| ==> |r[i]| > MinParagraphLength
    ensures |r| <= |paragraphs|
  {
    if paragraphs == [] then []
    else
      var rest := LongParagraphs(paragraphs[1..]);
      var p := Trim(paragraphs[0]);
      if |p| > MinParagraphLength then [p] + rest else rest
  }

  /** `paragraphs.filter(p => p.length > 20).join(' ').substring(0, 500)` */
  function FallbackText(paragraphs: seq<string>): (r: string)
    ensures |r| <= MaxFallbackLength
  {
    var joined := Join(LongParagraphs(paragraphs), " ");
    if |joined| <= MaxFallbackLength then joined else joined[..MaxFallbackLength]
  }

  /** The fallback keeps the start of the joined long paragraphs, all of it
      when it fits in 500 characters. */
  lemma FallbackIsPrefix(paragraphs: seq<string>)
    ensures var joined := Join(LongParagraphs(paragraphs), " ");
      var r := FallbackText(paragraphs);
      && r == joined[..|r|]
      && (|joined| <= MaxFallbackLength ==> r == joined)
      && (|joined| > MaxFallbackLength ==> |r| == MaxFallbackLength)
  {
  }

  /** The fallback is empty exactly when no trimmed paragraph is longer than 20. */
  lemma {:induction false} FallbackEmpty(paragraphs: seq<string>)
    ensures FallbackText(paragraphs) == [] <==>
      forall i :: 0 <= i < |paragraphs| ==> |Trim(paragraphs[i])| <= MinParagraphLength
  {
    LongParagraphsEmpty(paragraphs);
    var long := LongParagraphs(paragraphs);
    if long != [] {
      assert |Join(long, " ")| > 0 by {
        if |long| > 1 {
          assert Join(long, " ") == long[0] + " " + Join(long[1..], " ");
        }
      }
    }
  }

  lemma {:induction false} LongParagraphsEmpty(paragraphs: seq<string>)
    ensures LongParagraphs(paragraphs) == [] <==>
      forall i :: 0 <= i < |paragraphs| ==> |Trim(paragraphs[i])| <= MinParagraphLength
  {
    if paragraphs != [] {
      LongParagraphsEmpty(paragraphs[1..]);
      assert forall i :: 1 <= i < |paragraphs| ==> paragraphs[1..][i - 1] == paragraphs[i];
    }
  }

  /** The filter works paragraph by paragraph: the long paragraphs of two
      lists put together are those of the first list followed by those of
      the second. */
  lemma {:induction false} LongParagraphsAppend(a: seq<string>, b: seq<string>)
    ensures LongParagraphs(a + b) == LongParagraphs(a) + LongParagraphs(b)
  {
    if a == [] {
      assert a + b == b;
    } else {
      assert (a + b)[0] == a[0] && (a + b)[1..] == a[1..] + b;
      LongParagraphsAppend(a[1..], b);
      var p := Trim(a[0]);
      if |p| > MinParagraphLength {
        AppendAssoc([p], LongParagraphs(a[1..]), LongParagraphs(b));
      }
    }
  }

  /** One paragraph is kept, trimmed, exactly when its trimmed form is longer
      than 20 characters. */
  lemma LongParagraphsSingle(p: string)
    ensures LongParagraphs([p]) == if |Trim(p)| > MinParagraphLength then [Trim(p)] else []
  {
    assert [p][1..] == [];
  }

  // ---------------------------------------------------------------------------
  // Body-text last resort: bodyText.match(/Kelime Kökeni[:\s]+([^.]+\.)/i)

  /** The length of the run of ':' and white space starting at `i` (`[:\s]+`). */
  function SeparatorRun(s: string, i: nat): (n: nat)
    decreases |s| - i
    ensures i + n <= |s| || n == 0
    ensures forall j :: i <= j < i + n ==> s[j] == ':' || IsSpace(s[j])
    ensures i + n < |s| ==> s[i + n] != ':' && !IsSpace(s[i + n])
  {
    if i < |s| && (s[i] == ':' || IsSpace(s[i])) then 1 + SeparatorRun(s, i + 1) else 0
  }

  /** The captured group when the title ends at `j`: `[:\s]+` takes the whole
      separator run and `[^.]+\.` the text up to the first period. When the
      period follows the run directly, the regex backtracks one separator
      character into the group, which needs a run of at least two. */
  function GroupAt(s: string, j: nat): (g: Option<string>)
    ensures g.Some? ==> |g.value| >= 2 && g.value[|g.value| - 1] == '.'
    ensures g.Some? ==> forall k :: 0 <= k < |g.value| - 1 ==> g.value[k] != '.'
  {
    var c := SeparatorRun(s, j);
    if c == 0 then None
    else
      var d := IndexOfChar(s, '.', j + c);
      IndexOfCharFirst(s, '.', j + c);
      if d == -1 then None
      else if d > j + c then
        var group := s[j + c..d + 1];
        assert forall k :: 0 <= k < |group| - 1 ==> group[k] == s[j + c + k];
        Some(group)
      else if c >= 2 then Some(s[d - 1..d + 1])
      else None
  }

  /** The group of the leftmost match at or after `i`. */
  function MatchFrom(s: string, i: nat): (g: Option<string>)
    decreases |s| - i
    ensures g.Some? ==> |g.value| >= 2 && g.value[|g.value| - 1] == '.'
    ensures g.Some? ==> forall k :: 0 <= k < |g.value| - 1 ==> g.value[k] != '.'
  {
    if i + |OriginTitle| > |s| then None
    else if OccursAtI(s, i, OriginTitle) && GroupAt(s, i + |OriginTitle|).Some? then GroupAt(s, i + |OriginTitle|)
    else MatchFrom(s, i + 1)
  }

  /** `match[1].trim()` when the body text matches. */
  function BodyOrigin(bodyText: string): (r: Option<string>)
    ensures r.Some? ==> |r.value| >= 1 && r.value[|r.value| - 1] == '.'
    ensures r.Some? ==> forall k :: 0 <= k < |r.value| - 1 ==> r.value[k] != '.'
  {
    var g := MatchFrom(bodyText, 0);
    if g.None? then None
    else
      var t := Trim(g.value);
      TrimEndsAtPeriod(g.value);
      Some(t)
  }

  /** Trimming a text that ends in its only period keeps that period last. */
  lemma TrimEndsAtPeriod(g: string)
    requires |g| >= 1 && g[|g| - 1] == '.'
    requires forall k :: 0 <= k < |g| - 1 ==> g[k] != '.'
    ensures var t := Trim(g);
      && |t| >= 1 && t[|t| - 1] == '.'
      && forall k :: 0 <= k < |t| - 1 ==> t[k] != '.'
  {
    var d := TrimInside(g);
    var t := Trim(g);
    TrimStartDropsSpace(g);
    var u := TrimStart(g);
    assert u[|u| - 1] == g[|g| - 1] by {
      assert g == g[..|g| - |u|] + u;
    }
    assert TrimEnd(u) == u;
    assert t == u;
    assert d == |g| - |u| by {
      assert d + |t| <= |g|;
    }
  }

  /** The title does not start at any index from `i` up to, not including, `p`. */
  predicate TitleFree(s: string, i: nat, p: nat)
    decreases p - i
  {
    i >= p || (!OccursAtI(s, i, OriginTitle) && TitleFree(s, i + 1, p))
  }

  /** Text after the place where the title would have to start does not matter. */
  lemma {:induction false} TitleFreeAppend(x: string, t: string, i: nat, p: nat)
    requires p + |OriginTitle| <= |x| && TitleFree(x, i, p)
    decreases p - i
    ensures TitleFree(x + t, i, p)
  {
    if i < p {
      OccursAtIPrefix(x, t, i, OriginTitle);
      TitleFreeAppend(x, t, i + 1, p);
    }
  }

  /** The leftmost match is not before the first occurrence of the title: the
      search passes over every position where the title does not occur. */
  lemma {:induction false} MatchFromSkip(s: string, i: nat, p: nat)
    requires i <= p && p + |OriginTitle| <= |s| && TitleFree(s, i, p)
    decreases p - i
    ensures MatchFrom(s, i) == MatchFrom(s, p)
  {
    if i < p {
      MatchFromStep(s, i);
      MatchFromSkip(s, i + 1, p);
    }
  }

  lemma MatchFromStep(s: string, i: nat)
    requires i + |OriginTitle| <= |s| && !OccursAtI(s, i, OriginTitle)
    ensures MatchFrom(s, i) == MatchFrom(s, i + 1)
  {
  }

  /** After the title, separators, a text with no period that does not start
      with a separator, and a period: the group is that text and period. */
  lemma GroupAtExample(x: string, sep: string, text: string, rest: string)
    requires |sep| >= 1 && forall i :: 0 <= i < |sep| ==> sep[i] == ':' || IsSpace(sep[i])
    requires |text| >= 1 && text[0] != ':' && !IsSpace(text[0])
    requires forall i :: 0 <= i < |text| ==> text[i] != '.'
    ensures GroupAt(x + sep + text + "." + rest, |x|) == Some(text + ".")
  {
    var s := x + sep + text + "." + rest;
    var j := |x|;
    SeparatorRunExact(s, j, |sep|);
    var c := |sep|;
    assert s[j + c..j + c + |text| + 1] == text + ".";
    IndexOfCharFinds(s, '.', j + c, j + c + |text|);
  }

  /** A page body with text `pre` in which the title does not start, then
      "Kelime Kökeni", separators, a text with no period that does not start
      with a separator, and a period gives that text and period, white space
      before the period included. */
  lemma BodyOriginExample(pre: string, sep: string, text: string, rest: string)
    requires TitleFree(pre + OriginTitle, 0, |pre|)
    requires |sep| >= 1 && forall i :: 0 <= i < |sep| ==> sep[i] == ':' || IsSpace(sep[i])
    requires |text| >= 1 && text[0] != ':' && !IsSpace(text[0])
    requires forall i :: 0 <= i < |text| ==> text[i] != '.'
    ensures BodyOrigin(pre + OriginTitle + sep + text + "." + rest) == Some(text + ".")
  {
    var x := pre + OriginTitle;
    var t := sep + text + "." + rest;
    var s := pre + OriginTitle + sep + text + "." + rest;
    JoinTail(x, sep, text, ".", rest);
    TitleFreeAppend(x, t, 0, |pre|);
    MatchFromSkip(s, 0, |pre|);
    OccursAtIMid(pre, OriginTitle, t);
    GroupAtExample(x, sep, text, rest);
    assert MatchFrom(s, |pre|) == Some(text + ".");
    TrimNoop(text + ".");
  }

  lemma {:induction false} SeparatorRunExact(s: string, i: nat, n: nat)
    requires i + n < |s|
    requires forall k :: i <= k < i + n ==> s[k] == ':' || IsSpace(s[k])
    requires s[i + n] != ':' && !IsSpace(s[i + n])
    ensures SeparatorRun(s, i) == n
    decreases n
  {
    if n > 0 {
      SeparatorRunExact(s, i + 1, n - 1);
    }
  }

  // ---------------------------------------------------------------------------
  // The reply

  /** `origin` and `oldestSource` after the section selection and both fallbacks. */
  function Extracted(page: Page): (string, string) {
    var origin := SectionText(page.headings, OriginTitle);
    var oldestSource := SectionText(page.headings, OldestSourceTitle);
    var origin := if origin == [] then FallbackText(page.paragraphs) else origin;
    var origin :=
      if origin == [] && oldestSource == [] && BodyOrigin(page.bodyText).Some?
      then BodyOrigin(page.bodyText).value else origin;
    (origin, oldestSource)
  }

  /** The data sent for a loaded page, or `None` for the 404 "no content". */
  function Extract(page: Page): Option<EtimolojiData> {
    var (origin, oldestSource) := Extracted(page);
    if origin == [] && oldestSource == [] then None
    else Some(EtimolojiData(origin, oldestSource, if origin != [] then origin else oldestSource))
  }

  /** `word.toLowerCase()`, for ASCII letters; the URL path segment fetched. */
  function LowerWord(word: string): (r: string)
    ensures |r| == |word|
    ensures forall i :: 0 <= i < |r| ==> r[i] == LowerAscii(word[i])
  {
    if word == [] then [] else [LowerAscii(word[0])] + LowerWord(word[1..])
  }

  function PageUrl(word: string): string {
    "https://www.etimolojiturkce.com/kelime/" + LowerWord(word)
  }

  /** What `GET` replies for the `word` parameter, when fetching a URL gives `fetch(url)`. */
  function Respond(word: Option<string>, fetch: string -> Fetch<Page>): (r: Reply<EtimolojiData>)
    ensures MissingWord(word) ==> r == Failure(400, WordRequired)
    ensures r.Failure? ==> r.status == 400 || r.status == 404 || r.status == 500
    ensures r.Success? ==> && word.Some? && r.source == "etimolojitr" && r.word == word.value
                           && r.data.content != []
                           && r.data.content == (if r.data.origin != [] then r.data.origin else r.data.oldestSource)
  {
    if MissingWord(word) then Failure(400, WordRequired)
    else
      match fetch(PageUrl(word.value))
      case NotOk => Failure(404, WordNotFound)
      case Thrown => Failure(500, FetchFailed)
      case Loaded(page) =>
        var data := Extract(page);
        if data.None? then Failure(404, NoContent)
        else Success("etimolojitr", word.value, data.value)
  }

  /** `GET`: the selection loop, then the fallbacks as successive reassignments. */
  method Get(word: Option<string>, fetch: string -> Fetch<Page>) returns (reply: Reply<EtimolojiData>)
    ensures reply == Respond(word, fetch)
  {
    if word.None? || word.value == [] {
      return Failure(400, WordRequired);
    }
    var response := fetch(PageUrl(word.value));
    if response.NotOk? {
      return Failure(404, WordNotFound);
    }
    if response.Thrown? {
      return Failure(500, FetchFailed);
    }
    var page := response.page;
    var origin, oldestSource := SelectSections(page.headings);
    if origin == [] {
      origin := FallbackText(page.paragraphs);
    }
    if origin == [] && oldestSource == [] {
      var match_ := BodyOrigin(page.bodyText);
      if match_.Some? {
        origin := match_.value;
      }
    }
    if origin == [] && oldestSource == [] {
      return Failure(404, NoContent);
    }
    var data := EtimolojiData(origin, oldestSource, if origin != [] then origin else oldestSource);
    reply := Success("etimolojitr", word.value, data);
  }

  // ---------------------------------------------------------------------------
  // Properties of the reply

  /** A missing word is refused with 400 before anything is fetched: the
      reply is the same whatever the fetch would give. */
  lemma MissingWordRefused(word: Option<string>, fetch: string -> Fetch<Page>, other: string -> Fetch<Page>)
    requires MissingWord(word)
    ensures Respond(word, fetch) == Respond(word, other) == Failure(400, WordRequired)
  {
  }

  /** A non-ok upstream answer is a 404 and a thrown error a 500. */
  lemma UpstreamFailures(word: string, fetch: string -> Fetch<Page>)
    requires word != []
    ensures fetch(PageUrl(word)).NotOk? ==> Status(Respond(Some(word), fetch)) == 404
    ensures fetch(PageUrl(word)).Thrown? ==> Status(Respond(Some(word), fetch)) == 500
  {
  }

  /** On success the content is never empty: it is the origin when there is
      one, and the oldest source otherwise. */
  lemma SuccessContent(page: Page)
    requires Extract(page).Some?
    ensures var d := Extract(page).value;
      && d.content != []
      && (d.origin != [] ==> d.content == d.origin)
      && (d.origin == [] ==> d.content == d.oldestSource)
  {
  }

  /** A "Kelime Kökeni" section wins: neither fallback runs. */
  lemma SectionWins(page: Page)
    requires SectionText(page.headings, OriginTitle) != []
    ensures Extracted(page).0 == SectionText(page.headings, OriginTitle)
  {
  }

  /** Without such a section the origin is the paragraph fallback when it is
      non-empty (at most 500 characters), whatever the oldest source is. */
  lemma FallbackUsed(page: Page)
    requires SectionText(page.headings, OriginTitle) == []
    requires FallbackText(page.paragraphs) != []
    ensures Extracted(page).0 == FallbackText(page.paragraphs)
    ensures |Extracted(page).0| <= MaxFallbackLength
  {
  }

  /** The body text is consulted only when there is neither an origin nor an
      oldest source so far. */
  lemma BodyTextLastResort(page: Page)
    requires SectionText(page.headings, OldestSourceTitle) != [] || SectionText(page.headings, OriginTitle) != []
      || FallbackText(page.paragraphs) != []
    ensures Extracted(page).0 == (if SectionText(page.headings, OriginTitle) != [] then SectionText(page.headings, OriginTitle)
      else FallbackText(page.paragraphs))
  {
  }

  /** The loaded page gives the 404 "no content" exactly when no heading feeds
      either title, no trimmed paragraph is longer than 20 characters, and
      the body text has no match. */
  lemma NoContentIff(page: Page)
    ensures Extract(page).None? <==>
      && (forall k :: 0 <= k < |page.headings| ==> !Feeds(page.headings[k], OriginTitle))
      && (forall k :: 0 <= k < |page.headings| ==> !Feeds(page.headings[k], OldestSourceTitle))
      && (forall i :: 0 <= i < |page.paragraphs| ==> |Trim(page.paragraphs[i])| <= MinParagraphLength)
      && BodyOrigin(page.bodyText).None?
  {
    SectionTextEmpty(page.headings, OriginTitle);
    SectionTextEmpty(page.headings, OldestSourceTitle);
    FallbackEmpty(page.paragraphs);
  }
}

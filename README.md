# Etymology lookup: verified model of the scrapers' text cleaning and the card's display logic

This project models the deterministic core of a web application that looks a
Turkish word up in three etymology dictionaries and shows the results on one
card with three tabs. The model covers four pieces:

- **The Aksözlük route** (`app/api/aksozluk/route.ts`):
  - `turkishToAscii`, which builds the page URL;
  - the chain of regex replacements that cleans the article's paragraph HTML: the leading date, anchors, `style` attributes, empty spans, and white space after an opening span;
  - the `while` loop that strips leading white space, `&nbsp;` and empty spans until nothing changes;
  - the reply status: 400, 404, 500 or success.
- **The Etimoloji Türkçe route** (`app/api/etimolojitr/route.ts`):
  - the `h3` section selection for "Kelime Kökeni" and "Tarihte En Eski Kaynak";
  - the paragraph fallback, with its filter, join and 500-character cut;
  - the body-text last resort `Kelime Kökeni[:\s]+([^.]+\.)`;
  - the choice of `content` and the reply status.
- **The etymology card** (`components/UnifiedEtymologyCard.tsx`):
  - the plain-text splitter `formatTextWithParagraphs`;
  - the HTML-aware splitter `formatHtmlWithParagraphs`, with its leading clean-up, its text-only length and the scan that counts only characters outside tags;
  - the Nişanyan sentence built in `renderNisanyan`;
  - the ambience colour `getOriginLanguageColor`;
  - the tab state (`activeTab`, `direction`) driven by `handleTabClick` and by swipes.
- **The back button** (`components/BackButton.tsx`): the `handleScroll` rule over `visible` and `lastScrollY`.

The code's form is kept:
- Code that works by reassignment and loops is a `method` with the same loops. Each is proved equal to a recursive specification function:
  - the two splitters;
  - the `forEach` that accumulates the Nişanyan construction;
  - the `h3` `each` loop;
  - the cleaning chain with its fixpoint loop.
- The state the components update in place lives in classes: `Tabs.TabBar` and `BackButton.ButtonState`.
- Each regex is written as a matcher at one position. `GlobalReplace.ReplaceAll` is the `g`-flag replacement over any matcher. Backtracking was worked out for each pattern and is noted beside its matcher.
- The network and the HTML parser are inputs:
  - a fetch is a function from URL to `Route.Fetch` (not ok / thrown / loaded page);
  - a loaded page is what the route reads from it: paragraph HTML, or heading/paragraph/body texts.

Modules:
- `Text`: JavaScript white space, `trim`, `indexOf`, and case-insensitive comparison as the `i` flag does it.
- `GlobalReplace`: the `g`-flag replacement.
- `Route`: replies and fetch outcomes.
- `Aksozluk`, `EtimolojiTr`, `Paragraphs`, `HtmlParagraphs`, `Nisanyan`, `Tabs`, `BackButton`: one per component.

Some code comments in the repository describe more than the code does; the model follows the code:
- The plain splitter cuts only at a ". " found before offset 350, not at 350 itself.
- The HTML scan checks for ". " before it checks the 350 bound, so the cut can fall at text count 351.
- The Aksözlük cleanup strips leading empty spans only. Other empty tags are left in place.
- No homonym fan-out and no merging of several pages exists in the code.

## Model

| member | source | states |
|---|---|---|
| Aksozluk.TurkishToAscii | app/api/aksozluk/route.ts:5-16 | the result has the input's length, and each character is the Latin base letter of ç ğ ı ö ş ü (or their capitals) lower-cased, or the character itself lower-cased |
| Aksozluk.TurkishToAsciiFolds | app/api/aksozluk/route.ts:5-16 | no Turkish letter and no ASCII capital is left in the URL path, and folding the path again changes nothing |
| Aksozluk.DateAt | app/api/aksozluk/route.ts:65 | a date match at a position ends inside the content |
| Aksozluk.LeadingDateRemoved | app/api/aksozluk/route.ts:62-65 | after a prefix of white space and whole tags, a date (1–2 digits, white space, a month name in any case, white space, 4 digits, trailing white space) is cut out; the prefix and the text after the date are kept |
| Aksozluk.NoLeadingDate | app/api/aksozluk/route.ts:65 | the replacement leaves any content unchanged unless the content is leading white space and tags, a date, and a rest that does not start with white space; in that case exactly the date is removed |
| Aksozluk.DatedChanges | app/api/aksozluk/route.ts:65 | content of that shape is always changed: it becomes the leading part followed by the rest |
| Aksozluk.DateAtIsDate | app/api/aksozluk/route.ts:65 | whatever the date pattern matches is a written date: one or two digits, white space, a month name in any case, white space, four digits, white space |
| Aksozluk.DateAtEnds | app/api/aksozluk/route.ts:65 | a date match takes all the white space after the year, so no white space follows it |
| Aksozluk.StripLeadingDate | app/api/aksozluk/route.ts:65 | the leading-date replacement never lengthens the content |
| Aksozluk.DateAtDated | app/api/aksozluk/route.ts:65 | the date pattern matched at the start of a written date consumes exactly that date and its trailing white space |
| Aksozluk.NoiseBeforeDate | app/api/aksozluk/route.ts:65 | the leading `\s*(<[^>]+>\s*)*` group stops exactly at the day's first digit |
| Aksozluk.MonthAtFinds | app/api/aksozluk/route.ts:63-65 | the month alternation, tried in order, finds the month name written at a position, in any case, with its full length |
| Aksozluk.MonthAtIsMonth | app/api/aksozluk/route.ts:65 | whatever the month alternation matches is one of the twelve month names |
| Aksozluk.MonthNotOther | app/api/aksozluk/route.ts:63-65 | two different month names never match at the same position, so the alternation's order does not matter |
| Aksozluk.AnchorClose | app/api/aksozluk/route.ts:70 | the lazy `(.*?)<\/a>` scan stops at a `</a>` (any case) at or after its start, or fails |
| Aksozluk.AnchorAt | app/api/aksozluk/route.ts:70 | an anchor match is non-empty, lies inside the content, and is replaced by something shorter |
| Aksozluk.AnchorCloseFinds | app/api/aksozluk/route.ts:70 | the lazy scan stops at the first `</a>` when no line terminator comes before it |
| Aksozluk.AnchorMatches | app/api/aksozluk/route.ts:70 | `<a …>inner</a>` followed by anything is matched whole and replaced by `inner`, when `inner` holds no `</a>` (in any case) and no line terminator |
| Aksozluk.AnchorUnwrapped | app/api/aksozluk/route.ts:70 | replacing all anchors turns `<a …>inner</a>rest` into `inner` followed by the replacement of `rest`, when `inner` holds no `</a>` and no line break |
| Aksozluk.StyleAt | app/api/aksozluk/route.ts:73-74 | a style match is non-empty, lies inside the content and is deleted |
| Aksozluk.StyleMatches | app/api/aksozluk/route.ts:73-74 | white space followed by a `style=` attribute quoted by `"` or `'` is matched whole |
| Aksozluk.DoubleQuotedStyleRemoved | app/api/aksozluk/route.ts:73 | a `style="…"` attribute is deleted with all the white space before it, and the replacement goes on after it |
| Aksozluk.SingleQuotedStyleRemoved | app/api/aksozluk/route.ts:74 | a `style='…'` attribute is deleted with all the white space before it, and the replacement goes on after it |
| Aksozluk.StyleNeedsName | app/api/aksozluk/route.ts:73-74 | a style match needs `style=` (any case) to follow the leading white space |
| Aksozluk.StylesAbsent | app/api/aksozluk/route.ts:73-74 | content without `style=` (any case) is left unchanged by both style replacements |
| Aksozluk.EmptySpanAt | app/api/aksozluk/route.ts:83 | an empty-span match is non-empty, lies inside the content and is deleted |
| Aksozluk.SpanOpeningAt | app/api/aksozluk/route.ts:86 | an opening-span match is replaced by something shorter: its tag |
| Aksozluk.EmptySpanMatches | app/api/aksozluk/route.ts:83 | `<span …>` + white space or `&nbsp;` + `</span>` is matched whole |
| Aksozluk.EmptySpanRemoved | app/api/aksozluk/route.ts:83 | a span holding only white space and `&nbsp;` is deleted, and the replacement goes on after it |
| Aksozluk.SpanOpeningMatches | app/api/aksozluk/route.ts:86 | an opening span followed by white space or `&nbsp;` is matched up to the first other character, with the tag as replacement |
| Aksozluk.SpanOpeningCleaned | app/api/aksozluk/route.ts:86 | the white space and `&nbsp;` right after an opening span are deleted and the tag is kept |
| Aksozluk.DropLeadingBlanks | app/api/aksozluk/route.ts:92 | removing the leading white space and `&nbsp;` never lengthens the content |
| Aksozluk.DropLeadingEmptySpan | app/api/aksozluk/route.ts:93 | removing a leading empty span never lengthens the content |
| Aksozluk.Pass | app/api/aksozluk/route.ts:91-93 | one pass of the loop body either changes nothing or strictly shortens the content, which is why the loop ends |
| Aksozluk.Fix | app/api/aksozluk/route.ts:90-94 | repeating a step that changes nothing or shortens, until it changes nothing, ends in a fixed point no longer than the start |
| Aksozluk.Settle | app/api/aksozluk/route.ts:88-94 | what the loop leaves is a fixed point of one pass and no longer than the content it started from |
| Aksozluk.PassDropsPrefix | app/api/aksozluk/route.ts:91-93 | a pass removes a prefix of the content and keeps the rest as it was |
| Aksozluk.SettleDropsPrefix | app/api/aksozluk/route.ts:88-94 | the whole loop removes a prefix of the content and keeps the rest as it was |
| Aksozluk.PassUnchanged | app/api/aksozluk/route.ts:90-94 | content a pass leaves unchanged starts with neither white space, `&nbsp;` nor an empty span, and the loop leaves it unchanged |
| Aksozluk.SettleIdempotent | app/api/aksozluk/route.ts:88-94 | running the loop again on its result changes nothing, and the result starts with neither white space, `&nbsp;` nor an empty span |
| Aksozluk.TrimAll | app/api/aksozluk/route.ts:57 | every paragraph's HTML is trimmed and none is lost |
| Aksozluk.Clean | app/api/aksozluk/route.ts:60-95 | the cleaning chain with its `while` loop computes the cleaned content: join, date, anchors, styles, empty spans, opening spans, the loop to its fixed point, trim |
| Aksozluk.Cleaned | app/api/aksozluk/route.ts:60-95 | the content after the replacement chain, the `while` loop and the final `trim` is trimmed |
| Aksozluk.Respond | app/api/aksozluk/route.ts:23-119 | a missing word gets 400; every error reply is 400, 404 or 500; a success reply names the source "aksozluk" and the word, and its content is trimmed and has at least 10 characters |
| Aksozluk.CleanedStartsClean | app/api/aksozluk/route.ts:88-95 | the cleaned content is trimmed and starts with neither white space, `&nbsp;` nor an empty span |
| Aksozluk.Get | app/api/aksozluk/route.ts:23-119 | the route's reply, with its early returns, is the reply of the status classification for the word and the fetch |
| Aksozluk.MissingWordRefused | app/api/aksozluk/route.ts:27-29 | a missing or empty word gets 400 "Word parameter is required", whatever the fetch would give: nothing is fetched |
| Aksozluk.UpstreamFailures | app/api/aksozluk/route.ts:42-44 | a non-ok response gets 404 "Word not found"; a thrown fetch gets 500 "Failed to fetch data from Aksözlük" (lines 112-118) |
| Aksozluk.LoadedReply | app/api/aksozluk/route.ts:97-110 | for a loaded page the status is 404 exactly when the cleaned content is shorter than 10 characters; a success carries exactly the cleaned content, which is at least 10 long, trimmed, and free of leading white space, `&nbsp;` and empty spans |
| GlobalReplace.ReplaceAllNoHit | app/api/aksozluk/route.ts:70-86 | a global replacement whose pattern matches nowhere changes nothing |
| GlobalReplace.ReplaceAllHit | app/api/aksozluk/route.ts:70-86 | a match at the start is replaced and the replacement goes on after the match |
| GlobalReplace.ReplaceAllKeep | app/api/aksozluk/route.ts:70-86 | a character where the pattern does not match is kept and the replacement goes on after it |
| GlobalReplace.ReplaceAllShrinks | app/api/aksozluk/route.ts:70-86 | a replacement whose matches are all replaced by nothing longer never lengthens the content |
| EtimolojiTr.SelectSections | app/api/etimolojitr/route.ts:37-57 | the `each` loop over the headings leaves in each variable the section text of its own title |
| EtimolojiTr.SectionTextEmpty | app/api/etimolojitr/route.ts:41-57 | a title's section text is empty exactly when no heading contains the title with a non-empty next paragraph |
| EtimolojiTr.SectionText | app/api/etimolojitr/route.ts:41-57 | the text the `each` loop leaves for a title is trimmed |
| EtimolojiTr.SectionTextLast | app/api/etimolojitr/route.ts:41-57 | the section text is the trimmed next paragraph of the last heading that contains the title and has one |
| EtimolojiTr.LongParagraphs | app/api/etimolojitr/route.ts:61-62 | only paragraphs longer than 20 characters are kept |
| EtimolojiTr.LongParagraphsAppend | app/api/etimolojitr/route.ts:61-62 | the filter goes paragraph by paragraph: the kept paragraphs of two lists put together are those of the first list, in order, followed by those of the second |
| EtimolojiTr.LongParagraphsSingle | app/api/etimolojitr/route.ts:61-62 | a single paragraph is kept, in its trimmed form, exactly when that form is longer than 20 characters |
| EtimolojiTr.FallbackText | app/api/etimolojitr/route.ts:62 | the fallback text is at most 500 characters |
| EtimolojiTr.FallbackIsPrefix | app/api/etimolojitr/route.ts:62 | the fallback is the start of the long paragraphs joined by single spaces: all of it when it fits in 500 characters, else exactly its first 500 |
| EtimolojiTr.FallbackEmpty | app/api/etimolojitr/route.ts:59-63 | the fallback is empty exactly when no trimmed paragraph is longer than 20 characters |
| EtimolojiTr.SeparatorRun | app/api/etimolojitr/route.ts:68 | `[:\s]+` takes every colon and white-space character from its start, and stops at the first other one |
| EtimolojiTr.GroupAt | app/api/etimolojitr/route.ts:68 | a captured group ends in its only '.' and has at least one character before it |
| EtimolojiTr.BodyOrigin | app/api/etimolojitr/route.ts:65-72 | a last-resort origin ends in '.' and holds no other '.' |
| EtimolojiTr.MatchFrom | app/api/etimolojitr/route.ts:68 | the group of a match has at least two characters, ends in '.' and holds no other '.' |
| EtimolojiTr.TrimEndsAtPeriod | app/api/etimolojitr/route.ts:70 | trimming a captured group keeps its final '.' as the only one |
| EtimolojiTr.BodyOriginExample | app/api/etimolojitr/route.ts:68-70 | a body with text in which the title does not start, then "Kelime Kökeni", a colon/white-space run, then text up to a '.' yields exactly that text with its '.', including any white space just before the '.' |
| EtimolojiTr.MatchFromSkip | app/api/etimolojitr/route.ts:68 | the search for the leftmost match passes over every position where the title does not occur |
| EtimolojiTr.GroupAtExample | app/api/etimolojitr/route.ts:68 | after the title, a colon/white-space run and a text without '.' that starts with neither, the group is that text and its '.' |
| EtimolojiTr.LowerWord | app/api/etimolojitr/route.ts:20 | the word is lower-cased character by character and keeps its length |
| EtimolojiTr.Get | app/api/etimolojitr/route.ts:10-98 | the route's reply, with its early returns, selection loop and reassignments, is the reply of the extraction policy for the word and the fetch |
| EtimolojiTr.Respond | app/api/etimolojitr/route.ts:10-98 | a missing word gets 400; every error reply is 400, 404 or 500; a success reply names the source "etimolojitr" and the word, and its content is non-empty and is `origin` when that is non-empty, else `oldestSource` |
| EtimolojiTr.MissingWordRefused | app/api/etimolojitr/route.ts:14-16 | a missing or empty word gets 400 whatever the fetch would give |
| EtimolojiTr.UpstreamFailures | app/api/etimolojitr/route.ts:28-30 | a non-ok response gets 404; a thrown fetch gets 500 (lines 91-97) |
| EtimolojiTr.SuccessContent | app/api/etimolojitr/route.ts:78-82 | on success `content` is never empty: it is `origin` when that is non-empty, else `oldestSource` |
| EtimolojiTr.SectionWins | app/api/etimolojitr/route.ts:60 | a non-empty "Kelime Kökeni" section is the origin and no fallback runs |
| EtimolojiTr.FallbackUsed | app/api/etimolojitr/route.ts:59-63 | without such a section, a non-empty paragraph fallback is the origin, at most 500 characters long |
| EtimolojiTr.BodyTextLastResort | app/api/etimolojitr/route.ts:65-72 | the body text is consulted only when both fields are still empty |
| EtimolojiTr.NoContentIff | app/api/etimolojitr/route.ts:74-76 | the reply is 404 "no content" exactly when no heading feeds either title, no trimmed paragraph is longer than 20 characters and the body text has no "Kelime Kökeni" sentence |
| Paragraphs.NonEmpty | components/UnifiedEtymologyCard.tsx:181 | the filter keeps every non-empty paragraph and all their text, in order |
| Paragraphs.NonEmptyAppend | components/UnifiedEtymologyCard.tsx:181 | the filter distributes over concatenation: it works paragraph by paragraph, in order |
| Paragraphs.NonEmptySingle | components/UnifiedEtymologyCard.tsx:181 | one paragraph is kept exactly when it is not empty |
| Paragraphs.NonEmptyKeepsAll | components/UnifiedEtymologyCard.tsx:181 | the filter keeps a list without empty paragraphs whole |
| Paragraphs.TextCut | components/UnifiedEtymologyCard.tsx:162-165 | a cut found is a ". " at an index from 150 up to but not including 350 |
| Paragraphs.RemainderKeepsText | components/UnifiedEtymologyCard.tsx:176-179 | what remains becomes one trimmed paragraph when it holds non-space text, and no text is lost |
| Paragraphs.FormatTextWithParagraphs | components/UnifiedEtymologyCard.tsx:146-182 | the method with the source's loop computes the splitter's specification; a text of at most 200 characters (or empty) comes back unchanged as one paragraph; at most 3 paragraphs |
| Paragraphs.TextParagraphs | components/UnifiedEtymologyCard.tsx:146-182 | the plain-text splitter returns at most 3 paragraphs |
| Paragraphs.TextParagraphsShape | components/UnifiedEtymologyCard.tsx:149-181 | a long text gives at most 3 paragraphs, each non-empty and trimmed, every one but the last ending in '.'; together they hold all the non-space text in order, and none is returned only for a blank text |
| Paragraphs.TextFirstCut | components/UnifiedEtymologyCard.tsx:161-169 | the first paragraph ends at the first ". " at index 150 to 349, period included, and the rest is split from after the space |
| Paragraphs.TextNoCut | components/UnifiedEtymologyCard.tsx:170-179 | without a ". " at index 150 to 349 the whole text stays one trimmed paragraph |
| Paragraphs.TextLoopFacts | components/UnifiedEtymologyCard.tsx:154-174 | from any state of the loop, the paragraphs still to come are at most the cuts left plus one, well cut, and keep all the text |
| Paragraphs.TextLoopBound | components/UnifiedEtymologyCard.tsx:152-154 | the loop yields at most 3 paragraphs |
| HtmlParagraphs.StripJunk | components/UnifiedEtymologyCard.tsx:191 | the leading clean-up leaves no leading white space, `&nbsp;`, `<br>` or empty `<span>`/`<em>`/`<strong>` pair, and only drops a prefix: the result is a suffix of the input |
| HtmlParagraphs.StripJunkPiece | components/UnifiedEtymologyCard.tsx:191 | a whole junk piece at the front is dropped and the clean-up goes on with what follows it |
| HtmlParagraphs.HtmlCleanUnchanged | components/UnifiedEtymologyCard.tsx:190-192 | markup with no junk at the front and no white space at either end is left unchanged |
| HtmlParagraphs.HtmlCleanSlice | components/UnifiedEtymologyCard.tsx:190-192 | the cleaned markup is a contiguous piece of the input |
| HtmlParagraphs.HtmlCleanNoJunk | components/UnifiedEtymologyCard.tsx:190-192 | the cleaned HTML starts with no junk and is trimmed |
| HtmlParagraphs.HtmlClean | components/UnifiedEtymologyCard.tsx:190-192 | the cleaned HTML is trimmed |
| HtmlParagraphs.StripTags | components/UnifiedEtymologyCard.tsx:203 | removing the tags never lengthens the text |
| HtmlParagraphs.HtmlCleanIdempotent | components/UnifiedEtymologyCard.tsx:190-192 | cleaning the cleaned HTML again changes nothing |
| HtmlParagraphs.StripTagsPlain | components/UnifiedEtymologyCard.tsx:203 | removing tags leaves text without '<' unchanged |
| HtmlParagraphs.ScanCut | components/UnifiedEtymologyCard.tsx:215-235 | a cut the scan finds is a ". " at or after its start |
| HtmlParagraphs.ScanCutCount | components/UnifiedEtymologyCard.tsx:212-235 | a cut is found only where the text count, with tags skipped, is from 150 to 351 |
| HtmlParagraphs.HtmlCutCount | components/UnifiedEtymologyCard.tsx:212-235 | a cut in the HTML is a ". " whose text count is from 150 to 351 |
| HtmlParagraphs.HtmlCut | components/UnifiedEtymologyCard.tsx:212-235 | the scan either finds no cut or finds a ". " in the HTML |
| HtmlParagraphs.TagJumpOutside | components/UnifiedEtymologyCard.tsx:216-222 | jumping from a '<' to the next '>' lands outside every tag |
| HtmlParagraphs.ScanCutOutside | components/UnifiedEtymologyCard.tsx:215-235 | a scan that starts outside every tag stops only outside every tag |
| HtmlParagraphs.ScanCutFirst | components/UnifiedEtymologyCard.tsx:215-235 | from a position outside every tag, the scan's cut is the first ". " outside every tag whose text count reaches 150 |
| HtmlParagraphs.ScanCutFinds | components/UnifiedEtymologyCard.tsx:215-235 | from a position outside every tag, the first ". " outside every tag whose text count reaches 150 is the cut when that count is at most 351 |
| HtmlParagraphs.HtmlCutFirst | components/UnifiedEtymologyCard.tsx:212-235 | the HTML cut is the first ". " outside every tag whose text count reaches 150 |
| HtmlParagraphs.HtmlCutFinds | components/UnifiedEtymologyCard.tsx:212-235 | the first ". " outside every tag whose text count reaches 150 is the HTML cut whenever that count is at most 351, so a cut is found whenever one exists |
| HtmlParagraphs.HtmlCutOutside | components/UnifiedEtymologyCard.tsx:215-235 | the cut is outside every tag: each '<' before it that has a later '>' has it before the cut |
| HtmlParagraphs.HtmlCutPlain | components/UnifiedEtymologyCard.tsx:212-235 | on text without '<' the scan finds the same ". " as the plain search from index 149, as long as it lies at index 350 or below |
| HtmlParagraphs.FindSplitIndex | components/UnifiedEtymologyCard.tsx:212-235 | the `for` loop that walks the markup computes the split index: one past the cut's period, or -1 |
| HtmlParagraphs.SplitCleanedHtml | components/UnifiedEtymologyCard.tsx:196-251 | the `while` loop computes the splitter's specification on cleaned HTML, with at most 3 paragraphs |
| HtmlParagraphs.FormatHtmlWithParagraphs | components/UnifiedEtymologyCard.tsx:186-252 | the method computes the HTML splitter's specification and yields at most 3 paragraphs |
| HtmlParagraphs.HtmlLoopFacts | components/UnifiedEtymologyCard.tsx:201-245 | from any state of the loop, the paragraphs still to come are at most the cuts left plus one, well cut, and keep all the text |
| HtmlParagraphs.HtmlParagraphsShape | components/UnifiedEtymologyCard.tsx:194-251 | cleaned HTML longer than 200 gives 1 to 3 paragraphs, each non-empty and trimmed, every one but the last ending in '.', together holding all its non-space text in order |
| HtmlParagraphs.HtmlShortTextUnsplit | components/UnifiedEtymologyCard.tsx:187-208 | any HTML whose cleaned form has at most 200 characters of text outside tags, the empty string and markup that cleans to nothing included, is returned as one paragraph, the cleaned HTML |
| HtmlParagraphs.HtmlParagraphs | components/UnifiedEtymologyCard.tsx:186-252 | the HTML splitter returns at most 3 paragraphs |
| HtmlParagraphs.LongMarkupShortText | components/UnifiedEtymologyCard.tsx:203-208 | markup longer than 200 whose text is at most 200 stays one paragraph |
| HtmlParagraphs.HtmlFirstCut | components/UnifiedEtymologyCard.tsx:210-240 | the first paragraph ends at the scan's ". ", period included, whose text count is from 150 to 351, which is never inside a tag, and before which no ". " outside a tag has a text count of 150 or more |
| Nisanyan.RenderNisanyan | components/UnifiedEtymologyCard.tsx:380-416 | the `forEach` that accumulates the construction computes the view: no data without words, else the first word's cleaned-up construction and note |
| Nisanyan.Piece | components/UnifiedEtymologyCard.tsx:405-408 | a non-empty piece is kept whole and followed by one space; an empty one adds nothing |
| Nisanyan.ConstructionAppend | components/UnifiedEtymologyCard.tsx:396-411 | the construction is one part per etymology, concatenated in array order |
| Nisanyan.FirstLanguageOnly | components/UnifiedEtymologyCard.tsx:397 | only the first language's name is used |
| Nisanyan.SameMeaningDropped | components/UnifiedEtymologyCard.tsx:399 | the definition "a.a." is dropped, the same as no definition |
| Nisanyan.PartEmpty | components/UnifiedEtymologyCard.tsx:402-408 | a part is empty exactly when the language, the word form, the definition and the relation are all empty; otherwise it ends in a space |
| Nisanyan.FirstWordOnly | components/UnifiedEtymologyCard.tsx:389 | only `words[0]` is rendered |
| Nisanyan.NoEtymologiesEmpty | components/UnifiedEtymologyCard.tsx:390-415 | a word without etymologies gives an empty main text |
| Nisanyan.MainTextShape | components/UnifiedEtymologyCard.tsx:415 | the main text keeps all non-space text, is trimmed, its only white space is ' ' and no two white-space characters are adjacent |
| Nisanyan.MainTextWords | components/UnifiedEtymologyCard.tsx:415 | two words with any white-space run between them read as the two words joined by exactly one space |
| Nisanyan.MainTextWord | components/UnifiedEtymologyCard.tsx:415 | one word with any white space around it reads as that word |
| Text.CollapseShape | components/UnifiedEtymologyCard.tsx:415 | the collapse keeps every non-space character, leaves only single ' ' characters as white space, never two adjacent, and starts with white space exactly when its input does |
| Text.CollapsePadded | components/UnifiedEtymologyCard.tsx:415 | a word with white-space runs around it collapses to the word with at most one space on each side |
| Text.CollapseRun | components/UnifiedEtymologyCard.tsx:415 | a whole white-space run, between text that does not end in white space and text that does not start with it, becomes exactly one space |
| Text.CollapseNoSpace | components/UnifiedEtymologyCard.tsx:415 | text without white space is unchanged by the collapse |
| Nisanyan.MainText | components/UnifiedEtymologyCard.tsx:415 | the main text is trimmed |
| Nisanyan.NisanyanView | components/UnifiedEtymologyCard.tsx:380-416 | the "no data" view is shown exactly when there are no words; otherwise the main text is trimmed and the note is the first word's |
| Nisanyan.OriginLanguageColor | components/UnifiedEtymologyCard.tsx:258-265 | the colour is always one of the table's; it is the origin language's entry when the table has it, else the default |
| Nisanyan.ColorFromFirstLanguageOnly | components/UnifiedEtymologyCard.tsx:259-264 | only the first word's first etymology's first language decides the colour |
| Tabs.IndexOf | components/UnifiedEtymologyCard.tsx:103 | every source is at exactly one index of the three-tab order |
| Tabs.ClickDirection | components/UnifiedEtymologyCard.tsx:283 | the direction is +1 exactly when the target is to the right, else -1 |
| Tabs.SwipeTarget | components/UnifiedEtymologyCard.tsx:290-310 | a swipe moves one tab against its sign; swipe-left on the last tab, swipe-right on the first, and any other value move nothing |
| Tabs.TabBar.constructor | components/UnifiedEtymologyCard.tsx:268-269 | the card starts on "aksozluk" with direction 0 |
| Tabs.TabBar.HandleTabClick | components/UnifiedEtymologyCard.tsx:277-287 | clicking the active tab opens its page and changes no state; clicking another selects it with the direction of the move |
| Tabs.TabBar.HandleSwipe | components/UnifiedEtymologyCard.tsx:290-310 | a swipe that moves selects the neighbouring tab with its direction; one that does not move changes nothing |
| Tabs.SwipeLikeClick | components/UnifiedEtymologyCard.tsx:283-307 | a swipe sets the same direction as clicking the tab it moves to |
| Tabs.SwipeRoundTrip | components/UnifiedEtymologyCard.tsx:290-310 | a swipe undone by the opposite swipe returns to the starting tab |
| BackButton.HiddenIffScrollingDown | components/BackButton.tsx:16-25 | the button hides exactly when the position is at least 10 and greater than the previous one |
| BackButton.ButtonState.constructor | components/BackButton.tsx:8-9 | the button starts visible with a last position of 0 |
| BackButton.ButtonState.HandleScroll | components/BackButton.tsx:13-28 | after an event, visibility follows the rule and the last position is the event's; the history of positions grows by it |
| BackButton.OnlyLastTwoMatter | components/BackButton.tsx:16-27 | the visibility after a series of events depends only on the last two positions |
| BackButton.TopZoneShows | components/BackButton.tsx:16-18 | a position below 10 always shows the button |
| BackButton.DownThenUp | components/BackButton.tsx:19-25 | scrolling down past 10 hides the button and the next scroll up or stay shows it again |

## Left out

- Network I/O: `fetch`, the request headers and `response.text()` are not modelled. A fetch is an input function from URL to not ok / thrown / loaded page.
- HTML parsing with cheerio is not modelled. A loaded page is given by what the route reads from it:
  - Aksözlük: the inner HTML of each `article p`;
  - Etimoloji Türkçe: the `h3` texts with their next paragraphs, the paragraph texts, and the body text.
- Aksözlük's `articleText` and `h1Text` are computed and never used, so they are left out.
- A paragraph whose `html()` is `null` is not modelled: every paragraph is a string.
- `encodeURIComponent` is left out. The Etimoloji Türkçe URL path is the lower-cased word.
- `toLowerCase` is modelled on ASCII letters only. Full Unicode lower-casing needs tables the model does not have.
- Case-insensitive matching folds ASCII letters and ç ğ ö ş ü. It leaves dotless ı alone, as JavaScript's non-Unicode `i` flag does. Other letters are compared as written. This differs from JavaScript only for letters that none of the patterns contain.
- String lengths count Unicode code points, not UTF-16 units. The two agree for Turkish text.
- `console.error`, the JSON encoding of replies, and the `date` field that is never set are left out.
- React rendering is left out:
  - the animation variants;
  - gesture detection (a swipe is given as its `swipeX`);
  - `window.open` (a click on the active tab is the effect `OpenSourcePage`);
  - haptic feedback (the effect `Feedback`).
- The scroll listener's wiring and `router.push` are left out. `window.scrollY` is an integer.
- The routes for Nişanyan and TDK are left out: they forward a library's or an upstream's response unchanged.
- Aksozluk.AnchorUnwrapped: only covers anchors whose inner text holds no `</a>` and no line break. An anchor whose lazy scan fails is kept, as `AnchorAt` computes, but that case is not stated as a lemma.
- Aksozluk.StylesAbsent: states that content without `style=` is unchanged. A second pass of the style replacements is not proved to change nothing: deleting an attribute can bring white space next to a later `style=`.
- HtmlParagraphs: the scan treats `<>` as a tag, while the text-only length (`/<[^>]+>/`) counts it as text. Both are modelled as written.
- Tabs.TabBar and BackButton.ButtonState: React's asynchronous state updates are modelled as immediate assignments.
- Object prototype keys such as `"constructor"` in the colour lookup are not modelled. The table is a map with exactly its own keys.

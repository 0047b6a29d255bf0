/** The two paragraph splitters of the etymology card
    (components/UnifiedEtymologyCard.tsx): `formatTextWithParagraphs` for plain
    text and `formatHtmlWithParagraphs` for the HTML the scraping routes return.
    Each is a method with the source's loops, proved equal to a recursive
    specification function; the lemmas state what the splitting promises. */
module Paragraphs {
  import opened Text

  /** A text at most this long is never split. */
  const TargetLength := 200
  /** A cut is looked for from this offset (plain) or text count (HTML) on. */
  const SearchStart := 150
  /** No cut at or beyond this offset (plain) or past this text count (HTML). */
  const SearchLimit := 350
  /** At most this many cuts, so at most three paragraphs. */
  const MaxSplits := 2

  /** `paragraphs.filter(p => p.length > 0)` */
  function NonEmpty(ps: seq<string>): (r: seq<string>)
    ensures |r| <= |ps|
    ensures forall i :: 0 <= i < |r| ==> r[i] != []
    ensures Concat(r) == Concat(ps)
  {
    if ps == [] then []
    else if ps[0] == [] then NonEmpty(ps[1..])
    else
      var rest := NonEmpty(ps[1..]);
      assert ([ps[0]] + rest)[0] == ps[0] && ([ps[0]] + rest)[1..] == rest;
      [ps[0]] + rest
  }

  lemma {:induction false} NonEmptyKeepsAll(ps: seq<string>)
    requires forall i :: 0 <= i < |ps| ==> ps[i] != []
    ensures NonEmpty(ps) == ps
  {
    if ps != [] {
      NonEmptyKeepsAll(ps[1..]);
    }
  }

  /** The filter works element by element: it distributes over `+`. */
  lemma {:induction false} NonEmptyAppend(a: seq<string>, b: seq<string>)
    ensures NonEmpty(a + b) == NonEmpty(a) + NonEmpty(b)
  {
    if a == [] {
      assert a + b == b;
    } else {
      assert (a + b)[0] == a[0] && (a + b)[1..] == a[1..] + b;
      NonEmptyAppend(a[1..], b);
      if a[0] != [] {
        AppendAssoc([a[0]], NonEmpty(a[1..]), NonEmpty(b));
      }
    }
  }

  /** One paragraph is kept exactly when it is not empty. */
  lemma NonEmptySingle(p: string)
    ensures NonEmpty([p]) == if p == [] then [] else [p]
  {
    assert [p][1..] == [];
  }

  /** What the splitters push after their loop: the trimmed remainder, if any text is left. */
  function Remainder(remaining: string): (r: seq<string>)
    ensures |r| <= 1
  {
    if |Trim(remaining)| > 0 then [Trim(remaining)] else []
  }

  lemma RemainderKeepsText(remaining: string)
    ensures var r := Remainder(remaining);
      && (forall i :: 0 <= i < |r| ==> r[i] != [] && Trimmed(r[i]))
      && NonSpace(Concat(r)) == NonSpace(remaining)
  {
    TrimKeepsText(remaining);
    var r := Remainder(remaining);
    if r != [] {
      ConcatSingle(Trim(remaining));
    }
  }

  // ---------------------------------------------------------------------------
  // Plain text: formatTextWithParagraphs

  /** The plain splitter's cut: `remaining.indexOf('. ', 150)` when it is below 350, else -1. */
  function TextCut(remaining: string): (k: int)
    ensures k == -1 || (SearchStart <= k < SearchLimit && SentenceEndAt(remaining, k))
  {
    var periodIndex := IndexOfSentenceEnd(remaining, SearchStart);
    if periodIndex != -1 && periodIndex < SearchLimit then periodIndex else -1
  }

  /** The paragraphs the loop pushes, starting from `remaining` after `splits` cuts,
      followed by the remainder pushed after the loop. */
  function TextLoop(remaining: string, splits: nat): seq<string>
    decreases MaxSplits - splits
  {
    if |remaining| == 0 || splits >= MaxSplits then Remainder(remaining)
    else if |remaining| <= TargetLength then [Trim(remaining)]
    else
      var k := TextCut(remaining);
      if k == -1 then Remainder(remaining)
      else [Trim(remaining[..k + 1])] + TextLoop(Trim(remaining[k + 2..]), splits + 1)
  }

  /** What `formatTextWithParagraphs(text)` returns. */
  function TextParagraphs(text: string): (r: seq<string>)
    ensures |r| <= MaxSplits + 1
  {
    if |text| <= TargetLength then [text]
    else
      TextLoopBound(text);
      NonEmpty(TextLoop(text, 0))
  }

  method FormatTextWithParagraphs(text: string) returns (result: seq<string>)
    ensures result == TextParagraphs(text)
    ensures |text| <= TargetLength ==> result == [text]
    ensures |result| <= MaxSplits + 1
  {
    if |text| <= TargetLength {
      return [text];
    }
    var paragraphs: seq<string> := [];
    var remaining := text;
    var splits := 0;
    EmptyAppend(TextLoop(text, 0));
    while |remaining| > 0 && splits < MaxSplits
      invariant 0 <= splits <= MaxSplits
      invariant |paragraphs| == splits
      invariant paragraphs + TextLoop(remaining, splits) == TextLoop(text, 0)
    {
      if |remaining| <= TargetLength {
        TextLoopLast(remaining, splits);
        TextLoopStops([], splits);
        AppendAssoc(paragraphs, [Trim(remaining)], []);
        AppendEmpty([Trim(remaining)]);
        paragraphs := paragraphs + [Trim(remaining)];
        remaining := [];
        break;
      }
      var periodIndex := IndexOfSentenceEnd(remaining, SearchStart);
      if periodIndex != -1 && periodIndex < SearchLimit {
        var piece, rest := Trim(remaining[..periodIndex + 1]), Trim(remaining[periodIndex + 2..]);
        TextLoopSplits(remaining, splits, periodIndex);
        AppendAssoc(paragraphs, [piece], TextLoop(rest, splits + 1));
        paragraphs := paragraphs + [piece];
        remaining := rest;
        splits := splits + 1;
      } else {
        break;
      }
    }
    TextLoopStops(remaining, splits);
    assert paragraphs + Remainder(remaining) == TextLoop(text, 0);
    if |Trim(remaining)| > 0 {
      paragraphs := paragraphs + [Trim(remaining)];
    } else {
      AppendEmpty(paragraphs);
    }
    TextLoopBound(text);
    result := NonEmpty(paragraphs);
  }

  /** Every paragraph is non-empty and trimmed, and every one but the last ends
      with the period of the sentence it was cut after. */
  predicate WellCut(r: seq<string>) {
    && (forall i :: 0 <= i < |r| ==> r[i] != [] && Trimmed(r[i]))
    && (forall i :: 0 <= i < |r| - 1 ==> r[i][|r[i]| - 1] == '.')
  }

  lemma WellCutSingle(p: string)
    requires p != [] && Trimmed(p)
    ensures WellCut([p])
  {
  }

  lemma WellCutCons(p: string, r: seq<string>)
    requires p != [] && Trimmed(p) && p[|p| - 1] == '.'
    requires WellCut(r)
    ensures WellCut([p] + r)
  {
  }

  lemma ConcatCons(p: string, r: seq<string>)
    ensures NonSpace(Concat([p] + r)) == NonSpace(p) + NonSpace(Concat(r))
  {
    assert ([p] + r)[0] == p && ([p] + r)[1..] == r;
    NonSpaceAppend(p, Concat(r));
  }

  // The three ways the loop goes on, one equation each.

  lemma TextLoopStops(remaining: string, splits: nat)
    requires |remaining| == 0 || splits >= MaxSplits || (|remaining| > TargetLength && TextCut(remaining) == -1)
    ensures TextLoop(remaining, splits) == Remainder(remaining)
  {
  }

  lemma TextLoopLast(remaining: string, splits: nat)
    requires 0 < |remaining| <= TargetLength && splits < MaxSplits
    ensures TextLoop(remaining, splits) == [Trim(remaining)]
  {
  }

  lemma TextLoopSplits(remaining: string, splits: nat, k: int)
    requires |remaining| > TargetLength && splits < MaxSplits && k == TextCut(remaining) && k != -1
    ensures TextLoop(remaining, splits) == [Trim(remaining[..k + 1])] + TextLoop(Trim(remaining[k + 2..]), splits + 1)
  {
  }

  /** The facts the loop's paragraphs satisfy, proved branch by branch. */
  lemma {:induction false} TextLoopFacts(remaining: string, splits: nat)
    requires |remaining| > TargetLength || Trimmed(remaining)
    requires splits <= MaxSplits
    decreases MaxSplits - splits, 1
    ensures |TextLoop(remaining, splits)| + splits <= MaxSplits + 1
    ensures WellCut(TextLoop(remaining, splits))
    ensures NonSpace(Concat(TextLoop(remaining, splits))) == NonSpace(remaining)
  {
    if |remaining| == 0 || splits >= MaxSplits || (|remaining| > TargetLength && TextCut(remaining) == -1) {
      TextLoopStops(remaining, splits);
      RemainderKeepsText(remaining);
    } else if |remaining| <= TargetLength {
      TextLoopLastFacts(remaining, splits);
    } else {
      TextLoopCutFacts(remaining, splits);
    }
  }

  /** The plain loop makes at most three paragraphs. */
  lemma TextLoopBound(text: string)
    requires |text| > TargetLength
    ensures |TextLoop(text, 0)| <= MaxSplits + 1
  {
    TextLoopFacts(text, 0);
  }

  lemma TextLoopLastFacts(remaining: string, splits: nat)
    requires 0 < |remaining| <= TargetLength && Trimmed(remaining) && splits < MaxSplits
    ensures |TextLoop(remaining, splits)| + splits <= MaxSplits + 1
    ensures WellCut(TextLoop(remaining, splits))
    ensures NonSpace(Concat(TextLoop(remaining, splits))) == NonSpace(remaining)
  {
    TextLoopLast(remaining, splits);
    TrimNoop(remaining);
    WellCutSingle(remaining);
    ConcatSingle(remaining);
  }

  lemma {:induction false} TextLoopCutFacts(remaining: string, splits: nat)
    requires |remaining| > TargetLength && splits < MaxSplits && TextCut(remaining) != -1
    decreases MaxSplits - splits, 0
    ensures |TextLoop(remaining, splits)| + splits <= MaxSplits + 1
    ensures WellCut(TextLoop(remaining, splits))
    ensures NonSpace(Concat(TextLoop(remaining, splits))) == NonSpace(remaining)
  {
    var k := TextCut(remaining);
    var p := Trim(remaining[..k + 1]);
    var rest := Trim(remaining[k + 2..]);
    TextLoopSplits(remaining, splits, k);
    CutKeepsText(remaining, k);
    TextLoopFacts(rest, splits + 1);
    WellCutCons(p, TextLoop(rest, splits + 1));
    ConcatCons(p, TextLoop(rest, splits + 1));
  }

  /** A long text becomes at most three trimmed, non-empty paragraphs; every one but
      the last ends at a sentence's period; no text other than white space is lost
      or added; and the result is empty exactly when the text is all white space. */
  lemma TextParagraphsShape(text: string)
    requires |text| > TargetLength
    ensures var r := TextParagraphs(text);
      && |r| <= MaxSplits + 1
      && (forall i :: 0 <= i < |r| ==> r[i] != [] && Trimmed(r[i]))
      && (forall i :: 0 <= i < |r| - 1 ==> r[i][|r[i]| - 1] == '.')
      && NonSpace(Concat(r)) == NonSpace(text)
      && (r == [] <==> NonSpace(text) == [])
  {
    TextLoopFacts(text, 0);
    NonEmptyKeepsAll(TextLoop(text, 0));
    var r := TextParagraphs(text);
    if r != [] {
      assert Concat(r) == r[0] + Concat(r[1..]);
      NonSpaceStart(r[0], Concat(r[1..]));
    }
  }

  /** The first cut of a long text is at the first ". " at offset 150 or later,
      provided it lies below 350; the period stays with the first paragraph and the
      second starts after the space. */
  lemma TextFirstCut(text: string, k: int)
    requires |text| > TargetLength
    requires SearchStart <= k < SearchLimit && SentenceEndAt(text, k)
    requires forall j :: SearchStart <= j < k ==> !SentenceEndAt(text, j)
    ensures var r := TextParagraphs(text);
      && r != []
      && r[0] == Trim(text[..k + 1])
      && r[1..] == NonEmpty(TextLoop(Trim(text[k + 2..]), 1))
  {
    IndexOfSentenceEndFirst(text, SearchStart);
    assert TextCut(text) == k;
    TextLoopFacts(text, 0);
    NonEmptyKeepsAll(TextLoop(text, 0));
    TextLoopFacts(Trim(text[k + 2..]), 1);
    NonEmptyKeepsAll(TextLoop(Trim(text[k + 2..]), 1));
  }

  /** With no ". " between offsets 150 and 349, a long text stays in one piece
      (trimmed), or vanishes when it is all white space. */
  lemma TextNoCut(text: string)
    requires |text| > TargetLength
    requires forall j :: SearchStart <= j < SearchLimit ==> !SentenceEndAt(text, j)
    ensures TextParagraphs(text) == if NonSpace(text) == [] then [] else [Trim(text)]
  {
    IndexOfSentenceEndFirst(text, SearchStart);
    assert TextCut(text) == -1;
    RemainderKeepsText(text);
    assert TextLoop(text, 0) == Remainder(text);
    NonEmptyKeepsAll(Remainder(text));
    if Trim(text) != [] {
      ConcatSingle(Trim(text));
      assert Trim(text) + [] == Trim(text);
      NonSpaceStart(Trim(text), []);
    }
  }
}

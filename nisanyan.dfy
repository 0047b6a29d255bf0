/** The Nişanyan tab of the etymology card (components/UnifiedEtymologyCard.tsx):
    the sentence built from the structured etymology data, and the ambience
    colour chosen from the word's origin language. */
module Nisanyan {
  import opened Wrappers
  import opened Text

  // Absent optional strings are the empty string and absent lists the empty
  // list: the source tests every one of them for truthiness only.

  datatype Language = Language(name: string, abbreviation: string)
  datatype Relation = Relation(name: string, abbreviation: string, text: string)
  datatype Etymology = Etymology(
    languages: seq<Language>,
    originalText: string,
    romanizedText: string,
    definition: string,
    relation: Option<Relation>)
  datatype Word = Word(etymologies: seq<Etymology>, note: string)
  datatype NisanyanData = NisanyanData(words: seq<Word>)

  /** The definition Nişanyan writes for "same meaning"; it is dropped. */
  const SameMeaning := "a.a."

  /** The first language's name, or "" when there is none. */
  function LanguageName(etym: Etymology): string {
    if |etym.languages| > 0 then etym.languages[0].name else ""
  }

  /** The romanized form, else the original form. */
  function WordForm(etym: Etymology): string {
    if etym.romanizedText != [] then etym.romanizedText else etym.originalText
  }

  /** The quoted definition, or "" when it is empty or "a.a.". */
  function QuotedDefinition(etym: Etymology): string {
    if etym.definition != [] && etym.definition != SameMeaning then "\"" + etym.definition + "\"" else ""
  }

  function RelationText(etym: Etymology): string {
    if etym.relation.Some? then etym.relation.value.text else ""
  }

  /** `piece + " "` when `piece` is non-empty, else nothing. */
  function Piece(piece: string): (r: string)
    ensures piece == [] ==> r == []
    ensures piece != [] ==> |r| == |piece| + 1 && r[..|piece|] == piece && r[|piece|] == ' '
  {
    if piece != [] then piece + " " else []
  }

  /** The sentence part of one etymology: the language in a span, the word in
      bold, the quoted definition and the relation text, each followed by a
      space and each left out when empty. */
  function Part(etym: Etymology): string {
    var lang := LanguageName(etym);
    Piece(if lang != [] then "<span class=\"etym-lang\">" + lang + "</span>" else [])
      + Piece(if WordForm(etym) != [] then "<b>" + WordForm(etym) + "</b>" else [])
      + Piece(QuotedDefinition(etym))
      + Piece(RelationText(etym))
  }

  /** `construction` after the `forEach` over `etymologies`: the parts in order. */
  function Construction(etymologies: seq<Etymology>): string {
    ConcatMap(Part, etymologies)
  }

  /** `construction.replace(/\s+/g, " ").trim()` */
  function MainText(construction: string): (r: string)
    ensures Trimmed(r)
  {
    Trim(CollapseSpaces(construction))
  }

  /** What the Nişanyan tab shows: a "no data" message, or the sentence of the
      first word with its note (shown when non-empty). */
  datatype View = NoData | Entry(mainText: string, note: string)

  function NisanyanView(data: NisanyanData): (v: View)
    ensures v.NoData? <==> data.words == []
    ensures v.Entry? ==> Trimmed(v.mainText) && v.note == data.words[0].note
  {
    if data.words == [] then NoData
    else Entry(MainText(Construction(data.words[0].etymologies)), data.words[0].note)
  }

  /** `renderNisanyan`, with the `forEach` that accumulates `construction`. */
  method RenderNisanyan(data: NisanyanData) returns (view: View)
    ensures view == NisanyanView(data)
  {
    if |data.words| == 0 {
      return NoData;
    }
    var wordData := data.words[0];
    var etymologies := wordData.etymologies;
    var construction := "";
    for index := 0 to |etymologies|
      invariant construction == Construction(etymologies[..index])
    {
      assert etymologies[..index + 1][..index] == etymologies[..index];
      construction := construction + Part(etymologies[index]);
    }
    assert etymologies[..|etymologies|] == etymologies;
    var mainText := Trim(CollapseSpaces(construction));
    view := Entry(mainText, wordData.note);
  }

  // ---------------------------------------------------------------------------
  // Properties of the sentence

  /** One part per etymology, in array order: the construction of a
      concatenation is the concatenation of the constructions. */
  lemma ConstructionAppend(a: seq<Etymology>, b: seq<Etymology>)
    ensures Construction(a + b) == Construction(a) + Construction(b)
  {
    ConcatMapAppend(Part, a, b);
  }

  lemma ConstructionSingle(etym: Etymology)
    ensures Construction([etym]) == Part(etym)
  {
    assert [etym][..0] == [];
    assert ConcatMap(Part, [etym]) == ConcatMap(Part, []) + Part(etym);
  }

  /** Only the first language's name is used. */
  lemma FirstLanguageOnly(etym: Etymology, first: Language, others: seq<Language>)
    ensures Part(etym.(languages := [first] + others)) == Part(etym.(languages := [first]))
  {
  }

  /** A definition "a.a." is dropped, exactly as an empty one is. */
  lemma SameMeaningDropped(etym: Etymology)
    ensures Part(etym.(definition := SameMeaning)) == Part(etym.(definition := []))
  {
  }

  /** A part is empty exactly when the etymology has no language name, no word
      form, no definition other than "a.a." and no relation text; otherwise it
      ends with a space. */
  lemma PartEmpty(etym: Etymology)
    ensures Part(etym) == [] <==>
      LanguageName(etym) == [] && WordForm(etym) == [] && QuotedDefinition(etym) == [] && RelationText(etym) == []
    ensures Part(etym) != [] ==> Part(etym)[|Part(etym)| - 1] == ' '
  {
    var lang := LanguageName(etym);
    var p1 := Piece(if lang != [] then "<span class=\"etym-lang\">" + lang + "</span>" else []);
    var p2 := Piece(if WordForm(etym) != [] then "<b>" + WordForm(etym) + "</b>" else []);
    var p3 := Piece(QuotedDefinition(etym));
    var p4 := Piece(RelationText(etym));
    assert Part(etym) == p1 + p2 + p3 + p4;
  }

  /** Only `words[0]` is rendered. */
  lemma FirstWordOnly(first: Word, others: seq<Word>)
    ensures NisanyanView(NisanyanData([first] + others)) == NisanyanView(NisanyanData([first]))
  {
  }

  /** No etymologies give an empty sentence. */
  lemma NoEtymologiesEmpty(w: Word)
    requires w.etymologies == []
    ensures NisanyanView(NisanyanData([w])) == Entry([], w.note)
  {
    assert CollapseSpaces([]) == [];
  }

  /** The sentence keeps every non-space character of the construction, has no
      white space other than single spaces between words, and is trimmed. */
  lemma MainTextShape(construction: string)
    ensures var r := MainText(construction);
      && NonSpace(r) == NonSpace(construction)
      && Trimmed(r)
      && (forall i :: 0 <= i < |r| && IsSpace(r[i]) ==> r[i] == ' ')
      && (forall i, j :: 0 <= i && j == i + 1 && j < |r| ==> !(IsSpace(r[i]) && IsSpace(r[j])))
  {
    var c := CollapseSpaces(construction);
    CollapseShape(construction);
    var r := Trim(c);
    TrimKeepsText(c);
    var d := TrimInside(c);
    forall i | 0 <= i < |r| && IsSpace(r[i])
      ensures r[i] == ' '
    {
      assert r[i] == c[d + i];
    }
    forall i, j | 0 <= i && j == i + 1 && j < |r|
      ensures !(IsSpace(r[i]) && IsSpace(r[j]))
    {
      assert r[i] == c[d + i] && r[j] == c[d + j];
    }
  }

  /** Two words with any white-space run between them read as the two words
      joined by exactly one space: nothing of either word is lost. */
  lemma MainTextWords(x: string, w: string, y: string)
    requires x != [] && forall i :: 0 <= i < |x| ==> !IsSpace(x[i])
    requires w != [] && forall i :: 0 <= i < |w| ==> IsSpace(w[i])
    requires y != [] && forall i :: 0 <= i < |y| ==> !IsSpace(y[i])
    ensures MainText(x + w + y) == x + " " + y
  {
    var r := x + " " + y;
    assert CollapseSpaces(x + w + y) == r by {
      CollapseRun(x, w, y);
      CollapseNoSpace(x);
      CollapseNoSpace(y);
    }
    assert Trim(r) == r by {
      assert r[0] == x[0] && r[|r| - 1] == y[|y| - 1];
      TrimNoop(r);
    }
  }

  /** A single word, whatever white space surrounds it, is shown as itself. */
  lemma MainTextWord(u: string, x: string, v: string)
    requires forall i :: 0 <= i < |u| ==> IsSpace(u[i])
    requires x != [] && forall i :: 0 <= i < |x| ==> !IsSpace(x[i])
    requires forall i :: 0 <= i < |v| ==> IsSpace(v[i])
    ensures MainText(u + x + v) == x
  {
    CollapsePadded(u, x, v);
    PadIsSpace(u);
    PadIsSpace(v);
    TrimPadded(Pad(u), x, Pad(v));
  }

  // ---------------------------------------------------------------------------
  // Ambience colour

  /** `languageAmbience`: the colour for each origin-language abbreviation. */
  const LanguageAmbience: map<string, string> := map[
    "Ar" := "rgba(212, 165, 116, 0.11)",
    "İbr" := "rgba(212, 165, 116, 0.11)",
    "Far" := "rgba(205, 133, 133, 0.11)",
    "Hin" := "rgba(205, 133, 133, 0.11)",
    "Fr" := "rgba(200, 162, 200, 0.11)",
    "İt" := "rgba(168, 213, 186, 0.11)",
    "İsp" := "rgba(200, 162, 200, 0.11)",
    "Lat" := "rgba(200, 162, 200, 0.11)",
    "Por" := "rgba(200, 162, 200, 0.11)",
    "Yun" := "rgba(135, 206, 235, 0.11)",
    "EYun" := "rgba(135, 206, 235, 0.11)",
    "ETr" := "rgba(64, 224, 208, 0.11)",
    "ETr-O" := "rgba(64, 224, 208, 0.11)",
    "TTr" := "rgba(64, 224, 208, 0.11)",
    "OTr" := "rgba(64, 224, 208, 0.11)",
    "İng" := "rgba(176, 196, 222, 0.11)",
    "Alm" := "rgba(176, 196, 222, 0.11)",
    "Rus" := "rgba(186, 176, 222, 0.11)",
    "default" := DefaultAmbience
  ]

  const DefaultAmbience := "rgba(184, 134, 11, 0.10)"

  /** `words[0].etymologies[0].languages[0].abbreviation`, when all exist. */
  function OriginAbbreviation(data: Option<NisanyanData>): Option<string> {
    if data.Some? && |data.value.words| > 0 && |data.value.words[0].etymologies| > 0
      && |data.value.words[0].etymologies[0].languages| > 0
    then Some(data.value.words[0].etymologies[0].languages[0].abbreviation)
    else None
  }

  /** `getOriginLanguageColor`: always a colour of the table; the origin
      language's own colour when the table has it, the default otherwise. */
  function OriginLanguageColor(data: Option<NisanyanData>): (color: string)
    ensures color in LanguageAmbience.Values
    ensures OriginAbbreviation(data).Some? && OriginAbbreviation(data).value in LanguageAmbience
      ==> color == LanguageAmbience[OriginAbbreviation(data).value]
    ensures OriginAbbreviation(data).None? || OriginAbbreviation(data).value !in LanguageAmbience
      ==> color == DefaultAmbience
  {
    assert LanguageAmbience["default"] == DefaultAmbience;
    var abbreviation := OriginAbbreviation(data);
    if abbreviation.None? then LanguageAmbience["default"]
    else if abbreviation.value in LanguageAmbience then LanguageAmbience[abbreviation.value]
    else LanguageAmbience["default"]
  }

  /** The colour depends on nothing but the first word's first etymology's
      first language: later words, etymologies and languages do not matter. */
  lemma ColorFromFirstLanguageOnly(data: NisanyanData, w: Word, e: Etymology, l: Language)
    requires |data.words| > 0 && |data.words[0].etymologies| > 0
    requires |data.words[0].etymologies[0].languages| > 0
    requires data.words[0].etymologies[0].languages[0] == l
    ensures OriginLanguageColor(Some(data))
      == OriginLanguageColor(Some(NisanyanData([Word([Etymology([l], "", "", "", None)], "")])))
  {
  }
}

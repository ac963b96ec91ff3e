/** The caption logic of the meme route: cleaning the generated text, choosing
    the language, and laying the caption out on the 1024 x 1024 canvas. */
module Server {
  import opened JsString
  import opened Canvas
  import opened FontSize
  import opened Wrap

  datatype Option<T> = None | Some(value: T)

  /** `text.replace(/^"|"$/g, "")`: the global regular expression matches a
      quote at the very start and a quote at the very end, so at most one
      quote goes from each end; a lone `"` is matched once, as the leading one. */
  function StripQuotes(s: string): string {
    s[QuoteStart(s)..QuoteEnd(s)]
  }

  /** Where the text left by `StripQuotes` starts ... */
  function QuoteStart(s: string): nat {
    if |s| > 0 && s[0] == '"' then 1 else 0
  }

  /** ... and where it ends. */
  function QuoteEnd(s: string): (hi: nat)
    ensures QuoteStart(s) <= hi <= |s|
  {
    if |s| > QuoteStart(s) && s[|s| - 1] == '"' then |s| - 1 else |s|
  }

  /** `cleanText`: one surrounding quote at each end removed, then the
      result trimmed. It is a contiguous piece of the input with no
      whitespace at either end. */
  function CleanText(text: string): (r: string)
    ensures NoOuterWhitespace(r)
    ensures exists i :: OccursAt(text, r, i)
  {
    var core := StripQuotes(text);
    var r := Trim(core);
    OccursInSlice(text, QuoteStart(text), QuoteEnd(text), r, TrimIndex(core));
    r
  }

  /** What `cleanText` does by the quotes at the two ends of its input: at
      most one goes from each end, a lone `"` counting as a leading one, and
      what is left is trimmed. */
  lemma CleanTextCases(s: string)
    ensures (s == [] || (s[0] != '"' && s[|s| - 1] != '"')) ==> CleanText(s) == Trim(s)
    ensures |s| >= 1 && s[0] == '"' && (|s| == 1 || s[|s| - 1] != '"') ==> CleanText(s) == Trim(s[1..])
    ensures |s| >= 1 && s[0] != '"' && s[|s| - 1] == '"' ==> CleanText(s) == Trim(s[..|s| - 1])
    ensures |s| >= 2 && s[0] == '"' && s[|s| - 1] == '"' ==> CleanText(s) == Trim(s[1..|s| - 1])
  {
    if s == [] || (s[0] != '"' && s[|s| - 1] != '"') {
      assert StripQuotes(s) == s[0..|s|] == s;
    } else if s[0] == '"' && (|s| == 1 || s[|s| - 1] != '"') {
      assert StripQuotes(s) == s[1..|s|] == s[1..];
    } else if s[0] != '"' {
      assert StripQuotes(s) == s[0..|s| - 1] == s[..|s| - 1];
    }
  }

  /** A caption in quotes loses exactly those quotes, whatever it holds,
      even quotes of its own at either end. */
  lemma CleanTextUnquotes(m: string)
    ensures StripQuotes("\"" + m + "\"") == m
    ensures CleanText("\"" + m + "\"") == Trim(m)
  {
    var s := "\"" + m + "\"";
    assert s[0] == '"' && s[|s| - 1] == '"';
    assert s[1..|s| - 1] == m;
  }

  /** Quotes are stripped before trimming, so quotes inside surrounding
      whitespace stay. */
  lemma CleanTextKeepsInnerQuotes(m: string)
    ensures CleanText(" \"" + m + "\" ") == "\"" + m + "\""
  {
    var s := " \"" + m + "\" ";
    var q := "\"" + m + "\"";
    assert s[0] == ' ' && s[|s| - 1] == ' ';
    assert StripQuotes(s) == s;
    assert s[1..1 + |q|] == q;
    TrimUnique(s, q, 1);
  }

  /** Text that neither starts nor ends with a quote or whitespace is already clean. */
  lemma CleanTextOfCleanText(s: string)
    requires NoOuterWhitespace(s) && (s == [] || (s[0] != '"' && s[|s| - 1] != '"'))
    ensures CleanText(s) == s
  {
    assert StripQuotes(s) == s[0..|s|] == s;
    assert s[0..0 + |s|] == s;
    TrimUnique(s, s, 0);
  }

  /** The caption used when the model returns no usable text. */
  const DefaultCaption := "When you realize it's Monday..."

  /** `cleanText(content || "When you realize it's Monday...")`: missing or
      empty content falls back to the default caption, which cleaning leaves
      as it is; any other content is cleaned. */
  function MemeText(content: Option<string>): (text: string)
    ensures NoOuterWhitespace(text)
    ensures content.Some? && content.value != "" ==> text == CleanText(content.value)
    ensures content == None || content == Some("") ==> text == DefaultCaption
  {
    var raw := if content.Some? && content.value != "" then content.value else DefaultCaption;
    CleanTextOfCleanText(DefaultCaption);
    CleanText(raw)
  }

  /** The language codes the route understands and the language each names. */
  const Languages: map<string, string> := map[
    "en" := "English", "fr" := "French", "es" := "Spanish", "de" := "German",
    "th" := "Thai", "jp" := "Japanese", "cn" := "Chinese", "it" := "Italian",
    "nl" := "Dutch", "pl" := "Polish", "pt" := "Portuguese", "ro" := "Romanian",
    "ru" := "Russian", "tr" := "Turkish", "ar" := "Arabic", "vi" := "Vietnamese",
    "id" := "Indonesian", "ms" := "Malay", "hi" := "Hindi", "bn" := "Bengali",
    "ta" := "Tamil", "te" := "Telugu"]

  /** `languageMap[lang] || "English"`: the language a known code names, and
      English for any other code; the result is always a supported language. */
  function LanguageName(lang: string): (name: string)
    ensures name in Languages.Values
    ensures lang in Languages ==> name == Languages[lang]
    ensures lang !in Languages ==> name == "English"
  {
    if lang in Languages then Languages[lang]
    else
      assert Languages["en"] == "English";
      "English"
  }

  /** Where the caption goes: centred on x = 512, first line at y = 80, and
      each next line `fontSize + 10` lower. */
  const CenterX := 512
  const FirstLineY := 80
  const LineGap := 10

  /** The draw calls of the `forEach` over `lines`, the first of them being
      line number `index`: each line stroked, then filled, at its place. */
  function PlaceLines(lines: seq<string>, lineSpacing: int, index: nat): seq<Draw>
    decreases |lines|
  {
    if lines == [] then []
    else
      var y := FirstLineY + index * lineSpacing;
      [Stroke(lines[0], CenterX, y), Fill(lines[0], CenterX, y)] + PlaceLines(lines[1..], lineSpacing, index + 1)
  }

  /** The draw calls that place the wrapped lines of a caption set at `fontSize`. */
  function Placement(lines: seq<string>, fontSize: int): seq<Draw> {
    PlaceLines(lines, fontSize + LineGap, 0)
  }

  lemma {:induction false} PlaceLinesAt(lines: seq<string>, lineSpacing: int, index: nat)
    ensures var ds := PlaceLines(lines, lineSpacing, index);
            |ds| == 2 * |lines|
            && forall i :: 0 <= i < |lines| ==>
                 ds[2 * i] == Stroke(lines[i], CenterX, FirstLineY + (index + i) * lineSpacing)
                 && ds[2 * i + 1] == Fill(lines[i], CenterX, FirstLineY + (index + i) * lineSpacing)
    decreases |lines|
  {
    if lines != [] {
      PlaceLinesAt(lines[1..], lineSpacing, index + 1);
      var ds := PlaceLines(lines, lineSpacing, index);
      var rest := PlaceLines(lines[1..], lineSpacing, index + 1);
      forall i | 1 <= i < |lines|
        ensures ds[2 * i] == Stroke(lines[i], CenterX, FirstLineY + (index + i) * lineSpacing)
        ensures ds[2 * i + 1] == Fill(lines[i], CenterX, FirstLineY + (index + i) * lineSpacing)
      {
        assert ds[2 * i] == rest[2 * (i - 1)] && ds[2 * i + 1] == rest[2 * (i - 1) + 1];
        assert lines[1..][i - 1] == lines[i];
        assert index + 1 + (i - 1) == index + i;
      }
    }
  }

  /** Two draw calls per line, in line order: line `i` is stroked and then
      immediately filled, both at (512, 80 + i * (fontSize + 10)). */
  lemma PlacementOrder(lines: seq<string>, fontSize: int)
    ensures var ds := Placement(lines, fontSize);
            |ds| == 2 * |lines|
            && forall i :: 0 <= i < |lines| ==>
                 ds[2 * i] == Stroke(lines[i], CenterX, FirstLineY + i * (fontSize + LineGap))
                 && ds[2 * i + 1] == Fill(lines[i], CenterX, FirstLineY + i * (fontSize + LineGap))
  {
    PlaceLinesAt(lines, fontSize + LineGap, 0);
  }

  /** Consecutive lines are `fontSize + 10` apart, the first at y = 80, so
      for any font size above -10 the lines go strictly down the canvas. */
  lemma PlacementSpacing(lines: seq<string>, fontSize: int)
    ensures var ds := Placement(lines, fontSize);
            |lines| > 0 ==> ds[0].y == FirstLineY
    ensures var ds := Placement(lines, fontSize);
            |ds| == 2 * |lines|
            && forall i, j :: 0 <= i < j < |lines| ==>
                 ds[2 * j].y - ds[2 * i].y == (j - i) * (fontSize + LineGap)
                 && (fontSize > -LineGap ==> ds[2 * i].y < ds[2 * j].y)
  {
    PlacementOrder(lines, fontSize);
    var ds := Placement(lines, fontSize);
    var gap := fontSize + LineGap;
    forall i, j | 0 <= i < j < |lines|
      ensures ds[2 * j].y - ds[2 * i].y == (j - i) * gap
      ensures gap > 0 ==> ds[2 * i].y < ds[2 * j].y
    {
      assert ds[2 * j].y == FirstLineY + j * gap;
      assert ds[2 * i].y == FirstLineY + i * gap;
      RowDistance(i, j, gap);
    }
  }

  lemma {:induction false} RowDistance(i: int, j: int, gap: int)
    requires i < j
    ensures j * gap - i * gap == (j - i) * gap
    ensures gap > 0 ==> i * gap < j * gap
    decreases j - i
  {
    assert j * gap == (j - 1) * gap + gap;
    assert (j - i) * gap == (j - 1 - i) * gap + gap;
    if i < j - 1 {
      RowDistance(i, j - 1, gap);
    }
  }

  /** The widest a caption may be, and the size the search starts from. */
  const CaptionWidth := 900
  const MaxFontSize := 80

  /** The font size the route picks for a caption: an even size from 30 to
      80. When even 32 is too wide, the route uses 30 without ever having
      measured the caption at 30. */
  lemma CaptionFontSize(measure: (int, string) -> nat, text: string)
    ensures var o := Search(measure, text, CaptionWidth, MaxFontSize);
            Floor <= o.size <= MaxFontSize && o.size % 2 == 0
            && (o.Exhausted? ==> o.size == Floor && !Probed(MaxFontSize, Floor))
  {
    SearchBounds(measure, text, CaptionWidth, MaxFontSize);
    SearchExhausted(measure, text, CaptionWidth, MaxFontSize);
  }

  /** Lines 147-159 of the route: choose the size by measuring the caption as
      it is, set the font to that size, wrap the UPPER-CASED caption under
      it, and place the lines. `upper` stands for `toUpperCase`. */
  method DrawCaption(ctx: Context, memeText: string, upper: string -> string) returns (draws: seq<Draw>)
    modifies ctx
    ensures var size := Search(ctx.measure, memeText, CaptionWidth, MaxFontSize).size;
            ctx.font == size
            && draws == Placement(LinesOf(Groups(ctx.measure, size, CaptionWidth, upper(memeText))), size)
    ensures Floor <= ctx.font <= MaxFontSize && ctx.font % 2 == 0
    ensures |draws| >= 2 && draws[0].Stroke? && draws[1].Fill? && draws[0].y == FirstLineY
  {
    var fontSize := AdjustFontSize(ctx, memeText, CaptionWidth, MaxFontSize);
    ctx.font := fontSize;
    var wrapped := WrapText(ctx, upper(memeText), CaptionWidth);
    draws := Placement(wrapped, fontSize);
    CaptionFontSize(ctx.measure, memeText);
    PlacementOrder(wrapped, fontSize);
  }
}

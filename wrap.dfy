/** `wrapText`: greedy word wrapping of a caption, measured under the
    context's current font.

    The caption is cut with `split(" ")` into words (two spaces in a row give
    an empty word), and each word followed by one space is a token. The loop
    appends tokens to the current line, and starts a new line with the token
    instead when the line is non-empty and would then measure more than
    `maxWidth`. A wrapping is modelled as the list of token groups, one group
    per line; every line but the last is its group's concatenation, and the
    last is that concatenation trimmed. */
module Wrap {
  import opened JsString
  import opened Canvas

  /** Each word followed by the one space the loop appends to it. */
  function Tokens(words: seq<string>): seq<string> {
    seq(|words|, i requires 0 <= i < |words| => words[i] + " ")
  }

  /** The tokens of `text.split(" ")`. */
  function CaptionTokens(text: string): seq<string> {
    Tokens(Split(text, ' '))
  }

  /** The list of groups, concatenated. */
  function Flatten(gs: seq<seq<string>>): seq<string>
    decreases |gs|
  {
    if gs == [] then [] else gs[0] + Flatten(gs[1..])
  }

  /** Each group's concatenation: the text of the line it makes. */
  function ConcatEach(gs: seq<seq<string>>): seq<string> {
    seq(|gs|, i requires 0 <= i < |gs| => Concat(gs[i]))
  }

  /** The lines a grouping makes: the last one trimmed, the others as they are. */
  function LinesOf(gs: seq<seq<string>>): seq<string>
    requires gs != []
  {
    ConcatEach(gs[..|gs| - 1]) + [Trim(Concat(gs[|gs| - 1]))]
  }

  /** The greedy loop, from the lines already closed (`done`) and the tokens
      on the current line (`cur`), over the tokens still to come. */
  function Greedy(measure: (int, string) -> nat, font: int, maxWidth: int,
                  done: seq<seq<string>>, cur: seq<string>, ts: seq<string>): (gs: seq<seq<string>>)
    ensures |gs| > |done| && gs[..|done|] == done
    decreases |ts|
  {
    if ts == [] then
      done + [cur]
    else if measure(font, Concat(cur) + ts[0]) > maxWidth && |Concat(cur)| > 0 then
      Greedy(measure, font, maxWidth, done + [cur], [ts[0]], ts[1..])
    else
      Greedy(measure, font, maxWidth, done, cur + [ts[0]], ts[1..])
  }

  /** The groups `wrapText` makes of `text` at size `font`. */
  function Groups(measure: (int, string) -> nat, font: int, maxWidth: int, text: string): (gs: seq<seq<string>>)
    ensures gs != []
  {
    Greedy(measure, font, maxWidth, [], [], CaptionTokens(text))
  }

  /** Every prefix of two or more tokens of `g` measures within `maxWidth`:
      each token after the first was added because the line still fit. */
  predicate PrefixesFit(measure: (int, string) -> nat, font: int, maxWidth: int, g: seq<string>) {
    forall k :: 2 <= k <= |g| ==> measure(font, Concat(g[..k])) <= maxWidth
  }

  /** Line `i` could not have taken the first token of line `i + 1`. */
  predicate ForcedBreak(measure: (int, string) -> nat, font: int, maxWidth: int, gs: seq<seq<string>>, i: int)
    requires 0 <= i < |gs| - 1
  {
    gs[i + 1] != [] && measure(font, Concat(gs[i]) + gs[i + 1][0]) > maxWidth
  }

  /** Every line break is forced. */
  predicate Maximal(measure: (int, string) -> nat, font: int, maxWidth: int, gs: seq<seq<string>>) {
    forall i :: 0 <= i < |gs| - 1 ==> ForcedBreak(measure, font, maxWidth, gs, i)
  }

  /** A greedy wrapping of `ts`: the groups partition the tokens in order,
      none is empty, within each one every longer prefix fits, and each break
      is forced. */
  predicate WellGrouped(measure: (int, string) -> nat, font: int, maxWidth: int,
                        gs: seq<seq<string>>, ts: seq<string>) {
    Flatten(gs) == ts
    && (forall i :: 0 <= i < |gs| ==> gs[i] != [] && PrefixesFit(measure, font, maxWidth, gs[i]))
    && Maximal(measure, font, maxWidth, gs)
  }

  predicate NonEmptyTokens(ts: seq<string>) {
    forall i :: 0 <= i < |ts| ==> ts[i] != ""
  }

  lemma {:induction false} FlattenAppend(gs: seq<seq<string>>, g: seq<string>)
    ensures Flatten(gs + [g]) == Flatten(gs) + g
    decreases |gs|
  {
    if gs == [] {
      assert [] + [g] == [g];
    } else {
      assert (gs + [g])[1..] == gs[1..] + [g];
      FlattenAppend(gs[1..], g);
    }
  }

  /** The tokens of a caption, concatenated, are the caption followed by one space. */
  lemma {:induction false} TokensConcat(words: seq<string>)
    requires |words| >= 1
    ensures Concat(Tokens(words)) == Join(words, ' ') + " "
    decreases |words|
  {
    var ts := Tokens(words);
    if |words| > 1 {
      assert ts[1..] == Tokens(words[1..]);
      TokensConcat(words[1..]);
    }
  }

  /** A caption always has at least one token, none of them empty, and
      together they spell the caption followed by one space. */
  lemma CaptionTokensSpell(text: string)
    ensures |CaptionTokens(text)| >= 1 && NonEmptyTokens(CaptionTokens(text))
    ensures Concat(CaptionTokens(text)) == text + " "
  {
    TokensConcat(Split(text, ' '));
    JoinSplit(text, ' ');
  }

  /** What holds of the loop's state after every token: the lines closed so
      far and the current line are non-empty, fit at every token they took,
      and their breaks were forced. */
  predicate Partial(measure: (int, string) -> nat, font: int, maxWidth: int,
                    done: seq<seq<string>>, cur: seq<string>) {
    cur != [] && cur[0] != "" && PrefixesFit(measure, font, maxWidth, cur)
    && (forall i :: 0 <= i < |done| ==> done[i] != [] && PrefixesFit(measure, font, maxWidth, done[i]))
    && Maximal(measure, font, maxWidth, done + [cur])
  }

  /** Closing the current line because the next token does not fit keeps the state partial. */
  lemma CloseKeepsPartial(measure: (int, string) -> nat, font: int, maxWidth: int,
                          done: seq<seq<string>>, cur: seq<string>, t: string)
    requires Partial(measure, font, maxWidth, done, cur) && t != ""
    requires measure(font, Concat(cur) + t) > maxWidth
    ensures Partial(measure, font, maxWidth, done + [cur], [t])
  {
    var gs := done + [cur] + [[t]];
    forall i | 0 <= i < |gs| - 1 ensures ForcedBreak(measure, font, maxWidth, gs, i) {
      if i < |done| {
        assert gs[i] == (done + [cur])[i] && gs[i + 1] == (done + [cur])[i + 1];
        assert ForcedBreak(measure, font, maxWidth, done + [cur], i);
      }
    }
    var d := done + [cur];
    forall i | 0 <= i < |d| ensures d[i] != [] && PrefixesFit(measure, font, maxWidth, d[i]) {
      if i < |done| { assert d[i] == done[i]; }
    }
  }

  /** Appending a token that still fits to the current line keeps the state partial. */
  lemma ExtendKeepsPartial(measure: (int, string) -> nat, font: int, maxWidth: int,
                           done: seq<seq<string>>, cur: seq<string>, t: string)
    requires Partial(measure, font, maxWidth, done, cur)
    requires measure(font, Concat(cur) + t) <= maxWidth
    ensures Partial(measure, font, maxWidth, done, cur + [t])
  {
    var c := cur + [t];
    ConcatAppend(cur, t);
    forall k | 2 <= k <= |c| ensures measure(font, Concat(c[..k])) <= maxWidth {
      if k <= |cur| {
        assert c[..k] == cur[..k];
      } else {
        assert c[..k] == c;
      }
    }
    var gs := done + [c];
    forall i | 0 <= i < |gs| - 1 ensures ForcedBreak(measure, font, maxWidth, gs, i) {
      assert gs[i] == (done + [cur])[i];
      assert gs[i + 1][0] == (done + [cur])[i + 1][0];
      assert ForcedBreak(measure, font, maxWidth, done + [cur], i);
    }
  }

  /** The greedy loop keeps a grouping well-formed: whatever it closes and
      extends stays a greedy wrapping of the tokens seen so far. */
  lemma {:induction false} GreedyWellGrouped(measure: (int, string) -> nat, font: int, maxWidth: int,
                                             done: seq<seq<string>>, cur: seq<string>, ts: seq<string>)
    requires Partial(measure, font, maxWidth, done, cur) && NonEmptyTokens(ts)
    ensures WellGrouped(measure, font, maxWidth, Greedy(measure, font, maxWidth, done, cur, ts), Flatten(done) + cur + ts)
    decreases |ts|
  {
    ConcatNonEmpty(cur);
    if ts == [] {
      FlattenAppend(done, cur);
    } else {
      var t := ts[0];
      assert ts == [t] + ts[1..];
      if measure(font, Concat(cur) + t) > maxWidth {
        CloseKeepsPartial(measure, font, maxWidth, done, cur, t);
        GreedyWellGrouped(measure, font, maxWidth, done + [cur], [t], ts[1..]);
        FlattenAppend(done, cur);
      } else {
        ExtendKeepsPartial(measure, font, maxWidth, done, cur, t);
        GreedyWellGrouped(measure, font, maxWidth, done, cur + [t], ts[1..]);
      }
    }
  }

  /** `wrapText` produces a greedy wrapping of the caption's tokens: they are
      partitioned, in order, across the lines; no line is empty; every line
      of two or more tokens, trailing space included, measures within
      `maxWidth` at every token it took; and each line break happened because
      the next token would not fit. */
  lemma GroupsWellGrouped(measure: (int, string) -> nat, font: int, maxWidth: int, text: string)
    ensures WellGrouped(measure, font, maxWidth, Groups(measure, font, maxWidth, text), CaptionTokens(text))
  {
    var ts := CaptionTokens(text);
    CaptionTokensSpell(text);
    assert Concat([]) == "" && [] + [ts[0]] == [ts[0]];
    assert Groups(measure, font, maxWidth, text) == Greedy(measure, font, maxWidth, [], [ts[0]], ts[1..]);
    assert [] + [[ts[0]]] == [[ts[0]]];
    GreedyWellGrouped(measure, font, maxWidth, [], [ts[0]], ts[1..]);
    assert [ts[0]] + ts[1..] == ts;
  }

  lemma FlattenOfNonEmptyGroups(gs: seq<seq<string>>)
    requires forall i :: 0 <= i < |gs| ==> gs[i] != []
    ensures gs != [] ==> |Flatten(gs)| >= |gs[0]| > 0 && Flatten(gs)[0] == gs[0][0]
    ensures gs == [] <==> Flatten(gs) == []
  {
  }

  /** The greedy loop is the ONLY way to make a greedy wrapping: any grouping
      of the remaining tokens that starts by extending `cur` and is
      well-formed is what the loop produces. */
  lemma {:induction false} GreedyUnique(measure: (int, string) -> nat, font: int, maxWidth: int,
                                        done: seq<seq<string>>, cur: seq<string>, rest: seq<string>,
                                        gs: seq<seq<string>>)
    requires cur != [] && cur[0] != "" && NonEmptyTokens(rest)
    requires gs != [] && |cur| <= |gs[0]| && gs[0][..|cur|] == cur
    requires WellGrouped(measure, font, maxWidth, gs, cur + rest)
    ensures Greedy(measure, font, maxWidth, done, cur, rest) == done + gs
    decreases |rest|
  {
    ConcatNonEmpty(cur);
    var tail := gs[1..];
    assert forall i :: 0 <= i < |tail| ==> tail[i] == gs[i + 1];
    FlattenOfNonEmptyGroups(tail);
    assert gs[0] + Flatten(tail) == cur + rest;
    if rest == [] {
      assert gs[0] == cur;
      assert gs == [cur];
    } else {
      var t := rest[0];
      if |gs[0]| > |cur| {
        var c := cur + [t];
        assert gs[0][|cur|] == (cur + rest)[|cur|] == t;
        assert gs[0][..|cur| + 1] == c;
        ConcatAppend(cur, t);
        assert (cur + rest) == c + rest[1..];
        GreedyUnique(measure, font, maxWidth, done, c, rest[1..], gs);
      } else {
        assert gs[0] == gs[0][..|cur|] == cur;
        assert (cur + rest)[|cur|..] == rest;
        assert Flatten(tail) == rest;
        assert tail != [] && tail[0][0] == t;
        assert ForcedBreak(measure, font, maxWidth, gs, 0);
        assert tail[0][..1] == [t];
        forall i | 0 <= i < |tail| - 1 ensures ForcedBreak(measure, font, maxWidth, tail, i) {
          assert tail[i] == gs[i + 1] && tail[i + 1] == gs[i + 2];
          assert ForcedBreak(measure, font, maxWidth, gs, i + 1);
        }
        assert [t] + rest[1..] == rest;
        GreedyUnique(measure, font, maxWidth, done + [cur], [t], rest[1..], tail);
        assert done + [cur] + tail == done + gs;
      }
    }
  }

  /** A greedy wrapping of a caption's tokens is unique: it is exactly the
      one `wrapText` makes. */
  lemma GroupsUnique(measure: (int, string) -> nat, font: int, maxWidth: int, text: string, gs: seq<seq<string>>)
    requires WellGrouped(measure, font, maxWidth, gs, CaptionTokens(text))
    ensures gs == Groups(measure, font, maxWidth, text)
  {
    var ts := CaptionTokens(text);
    CaptionTokensSpell(text);
    FlattenOfNonEmptyGroups(gs);
    assert Concat([]) == "" && [] + [ts[0]] == [ts[0]];
    assert Groups(measure, font, maxWidth, text) == Greedy(measure, font, maxWidth, [], [ts[0]], ts[1..]);
    assert [ts[0]] + ts[1..] == ts;
    GreedyUnique(measure, font, maxWidth, [], [ts[0]], ts[1..], gs);
  }

  /** Every line, the last one taken before trimming, is a single token or
      measures within `maxWidth`, trailing space included. */
  lemma GroupsFit(measure: (int, string) -> nat, font: int, maxWidth: int, text: string)
    ensures var gs := Groups(measure, font, maxWidth, text);
            forall i :: 0 <= i < |gs| ==> |gs[i]| == 1 || measure(font, Concat(gs[i])) <= maxWidth
  {
    var gs := Groups(measure, font, maxWidth, text);
    GroupsWellGrouped(measure, font, maxWidth, text);
    forall i | 0 <= i < |gs| && |gs[i]| != 1 ensures measure(font, Concat(gs[i])) <= maxWidth {
      assert gs[i][..|gs[i]|] == gs[i];
    }
  }

  /** The lines of a wrapping: at least one; each line but the last is its
      group's tokens concatenated, so it is non-empty and keeps its trailing
      space; the last is its group trimmed; and the lines before the last,
      followed by the last one untrimmed, spell the caption and one space. */
  lemma LinesShape(measure: (int, string) -> nat, font: int, maxWidth: int, text: string)
    ensures var gs := Groups(measure, font, maxWidth, text);
            var lines := LinesOf(gs);
            |lines| == |gs| >= 1
            && (forall i :: 0 <= i < |lines| - 1 ==>
                  lines[i] == Concat(gs[i]) && EndsInSpace(lines[i]))
            && lines[|lines| - 1] == Trim(Concat(gs[|gs| - 1]))
            && Concat(lines[..|lines| - 1]) + Concat(gs[|gs| - 1]) == text + " "
  {
    var gs := Groups(measure, font, maxWidth, text);
    GroupsWellGrouped(measure, font, maxWidth, text);
    LinesOfPartition(gs, text);
  }

  /** The shape of the lines made of any partition of a caption's tokens into non-empty groups. */
  lemma LinesOfPartition(gs: seq<seq<string>>, text: string)
    requires gs != [] && Flatten(gs) == CaptionTokens(text)
    requires forall i :: 0 <= i < |gs| ==> gs[i] != []
    ensures var lines := LinesOf(gs);
            |lines| == |gs|
            && (forall i :: 0 <= i < |lines| - 1 ==>
                  lines[i] == Concat(gs[i]) && EndsInSpace(lines[i]))
            && lines[|lines| - 1] == Trim(Concat(gs[|gs| - 1]))
            && Concat(lines[..|lines| - 1]) + Concat(gs[|gs| - 1]) == text + " "
  {
    CaptionTokensSpell(text);
    var lines := LinesOf(gs);
    var n := |gs|;
    var init := gs[..n - 1];
    assert lines[..n - 1] == ConcatEach(init);
    forall i | 0 <= i < n - 1
      ensures lines[i] == Concat(gs[i]) && EndsInSpace(lines[i])
    {
      assert lines[i] == ConcatEach(init)[i] == Concat(init[i]);
      assert init[i] == gs[i];
      GroupEndsInSpace(gs, text, i);
    }
    ConcatEachLast(gs);
  }

  predicate EndsInSpace(s: string) {
    |s| > 0 && s[|s| - 1] == ' '
  }

  /** A token of a group is a token of the flattened list. */
  lemma {:induction false} FlattenHas(gs: seq<seq<string>>, i: int, j: int)
    requires 0 <= i < |gs| && 0 <= j < |gs[i]|
    ensures gs[i][j] in Flatten(gs)
    decreases i
  {
    if i > 0 {
      FlattenHas(gs[1..], i - 1, j);
    }
  }

  /** Tokens that each end in a space concatenate to a string that does. */
  lemma {:induction false} ConcatEndsInSpace(g: seq<string>)
    requires g != [] && forall j :: 0 <= j < |g| ==> EndsInSpace(g[j])
    ensures EndsInSpace(Concat(g))
    decreases |g|
  {
    if |g| > 1 {
      ConcatEndsInSpace(g[1..]);
    }
  }

  /** Every non-empty group of caption tokens ends in a space. */
  lemma GroupEndsInSpace(gs: seq<seq<string>>, text: string, i: int)
    requires Flatten(gs) == CaptionTokens(text)
    requires 0 <= i < |gs| && gs[i] != []
    ensures EndsInSpace(Concat(gs[i]))
  {
    forall j | 0 <= j < |gs[i]| ensures EndsInSpace(gs[i][j]) {
      FlattenHas(gs, i, j);
    }
    ConcatEndsInSpace(gs[i]);
  }

  /** The lines, untrimmed, spell the flattened tokens. */
  lemma {:induction false} ConcatEachFlatten(gs: seq<seq<string>>)
    ensures Concat(ConcatEach(gs)) == Concat(Flatten(gs))
    decreases |gs|
  {
    if gs != [] {
      assert ConcatEach(gs)[1..] == ConcatEach(gs[1..]);
      ConcatEachFlatten(gs[1..]);
      ConcatOfSum(gs[0], Flatten(gs[1..]));
    }
  }

  lemma ConcatEachLast(gs: seq<seq<string>>)
    requires gs != []
    ensures Concat(ConcatEach(gs[..|gs| - 1])) + Concat(gs[|gs| - 1]) == Concat(Flatten(gs))
  {
    var init, last := gs[..|gs| - 1], gs[|gs| - 1];
    assert gs == init + [last];
    FlattenAppend(init, last);
    ConcatOfSum(Flatten(init), last);
    ConcatEachFlatten(init);
  }

  /** A caption whose every run of two or more leading tokens fits on one
      line stays on one line: the caption itself, trimmed. */
  lemma WrapSingleLine(measure: (int, string) -> nat, font: int, maxWidth: int, text: string)
    requires PrefixesFit(measure, font, maxWidth, CaptionTokens(text))
    ensures LinesOf(Groups(measure, font, maxWidth, text)) == [Trim(text)]
  {
    var ts := CaptionTokens(text);
    CaptionTokensSpell(text);
    assert Flatten([ts]) == ts;
    GroupsUnique(measure, font, maxWidth, text, [ts]);
    assert LinesOf([ts]) == [Trim(text + " ")];
    TrimTrailingSpace(text);
  }

  /** `wrapText(ctx, text, maxWidth)`: measures under `ctx.font` and returns
      the lines of the greedy wrapping; the empty caption gives one empty line. */
  method WrapText(ctx: Context, text: string, maxWidth: int) returns (lines: seq<string>)
    ensures lines == LinesOf(Groups(ctx.measure, ctx.font, maxWidth, text))
    ensures |lines| >= 1
    ensures text == "" ==> lines == [""]
  {
    var words := Split(text, ' ');
    ghost var ts := Tokens(words);
    lines := [];
    var line := "";
    ghost var done: seq<seq<string>> := [];
    ghost var cur: seq<string> := [];
    var i := 0;
    while i < |words|
      invariant 0 <= i <= |words|
      invariant line == Concat(cur)
      invariant lines == ConcatEach(done)
      invariant Greedy(ctx.measure, ctx.font, maxWidth, done, cur, ts[i..]) == Groups(ctx.measure, ctx.font, maxWidth, text)
    {
      var word := words[i];
      var testLine := line + word + " ";
      assert ts[i..][0] == word + " " && ts[i..][1..] == ts[i + 1..];
      assert testLine == Concat(cur) + ts[i..][0];
      if ctx.MeasureText(testLine) > maxWidth && |line| > 0 {
        assert Greedy(ctx.measure, ctx.font, maxWidth, done, cur, ts[i..])
            == Greedy(ctx.measure, ctx.font, maxWidth, done + [cur], [word + " "], ts[i + 1..]);
        lines := lines + [line];
        line := word + " ";
        assert ConcatEach(done + [cur]) == ConcatEach(done) + [Concat(cur)];
        done := done + [cur];
        cur := [word + " "];
        assert Concat(cur) == word + " " + Concat([]);
      } else {
        assert Greedy(ctx.measure, ctx.font, maxWidth, done, cur, ts[i..])
            == Greedy(ctx.measure, ctx.font, maxWidth, done, cur + [word + " "], ts[i + 1..]);
        line := testLine;
        ConcatAppend(cur, word + " ");
        cur := cur + [word + " "];
      }
      i := i + 1;
    }
    assert ts[i..] == [];
    var gs := done + [cur];
    assert gs[..|gs| - 1] == done;
    lines := lines + [Trim(line)];
    if text == "" {
      assert Trim(" ") == "" by {
        assert SkipLeading(" ", 0) == SkipLeading(" ", 1) == 1;
      }
    }
  }
}

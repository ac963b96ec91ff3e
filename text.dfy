/** The JavaScript string built-ins the caption code relies on: `split` on a
    one-character separator, `join`, `trim`, and concatenation of a list of
    strings. Strings are sequences of characters. */
module JsString {

  /** The characters JavaScript's `String.prototype.trim` removes: the
      WhiteSpace and LineTerminator code points of ECMAScript. */
  predicate IsWhitespace(c: char) {
    c == '\t' || c == '\n' || c == '\U{B}' || c == '\U{C}' || c == '\r' || c == ' '
    || c == '\U{A0}' || c == '\U{1680}' || ('\U{2000}' <= c <= '\U{200A}')
    || c == '\U{2028}' || c == '\U{2029}' || c == '\U{202F}' || c == '\U{205F}'
    || c == '\U{3000}' || c == '\U{FEFF}'
  }

  /** Every character of `s` from index `lo` up to `hi` is whitespace. */
  predicate WhitespaceBetween(s: string, lo: int, hi: int) {
    forall k :: 0 <= lo <= k < hi <= |s| ==> IsWhitespace(s[k])
  }

  /** Neither the first nor the last character of `s` is whitespace. */
  predicate NoOuterWhitespace(s: string) {
    s == [] || (!IsWhitespace(s[0]) && !IsWhitespace(s[|s| - 1]))
  }

  /** `r` sits at index `i` of `s`, and everything around it is whitespace. */
  predicate Strips(s: string, r: string, i: int) {
    0 <= i && i + |r| <= |s| && s[i..i + |r|] == r
    && WhitespaceBetween(s, 0, i) && WhitespaceBetween(s, i + |r|, |s|)
  }

  /** Where `trim` stops skipping whitespace forwards from `lo`: the first
      index at or after `lo` that is not whitespace, or the end of `s`. */
  function SkipLeading(s: string, lo: nat): (i: nat)
    requires lo <= |s|
    ensures lo <= i <= |s| && WhitespaceBetween(s, lo, i)
    ensures i == |s| || !IsWhitespace(s[i])
    decreases |s| - lo
  {
    if lo < |s| && IsWhitespace(s[lo]) then SkipLeading(s, lo + 1) else lo
  }

  /** Where `trim` stops skipping whitespace backwards from `hi`, not going
      below `lo`: the index just after the last non-whitespace character, or `lo`. */
  function SkipTrailing(s: string, lo: nat, hi: nat): (j: nat)
    requires lo <= hi <= |s|
    ensures lo <= j <= hi && WhitespaceBetween(s, j, hi)
    ensures j == lo || !IsWhitespace(s[j - 1])
    decreases hi
  {
    if lo < hi && IsWhitespace(s[hi - 1]) then SkipTrailing(s, lo, hi - 1) else hi
  }

  /** Where the result of `s.trim()` starts in `s`. */
  function TrimIndex(s: string): nat
  {
    SkipLeading(s, 0)
  }

  /** `s.trim()`: `s` without its leading and trailing whitespace. The result
      is a contiguous piece of `s` with only whitespace around it, and its own
      ends are not whitespace. */
  function Trim(s: string): (r: string)
    ensures NoOuterWhitespace(r)
    ensures Strips(s, r, TrimIndex(s))
  {
    var i := SkipLeading(s, 0);
    s[i..SkipTrailing(s, i, |s|)]
  }

  /** Whitespace margins around a non-whitespace core determine the core:
      `Trim` is the only way to strip `s` down to a string without outer whitespace. */
  lemma TrimUnique(s: string, r: string, i: int)
    requires Strips(s, r, i) && NoOuterWhitespace(r)
    ensures r == Trim(s)
  {
    var t := Trim(s);
    var j := TrimIndex(s);
    assert Strips(s, t, j);
    // The ends of either core are not whitespace, and everything outside it is,
    // so the cores start and end at the same indices.
    if r != [] { assert s[i] == r[0] && s[i + |r| - 1] == r[|r| - 1]; }
    if t != [] { assert s[j] == t[0] && s[j + |t| - 1] == t[|t| - 1]; }
  }

  /** Trimming twice changes nothing. */
  lemma TrimIdempotent(s: string)
    ensures Trim(Trim(s)) == Trim(s)
  {
    var t := Trim(s);
    assert t[0..0 + |t|] == t;
    TrimUnique(t, t, 0);
  }

  /** `s.split(sep)` for a one-character separator: the pieces between the
      separators, an empty piece wherever two separators meet or `s` starts or
      ends with one; the empty string yields one empty piece. */
  function Split(s: string, sep: char): (words: seq<string>)
    ensures |words| >= 1
    ensures forall i :: 0 <= i < |words| ==> sep !in words[i]
    decreases |s|
  {
    if s == [] then
      [""]
    else if s[0] == sep then
      [""] + Split(s[1..], sep)
    else
      var rest := Split(s[1..], sep);
      [[s[0]] + rest[0]] + rest[1..]
  }

  /** `words.join(sep)`. */
  function Join(words: seq<string>, sep: char): string
    decreases |words|
  {
    if words == [] then ""
    else if |words| == 1 then words[0]
    else words[0] + [sep] + Join(words[1..], sep)
  }

  /** Joining the pieces of a split gives back the original string. */
  lemma {:induction false} JoinSplit(s: string, sep: char)
    ensures Join(Split(s, sep), sep) == s
    decreases |s|
  {
    if s == [] {
    } else if s[0] == sep {
      JoinSplit(s[1..], sep);
      var rest := Split(s[1..], sep);
      assert Split(s, sep) == [""] + rest;
      assert ([""] + rest)[1..] == rest;
    } else {
      JoinSplit(s[1..], sep);
      var rest := Split(s[1..], sep);
      var ws := Split(s, sep);
      assert ws == [[s[0]] + rest[0]] + rest[1..];
      if |rest| == 1 {
        assert Join(ws, sep) == [s[0]] + rest[0];
      } else {
        assert ws[1..] == rest[1..];
        assert Join(ws, sep) == [s[0]] + rest[0] + [sep] + Join(rest[1..], sep);
        assert Join(rest, sep) == rest[0] + [sep] + Join(rest[1..], sep);
      }
      assert s == [s[0]] + s[1..];
    }
  }

  /** A string without the separator splits into itself. */
  lemma {:induction false} SplitWithoutSeparator(w: string, sep: char)
    requires sep !in w
    ensures Split(w, sep) == [w]
    decreases |w|
  {
    if w != [] {
      assert forall k :: 0 <= k < |w| - 1 ==> w[1..][k] == w[k + 1];
      SplitWithoutSeparator(w[1..], sep);
      assert w == [w[0]] + w[1..];
    }
  }

  /** A leading separator-free piece followed by the separator splits off as the first piece. */
  lemma {:induction false} SplitAfterPiece(w: string, sep: char, rest: string)
    requires sep !in w
    ensures Split(w + [sep] + rest, sep) == [w] + Split(rest, sep)
    decreases |w|
  {
    var s := w + [sep] + rest;
    if w == [] {
      assert s[0] == sep && s[1..] == rest;
    } else {
      assert s[0] == w[0] && s[1..] == w[1..] + [sep] + rest;
      SplitAfterPiece(w[1..], sep, rest);
      assert w == [w[0]] + w[1..];
    }
  }

  /** Splitting a join of separator-free pieces gives back the pieces. */
  lemma {:induction false} SplitJoin(words: seq<string>, sep: char)
    requires |words| >= 1
    requires forall i :: 0 <= i < |words| ==> sep !in words[i]
    ensures Split(Join(words, sep), sep) == words
    decreases |words|
  {
    if |words| == 1 {
      SplitWithoutSeparator(words[0], sep);
    } else {
      SplitJoin(words[1..], sep);
      SplitAfterPiece(words[0], sep, Join(words[1..], sep));
      assert words == [words[0]] + words[1..];
    }
  }

  /** The concatenation of a list of strings, in order. */
  function Concat(parts: seq<string>): string
    decreases |parts|
  {
    if parts == [] then "" else parts[0] + Concat(parts[1..])
  }

  lemma {:induction false} ConcatAppend(parts: seq<string>, p: string)
    ensures Concat(parts + [p]) == Concat(parts) + p
    decreases |parts|
  {
    if parts == [] {
      assert [] + [p] == [p];
    } else {
      assert (parts + [p])[1..] == parts[1..] + [p];
      ConcatAppend(parts[1..], p);
    }
  }

  lemma {:induction false} ConcatOfSum(a: seq<string>, b: seq<string>)
    ensures Concat(a + b) == Concat(a) + Concat(b)
    decreases |a|
  {
    if a == [] {
      assert [] + b == b;
    } else {
      assert (a + b)[1..] == a[1..] + b;
      ConcatOfSum(a[1..], b);
    }
  }

  /** A trailing space makes no difference once trimmed. */
  lemma TrimTrailingSpace(s: string)
    ensures Trim(s + " ") == Trim(s)
  {
    var r := Trim(s);
    var i := TrimIndex(s);
    var t := s + " ";
    assert t[i..i + |r|] == s[i..i + |r|];
    assert forall k :: 0 <= k < |s| ==> t[k] == s[k];
    TrimUnique(t, r, i);
  }

  /** A list of strings whose first part is non-empty concatenates to a non-empty string. */
  lemma ConcatNonEmpty(parts: seq<string>)
    requires parts != [] && parts[0] != ""
    ensures |Concat(parts)| > 0
  {
  }

  /** `pat` occurs in `s` starting at index `i`. */
  predicate OccursAt(s: string, pat: string, i: int) {
    0 <= i && i + |pat| <= |s| && s[i..i + |pat|] == pat
  }

  /** An occurrence in a slice of `s` is an occurrence in `s`. */
  lemma OccursInSlice(s: string, lo: int, hi: int, r: string, j: int)
    requires 0 <= lo <= hi <= |s| && OccursAt(s[lo..hi], r, j)
    ensures OccursAt(s, r, lo + j)
  {
    var t := s[lo..hi];
    forall k | 0 <= k < |r| ensures r[k] == s[lo + j..lo + j + |r|][k] {
      assert r[k] == t[j + k] == s[lo + j + k];
    }
    assert s[lo + j..lo + j + |r|] == r;
  }

  /** `s.indexOf(pat, from)`: the least index from `from` on where `pat`
      occurs, or -1 when there is none. */
  function IndexFrom(s: string, pat: string, from: nat): (r: int)
    ensures r == -1 || (from <= r && OccursAt(s, pat, r))
    ensures r == -1 ==> forall i :: from <= i ==> !OccursAt(s, pat, i)
    ensures r >= 0 ==> forall i :: from <= i < r ==> !OccursAt(s, pat, i)
    decreases |s| - from
  {
    if from + |pat| > |s| then -1
    else if s[from..from + |pat|] == pat then from
    else IndexFrom(s, pat, from + 1)
  }

  /** `s.indexOf(pat)`. */
  function IndexOf(s: string, pat: string): int {
    IndexFrom(s, pat, 0)
  }

  /** `s.replace(pat, rep)` with a string pattern and a replacement without
      `$` patterns: only the leftmost occurrence of `pat` is replaced, and a
      string without one is returned unchanged. */
  function ReplaceFirst(s: string, pat: string, rep: string): (r: string)
    ensures (forall i :: !OccursAt(s, pat, i)) ==> r == s
    ensures forall i :: OccursAt(s, pat, i) && (forall j :: 0 <= j < i ==> !OccursAt(s, pat, j)) ==>
              r == s[..i] + rep + s[i + |pat|..]
  {
    var i := IndexOf(s, pat);
    if i < 0 then s else s[..i] + rep + s[i + |pat|..]
  }
}

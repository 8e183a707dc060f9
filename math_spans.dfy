/** The math shield around Markdown rendering (app.js `escapeMath` and `unescapeMath`): the two
    regular expressions that find `$...$` and `$$...$$` spans, and the `replace` passes that
    rewrite the content of every span they find. */
module MathSpans {
  import opened Wrappers
  import opened Strings
  import opened MathEscape

  // ---------------------------------------------------------------------
  // Recognising spans: the two regular expressions
  // ---------------------------------------------------------------------

  /** `regex1` finds `$...$` spans, `regex2` finds `$$...$$` spans. */
  datatype Delimiter = Inline | Block

  function Fence(d: Delimiter): (r: string)
    ensures |r| == if d == Inline then 1 else 2
  {
    if d == Inline then "$" else "$$"
  }

  /** The lookbehind `(^|(?<=[^\\$]))` before an opening delimiter at position `i`: the text
      starts there, or the character before is neither a backslash nor a dollar. */
  predicate CanOpenAt(s: string, i: nat)
    requires i <= |s|
  {
    i == 0 || (s[i - 1] != '\\' && s[i - 1] != '$')
  }

  /** The delimiter of kind `d` occurs at position `i`. */
  predicate FenceAt(s: string, i: nat, d: Delimiter) {
    i + |Fence(d)| <= |s| && s[i] == '$' && (d == Block ==> s[i + 1] == '$')
  }

  lemma {:induction false} FenceAtSlice(s: string, i: nat, d: Delimiter)
    requires i + |Fence(d)| <= |s|
    ensures FenceAt(s, i, d) <==> s[i..i + |Fence(d)|] == Fence(d)
  {
    if d == Inline {
      assert s[i..i + 1] == [s[i]];
    } else {
      assert s[i..i + 2] == [s[i], s[i + 1]];
    }
  }

  /** What a span's content must be: non-empty, free of `$` (the classes `[^$\n]` and `[^$]`),
      not ending in a backslash (the lookbehind before the closing delimiter) and, for `$...$`,
      free of line breaks. */
  ghost predicate WellFormedContent(c: string, d: Delimiter) {
    |c| > 0 && '$' !in c && c[|c| - 1] != '\\' && (d == Inline ==> '\n' !in c)
  }

  /** Positions `a` up to `b` of `s` hold characters the content of a span of kind `d` may hold. */
  predicate ContentChars(s: string, a: nat, b: nat, d: Delimiter) {
    b <= |s| && forall m :: a <= m < b ==> s[m] != '$' && (d == Inline ==> s[m] != '\n')
  }

  /** A span of kind `d` with `n` content characters starts at position `i` of `s`. */
  ghost predicate IsSpan(s: string, i: nat, d: Delimiter, n: nat) {
    var w := |Fence(d)|;
    && i + 2 * w + n <= |s|
    && CanOpenAt(s, i)
    && FenceAt(s, i, d)
    && n > 0
    && ContentChars(s, i + w, i + w + n, d)
    && s[i + w + n - 1] != '\\'
    && FenceAt(s, i + w + n, d)
  }

  /** The characters of `s` from position `a` up to `b`. */
  function Chars(s: string, a: nat, b: nat): (c: string)
    requires a <= b <= |s|
    ensures |c| == b - a
    decreases b - a
  {
    if a == b then [] else [s[a]] + Chars(s, a + 1, b)
  }

  /** Each of those characters is the one at the matching position of `s`. */
  lemma {:induction false} CharsAt(s: string, a: nat, b: nat)
    requires a <= b <= |s|
    ensures forall m :: 0 <= m < b - a ==> Chars(s, a, b)[m] == s[a + m]
    decreases b - a
  {
    if a < b {
      CharsAt(s, a + 1, b);
      var c := Chars(s, a, b);
      forall m | 0 <= m < b - a
        ensures c[m] == s[a + m]
      {
        if m > 0 {
          assert c[m] == Chars(s, a + 1, b)[m - 1];
        }
      }
    }
  }

  /** The content of a span is well formed. */
  lemma {:induction false} SpanContent(s: string, i: nat, d: Delimiter, n: nat)
    requires IsSpan(s, i, d, n)
    ensures WellFormedContent(Chars(s, i + |Fence(d)|, i + |Fence(d)| + n), d)
  {
    var w := |Fence(d)|;
    var c := Chars(s, i + w, i + w + n);
    CharsAt(s, i + w, i + w + n);
    assert forall m :: 0 <= m < |c| ==> c[m] != '$' && (d == Inline ==> c[m] != '\n');
    assert c[n - 1] == s[i + w + n - 1];
  }

  /** Scans the content of a candidate span from position `i` to the first `$`; there is
      none when the text ends first or, for `$...$`, when a line break comes first. */
  function CloseAt(s: string, i: nat, d: Delimiter): Option<nat>
    requires i <= |s|
    decreases |s| - i
  {
    if i == |s| then None
    else if s[i] == '$' then Some(i)
    else if d == Inline && s[i] == '\n' then None
    else CloseAt(s, i + 1, d)
  }

  /** The scan stops inside the text, at or after where it started. */
  lemma {:induction false} CloseAtBounds(s: string, i: nat, d: Delimiter)
    requires i <= |s|
    ensures CloseAt(s, i, d).Some? ==> i <= CloseAt(s, i, d).value < |s|
    decreases |s| - i
  {
    if i < |s| && s[i] != '$' && !(d == Inline && s[i] == '\n') {
      CloseAtBounds(s, i + 1, d);
    }
  }

  /** The scan stops exactly at the first `$`, having crossed only characters allowed in a content. */
  lemma {:induction false} CloseAtExact(s: string, i: nat, d: Delimiter, k: nat)
    requires i <= |s|
    ensures CloseAt(s, i, d) == Some(k) <==> (i <= k < |s| && s[k] == '$' && ContentChars(s, i, k, d))
    decreases |s| - i
  {
    if i < |s| && s[i] != '$' && !(d == Inline && s[i] == '\n') {
      CloseAtExact(s, i + 1, d, k);
    }
  }

  /** How the regular expression of kind `d` fares at position `i`: the number of content
      characters of the span it matches there, or `None`. The lazy `+?` cannot run past a
      `$`, so the only candidate closing delimiter is the first `$` after the opening one. */
  function SpanAt(s: string, i: nat, d: Delimiter): Option<nat>
    requires i <= |s|
  {
    var w := |Fence(d)|;
    if !CanOpenAt(s, i) || !FenceAt(s, i, d) then None
    else
      CloseAtBounds(s, i + w, d);
      match CloseAt(s, i + w, d)
      case None => None
      case Some(j) =>
        if j == i + w || s[j - 1] == '\\' then None
        else if d == Block && (j + 1 == |s| || s[j + 1] != '$') then None
        else Some(j - i - w)
  }

  /** The regular expression matches exactly the spans described by `IsSpan`. */
  lemma {:induction false} SpanAtExact(s: string, i: nat, d: Delimiter, n: nat)
    requires i <= |s|
    ensures SpanAt(s, i, d) == Some(n) <==> IsSpan(s, i, d, n)
  {
    var w := |Fence(d)|;
    if SpanAt(s, i, d) == Some(n) {
      CloseAtBounds(s, i + w, d);
      CloseAtExact(s, i + w, d, i + w + n);
    }
    if IsSpan(s, i, d, n) {
      CloseAtExact(s, i + w, d, i + w + n);
    }
  }

  /** The first `$` at or after `from`, or `|s|` when there is none. */
  function FirstDollar(s: string, from: nat): (j: nat)
    requires from <= |s|
    ensures from <= j <= |s|
    ensures forall m :: from <= m < j ==> s[m] != '$'
    ensures j < |s| ==> s[j] == '$'
    decreases |s| - from
  {
    if from == |s| || s[from] == '$' then from else FirstDollar(s, from + 1)
  }

  // ---------------------------------------------------------------------
  // One `replace` pass over the whole text
  // ---------------------------------------------------------------------

  /** What the scan reads at one position: a single character, or a whole span
      (its content; the delimiters are implied by the kind of pass). */
  datatype Piece = Plain(c: char) | Math(content: string)

  /** The number of characters of the text a piece stands for. */
  function Width(p: Piece, d: Delimiter): (w: nat)
    ensures w > 0
  {
    match p
    case Plain(_) => 1
    case Math(m) => 2 * |Fence(d)| + |m|
  }

  /** The last character of the text a piece stands for: a span ends with a `$`. */
  function Last(p: Piece): char {
    match p
    case Plain(c) => c
    case Math(_) => '$'
  }

  /** The piece at position `i`: the span the regular expression of kind `d` matches
      there, or else the single character. */
  function Scan(s: string, i: nat, d: Delimiter): (p: Piece)
    requires i < |s|
    ensures 1 <= Width(p, d) && i + Width(p, d) <= |s|
    ensures p.Math? ==> |p.content| > 0
  {
    SpanBounds(s, i, d);
    match SpanAt(s, i, d)
    case Some(n) => Math(Chars(s, i + |Fence(d)|, i + |Fence(d)| + n))
    case None => Plain(s[i])
  }

  /** A span found at `i` lies within the text. */
  lemma {:induction false} SpanBounds(s: string, i: nat, d: Delimiter)
    requires i <= |s|
    ensures SpanAt(s, i, d).Some? ==> i + 2 * |Fence(d)| + SpanAt(s, i, d).value <= |s|
  {
    if FenceAt(s, i, d) {
      CloseAtBounds(s, i + |Fence(d)|, d);
    }
  }

  /** The callback turns a non-empty content into a non-empty one, as both callbacks of the
      server do: a span stays a span. */
  ghost predicate KeepsContent(f: string -> string) {
    forall c: string :: |c| > 0 ==> |f(c)| > 0
  }

  /** The text a piece stands for once the callback has rewritten a span's content. */
  function PieceRender(p: Piece, d: Delimiter, f: string -> string): string {
    match p
    case Plain(c) => [c]
    case Math(m) => Fence(d) + f(m) + Fence(d)
  }

  /** `text.replace(regex, callback)` for the regular expression of kind `d`, from position `i`
      on: where a span starts, the callback `f` rewrites its content and the scan goes on after
      its closing delimiter; elsewhere one character is copied. The lookbehinds see the text
      itself, so what a match consumed still counts as the character before the next one. */
  function Rewrite(s: string, i: nat, d: Delimiter, f: string -> string): string
    requires i <= |s|
    decreases |s| - i
  {
    if i == |s| then []
    else
      var p := Scan(s, i, d);
      PieceRender(p, d, f) + Rewrite(s, i + Width(p, d), d, f)
  }

  /** `escapeMath`: the `$...$` pass, then the `$$...$$` pass over its result. */
  function EscapeMath(text: string): string {
    Rewrite(Rewrite(text, 0, Inline, EscapeChars), 0, Block, EscapeChars)
  }

  /** `unescapeMath`: the same two passes, turning placeholders back. */
  function UnescapeMath(text: string): string {
    Rewrite(Rewrite(text, 0, Inline, UnescapeChars), 0, Block, UnescapeChars)
  }

  /** Every span that the pass of kind `d` finds from position `i` on is still a span's content
      once `f` has protected it, and `g` gives it back. */
  ghost predicate SpansRestorable(s: string, i: nat, d: Delimiter, f: string -> string, g: string -> string)
    requires i <= |s|
    decreases |s| - i
  {
    i == |s| ||
    (var p := Scan(s, i, d);
     PieceRestorable(p, d, f, g) && SpansRestorable(s, i + Width(p, d), d, f, g))
  }

  /** If `p` is a span, `f` keeps its content well formed and `g` gives the content back. */
  ghost predicate PieceRestorable(p: Piece, d: Delimiter, f: string -> string, g: string -> string) {
    p.Math? ==> WellFormedContent(f(p.content), d) && g(f(p.content)) == p.content
  }
}

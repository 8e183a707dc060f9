/** What one `replace` pass of the math shield does to a text: it touches nothing but the
    contents of the spans it finds, and the restoring pass undoes the protecting pass. */
module MathPasses {
  import opened Wrappers
  import opened Strings
  import opened MathEscape
  import opened MathSpans

  // ---------------------------------------------------------------------
  // Where a text stands inside another, by positions
  // ---------------------------------------------------------------------

  /** The character `m` places after position `i` of `s`. */
  ghost function After(s: string, i: nat, m: nat): char
    requires i + m < |s|
  {
    s[i + m]
  }

  /** `x` is spelled out in `s` from position `i` on. The characters are compared only where a
      proof names them with `After`. */
  ghost predicate Spells(s: string, i: nat, x: string) {
    i + |x| <= |s| && forall m {:trigger After(s, i, m)} :: 0 <= m < |x| ==> After(s, i, m) == x[m]
  }

  /** `s` from position `i` on is exactly `x`.

      In the contracts below, `At(...)`, `Spells(...)` and the other predicates whose bodies hold
      quantifiers are written `(P(...) == true)`. Dafny splits a bare predicate call in a
      `requires` or `ensures` into its body. The comparison keeps the call whole, so the
      quantifiers inside stay out of the way unless a proof asks for them. This keeps each proof
      small for the solver. */
  ghost predicate At(s: string, i: nat, x: string) {
    Spells(s, i, x) && i + |x| == |s|
  }

  lemma {:induction false} AtWhole(s: string, x: string)
    ensures At(s, 0, x) <==> x == s
  {
    if At(s, 0, x) {
      forall m | 0 <= m < |s|
        ensures s[m] == x[m]
      {
        assert After(s, 0, m) == x[m];
      }
    }
  }

  /** The two parts of `r`, which is `a + b`, from position `j` on. */
  lemma {:induction false} Behind(o: string, j: nat, r: string, a: string, b: string)
    requires (At(o, j, r) == true) && r == a + b
    ensures (Spells(o, j, a) == true) && (At(o, j + |a|, b) == true)
  {
    forall m | 0 <= m < |a|
      ensures After(o, j, m) == a[m]
    {
      assert After(o, j, m) == (a + b)[m];
    }
    forall m | 0 <= m < |b|
      ensures After(o, j + |a|, m) == b[m]
    {
      assert After(o, j, |a| + m) == (a + b)[|a| + m];
    }
  }

  /** `x` then `y` from position `i` on. */
  lemma {:induction false} Joined(s: string, i: nat, x: string, y: string)
    requires (Spells(s, i, x) == true) && (At(s, i + |x|, y) == true)
    ensures (At(s, i, x + y) == true)
  {
    forall m | 0 <= m < |x + y|
      ensures After(s, i, m) == (x + y)[m]
    {
      if m >= |x| {
        assert After(s, i, m) == After(s, i + |x|, m - |x|);
      } else {
        assert After(s, i, m) == x[m];
      }
    }
  }

  /** A delimiter at the front of `o` from position `j` on. */
  lemma {:induction false} Fenced(o: string, j: nat, d: Delimiter, r: string, x: string)
    requires (At(o, j, r) == true) && r == Fence(d) + x
    ensures FenceAt(o, j, d) && (At(o, j + |Fence(d)|, x) == true)
  {
    Behind(o, j, r, Fence(d), x);
    assert After(o, j, 0) == Fence(d)[0];
    if d == Block {
      assert After(o, j, 1) == Fence(d)[1];
    }
  }

  /** A delimiter at position `j` of `o` is one at the front of what stands there. */
  lemma {:induction false} FenceFront(o: string, j: nat, r: string, d: Delimiter)
    requires (At(o, j, r) == true) && FenceAt(o, j, d)
    ensures FenceAt(r, 0, d)
  {
    assert After(o, j, 0) == r[0];
    if d == Block {
      assert After(o, j, 1) == r[1];
    }
  }

  /** Text framed by two delimiters at the front of `o` from position `j` on. */
  lemma {:induction false} Framed(o: string, j: nat, d: Delimiter, r: string, e: string, rest: string)
    requires (At(o, j, r) == true) && r == Fence(d) + e + Fence(d) + rest
    ensures FenceAt(o, j, d) && FenceAt(o, j + |Fence(d)| + |e|, d)
    ensures (Spells(o, j + |Fence(d)|, e) == true)
  {
    var w := |Fence(d)|;
    assert Fence(d) + e + Fence(d) + rest == Fence(d) + (e + (Fence(d) + rest));
    Fenced(o, j, d, r, e + (Fence(d) + rest));
    Behind(o, j + w, e + (Fence(d) + rest), e, Fence(d) + rest);
    Fenced(o, j + w + |e|, d, Fence(d) + rest, rest);
  }

  /** In `o` from position `a` on, a copy of `$`-free text `s[b..k]` followed by `r`, empty or
      starting with a `$`: a delimiter preceded by `$`-free text can only stand where `r` starts,
      and the text before it is the copy. */
  lemma {:induction false} FirstDollarAfter(o: string, a: nat, s: string, b: nat, k: nat, r: string, n: nat, d: Delimiter)
    requires b <= k <= |s| && forall m :: b <= m < k ==> s[m] != '$'
    requires a + (k - b) <= |o| && forall m :: b <= m < k ==> o[a + (m - b)] == s[m]
    requires (At(o, a + (k - b), r) == true) && (r == [] || r[0] == '$')
    requires FenceAt(o, a + n, d) && ContentChars(o, a, a + n, d)
    ensures n == k - b && FenceAt(r, 0, d)
    ensures ContentChars(s, b, k, d)
    ensures n > 0 ==> o[a + n - 1] == s[k - 1]
  {
    var q := a + (k - b);
    forall m | a <= m < q
      ensures o[m] != '$'
    {
      assert o[a + ((b + (m - a)) - b)] == s[b + (m - a)];
    }
    assert q < |o| ==> After(o, q, 0) == r[0];
    assert q == a + n;
    FenceFront(o, a + n, r, d);
  }

  /** A well-formed content spelled out in `o` from position `a` on. */
  lemma {:induction false} SpelledContent(o: string, a: nat, e: string, d: Delimiter)
    requires (Spells(o, a, e) == true) && (WellFormedContent(e, d) == true)
    ensures ContentChars(o, a, a + |e|, d) && o[a + |e| - 1] != '\\'
  {
    forall m | a <= m < a + |e|
      ensures o[m] != '$' && (d == Inline ==> o[m] != '\n')
    {
      assert After(o, a, m - a) == e[m - a];
    }
    assert After(o, a, |e| - 1) == e[|e| - 1];
  }

  /** `x` then `y` spelled out from position `i` on. */
  lemma {:induction false} SpellsJoined(s: string, i: nat, x: string, y: string)
    requires (Spells(s, i, x) == true) && (Spells(s, i + |x|, y) == true)
    ensures (Spells(s, i, x + y) == true)
  {
    forall m | 0 <= m < |x + y|
      ensures After(s, i, m) == (x + y)[m]
    {
      if m >= |x| {
        assert After(s, i, m) == After(s, i + |x|, m - |x|);
      } else {
        assert After(s, i, m) == x[m];
      }
    }
  }

  /** What is spelled out at a position is spelled out at an equal one. */
  lemma {:induction false} SpellsMoved(s: string, a: nat, b: nat, x: string)
    requires a == b && (Spells(s, a, x) == true)
    ensures (Spells(s, b, x) == true)
  {
  }

  /** What stands from a position on stands from an equal one. */
  lemma {:induction false} AtMoved(s: string, a: nat, b: nat, x: string)
    requires a == b && (At(s, a, x) == true)
    ensures (At(s, b, x) == true)
  {
  }

  /** A delimiter occurs where it is spelled out. */
  lemma {:induction false} FenceSpelled(s: string, i: nat, d: Delimiter)
    requires FenceAt(s, i, d)
    ensures (Spells(s, i, Fence(d)) == true)
  {
    assert After(s, i, 0) == Fence(d)[0];
    if d == Block {
      assert After(s, i, 1) == Fence(d)[1];
    }
  }

  /** The characters from position `a` up to `b` are spelled out from `a` on. */
  lemma {:induction false} CharsSpell(s: string, a: nat, b: nat)
    requires a <= b <= |s|
    ensures (Spells(s, a, Chars(s, a, b)) == true)
  {
    CharsAt(s, a, b);
  }

  /** A span's text is its content between two delimiters. */
  lemma {:induction false} SpanText(s: string, i: nat, d: Delimiter, n: nat)
    requires IsSpan(s, i, d, n)
    ensures (Spells(s, i, Fence(d) + Chars(s, i + |Fence(d)|, i + |Fence(d)| + n) + Fence(d)) == true)
  {
    FenceSpelled(s, i, d);
    CharsSpell(s, i + |Fence(d)|, i + |Fence(d)| + n);
    SpellsJoined(s, i, Fence(d), Chars(s, i + |Fence(d)|, i + |Fence(d)| + n));
    FenceSpelled(s, i + |Fence(d)| + n, d);
    SpellsMoved(s, i + |Fence(d)| + n, i + |Fence(d) + Chars(s, i + |Fence(d)|, i + |Fence(d)| + n)|, Fence(d));
    SpellsJoined(s, i, Fence(d) + Chars(s, i + |Fence(d)|, i + |Fence(d)| + n), Fence(d));
  }

  lemma {:induction false} SliceCons(s: string, i: nat, k: nat, r: string)
    requires i < k <= |s|
    ensures [s[i]] + (s[i + 1..k] + r) == s[i..k] + r
  {
    assert s[i..k] == [s[i]] + s[i + 1..k];
  }

  lemma {:induction false} ConsPair(a: char, b: char, r: string)
    ensures [a] + ([b] + r) == [a, b] + r
  {
  }

  // ---------------------------------------------------------------------
  // Single steps of a pass
  // ---------------------------------------------------------------------

  /** Equal texts after the same prefix. */
  lemma {:induction false} Chained(a: string, x: string, b: string, c: string, e: string)
    ensures a == x + b && b == c && e == x + c ==> a == e
  {
  }

  /** The callback that leaves a span's content as it is. */
  function Identity(c: string): string {
    c
  }

  /** A span read at a position stands for exactly the text it covers. */
  lemma {:induction false} SpanCovers(s: string, i: nat, d: Delimiter, n: nat)
    requires i < |s| && SpanAt(s, i, d) == Some(n)
    ensures |PieceRender(Scan(s, i, d), d, Identity)| == Width(Scan(s, i, d), d)
    ensures (Spells(s, i, PieceRender(Scan(s, i, d), d, Identity)) == true)
  {
    SpanAtExact(s, i, d, n);
    SpanText(s, i, d, n);
  }

  /** The piece read at a position stands for exactly the text it covers. */
  lemma {:induction false} ScanCovers(s: string, i: nat, d: Delimiter)
    requires i < |s|
    ensures |PieceRender(Scan(s, i, d), d, Identity)| == Width(Scan(s, i, d), d)
    ensures (Spells(s, i, PieceRender(Scan(s, i, d), d, Identity)) == true)
  {
    if SpanAt(s, i, d).Some? {
      SpanCovers(s, i, d, SpanAt(s, i, d).value);
    } else {
      assert After(s, i, 0) == [s[i]][0];
    }
  }

  /** A span the scan reads is well formed. */
  lemma {:induction false} ScanWellFormed(s: string, i: nat, d: Delimiter)
    requires i < |s|
    ensures Scan(s, i, d).Math? ==> (WellFormedContent(Scan(s, i, d).content, d) == true)
  {
    if SpanAt(s, i, d).Some? {
      SpanAtExact(s, i, d, SpanAt(s, i, d).value);
      SpanContent(s, i, d, SpanAt(s, i, d).value);
    }
  }

  /** The rendered piece ends with the character the piece stands for last. */
  lemma {:induction false} RenderLast(p: Piece, d: Delimiter, f: string -> string)
    requires KeepsContent(f)
    ensures PieceRender(p, d, f) != []
    ensures PieceRender(p, d, f)[|PieceRender(p, d, f)| - 1] == Last(p)
  {
  }

  lemma {:induction false} RewriteStep(s: string, i: nat, d: Delimiter, f: string -> string)
    requires i < |s|
    ensures Rewrite(s, i, d, f) == PieceRender(Scan(s, i, d), d, f) + Rewrite(s, i + Width(Scan(s, i, d), d), d, f)
  {
  }

  /** Where no span starts, one character is copied. */
  lemma {:induction false} RewritePlain(s: string, i: nat, d: Delimiter, f: string -> string)
    requires i < |s| && SpanAt(s, i, d).None?
    ensures Rewrite(s, i, d, f) == [s[i]] + Rewrite(s, i + 1, d, f)
  {
    assert Scan(s, i, d) == Plain(s[i]);
    RewriteStep(s, i, d, f);
  }

  /** No span starts where there is no `$`, or where a `$` or a backslash comes before. */
  lemma {:induction false} RewriteCopies(s: string, i: nat, d: Delimiter, f: string -> string)
    requires i < |s| && (s[i] != '$' || !CanOpenAt(s, i))
    ensures Rewrite(s, i, d, f) == [s[i]] + Rewrite(s, i + 1, d, f)
  {
    assert SpanAt(s, i, d).None?;
    RewritePlain(s, i, d, f);
  }

  /** Text without a `$` holds no span and is copied unchanged: where the output from
      position `i` on stands in `o`, the copy stands, then the output from position `k` on. */
  lemma {:induction false} DollarFreeCopiedAt(s: string, i: nat, k: nat, d: Delimiter, f: string -> string, o: string, j: nat)
    requires i <= k <= |s| && forall m :: i <= m < k ==> s[m] != '$'
    requires (At(o, j, Rewrite(s, i, d, f)) == true)
    ensures j + (k - i) <= |o| && forall m :: i <= m < k ==> o[j + (m - i)] == s[m]
    ensures (At(o, j + (k - i), Rewrite(s, k, d, f)) == true)
  {
    DollarFreeCopied(s, i, k, d, f);
    Behind(o, j, Rewrite(s, i, d, f), s[i..k], Rewrite(s, k, d, f));
    AtMoved(o, j + |s[i..k]|, j + (k - i), Rewrite(s, k, d, f));
    forall m | i <= m < k
      ensures o[j + (m - i)] == s[m]
    {
      assert After(o, j, m - i) == s[i..k][m - i];
    }
  }

  /** Text without a `$` holds no span and is copied unchanged. */
  lemma {:induction false} DollarFreeCopied(s: string, i: nat, k: nat, d: Delimiter, f: string -> string)
    requires i <= k <= |s| && forall j :: i <= j < k ==> s[j] != '$'
    ensures Rewrite(s, i, d, f) == s[i..k] + Rewrite(s, k, d, f)
    decreases k - i
  {
    if k == i {
      assert s[i..k] == [];
    } else {
      RewriteCopies(s, i, d, f);
      DollarFreeCopied(s, i + 1, k, d, f);
      SliceCons(s, i, k, Rewrite(s, k, d, f));
    }
  }

  /** A text without `$` passes through both passes of `escapeMath` and of `unescapeMath` unchanged. */
  lemma {:induction false} MathFreeTextUntouched(text: string)
    requires '$' !in text
    ensures EscapeMath(text) == text
    ensures UnescapeMath(text) == text
  {
    assert text[0..|text|] == text && text + [] == text;
    DollarFreeCopied(text, 0, |text|, Inline, EscapeChars);
    assert Rewrite(text, 0, Inline, EscapeChars) == text;
    DollarFreeCopied(text, 0, |text|, Block, EscapeChars);
    DollarFreeCopied(text, 0, |text|, Inline, UnescapeChars);
    assert Rewrite(text, 0, Inline, UnescapeChars) == text;
    DollarFreeCopied(text, 0, |text|, Block, UnescapeChars);
  }

  // ---------------------------------------------------------------------
  // A pass that writes every span back unchanged
  // ---------------------------------------------------------------------

  /** From position `i` on, the pass that leaves every span as it is gives the text back. */
  ghost predicate CopiesFrom(s: string, i: nat, d: Delimiter)
    requires i <= |s|
  {
    At(s, i, Rewrite(s, i, d, Identity))
  }

  /** What the pass copies after the first piece extends to what it copies from that piece on. */
  lemma {:induction false} CopiesStep(s: string, i: nat, d: Delimiter) returns (k: nat)
    requires i < |s|
    ensures i < k <= |s|
    ensures (CopiesFrom(s, k, d) == true) ==> (CopiesFrom(s, i, d) == true)
  {
    k := i + Width(Scan(s, i, d), d);
    ScanCovers(s, i, d);
    RewriteStep(s, i, d, Identity);
    JoinedAt(s, i, k, PieceRender(Scan(s, i, d), d, Identity), Rewrite(s, k, d, Identity), Rewrite(s, i, d, Identity));
  }

  /** `x` from position `i` on, followed at `k` by the rest `y`, spells `z`, which is `x + y`. */
  lemma {:induction false} JoinedAt(s: string, i: nat, k: nat, x: string, y: string, z: string)
    requires (Spells(s, i, x) == true) && k == i + |x| && z == x + y
    ensures (At(s, k, y) == true) ==> (At(s, i, z) == true)
  {
    if At(s, k, y) {
      Joined(s, i, x, y);
    }
  }

  lemma {:induction false} CopiesFromAll(s: string, i: nat, d: Delimiter)
    requires i <= |s|
    ensures (CopiesFrom(s, i, d) == true)
    decreases |s| - i
  {
    if i < |s| {
      var k := CopiesStep(s, i, d);
      CopiesFromAll(s, k, d);
    }
  }

  /** The pieces cover the text exactly: a pass whose callback returns each span's content
      unchanged gives the whole text back. */
  lemma {:induction false} IdentityRewrite(s: string, d: Delimiter)
    ensures Rewrite(s, 0, d, Identity) == s
  {
    CopiesFromAll(s, 0, d);
    AtWhole(s, Rewrite(s, 0, d, Identity));
  }

  // ---------------------------------------------------------------------
  // One pass undone by its counterpart
  // ---------------------------------------------------------------------

  /** The first characters of a pass's output are those of its input: the first always, and
      for `$$...$$` the second one too when the first is a `$`. */
  lemma {:induction false} RewriteHead(s: string, k: nat, d: Delimiter, f: string -> string)
    requires KeepsContent(f)
    requires k <= |s|
    ensures (Rewrite(s, k, d, f) == []) == (k == |s|)
    ensures k < |s| ==> Rewrite(s, k, d, f)[0] == s[k]
    ensures k + 1 == |s| ==> |Rewrite(s, k, d, f)| == 1
    ensures d == Block && k + 2 <= |s| && s[k] == '$' ==>
              |Rewrite(s, k, d, f)| >= 2 && Rewrite(s, k, d, f)[1] == s[k + 1]
  {
    if k < |s| {
      var p := Scan(s, k, d);
      RewriteStep(s, k, d, f);
      if p.Math? {
        var n := SpanAt(s, k, d).value;
        SpanAtExact(s, k, d, n);
      } else {
        if d == Block && k + 2 <= |s| && s[k] == '$' {
          RewriteCopies(s, k + 1, d, f);
        }
      }
    }
  }

  /** Where no span starts but the output of a pass starts with an opening delimiter,
      the input has the same delimiter there, copied as it is. */
  lemma {:induction false} OpeningKept(s: string, i: nat, d: Delimiter, f: string -> string)
    requires KeepsContent(f)
    requires i < |s| && SpanAt(s, i, d).None?
    requires FenceAt(Rewrite(s, i, d, f), 0, d)
    ensures FenceAt(s, i, d)
    ensures Rewrite(s, i, d, f) == Fence(d) + Rewrite(s, i + |Fence(d)|, d, f)
  {
    RewritePlain(s, i, d, f);
    RewriteHead(s, i + 1, d, f);
    if d == Block {
      RewriteCopies(s, i + 1, d, f);
      ConsPair(s[i], s[i + 1], Rewrite(s, i + 2, d, f));
    }
  }

  /** Where a pass of kind `d` finds no span, it finds none at the matching position of its
      own output either: `o` from position `j` on is the pass's output from position `i` on,
      and the lookbehind sees the same there. */
  lemma {:induction false} PlainStaysPlain(s: string, i: nat, o: string, j: nat, d: Delimiter, f: string -> string)
    requires KeepsContent(f)
    requires i < |s| && (At(o, j, Rewrite(s, i, d, f)) == true)
    requires CanOpenAt(o, j) == CanOpenAt(s, i)
    requires SpanAt(s, i, d).None?
    ensures SpanAt(o, j, d).None?
  {
    var w := |Fence(d)|;
    if SpanAt(o, j, d).Some? {
      var n := SpanAt(o, j, d).value;
      SpanAtExact(o, j, d, n);
      SpanReadBack(s, i, o, j, d, f, n);
      SpanAtExact(s, i, d, n);
      assert false;
    }
  }

  /** A span at a position of the output matching one of the input where no span starts
      would be a span of the input too. */
  lemma {:induction false} SpanReadBack(s: string, i: nat, o: string, j: nat, d: Delimiter, f: string -> string, n: nat)
    requires KeepsContent(f)
    requires i < |s| && (At(o, j, Rewrite(s, i, d, f)) == true)
    requires CanOpenAt(o, j) == CanOpenAt(s, i)
    requires SpanAt(s, i, d).None? && IsSpan(o, j, d, n)
    ensures IsSpan(s, i, d, n)
  {
    var w := |Fence(d)|;
    SpanParts(o, j, d, n);
    OpeningCopied(s, i, o, j, d, f);
    ContentCopied(s, i + w, o, j + w, d, f, n);
    SpanFromParts(s, i, d, n);
  }

  /** The parts of a span, one by one. */
  lemma {:induction false} SpanParts(s: string, i: nat, d: Delimiter, n: nat)
    requires IsSpan(s, i, d, n)
    ensures FenceAt(s, i, d) && n > 0
    ensures ContentChars(s, i + |Fence(d)|, i + |Fence(d)| + n, d) && FenceAt(s, i + |Fence(d)| + n, d)
    ensures s[i + |Fence(d)| + n - 1] != '\\'
  {
  }

  /** A span put together from its parts. */
  lemma {:induction false} SpanFromParts(s: string, i: nat, d: Delimiter, n: nat)
    requires i <= |s| && CanOpenAt(s, i) && FenceAt(s, i, d) && n > 0
    requires ContentChars(s, i + |Fence(d)|, i + |Fence(d)| + n, d) && FenceAt(s, i + |Fence(d)| + n, d)
    requires s[i + |Fence(d)| + n - 1] != '\\'
    ensures IsSpan(s, i, d, n)
  {
  }

  /** Where no span starts but an opening delimiter stands at the matching position of the
      output, the input has that delimiter too, and the outputs after it still match. */
  lemma {:induction false} OpeningCopied(s: string, i: nat, o: string, j: nat, d: Delimiter, f: string -> string)
    requires KeepsContent(f)
    requires i < |s| && (At(o, j, Rewrite(s, i, d, f)) == true)
    requires SpanAt(s, i, d).None? && FenceAt(o, j, d)
    ensures FenceAt(s, i, d) && (At(o, j + |Fence(d)|, Rewrite(s, i + |Fence(d)|, d, f)) == true)
  {
    FenceFront(o, j, Rewrite(s, i, d, f), d);
    OpeningKept(s, i, d, f);
    Fenced(o, j, d, Rewrite(s, i, d, f), Rewrite(s, i + |Fence(d)|, d, f));
  }

  /** A span content followed by a closing delimiter in the output, from a position matching
      position `b` of the input, is a copy of input text followed by the same delimiter. */
  lemma {:induction false} ContentCopied(s: string, b: nat, o: string, a: nat, d: Delimiter, f: string -> string, n: nat)
    requires KeepsContent(f)
    requires b <= |s| && (At(o, a, Rewrite(s, b, d, f)) == true)
    requires FenceAt(o, a + n, d) && ContentChars(o, a, a + n, d)
    ensures ContentChars(s, b, b + n, d) && FenceAt(s, b + n, d)
    ensures n > 0 ==> s[b + n - 1] == o[a + n - 1]
  {
    var k := FirstDollar(s, b);
    DollarFreeCopiedAt(s, b, k, d, f, o, a);
    RewriteHead(s, k, d, f);
    FirstDollarAfter(o, a, s, b, k, Rewrite(s, k, d, f), n, d);
  }

  /** A piece with its content protected by `f`. */
  function Protected(p: Piece, f: string -> string): Piece {
    match p
    case Plain(c) => Plain(c)
    case Math(m) => Math(f(m))
  }

  /** A protected piece covers what its protected rendering covers, and restoring it gives back
      the piece's own text when its content held no placeholder string. */
  lemma {:induction false} ProtectedPiece(p: Piece, d: Delimiter, f: string -> string, g: string -> string)
    requires KeepsContent(f)
    ensures Width(Protected(p, f), d) == |PieceRender(p, d, f)|
    ensures (p.Math? ==> g(f(p.content)) == p.content) ==>
              PieceRender(Protected(p, f), d, g) == PieceRender(p, d, Identity)
  {
  }

  /** The characters from position `a` on that spell out `e` are `e`. */
  lemma {:induction false} CharsSpelled(o: string, a: nat, e: string)
    requires (Spells(o, a, e) == true)
    ensures Chars(o, a, a + |e|) == e
  {
    var c := Chars(o, a, a + |e|);
    CharsAt(o, a, a + |e|);
    forall m | 0 <= m < |e|
      ensures c[m] == e[m]
    {
      assert c[m] == After(o, a, m);
    }
  }

  /** A well-formed content between two delimiters, where a span may open, is read as a span. */
  lemma {:induction false} SpanReadAgain(e: string, d: Delimiter, o: string, j: nat, r: string, rest: string)
    requires (WellFormedContent(e, d) == true)
    requires (At(o, j, r) == true) && r == Fence(d) + e + Fence(d) + rest
    requires CanOpenAt(o, j)
    ensures j < |o| && Scan(o, j, d) == Math(e)
  {
    var w := |Fence(d)|;
    Framed(o, j, d, r, e, rest);
    SpelledContent(o, j + w, e, d);
    assert IsSpan(o, j, d, |e|);
    SpanAtExact(o, j, d, |e|);
    CharsSpelled(o, j + w, e);
  }

  /** Where a span starts, a pass writes the span with its content rewritten, then goes on after it. */
  lemma {:induction false} RewriteSpan(s: string, i: nat, d: Delimiter, f: string -> string)
    requires KeepsContent(f)
    requires i < |s| && Scan(s, i, d).Math?
    ensures CanOpenAt(s, i)
    ensures Rewrite(s, i, d, f)
              == Fence(d) + f(Scan(s, i, d).content) + Fence(d) + Rewrite(s, i + Width(Scan(s, i, d), d), d, f)
  {
    RewriteStep(s, i, d, f);
  }

  /** Where the protecting pass finds a span, its output holds the protected span, read as such. */
  lemma {:induction false} ProtectedScanSpan(s: string, i: nat, o: string, j: nat, d: Delimiter, f: string -> string)
    requires KeepsContent(f)
    requires i < |s| && Scan(s, i, d).Math?
    requires (WellFormedContent(f(Scan(s, i, d).content), d) == true)
    requires (At(o, j, Rewrite(s, i, d, f)) == true)
    requires CanOpenAt(o, j) == CanOpenAt(s, i)
    ensures j < |o| && Scan(o, j, d) == Protected(Scan(s, i, d), f)
  {
    var p := Scan(s, i, d);
    RewriteSpan(s, i, d, f);
    SpanReadAgain(f(p.content), d, o, j, Rewrite(s, i, d, f), Rewrite(s, i + Width(p, d), d, f));
  }

  /** Where the protecting pass finds no span, its output holds the same character, read as such. */
  lemma {:induction false} ProtectedScanPlain(s: string, i: nat, o: string, j: nat, d: Delimiter, f: string -> string)
    requires KeepsContent(f)
    requires i < |s| && SpanAt(s, i, d).None?
    requires (At(o, j, Rewrite(s, i, d, f)) == true)
    requires CanOpenAt(o, j) == CanOpenAt(s, i)
    ensures j < |o| && Scan(o, j, d) == Plain(s[i])
  {
    RewriteHead(s, i, d, f);
    assert After(o, j, 0) == Rewrite(s, i, d, f)[0];
    PlainStaysPlain(s, i, o, j, d, f);
  }

  /** The protecting pass's output is read as the same pieces, with the span contents protected. */
  lemma {:induction false} ProtectedScan(s: string, i: nat, o: string, j: nat, d: Delimiter, f: string -> string)
    requires KeepsContent(f)
    requires i < |s| && (At(o, j, Rewrite(s, i, d, f)) == true)
    requires Scan(s, i, d).Math? ==> (WellFormedContent(f(Scan(s, i, d).content), d) == true)
    requires CanOpenAt(o, j) == CanOpenAt(s, i)
    ensures j < |o| && Scan(o, j, d) == Protected(Scan(s, i, d), f)
  {
    if Scan(s, i, d).Math? {
      ProtectedScanSpan(s, i, o, j, d, f);
    } else {
      ProtectedScanPlain(s, i, o, j, d, f);
    }
  }

  /** No span that the pass of kind `d` finds from position `i` on holds a placeholder string. */
  ghost predicate SpansPlaceholderFree(s: string, i: nat, d: Delimiter)
    requires i <= |s|
    decreases |s| - i
  {
    i == |s| ||
    (var p := Scan(s, i, d);
     (p.Math? ==> NoPlaceholder(p.content)) && SpansPlaceholderFree(s, i + Width(p, d), d))
  }

  /** The callbacks of `escapeMath` and `unescapeMath` restore every span when no span held a
      placeholder string. */
  lemma {:induction false} EscapeRestorable(s: string, i: nat, d: Delimiter)
    requires i <= |s| && SpansPlaceholderFree(s, i, d)
    ensures SpansRestorable(s, i, d, EscapeChars, UnescapeChars)
    decreases |s| - i
  {
    if i < |s| {
      var p := Scan(s, i, d);
      EscapeRestorable(s, i + Width(p, d), d);
      if p.Math? {
        ScanWellFormed(s, i, d);
        EscapeKeepsSpanShape(p.content);
        ContentRoundTrip(p.content);
      }
    }
  }

  /** After one piece, the output of a pass from the matching position on is the output
      from the next piece on. */
  lemma {:induction false} NextAt(s: string, i: nat, o: string, j: nat, d: Delimiter, f: string -> string)
    requires KeepsContent(f)
    requires i < |s| && (At(o, j, Rewrite(s, i, d, f)) == true)
    ensures (At(o, j + |PieceRender(Scan(s, i, d), d, f)|, Rewrite(s, i + Width(Scan(s, i, d), d), d, f)) == true)
    ensures o[j + |PieceRender(Scan(s, i, d), d, f)| - 1] == Last(Scan(s, i, d))
  {
    var p := Scan(s, i, d);
    var e := PieceRender(p, d, f);
    RewriteStep(s, i, d, f);
    Behind(o, j, Rewrite(s, i, d, f), e, Rewrite(s, i + Width(p, d), d, f));
    RenderLast(p, d, f);
    assert After(o, j, |e| - 1) == e[|e| - 1];
  }

  /** The last character a piece covers is the one it stands for last. */
  lemma {:induction false} ScanLast(s: string, i: nat, d: Delimiter)
    requires i < |s|
    ensures s[i + Width(Scan(s, i, d), d) - 1] == Last(Scan(s, i, d))
  {
    var x := PieceRender(Scan(s, i, d), d, Identity);
    ScanCovers(s, i, d);
    RenderLast(Scan(s, i, d), d, Identity);
    assert After(s, i, |x| - 1) == x[|x| - 1];
  }

  /** After one piece, the output of a pass and its input are again at matching positions,
      where the lookbehind sees the same. */
  lemma {:induction false} NextAligned(s: string, i: nat, o: string, j: nat, d: Delimiter, f: string -> string)
    requires KeepsContent(f)
    requires i < |s| && (At(o, j, Rewrite(s, i, d, f)) == true)
    ensures var p := Scan(s, i, d);
      && (At(o, j + |PieceRender(p, d, f)|, Rewrite(s, i + Width(p, d), d, f)) == true)
      && CanOpenAt(o, j + |PieceRender(p, d, f)|) == CanOpenAt(s, i + Width(p, d))
  {
    NextAt(s, i, o, j, d, f);
    ScanLast(s, i, d);
  }

  /** Where the protecting pass has written a piece, the restoring pass reads the protected piece,
      which covers what the protecting pass wrote. */
  lemma {:induction false} RestoredWidth(s: string, i: nat, o: string, j: nat, d: Delimiter, f: string -> string)
    requires KeepsContent(f)
    requires i < |s| && (At(o, j, Rewrite(s, i, d, f)) == true)
    requires CanOpenAt(o, j) == CanOpenAt(s, i)
    requires Scan(s, i, d).Math? ==> (WellFormedContent(f(Scan(s, i, d).content), d) == true)
    ensures j < |o| && j + |PieceRender(Scan(s, i, d), d, f)| == j + Width(Scan(o, j, d), d)
  {
    ProtectedScan(s, i, o, j, d, f);
    ProtectedPiece(Scan(s, i, d), d, f, Identity);
  }

  /** ... and which is written back as the piece's own text. */
  lemma {:induction false} RestoredRender(s: string, i: nat, o: string, j: nat, d: Delimiter, f: string -> string, g: string -> string)
    requires KeepsContent(f)
    requires i < |s| && (At(o, j, Rewrite(s, i, d, f)) == true)
    requires CanOpenAt(o, j) == CanOpenAt(s, i)
    requires Scan(s, i, d).Math? ==>
               (WellFormedContent(f(Scan(s, i, d).content), d) == true) && g(f(Scan(s, i, d).content)) == Scan(s, i, d).content
    ensures j < |o| && PieceRender(Scan(o, j, d), d, g) == PieceRender(Scan(s, i, d), d, Identity)
  {
    ProtectedScan(s, i, o, j, d, f);
    ProtectedPiece(Scan(s, i, d), d, f, g);
  }

  /** Matching positions moved to an equal position. */
  lemma {:induction false} AlignedMoved(o: string, a: nat, b: nat, x: string, s: string, k: nat)
    requires a == b && (At(o, a, x) == true) && k <= |s| && CanOpenAt(o, a) == CanOpenAt(s, k)
    ensures (At(o, b, x) == true) && CanOpenAt(o, b) == CanOpenAt(s, k)
  {
  }

  /** After one piece, the protecting pass's output and its input are again at matching
      positions: where the restoring pass reads its next piece. */
  lemma {:induction false} RoundTripAligned(s: string, i: nat, o: string, j: nat, d: Delimiter, f: string -> string)
    requires KeepsContent(f)
    requires i < |s| && (At(o, j, Rewrite(s, i, d, f)) == true)
    requires CanOpenAt(o, j) == CanOpenAt(s, i)
    requires Scan(s, i, d).Math? ==> (WellFormedContent(f(Scan(s, i, d).content), d) == true)
    ensures j < |o| && (At(o, j + Width(Scan(o, j, d), d), Rewrite(s, i + Width(Scan(s, i, d), d), d, f)) == true)
    ensures CanOpenAt(o, j + Width(Scan(o, j, d), d)) == CanOpenAt(s, i + Width(Scan(s, i, d), d))
  {
    NextAligned(s, i, o, j, d, f);
    RestoredWidth(s, i, o, j, d, f);
    AlignedMoved(o, j + |PieceRender(Scan(s, i, d), d, f)|, j + Width(Scan(o, j, d), d),
                 Rewrite(s, i + Width(Scan(s, i, d), d), d, f), s, i + Width(Scan(s, i, d), d));
  }

  /** Where the protecting pass has written a piece, the restoring pass writes the piece's own
      text back and goes on after the protected piece. */
  lemma {:induction false} RestoredHead(s: string, i: nat, o: string, j: nat, d: Delimiter, f: string -> string, g: string -> string)
    requires KeepsContent(f)
    requires i < |s| && (At(o, j, Rewrite(s, i, d, f)) == true)
    requires CanOpenAt(o, j) == CanOpenAt(s, i)
    requires Scan(s, i, d).Math? ==>
               (WellFormedContent(f(Scan(s, i, d).content), d) == true) && g(f(Scan(s, i, d).content)) == Scan(s, i, d).content
    ensures j < |o|
    ensures Rewrite(o, j, d, g)
              == PieceRender(Scan(s, i, d), d, Identity) + Rewrite(o, j + Width(Scan(o, j, d), d), d, g)
  {
    RestoredRender(s, i, o, j, d, f, g);
    RewriteStep(o, j, d, g);
  }

  /** From position `j` on, `o` is what the protecting pass `f` makes of `s` from position `i`
      on, and the lookbehind sees the same at both positions. */
  ghost predicate Aligned(o: string, j: nat, s: string, i: nat, d: Delimiter, f: string -> string) {
    i <= |s| && j <= |o| && At(o, j, Rewrite(s, i, d, f)) && CanOpenAt(o, j) == CanOpenAt(s, i)
  }

  /** The restoring pass `g` from position `j` of `o` on gives the text of `s` from position
      `i` on, piece by piece. */
  ghost predicate Restores(o: string, j: nat, s: string, i: nat, d: Delimiter, g: string -> string) {
    j <= |o| && i <= |s| && Rewrite(o, j, d, g) == Rewrite(s, i, d, Identity)
  }

  /** Alignment moves on by one piece in each text. */
  lemma {:induction false} AlignedNext(s: string, i: nat, o: string, j: nat, d: Delimiter, f: string -> string, g: string -> string)
    requires KeepsContent(f)
    requires i < |s| && (Aligned(o, j, s, i, d, f) == true)
    requires (PieceRestorable(Scan(s, i, d), d, f, g) == true)
    ensures j < |o| && (Aligned(o, j + Width(Scan(o, j, d), d), s, i + Width(Scan(s, i, d), d), d, f) == true)
  {
    RoundTripAligned(s, i, o, j, d, f);
  }

  /** What the restoring pass gives back after one piece extends to that piece. */
  lemma {:induction false} RestoresNext(s: string, i: nat, o: string, j: nat, d: Delimiter, f: string -> string, g: string -> string)
    requires KeepsContent(f)
    requires i < |s| && (Aligned(o, j, s, i, d, f) == true)
    requires (PieceRestorable(Scan(s, i, d), d, f, g) == true)
    requires j < |o| && (Restores(o, j + Width(Scan(o, j, d), d), s, i + Width(Scan(s, i, d), d), d, g) == true)
    ensures (Restores(o, j, s, i, d, g) == true)
  {
    RestoredHead(s, i, o, j, d, f, g);
    RewriteStep(s, i, d, Identity);
    Chained(Rewrite(o, j, d, g), PieceRender(Scan(s, i, d), d, Identity), Rewrite(o, j + Width(Scan(o, j, d), d), d, g),
            Rewrite(s, i + Width(Scan(s, i, d), d), d, Identity), Rewrite(s, i, d, Identity));
  }

  lemma {:induction false} SpansRestorableNext(s: string, i: nat, d: Delimiter, f: string -> string, g: string -> string)
    requires KeepsContent(f)
    requires i < |s| && (SpansRestorable(s, i, d, f, g) == true)
    ensures (SpansRestorable(s, i + Width(Scan(s, i, d), d), d, f, g) == true)
    ensures (PieceRestorable(Scan(s, i, d), d, f, g) == true)
  {
  }

  /** Nothing is left to restore once the protected text is used up. */
  lemma {:induction false} RoundTripEnd(s: string, o: string, j: nat, d: Delimiter, f: string -> string, g: string -> string)
    requires KeepsContent(f)
    requires (Aligned(o, j, s, |s|, d, f) == true)
    ensures (Restores(o, j, s, |s|, d, g) == true)
  {
  }

  /** One piece further in both texts: alignment and restorability carry over, and what the
      restoring pass gives back from there extends to what it gives back from here. */
  lemma {:induction false} RoundTripStep(s: string, i: nat, o: string, j: nat, d: Delimiter, f: string -> string, g: string -> string)
    requires KeepsContent(f)
    requires i < |s| && (Aligned(o, j, s, i, d, f) == true) && (SpansRestorable(s, i, d, f, g) == true)
    ensures j < |o| && i + Width(Scan(s, i, d), d) <= |s|
    ensures Width(Scan(o, j, d), d) == |PieceRender(Scan(s, i, d), d, f)|
    ensures (Aligned(o, j + Width(Scan(o, j, d), d), s, i + Width(Scan(s, i, d), d), d, f) == true)
    ensures (SpansRestorable(s, i + Width(Scan(s, i, d), d), d, f, g) == true)
    ensures (Restores(o, j + Width(Scan(o, j, d), d), s, i + Width(Scan(s, i, d), d), d, g) == true) ==>
              (Restores(o, j, s, i, d, g) == true)
  {
    SpansRestorableNext(s, i, d, f, g);
    RestoredWidth(s, i, o, j, d, f);
    AlignedNext(s, i, o, j, d, f, g);
    if Restores(o, j + Width(Scan(o, j, d), d), s, i + Width(Scan(s, i, d), d), d, g) {
      RestoresNext(s, i, o, j, d, f, g);
    }
  }

  /** Matching positions one piece further in both texts, from which restoring extends to here. */
  lemma {:induction false} RoundTripNext(s: string, i: nat, o: string, j: nat, d: Delimiter, f: string -> string, g: string -> string)
    returns (i': nat, j': nat)
    requires KeepsContent(f)
    requires i < |s| && (Aligned(o, j, s, i, d, f) == true) && (SpansRestorable(s, i, d, f, g) == true)
    ensures i < i' && (Aligned(o, j', s, i', d, f) == true) && (SpansRestorable(s, i', d, f, g) == true)
    ensures (Restores(o, j', s, i', d, g) == true) ==> (Restores(o, j, s, i, d, g) == true)
  {
    RoundTripStep(s, i, o, j, d, f, g);
    i', j' :| i < i' && (Aligned(o, j', s, i', d, f) == true) && (SpansRestorable(s, i', d, f, g) == true) &&
              ((Restores(o, j', s, i', d, g) == true) ==> (Restores(o, j, s, i, d, g) == true));
  }

  /** The restoring pass `g` undoes the protecting pass `f` of the same kind from matching
      positions, provided `g` gives back every span's content that `f` protected. */
  lemma {:induction false} PassRoundTripFrom(s: string, i: nat, o: string, j: nat, d: Delimiter, f: string -> string, g: string -> string)
    requires KeepsContent(f)
    requires (Aligned(o, j, s, i, d, f) == true) && (SpansRestorable(s, i, d, f, g) == true)
    ensures (Restores(o, j, s, i, d, g) == true)
    decreases |s| - i
  {
    if i < |s| {
      var i', j' := RoundTripNext(s, i, o, j, d, f, g);
      PassRoundTripFrom(s, i', o, j', d, f, g);
    } else {
      RoundTripEnd(s, o, j, d, f, g);
    }
  }

  /** One pass of `unescapeMath` undoes the pass of `escapeMath` of the same kind, provided no
      span held a placeholder string to begin with. */
  lemma {:induction false} PassRoundTrip(s: string, d: Delimiter)
    requires SpansPlaceholderFree(s, 0, d)
    ensures Rewrite(Rewrite(s, 0, d, EscapeChars), 0, d, UnescapeChars) == s
  {
    var o := Rewrite(s, 0, d, EscapeChars);
    EscapeRestorable(s, 0, d);
    AtWhole(o, o);
    EscapeKeepsContent();
    PassRoundTripFrom(s, 0, o, 0, d, EscapeChars, UnescapeChars);
    IdentityRewrite(s, d);
  }

  /** Escaping keeps a span's content non-empty. */
  lemma {:induction false} EscapeKeepsContent()
    ensures KeepsContent(EscapeChars)
  {
    forall c: string | |c| > 0
      ensures |EscapeChars(c)| > 0
    {
      EscapeKeepsSpanShape(c);
    }
  }
}

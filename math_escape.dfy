/** The substitution tables of the math shield (app.js `escapeMap` and `unescapeMap`) and
    what one span's content becomes when they are applied: the seven characters a Markdown
    renderer treats as syntax are swapped for numeric character references and back. */
module MathEscape {
  import opened Wrappers
  import opened Strings

  // ---------------------------------------------------------------------
  // The substitution table
  // ---------------------------------------------------------------------

  /** The keys of `escapeMap`, in its order. */
  const Reserved: seq<char> := ['\\', '<', '_', '*', '`', '\'', '"']

  /** The values of `escapeMap`, in the same order; `unescapeMap` is the reverse table. */
  const Placeholders: seq<string> := ["&#x5C;", "&#x3C;", "&#x5F;", "&#x2A;", "&#x60;", "&#x27;", "&#x22;"]

  /** The position of `c` in the table, or 7 when `c` is not reserved. */
  function Slot(c: char): (k: nat)
    ensures k <= 7
    ensures k < 7 ==> Reserved[k] == c
    ensures k == 7 ==> c !in Reserved
  {
    if c == '\\' then 0
    else if c == '<' then 1
    else if c == '_' then 2
    else if c == '*' then 3
    else if c == '`' then 4
    else if c == '\'' then 5
    else if c == '"' then 6
    else 7
  }

  /** The characters that placeholders are made of: none of them is reserved,
      and none is a `$` or a line break. */
  predicate PlaceholderChar(c: char) {
    c == '&' || c == '#' || c == 'x' || c == ';' || ('0' <= c <= '9') || ('A' <= c <= 'F')
  }

  /** Each placeholder is six characters long, starts with its only `&`, ends with `;`,
      and is made of placeholder characters. */
  lemma {:induction false} PlaceholderShape(k: nat)
    requires k < 7
    ensures |Placeholders[k]| == 6
    ensures Placeholders[k][0] == '&' && '&' !in Placeholders[k][1..]
    ensures forall i :: 0 <= i < 6 ==> PlaceholderChar(Placeholders[k][i])
  {
  }

  lemma {:induction false} PlaceholderCharNotReserved(c: char)
    requires PlaceholderChar(c)
    ensures Slot(c) == 7 && c != '$' && c != '\n'
  {
  }

  /** Distinct table rows have distinct placeholders, so no placeholder starts another. */
  lemma {:induction false} PlaceholdersDistinct(j: nat, k: nat)
    requires j < 7 && k < 7 && j != k
    ensures Placeholders[j] != Placeholders[k]
  {
    assert Placeholders[j][4] != Placeholders[k][4] || Placeholders[j][3] != Placeholders[k][3];
  }

  // ---------------------------------------------------------------------
  // Escaping the content of one span
  // ---------------------------------------------------------------------

  function EscapeChar(c: char): string {
    if Slot(c) < 7 then Placeholders[Slot(c)] else [c]
  }

  /** A span's content after escaping: every reserved character becomes its placeholder at once. */
  function EscapeChars(c: string): string {
    if c == [] then [] else EscapeChar(c[0]) + EscapeChars(c[1..])
  }

  /** The content after the first `m` `replace` passes of the `forEach`:
      the characters of the first `m` table rows are placeholders, the others are untouched. */
  ghost function EscapedBelow(c: string, m: nat): string
    requires m <= 7
  {
    if c == [] then []
    else (if Slot(c[0]) < m then Placeholders[Slot(c[0])] else [c[0]]) + EscapedBelow(c[1..], m)
  }

  lemma {:induction false} EscapedBelowNone(c: string)
    ensures EscapedBelow(c, 0) == c
  {
    if c != [] {
      EscapedBelowNone(c[1..]);
    }
  }

  lemma {:induction false} EscapedBelowAll(c: string)
    ensures EscapedBelow(c, 7) == EscapeChars(c)
  {
    if c != [] {
      EscapedBelowAll(c[1..]);
    }
  }

  /** Pass `m` of the `forEach` (`escaped.replace(/\c/g, placeholder)`) escapes exactly the
      characters of row `m`, and leaves the placeholders of earlier passes alone. */
  lemma {:induction false} EscapePass(c: string, m: nat)
    requires m < 7
    ensures ReplaceAll(EscapedBelow(c, m), [Reserved[m]], Placeholders[m]) == EscapedBelow(c, m + 1)
  {
    if c != [] {
      EscapePass(c[1..], m);
      var x := c[0];
      var rest := EscapedBelow(c[1..], m);
      var pat := [Reserved[m]];
      if Slot(x) < m {
        var p := Placeholders[Slot(x)];
        PlaceholderShape(Slot(x));
        forall i | 0 <= i < |p|
          ensures p[i] != Reserved[m]
        {
          PlaceholderCharNotReserved(p[i]);
        }
        ReplaceAllSkips(p, rest, pat, Placeholders[m]);
      } else if Slot(x) == m {
        assert StartsWith([x] + rest, pat);
        assert ([x] + rest)[1..] == rest;
      } else {
        ReplaceAllSkips([x], rest, pat, Placeholders[m]);
      }
    }
  }

  /** The `forEach` over `escapeMap` inside the callback of `escapeMath`:
      seven `replace` passes, which together escape every reserved character. */
  method EscapeSpan(content: string) returns (escaped: string)
    ensures escaped == EscapeChars(content)
  {
    escaped := content;
    EscapedBelowNone(content);
    for k := 0 to 7
      invariant escaped == EscapedBelow(content, k)
    {
      EscapePass(content, k);
      escaped := ReplaceAll(escaped, [Reserved[k]], Placeholders[k]);
    }
    EscapedBelowAll(content);
  }

  /** Every character of an escaped content is either one of the content's own
      unreserved characters or a placeholder character. */
  lemma {:induction false} EscapedCharOrigin(c: string, i: nat)
    requires i < |EscapeChars(c)|
    ensures Slot(EscapeChars(c)[i]) == 7
    ensures EscapeChars(c)[i] in c || PlaceholderChar(EscapeChars(c)[i])
  {
    var h := EscapeChar(c[0]);
    if Slot(c[0]) < 7 {
      PlaceholderShape(Slot(c[0]));
    }
    if i < |h| {
      if Slot(c[0]) < 7 {
        PlaceholderCharNotReserved(h[i]);
      }
    } else {
      EscapedCharOrigin(c[1..], i - |h|);
      assert EscapeChars(c)[i] == EscapeChars(c[1..])[i - |h|];
    }
  }

  /** After escaping, a span's content holds none of the seven reserved characters. */
  lemma {:induction false} EscapeRemovesReserved(c: string)
    ensures forall i :: 0 <= i < |EscapeChars(c)| ==> EscapeChars(c)[i] !in Reserved
  {
    forall i | 0 <= i < |EscapeChars(c)|
      ensures EscapeChars(c)[i] !in Reserved
    {
      EscapedCharOrigin(c, i);
    }
  }

  /** Escaping adds no `$` and no line break, and keeps a non-empty content non-empty. */
  lemma {:induction false} EscapeKeepsSpanShape(c: string)
    ensures '$' !in c ==> '$' !in EscapeChars(c)
    ensures '\n' !in c ==> '\n' !in EscapeChars(c)
    ensures '\\' !in EscapeChars(c)
    ensures c != [] ==> EscapeChars(c) != []
  {
    forall i | 0 <= i < |EscapeChars(c)|
      ensures EscapeChars(c)[i] in c || PlaceholderChar(EscapeChars(c)[i])
      ensures EscapeChars(c)[i] != '\\'
    {
      EscapedCharOrigin(c, i);
    }
    if c != [] {
      if Slot(c[0]) < 7 {
        PlaceholderShape(Slot(c[0]));
      }
      assert |EscapeChars(c)| >= |EscapeChar(c[0])| > 0;
    }
  }

  // ---------------------------------------------------------------------
  // Unescaping the content of one span
  // ---------------------------------------------------------------------

  /** The first table row, from row `k` on, whose placeholder starts `t`. */
  function PlaceholderFrom(t: string, k: nat): (r: Option<nat>)
    requires k <= 7
    ensures r.Some? ==> k <= r.value < 7 && StartsWith(t, Placeholders[r.value])
    ensures r.None? ==> forall m :: k <= m < 7 ==> !StartsWith(t, Placeholders[m])
    decreases 7 - k
  {
    if k == 7 then None
    else if StartsWith(t, Placeholders[k]) then Some(k)
    else PlaceholderFrom(t, k + 1)
  }

  /** A text that starts with placeholder `k` is recognised as starting with row `k`. */
  lemma {:induction false} PlaceholderAtStart(t: string, k: nat)
    requires k < 7 && StartsWith(t, Placeholders[k])
    ensures PlaceholderFrom(t, 0) == Some(k)
  {
    var r := PlaceholderFrom(t, 0);
    if r != Some(k) {
      var j := r.value;
      PlaceholderShape(j);
      PlaceholderShape(k);
      assert Placeholders[j] == t[..6] == Placeholders[k];
      PlaceholdersDistinct(j, k);
    }
  }

  /** A span's content after unescaping: every placeholder, read left to right, becomes its character. */
  function UnescapeChars(t: string): string
    decreases |t|
  {
    if t == [] then []
    else match PlaceholderFrom(t, 0)
      case Some(k) => [Reserved[k]] + UnescapeChars(t[|Placeholders[k]|..])
      case None => [t[0]] + UnescapeChars(t[1..])
  }

  /** The content after the first `m` `replace` passes of the `forEach` over `unescapeMap`:
      the placeholders of the first `m` rows are characters again, the others are still there. */
  ghost function UnescapedBelow(t: string, m: nat): string
    requires m <= 7
    decreases |t|
  {
    if t == [] then []
    else match PlaceholderFrom(t, 0)
      case Some(k) => (if k < m then [Reserved[k]] else Placeholders[k]) + UnescapedBelow(t[|Placeholders[k]|..], m)
      case None => [t[0]] + UnescapedBelow(t[1..], m)
  }

  lemma {:induction false} UnescapedBelowNone(t: string)
    ensures UnescapedBelow(t, 0) == t
    decreases |t|
  {
    if t != [] {
      match PlaceholderFrom(t, 0)
      case Some(k) =>
        UnescapedBelowNone(t[|Placeholders[k]|..]);
        assert t == Placeholders[k] + t[|Placeholders[k]|..];
      case None =>
        UnescapedBelowNone(t[1..]);
    }
  }

  lemma {:induction false} UnescapedBelowAll(t: string)
    ensures UnescapedBelow(t, 7) == UnescapeChars(t)
    decreases |t|
  {
    if t != [] {
      match PlaceholderFrom(t, 0)
      case Some(k) =>
        UnescapedBelowAll(t[|Placeholders[k]|..]);
      case None =>
        UnescapedBelowAll(t[1..]);
    }
  }

  /** Text that starts with characters that are neither `&` nor reserved came from text
      that starts with the same characters. */
  lemma {:induction false} UnescapedKeepsLiteral(u: string, m: nat, w: string)
    requires m <= 7
    requires StartsWith(UnescapedBelow(u, m), w)
    requires forall i :: 0 <= i < |w| ==> w[i] != '&' && Slot(w[i]) == 7
    ensures StartsWith(u, w)
    decreases |u|
  {
    if w != [] {
      assert u != [];
      match PlaceholderFrom(u, 0)
      case Some(k) =>
        PlaceholderShape(k);
        assert false;
      case None =>
        var tail := UnescapedBelow(u[1..], m);
        assert UnescapedBelow(u, m) == [u[0]] + tail;
        assert u[0] == w[0];
        assert StartsWith(tail, w[1..]);
        UnescapedKeepsLiteral(u[1..], m, w[1..]);
        assert u[..|w|] == [u[0]] + u[1..][..|w| - 1];
    }
  }

  /** Pass `m` of the `forEach` over `unescapeMap` (`unescaped.replace(/placeholder/g, c)`)
      turns back exactly the placeholders of row `m`. */
  lemma {:induction false} UnescapePass(t: string, m: nat)
    requires m < 7
    ensures ReplaceAll(UnescapedBelow(t, m), Placeholders[m], [Reserved[m]]) == UnescapedBelow(t, m + 1)
    decreases |t|
  {
    PlaceholderShape(m);
    if t != [] {
      match PlaceholderFrom(t, 0)
      case Some(k) =>
        var rest := t[|Placeholders[k]|..];
        UnescapePass(rest, m);
        PassOverPlaceholder(k, m, UnescapedBelow(rest, m), UnescapedBelow(rest, m + 1));
      case None =>
        UnescapePass(t[1..], m);
        PlainStartsNoPlaceholder(t, m);
        ReplaceAllNoMatch(t[0], UnescapedBelow(t[1..], m), Placeholders[m], [Reserved[m]]);
    }
  }

  /** Pass `m` over a placeholder of row `k`, already turned back when `k < m`, followed by `r`:
      it turns the placeholder back when `k == m`, leaves it otherwise, and goes on in `r`. */
  lemma {:induction false} PassOverPlaceholder(k: nat, m: nat, r: string, r': string)
    requires k < 7 && m < 7
    requires ReplaceAll(r, Placeholders[m], [Reserved[m]]) == r'
    ensures ReplaceAll((if k < m then [Reserved[k]] else Placeholders[k]) + r, Placeholders[m], [Reserved[m]])
              == (if k < m + 1 then [Reserved[k]] else Placeholders[k]) + r'
  {
    var pat := Placeholders[m];
    var rep := [Reserved[m]];
    PlaceholderShape(m);
    PlaceholderShape(k);
    if k < m {
      ReplaceAllSkips([Reserved[k]], r, pat, rep);
    } else if k == m {
      assert StartsWith(pat + r, pat);
      assert (pat + r)[|pat|..] == r;
    } else {
      var p := Placeholders[k];
      PlaceholdersDistinct(k, m);
      assert !StartsWith(p + r, pat);
      assert (p + r)[1..] == p[1..] + r;
      ReplaceAllSkips(p[1..], r, pat, rep);
      assert p == [p[0]] + p[1..];
    }
  }

  /** Where no placeholder starts, the character there and what the first `m` passes make of the
      rest do not start with the placeholder of row `m`: its tail would be literal text of `t`. */
  lemma {:induction false} PlainStartsNoPlaceholder(t: string, m: nat)
    requires t != [] && PlaceholderFrom(t, 0).None? && m < 7
    ensures !StartsWith([t[0]] + UnescapedBelow(t[1..], m), Placeholders[m])
  {
    var pat := Placeholders[m];
    var r := UnescapedBelow(t[1..], m);
    PlaceholderShape(m);
    if StartsWith([t[0]] + r, pat) {
      assert StartsWith(r, pat[1..]);
      forall i | 0 <= i < |pat[1..]|
        ensures pat[1..][i] != '&' && Slot(pat[1..][i]) == 7
      {
        PlaceholderCharNotReserved(pat[i + 1]);
      }
      UnescapedKeepsLiteral(t[1..], m, pat[1..]);
      assert false;
    }
  }

  /** The `forEach` over `unescapeMap` inside the callback of `unescapeMath`:
      seven `replace` passes, which together turn every placeholder back into its character. */
  method UnescapeSpan(content: string) returns (unescaped: string)
    ensures unescaped == UnescapeChars(content)
  {
    unescaped := content;
    UnescapedBelowNone(content);
    for k := 0 to 7
      invariant unescaped == UnescapedBelow(content, k)
    {
      UnescapePass(content, k);
      PlaceholderShape(k);
      unescaped := ReplaceAll(unescaped, Placeholders[k], [Reserved[k]]);
    }
    UnescapedBelowAll(content);
  }

  // ---------------------------------------------------------------------
  // The round trip of one content
  // ---------------------------------------------------------------------

  /** `c` holds none of the seven placeholder strings. */
  ghost predicate NoPlaceholder(c: string) {
    forall i, k :: 0 <= i < |c| && 0 <= k < 7 ==> !StartsWith(c[i..], Placeholders[k])
  }

  /** A text starts with `p` when its first character is that of `p` and the rest starts with the rest of `p`. */
  lemma {:induction false} StartsWithCons(s: string, p: string)
    ensures s != [] && p != [] && s[0] == p[0] && StartsWith(s[1..], p[1..]) ==> StartsWith(s, p)
  {
    if s != [] && p != [] && s[0] == p[0] && StartsWith(s[1..], p[1..]) {
      assert s[..|p|] == [s[0]] + s[1..][..|p| - 1];
    }
  }

  /** An escaped content starts with `&` where the content starts with a reserved character,
      and with the content's own first character otherwise. */
  lemma {:induction false} EscapeHead(u: string)
    requires u != []
    ensures EscapeChars(u) != []
    ensures EscapeChars(u)[0] == if Slot(u[0]) < 7 then '&' else u[0]
  {
    if Slot(u[0]) < 7 {
      PlaceholderShape(Slot(u[0]));
    }
  }

  /** Escaped text that starts with characters other than `&` came from text starting with them. */
  lemma {:induction false} EscapedKeepsLiteral(u: string, w: string)
    requires StartsWith(EscapeChars(u), w)
    requires forall i :: 0 <= i < |w| ==> w[i] != '&'
    ensures StartsWith(u, w)
  {
    if w != [] {
      assert u != [];
      EscapeHead(u);
      assert w[0] == EscapeChars(u)[0];
      assert EscapeChars(u) == [u[0]] + EscapeChars(u[1..]);
      assert StartsWith(EscapeChars(u[1..]), w[1..]);
      EscapedKeepsLiteral(u[1..], w[1..]);
      StartsWithCons(u, w);
    }
  }

  lemma {:induction false} NoPlaceholderTail(c: string)
    requires c != [] && NoPlaceholder(c)
    ensures NoPlaceholder(c[1..])
  {
    forall i, k | 0 <= i < |c[1..]| && 0 <= k < 7
      ensures !StartsWith(c[1..][i..], Placeholders[k])
    {
      assert c[1..][i..] == c[i + 1..];
    }
  }

  lemma {:induction false} UnescapePlaceholderCons(k: nat, t: string)
    requires k < 7
    ensures UnescapeChars(Placeholders[k] + t) == [Reserved[k]] + UnescapeChars(t)
  {
    PlaceholderShape(k);
    var e := Placeholders[k] + t;
    assert e[..6] == Placeholders[k];
    PlaceholderAtStart(e, k);
    assert e[|Placeholders[k]|..] == t;
  }

  lemma {:induction false} UnescapeLiteralCons(x: char, t: string)
    requires PlaceholderFrom([x] + t, 0).None?
    ensures UnescapeChars([x] + t) == [x] + UnescapeChars(t)
  {
    assert ([x] + t)[1..] == t;
  }

  /** Escaping a content that starts with an unreserved character and not with a placeholder
      gives text that does not start with a placeholder either. */
  lemma {:induction false} NoPlaceholderAfterEscape(c: string)
    requires c != [] && Slot(c[0]) == 7
    requires forall k :: 0 <= k < 7 ==> !StartsWith(c, Placeholders[k])
    ensures PlaceholderFrom(EscapeChars(c), 0).None?
  {
    var e := EscapeChars(c);
    var er := EscapeChars(c[1..]);
    assert e == [c[0]] + er;
    if PlaceholderFrom(e, 0).Some? {
      var k := PlaceholderFrom(e, 0).value;
      var p := Placeholders[k];
      PlaceholderShape(k);
      StartsWithCons(c, p);
      assert e[1..] == er;
      assert StartsWith(er, p[1..]);
      EscapedKeepsLiteral(c[1..], p[1..]);
      assert false;
    }
  }

  /** `unescapeMap` undoes `escapeMap`: unescaping an escaped content gives it back,
      provided the content did not already hold one of the placeholder strings. */
  lemma {:induction false} ContentRoundTrip(c: string)
    requires NoPlaceholder(c)
    ensures UnescapeChars(EscapeChars(c)) == c
  {
    if c != [] {
      var x := c[0];
      var er := EscapeChars(c[1..]);
      NoPlaceholderTail(c);
      ContentRoundTrip(c[1..]);
      if Slot(x) < 7 {
        assert EscapeChars(c) == Placeholders[Slot(x)] + er;
        UnescapePlaceholderCons(Slot(x), er);
      } else {
        assert EscapeChars(c) == [x] + er;
        assert c[0..] == c;
        NoPlaceholderAfterEscape(c);
        UnescapeLiteralCons(x, er);
      }
      assert c == [x] + c[1..];
    }
  }

  /** A content that already holds a placeholder is not given back: the placeholder
      comes back as the character it stands for. */
  lemma {:induction false} PlaceholderInContentIsNotKept()
    ensures EscapeChars("&#x5C;") == "&#x5C;"
    ensures UnescapeChars(EscapeChars("&#x5C;")) == "\\"
  {
    var t := "&#x5C;";
    assert EscapeChars(t) == t by {
      assert EscapeChars(t[5..]) == t[5..];
      assert EscapeChars(t[4..]) == t[4..];
      assert EscapeChars(t[3..]) == t[3..];
      assert EscapeChars(t[2..]) == t[2..];
      assert EscapeChars(t[1..]) == t[1..];
    }
    PlaceholderAtStart(t, 0);
  }
}

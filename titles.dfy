/** The two ways the server reads a title from the first line of a Markdown document:
    the page title of `doc_handler` and the listing title of `getMarkdownTitle`. */
module Titles {
  import opened Wrappers
  import opened Strings

  /** The characters `.` in a regular expression does not match. */
  predicate IsLineTerminator(c: char) {
    c == '\n' || c == '\r' || c == '\U{2028}' || c == '\U{2029}'
  }

  /** The first line terminator at or after position `i`, or `|s|` when there is none. */
  function LineEnd(s: string, i: nat): (k: nat)
    requires i <= |s|
    ensures i <= k <= |s|
    ensures forall m :: i <= m < k ==> !IsLineTerminator(s[m])
    ensures k < |s| ==> IsLineTerminator(s[k])
    decreases |s| - i
  {
    if i == |s| || IsLineTerminator(s[i]) then i else LineEnd(s, i + 1)
  }

  /** The line break `\r?\n` starts at position `k`. */
  predicate BreakAt(s: string, k: nat) {
    k < |s| && (s[k] == '\n' || (s[k] == '\r' && k + 1 < |s| && s[k + 1] == '\n'))
  }

  /** The text starts with `# `. */
  predicate Heading(s: string) {
    |s| >= 2 && s[0] == '#' && s[1] == ' '
  }

  /** `/^# .*?(?=\r?\n)/` matches the first `k` characters of `s`: a heading marker, then
      characters other than line terminators, then a line break that is looked at but not taken. */
  ghost predicate DocTitleMatch(s: string, k: nat) {
    Heading(s) && 2 <= k && BreakAt(s, k) && forall m :: 2 <= m < k ==> !IsLineTerminator(s[m])
  }

  /** `/^# (.*?)(?:\r?\n|$)/` matches with its group ending at position `k`: the same, except that
      the end of the text also ends the line. */
  ghost predicate MarkdownTitleMatch(s: string, k: nat) {
    Heading(s) && 2 <= k <= |s| && (BreakAt(s, k) || k == |s|) && forall m :: 2 <= m < k ==> !IsLineTerminator(s[m])
  }

  /** The title `doc_handler` gives a page: the matched first line without its `#`, trimmed,
      or else the requested file path. */
  function DocTitle(doc: string, filePath: string): string {
    if Heading(doc) && BreakAt(doc, LineEnd(doc, 2)) then Trim(doc[1..LineEnd(doc, 2)]) else filePath
  }

  /** `getMarkdownTitle`: the text of the first line after `# `, trimmed, or `None` when the
      file cannot be read (`content` is `None`) or does not start with such a line. */
  function MarkdownTitle(content: Option<string>): Option<string> {
    match content
    case None => None
    case Some(c) =>
      if Heading(c) && (BreakAt(c, LineEnd(c, 2)) || LineEnd(c, 2) == |c|) then Some(Trim(c[2..LineEnd(c, 2)]))
      else None
  }

  /** A position with no line terminator before it, from `i` on, that is a line terminator or
      the end of the text, is the one `LineEnd` finds. */
  lemma {:induction false} LineEndAt(s: string, i: nat, k: nat)
    requires i <= k <= |s| && (k == |s| || IsLineTerminator(s[k]))
    requires forall m :: i <= m < k ==> !IsLineTerminator(s[m])
    ensures LineEnd(s, i) == k
    decreases k - i
  {
    if i < k {
      LineEndAt(s, i + 1, k);
    }
  }

  /** The expression has at most one match: the lazy `.*?` cannot pass a line terminator. */
  lemma {:induction false} DocTitleMatchUnique(s: string, k1: nat, k2: nat)
    requires DocTitleMatch(s, k1) && DocTitleMatch(s, k2)
    ensures k1 == k2
  {
    LineEndAt(s, 2, k1);
    LineEndAt(s, 2, k2);
  }

  /** `doc_handler` takes its title from the match when there is one, and from the file path
      when there is none. */
  lemma {:induction false} DocTitleSpec(doc: string, filePath: string)
    ensures forall k: nat :: DocTitleMatch(doc, k) ==> DocTitle(doc, filePath) == Trim(doc[1..k])
    ensures (forall k: nat :: !DocTitleMatch(doc, k)) ==> DocTitle(doc, filePath) == filePath
  {
    forall k: nat | DocTitleMatch(doc, k)
      ensures DocTitle(doc, filePath) == Trim(doc[1..k])
    {
      LineEndAt(doc, 2, k);
    }
    if Heading(doc) && BreakAt(doc, LineEnd(doc, 2)) {
      assert DocTitleMatch(doc, LineEnd(doc, 2));
    }
  }

  /** `getMarkdownTitle` returns the group of the match when there is one, and `None` when
      there is none. */
  lemma {:induction false} MarkdownTitleSpec(c: string)
    ensures forall k: nat :: MarkdownTitleMatch(c, k) ==> MarkdownTitle(Some(c)) == Some(Trim(c[2..k]))
    ensures (forall k: nat :: !MarkdownTitleMatch(c, k)) ==> MarkdownTitle(Some(c)) == None
  {
    forall k: nat | MarkdownTitleMatch(c, k)
      ensures MarkdownTitle(Some(c)) == Some(Trim(c[2..k]))
    {
      LineEndAt(c, 2, k);
    }
    if Heading(c) && (BreakAt(c, LineEnd(c, 2)) || LineEnd(c, 2) == |c|) {
      assert MarkdownTitleMatch(c, LineEnd(c, 2));
    }
  }

  /** Wherever `doc_handler` finds a title, `getMarkdownTitle` finds the same one: the blank
      after `#` that one of them keeps is trimmed away. */
  lemma {:induction false} TitlesAgree(doc: string, filePath: string, k: nat)
    requires DocTitleMatch(doc, k)
    ensures MarkdownTitle(Some(doc)) == Some(DocTitle(doc, filePath))
  {
    DocTitleSpec(doc, filePath);
    MarkdownTitleSpec(doc);
    assert MarkdownTitleMatch(doc, k);
    var t := doc[1..k];
    assert t[0] == ' ' && t[1..] == doc[2..k];
    assert TrimStart(t) == TrimStart(doc[2..k]);
  }

  /** A document whose only line is a heading, with no line break after it, has a title for the
      listing but none for the page, which falls back to the file path. */
  lemma {:induction false} UnterminatedHeading(t: string, filePath: string)
    requires forall m :: 0 <= m < |t| ==> !IsLineTerminator(t[m])
    ensures MarkdownTitle(Some("# " + t)) == Some(Trim(t))
    ensures DocTitle("# " + t, filePath) == filePath
  {
    var c := "# " + t;
    assert c[0] == '#' && c[1] == ' ';
    forall m | 2 <= m < |c|
      ensures !IsLineTerminator(c[m])
    {
      assert c[m] == t[m - 2];
    }
    LineEndAt(c, 2, |c|);
    assert c[2..|c|] == t;
  }
}

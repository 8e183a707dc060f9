/** The header arithmetic of `mp4_handler`: `parseInt` as the language defines it, the
    `Range: bytes=start-end` header, and the status and headers the handler sets before it
    starts streaming. */
module Ranges {
  import opened Wrappers
  import opened Strings

  /** A JavaScript number as `parseInt` produces it: an integer or `NaN`. */
  datatype Num = NaN | Int(value: int)

  // ---------------------------------------------------------------------
  // parseInt
  // ---------------------------------------------------------------------

  /** The value of `c` as a digit in base `radix` (10 or 16), or `radix` when it is none. */
  function DigitValue(c: char, radix: nat): (v: nat)
    ensures v <= radix
  {
    if '0' <= c <= '9' && (c as int) - ('0' as int) < radix then (c as int) - ('0' as int)
    else if radix == 16 && 'a' <= c <= 'f' then (c as int) - ('a' as int) + 10
    else if radix == 16 && 'A' <= c <= 'F' then (c as int) - ('A' as int) + 10
    else radix
  }

  predicate IsDigit(c: char, radix: nat) {
    DigitValue(c, radix) < radix
  }

  /** The length of the longest prefix of `s` made of digits in base `radix`. */
  function DigitRun(s: string, radix: nat): (n: nat)
    ensures n <= |s|
    ensures forall m :: 0 <= m < n ==> IsDigit(s[m], radix)
    ensures n < |s| ==> !IsDigit(s[n], radix)
  {
    if s == [] || !IsDigit(s[0], radix) then 0
    else
      var n := DigitRun(s[1..], radix);
      assert forall m :: 1 <= m < 1 + n ==> s[m] == s[1..][m - 1];
      1 + n
  }

  /** The number the digits `d` spell in base `radix`, most significant first. */
  function Value(d: string, radix: nat): nat {
    if d == [] then 0
    else Value(d[..|d| - 1], radix) * radix + DigitValue(d[|d| - 1], radix)
  }

  /** `parseInt(s)` with no radix: leading white space and one sign are skipped, `0x` or `0X`
      switches to base 16, and the longest run of digits that follows is read; no digits at
      all give `NaN`. */
  function ParseInt(s: string): Num {
    ParseSigned(TrimStart(s))
  }

  /** `parseInt` after the white space: an optional sign, then the digits. */
  function ParseSigned(t: string): Num {
    if |t| > 0 && t[0] == '-' then
      match ParseUnsigned(t[1..])
      case NaN => NaN
      case Int(v) => Int(-v)
    else if |t| > 0 && t[0] == '+' then ParseUnsigned(t[1..])
    else ParseUnsigned(t)
  }

  /** `parseInt` after the sign: the base prefix, then the longest run of digits. */
  function ParseUnsigned(u: string): (r: Num)
    ensures r.Int? ==> r.value >= 0
  {
    var hex := |u| >= 2 && u[0] == '0' && (u[1] == 'x' || u[1] == 'X');
    var radix := if hex then 16 else 10;
    var w := if hex then u[2..] else u;
    var n := DigitRun(w, radix);
    if n == 0 then NaN else Int(Value(w[..n], radix))
  }

  // ---------------------------------------------------------------------
  // Number to text
  // ---------------------------------------------------------------------

  function DigitChar(d: nat): (c: char)
    requires d < 10
    ensures DigitValue(c, 10) == d
  {
    ('0' as int + d) as char
  }

  /** The decimal digits of `n`, without leading zeros. */
  function Digits(n: nat): (s: string)
    ensures |s| > 0
    ensures forall m :: 0 <= m < |s| ==> IsDigit(s[m], 10)
    ensures Value(s, 10) == n
  {
    if n < 10 then
      assert [DigitChar(n)][..0] == [];
      [DigitChar(n)]
    else
      var s := Digits(n / 10) + [DigitChar(n % 10)];
      assert s[..|s| - 1] == Digits(n / 10);
      s
  }

  /** How an integer-valued number is written into a header: `-` and the digits when negative. */
  function DecimalText(n: int): string {
    if n < 0 then "-" + Digits(-n) else Digits(n)
  }

  /** How a number is written into a header; `NaN` is written as such. */
  function NumText(x: Num): string {
    match x
    case NaN => "NaN"
    case Int(n) => DecimalText(n)
  }

  /** The whole of a run of decimal digits is read, in base 10. */
  lemma {:induction false} ParseDigits(d: string)
    requires |d| > 0 && forall m :: 0 <= m < |d| ==> IsDigit(d[m], 10)
    ensures ParseUnsigned(d) == Int(Value(d, 10))
  {
    if |d| >= 2 {
      assert IsDigit(d[1], 10);
    }
    RunToEnd(d, 10);
    assert d[..|d|] == d;
  }

  /** Text that does not start with white space is not trimmed. */
  lemma {:induction false} NoLeadingSpace(s: string)
    requires |s| > 0 && !IsJsSpace(s[0])
    ensures TrimStart(s) == s
  {
  }

  /** A text made only of digits is one run. */
  lemma {:induction false} RunToEnd(d: string, radix: nat)
    requires forall m :: 0 <= m < |d| ==> IsDigit(d[m], radix)
    ensures DigitRun(d, radix) == |d|
    decreases |d|
  {
    if d != [] {
      assert forall m :: 0 <= m < |d| - 1 ==> d[1..][m] == d[m + 1];
      RunToEnd(d[1..], radix);
    }
  }

  /** `parseInt` reads back every integer as the handler writes it. */
  lemma {:induction false} ParseDecimalText(n: int)
    ensures ParseInt(DecimalText(n)) == Int(n)
  {
    var t := DecimalText(n);
    if n < 0 {
      ParseDigits(Digits(-n));
      assert t[1..] == Digits(-n);
    } else {
      ParseDigits(Digits(n));
      assert IsDigit(t[0], 10);
    }
    NoLeadingSpace(t);
  }

  /** No digit is a `-`. */
  lemma {:induction false} DigitsHaveNoDash(n: nat)
    ensures '-' !in Digits(n)
  {
    var d := Digits(n);
    forall m | 0 <= m < |d|
      ensures d[m] != '-'
    {
      assert IsDigit(d[m], 10);
    }
  }

  // ---------------------------------------------------------------------
  // The range header
  // ---------------------------------------------------------------------

  /** What `mp4_handler` sends before the stream, besides `Content-Type: video/mp4` and
      `Content-Disposition: inline`, which every answer that gets that far carries. */
  datatype VideoReply =
      /** Status 206 with `Accept-Ranges: bytes`, the stream running from `start` to `end`. */
    | Partial(start: Num, end: Num, contentRange: string, contentLength: Num)
      /** Status 200, the whole file. */
    | Whole(size: nat)
      /** Status 500: the URL does not decode or the file cannot be stated. */
    | Failed
      /** Status 500 after the 206 headers were set: the stream refused its `start` and `end`. */
    | Rejected

  function Status(r: VideoReply): nat {
    match r
    case Partial(_, _, _, _) => 206
    case Whole(_) => 200
    case Failed => 500
    case Rejected => 500
  }

  /** `Number.MAX_SAFE_INTEGER`, the largest position a file stream accepts. */
  const MaxSafeInteger := 0x1F_FFFF_FFFF_FFFF

  /** The check `fs.createReadStream` makes of its options before anything is read: `start` and
      `end` are integers from 0 to `Number.MAX_SAFE_INTEGER`, and `start` is not after `end`.
      When it fails the call throws, and the handler's `catch` answers 500. */
  predicate StreamAccepts(start: Num, end: Num) {
    start.Int? && end.Int? && 0 <= start.value <= end.value <= MaxSafeInteger
  }

  /** `end_pos - start_pos + 1`, where `NaN` in gives `NaN` out. */
  function Length(start: Num, end: Num): Num {
    if start.NaN? || end.NaN? then NaN else Int(end.value - start.value + 1)
  }

  /** The first `bytes=` is removed, the rest split at `-`; the first two pieces are read as
      integers, and an end that does not read as one (or is missing) is the last byte. */
  function RangeBounds(header: string, size: nat): (Num, Num) {
    var parts := Split(ReplaceFirst(header, "bytes=", ""), '-');
    var start := ParseInt(parts[0]);
    var end := if |parts| >= 2 then ParseInt(parts[1]) else NaN;
    (start, if end.NaN? then Int(size - 1) else end)
  }

  /** `mp4_handler` up to the headers. `decoded` is `decodeURIComponent(req.url)`, `None` when it
      throws; `sizes` maps the paths `statSync` succeeds on to their sizes; `range` is the
      `Range` header, if sent. An empty header counts as none. */
  function VideoResponse(decoded: Option<string>, docsPath: string, sizes: map<string, nat>,
                         range: Option<string>): VideoReply {
    match decoded
    case None => Failed
    case Some(url) =>
      if docsPath + url !in sizes then Failed
      else
        var size := sizes[docsPath + url];
        if range.None? || range.value == "" then Whole(size)
        else
          var (start, end) := RangeBounds(range.value, size);
          if StreamAccepts(start, end) then
            Partial(start, end, "bytes " + NumText(start) + "-" + NumText(end) + "/" + DecimalText(size),
                    Length(start, end))
          else Rejected
  }

  /** For a file that can be stated, a missing or empty header is answered with 200 and the
      whole size; a non-empty one with 206 when the stream accepts its bounds, and otherwise
      with 500. There is no fourth outcome. */
  lemma {:induction false} VideoStatus(url: string, docsPath: string, sizes: map<string, nat>, range: Option<string>)
    requires docsPath + url in sizes
    ensures var r := VideoResponse(Some(url), docsPath, sizes, range);
      && (r.Whole? <==> range.None? || range.value == "")
      && (r.Whole? ==> r == Whole(sizes[docsPath + url]))
      && (Status(r) == 206 <==>
            range.Some? && range.value != "" &&
            StreamAccepts(RangeBounds(range.value, sizes[docsPath + url]).0, RangeBounds(range.value, sizes[docsPath + url]).1))
      && (Status(r) == 500 <==> r == Rejected)
  {
  }

  /** Removing the first `bytes=` from a header that starts with it leaves the rest. */
  lemma {:induction false} StripBytes(x: string)
    ensures ReplaceFirst("bytes=" + x, "bytes=", "") == x
  {
    var h := "bytes=" + x;
    assert h[..|"bytes="|] == "bytes=";
    assert h[|"bytes="|..] == x;
  }

  /** The header's `bytes=` goes, and two dash-free pieces around one `-` are its two parts. */
  lemma {:induction false} HeaderPieces(x: string, y: string)
    requires '-' !in x && '-' !in y
    ensures Split(ReplaceFirst("bytes=" + x + "-" + y, "bytes=", ""), '-') == [x, y]
  {
    assert "bytes=" + x + "-" + y == "bytes=" + (x + ['-'] + y);
    StripBytes(x + ['-'] + y);
    SplitFirst(x, y, '-');
    SplitWhole(y, '-');
    assert [x] + [y] == [x, y];
  }

  /** `bytes=a-b` is read as start `a` and end `b`, with a length of `b - a + 1`, whatever `a`,
      `b` and the size are. */
  lemma {:induction false} ClosedRange(a: nat, b: nat, size: nat)
    ensures RangeBounds("bytes=" + DecimalText(a) + "-" + DecimalText(b), size) == (Int(a), Int(b))
    ensures Length(Int(a), Int(b)) == Int(b - a + 1)
  {
    DigitsHaveNoDash(a);
    DigitsHaveNoDash(b);
    HeaderPieces(DecimalText(a), DecimalText(b));
    ParseDecimalText(a);
    ParseDecimalText(b);
  }

  /** `parseInt("")` is `NaN`. */
  lemma {:induction false} ParseEmpty()
    ensures ParseInt("") == NaN
  {
    assert TrimStart("") == "";
    assert DigitRun("", 10) == 0;
  }

  /** `bytes=a-` runs to the last byte of the file. */
  lemma {:induction false} OpenRange(a: nat, size: nat)
    ensures RangeBounds("bytes=" + DecimalText(a) + "-", size) == (Int(a), Int(size - 1))
    ensures Length(Int(a), Int(size - 1)) == Int(size - a)
  {
    DigitsHaveNoDash(a);
    HeaderPieces(DecimalText(a), "");
    assert "bytes=" + DecimalText(a) + "-" + "" == "bytes=" + DecimalText(a) + "-";
    ParseDecimalText(a);
    ParseEmpty();
  }

  /** The range is not checked against the file: `bytes=a-b` with `a <= b` is answered with 206
      and a `Content-Length` of `b - a + 1`, even when `b` is past the last byte and the stream
      then sends fewer bytes than that. */
  lemma {:induction false} NoBoundsCheck(url: string, docsPath: string, sizes: map<string, nat>, a: nat, b: nat)
    requires docsPath + url in sizes && a <= b <= MaxSafeInteger
    ensures var r := VideoResponse(Some(url), docsPath, sizes, Some("bytes=" + DecimalText(a) + "-" + DecimalText(b)));
      && r.Partial? && r.start == Int(a) && r.end == Int(b) && r.contentLength == Int(b - a + 1)
      && r.contentRange == "bytes " + DecimalText(a) + "-" + DecimalText(b) + "/" + DecimalText(sizes[docsPath + url])
    ensures b >= sizes[docsPath + url] ==> b - a + 1 > sizes[docsPath + url] - a
  {
    ClosedRange(a, b, sizes[docsPath + url]);
  }

  /** A start after the end makes the stream throw: the answer is 500. */
  lemma {:induction false} InvertedRangeRejected(url: string, docsPath: string, sizes: map<string, nat>, a: nat, b: nat)
    requires docsPath + url in sizes && b < a
    ensures VideoResponse(Some(url), docsPath, sizes, Some("bytes=" + DecimalText(a) + "-" + DecimalText(b))) == Rejected
  {
    ClosedRange(a, b, sizes[docsPath + url]);
  }

  /** `bytes=a-` on an empty file asks for the bytes up to position -1: the answer is 500. */
  lemma {:induction false} OpenRangeOnEmptyFile(url: string, docsPath: string, sizes: map<string, nat>, a: nat)
    requires docsPath + url in sizes && sizes[docsPath + url] == 0
    ensures VideoResponse(Some(url), docsPath, sizes, Some("bytes=" + DecimalText(a) + "-")) == Rejected
  {
    OpenRange(a, 0);
  }

  /** A header without a `-` runs from its number to the last byte. */
  lemma {:induction false} RangeWithoutDash(a: nat, size: nat)
    ensures RangeBounds("bytes=" + DecimalText(a), size) == (Int(a), Int(size - 1))
  {
    DigitsHaveNoDash(a);
    StripBytes(DecimalText(a));
    SplitWhole(DecimalText(a), '-');
    ParseDecimalText(a);
  }

  /** A header with nothing before its `-` has no start: the start and the length the handler
      computes are `NaN`. */
  lemma {:induction false} RangeWithoutStart(y: string, size: nat)
    requires '-' !in y
    ensures RangeBounds("bytes=-" + y, size).0 == NaN
    ensures Length(RangeBounds("bytes=-" + y, size).0, RangeBounds("bytes=-" + y, size).1) == NaN
  {
    assert "bytes=-" + y == "bytes=" + ([] + ['-'] + y);
    StripBytes([] + ['-'] + y);
    SplitFirst([], y, '-');
    ParseEmpty();
  }

  /** A header with nothing before its `-` gives the stream a `NaN` start: the answer is 500. */
  lemma {:induction false} MissingStartRejected(url: string, docsPath: string, sizes: map<string, nat>, y: string)
    requires docsPath + url in sizes && '-' !in y
    ensures VideoResponse(Some(url), docsPath, sizes, Some("bytes=-" + y)) == Rejected
  {
    RangeWithoutStart(y, sizes[docsPath + url]);
  }
}

# tinymdserv request pipeline, modelled in Dafny

tinymdserv is a small Node/Express server (`app.js`) that serves a tree of Markdown files as
a documentation site. This project models the logic that decides what each request gets back,
and proves properties of that model:

- **Math shield** (`math_escape.dfy`, `math_spans.dfy`, `math_passes.dfy`). `escapeMath`
  finds `$...$` and `$$...$$` spans with two regular expressions and replaces seven reserved
  characters inside each span with numeric-entity placeholders, so that `marked` leaves them
  alone. `unescapeMath` turns them back after rendering.
  - Each `text.replace(regex, callback)` is a left-to-right scanner (`MathSpans.Rewrite`) that
    follows the regular expression's rules: the lookbehinds, the lazy `+?`, and the character
    classes.
  - The `forEach` over the table inside a callback is a method with a loop (`EscapeSpan`,
    `UnescapeSpan`). It is proved equal to a simultaneous per-character substitution.
- **Titles** (`titles.dfy`). The page title taken by `doc_handler` and the listing title taken
  by `getMarkdownTitle` follow two slightly different regular expressions.
- **Documents** (`documents.dfy`). `doc_handler` strips the query string and shields the math
  around `marked`. `datetime_handler` strips the `.__datetime__` suffix.
- **Search** (`search.dfy`). `search_files` walks the tree depth first. The file system is a
  tree of `Node`s, and the walk is a class whose recursive method pushes onto a sequence.
- **Ranges** (`ranges.dfy`). This is `parseInt` as the language defines it, plus the
  `Range: bytes=start-end` arithmetic of `mp4_handler`.
- **Listing** (`listing.dfy`). `default_handler` tries the fallback endings in order, then
  builds a sorted directory listing, else answers 404.
- **Auth** (`auth.dfy`). This covers `requireAuth`, `POST /login` and `POST /logout`.

`strings.dfy` holds the JavaScript string operations the server uses: `split`, `indexOf`,
`replace`, `trim`, `toLowerCase` and `includes`. `responses.dfy` holds the replies a handler
can send.

Outside effects are inputs:
- The file system is a map from path to what a read, a stat or a directory read gives.
- `decodeURIComponent`'s result is an `Option`; `None` means it throws.
- `marked`, `path.join`, `encodeURIComponent`, `localeCompare` and `generateAuthToken` are
  function parameters.

Where the code and the design description of the server differ, the model follows the code:
- An empty search query `q=` is searched for like any other. It is contained in every text, so
  it lists every readable Markdown and HTML file rather than nothing
  (`Search.EmptyQueryFindsEveryDocument`).
- A range is not checked against the file size. A range that runs past the last byte is
  answered with 206 and a `Content-Length` larger than what the stream sends
  (`Ranges.NoBoundsCheck`). There is no 416 answer. An inverted range, a missing start, or an
  open range on an empty file makes `fs.createReadStream` throw after the 206 headers are set.
  The `catch` then answers 500 (`Ranges.InvertedRangeRejected`, `Ranges.MissingStartRejected`,
  `Ranges.OpenRangeOnEmptyFile`).
- The escape pass runs `$...$` first and `$$...$$` second on both sides, as the code does.

## Model

| member | source | states |
|---|---|---|
| MathSpans.FenceAtSlice | app.js:230-231 | an opening or closing delimiter at a position is exactly the text `$` or `$$` there |
| MathSpans.SpanContent | app.js:230-231 | the content of a recognised span is non-empty, has no `$`, does not end in a backslash, and has no line break for `$...$` |
| MathSpans.CloseAtExact | app.js:230-231 | the content scan stops exactly at the first `$`, having crossed only characters the content class allows |
| MathSpans.SpanAtExact | app.js:230-231 | the regular expression matches at a position exactly when a span (lookbehind, delimiters, content rules, no backslash before the closing `$`) starts there |
| MathSpans.Scan | app.js:230-231 | a piece read at a position lies inside the text, and a span's content is never empty |
| MathSpans.SpanBounds | app.js:230-231 | a span found at a position, with both delimiters, lies inside the text |
| MathEscape.Slot | app.js:214-222 | a character's row in `escapeMap` is found exactly when the character is one of the seven keys |
| MathEscape.PlaceholderShape | app.js:215-221 | every placeholder is six characters, starts with its only `&` and is made of unreserved characters |
| MathEscape.PlaceholderCharNotReserved | app.js:215-221 | no placeholder character is reserved, a `$` or a line break |
| MathEscape.PlaceholdersDistinct | app.js:214-227 | distinct rows have distinct placeholders, so `unescapeMap` is a well-defined reverse table |
| MathEscape.EscapedBelowNone | app.js:234 | before any `replace` pass of the `forEach` the content is unchanged |
| MathEscape.EscapedBelowAll | app.js:235-237 | after all seven passes the content is the simultaneous per-character escape |
| MathEscape.EscapePass | app.js:235-237 | pass `m` (`replace(/\c/g, placeholder)`) turns exactly the occurrences of the `m`-th character into its placeholder |
| MathEscape.EscapeSpan | app.js:234-238 | the `forEach` loop of the escape callback computes the per-character escape of the content |
| MathEscape.EscapedCharOrigin | app.js:235-237 | each character of an escaped content is unreserved and is either from the content or part of a placeholder |
| MathEscape.EscapeRemovesReserved | app.js:235-237 | after escaping, a span's content holds none of the seven reserved characters |
| MathEscape.EscapeKeepsSpanShape | app.js:235-238 | escaping adds no `$`, no line break and no backslash, and keeps a non-empty content non-empty, so an escaped span is still a span |
| MathEscape.PlaceholderFrom | app.js:256-258 | the first table row whose placeholder starts the text is found, or none does |
| MathEscape.PlaceholderAtStart | app.js:256-258 | a text starting with placeholder `k` is recognised as starting with row `k` |
| MathEscape.UnescapedBelowNone | app.js:255 | before any pass of the reverse `forEach` the content is unchanged |
| MathEscape.UnescapedBelowAll | app.js:256-258 | after all seven reverse passes the content is the left-to-right placeholder substitution |
| MathEscape.UnescapedKeepsLiteral | app.js:256-258 | characters that are neither `&` nor reserved at the front of a partly unescaped text were at the front before |
| MathEscape.UnescapePass | app.js:256-258 | pass `m` (`replace(/placeholder/g, c)`) turns exactly the `m`-th placeholder back into its character |
| MathEscape.PassOverPlaceholder | app.js:256-258 | a reverse pass over one placeholder, already turned back or not, treats it as one unit |
| MathEscape.PlainStartsNoPlaceholder | app.js:256-258 | where no placeholder starts, no later reverse pass creates one |
| MathEscape.UnescapeSpan | app.js:255-259 | the `forEach` loop of the unescape callback computes the left-to-right placeholder substitution |
| MathEscape.EscapeHead | app.js:235-237 | an escaped content starts with `&` exactly where the content starts with a reserved character |
| MathEscape.EscapedKeepsLiteral | app.js:235-237 | text without `&` at the front of an escaped content was at the front of the content |
| MathEscape.NoPlaceholderTail | app.js:256-258 | a content free of placeholder strings stays free of them after its first character |
| MathEscape.UnescapePlaceholderCons | app.js:256-258 | a leading placeholder is turned back into its character, and the rest is unescaped |
| MathEscape.UnescapeLiteralCons | app.js:256-258 | a leading character that starts no placeholder is kept |
| MathEscape.NoPlaceholderAfterEscape | app.js:235-237 | escaping a content that starts with an unreserved character and no placeholder starts no placeholder |
| MathEscape.ContentRoundTrip | app.js:214-227 | `unescapeMap` undoes `escapeMap`: unescaping an escaped content gives it back, if it held no placeholder string |
| MathEscape.PlaceholderInContentIsNotKept | app.js:256-258 | a content that already holds a placeholder string (`&#x5C;`) comes back as the reserved character, not as itself |
| MathPasses.Fenced | app.js:230-231 | a delimiter in front of an output is a delimiter in the text |
| MathPasses.FenceFront | app.js:230-231 | a delimiter at a position is at the front of what stands there |
| MathPasses.Framed | app.js:230-231 | a content framed by two delimiters puts a delimiter at both ends |
| MathPasses.FirstDollarAfter | app.js:230-231 | in the output, the first `$` after copied `$`-free text is where the closing delimiter of the input stands |
| MathPasses.SpelledContent | app.js:230-231 | a well-formed content spelled out in a text consists of content characters |
| MathPasses.FenceSpelled | app.js:230-231 | a delimiter spells `$` or `$$` |
| MathPasses.SpanText | app.js:230-231 | a span's text is its content between two delimiters |
| MathPasses.SpanCovers | app.js:233-239 | a span read at a position stands for exactly the text it covers |
| MathPasses.ScanCovers | app.js:233-239 | the piece read at a position stands for exactly the text it covers |
| MathPasses.ScanWellFormed | app.js:230-231 | every span the scan reads has a well-formed content |
| MathPasses.RenderLast | app.js:238 | the rewritten piece ends with the character the piece ends with |
| MathPasses.RewriteStep | app.js:233-239 | a pass writes the first piece, with its content rewritten by the callback, then goes on after the piece |
| MathPasses.RewritePlain | app.js:233-239 | where no span starts, a pass copies one character |
| MathPasses.RewriteCopies | app.js:230-231 | no span starts at a character other than `$`, or after a backslash or a `$` |
| MathPasses.DollarFreeCopiedAt | app.js:233-247 | text without `$` is copied into the output unchanged, and the pass goes on after it |
| MathPasses.DollarFreeCopied | app.js:233-247 | text without `$` holds no span and a pass copies it unchanged |
| MathPasses.MathFreeTextUntouched | app.js:229-269 | a text without `$` goes through `escapeMath` and `unescapeMath` unchanged |
| MathPasses.CopiesStep | app.js:233-239 | with a callback that keeps the content, what the pass copies after one piece extends to that piece |
| MathPasses.CopiesFromAll | app.js:233-239 | with a callback that keeps the content, a pass gives back every suffix |
| MathPasses.IdentityRewrite | app.js:233-239 | the pieces cover the text exactly: a pass whose callback keeps the content gives the text back |
| MathPasses.RewriteHead | app.js:233-239 | a pass's output is empty only for an empty input, and starts with the input's first character (or `$$` for a block span) |
| MathPasses.OpeningKept | app.js:230-231 | where no span starts but the output starts with a delimiter, the input has the delimiter there and copies it |
| MathPasses.PlainStaysPlain | app.js:254-260 | where the escape pass found no span, the unescape pass finds none at the matching output position |
| MathPasses.SpanReadBack | app.js:254-260 | a span in the output at a position matching a spanless input position is a span of the input there |
| MathPasses.OpeningCopied | app.js:230-231 | an opening delimiter at a matching output position is copied from the input |
| MathPasses.ContentCopied | app.js:230-231 | a content and closing delimiter in the output come from the same ones in the input |
| MathPasses.ProtectedPiece | app.js:238 | a protected piece covers its rendering, and restoring it gives the piece's own text back |
| MathPasses.SpanReadAgain | app.js:251-252 | a well-formed content between two delimiters where a span may open is read again as a span |
| MathPasses.RewriteSpan | app.js:233-239 | where a span starts, a pass writes the delimiters around the rewritten content, then goes on after the span |
| MathPasses.ProtectedScanSpan | app.js:251-254 | where the escape pass found a span, the unescape pass reads the escaped span at the matching position |
| MathPasses.ProtectedScanPlain | app.js:251-254 | where the escape pass found no span, the unescape pass reads the same character at the matching position |
| MathPasses.ProtectedScan | app.js:251-254 | the unescape pass reads the escape pass's output as the same pieces, with span contents escaped |
| MathPasses.EscapeRestorable | app.js:235-237 | every span found in a text without placeholder strings is still a span after escaping, and unescaping gives its content back |
| MathPasses.NextAt | app.js:233-239 | after one piece, the output from the matching position is the rest of the pass |
| MathPasses.ScanLast | app.js:230-231 | the last character a piece covers is the one it stands for last |
| MathPasses.NextAligned | app.js:233-239 | after one piece, the output and the input are again at matching positions |
| MathPasses.RestoredWidth | app.js:254-260 | the piece the unescape pass reads is exactly as wide as what the escape pass wrote |
| MathPasses.RestoredRender | app.js:254-260 | the unescape pass writes back the piece's own text |
| MathPasses.RoundTripAligned | app.js:233-260 | after one piece the escape output and the input are again matching, with the same lookbehind context |
| MathPasses.RestoredHead | app.js:254-260 | where the escape pass wrote a piece, the unescape pass writes the piece's own text, then goes on |
| MathPasses.AlignedNext | app.js:233-260 | alignment moves on by one piece in each text |
| MathPasses.RestoresNext | app.js:254-260 | what the unescape pass gives back after one piece extends to that piece |
| MathPasses.SpansRestorableNext | app.js:235-237 | restorability of the spans carries over to the rest of the text |
| MathPasses.RoundTripEnd | app.js:254-260 | nothing is left to restore at the end of the text |
| MathPasses.RoundTripStep | app.js:233-260 | one piece further, alignment and restorability carry over, and restoring extends back |
| MathPasses.RoundTripNext | app.js:233-260 | there are matching positions one piece further from which restoring extends back |
| MathPasses.PassRoundTripFrom | app.js:233-260 | from matching positions, the unescape pass undoes the escape pass |
| MathPasses.PassRoundTrip | app.js:229-269 | each `replace` pass of `unescapeMath` undoes the same pass of `escapeMath` when no span held a placeholder string |
| MathPasses.EscapeKeepsContent | app.js:233-239 | the escape callback never turns a span's content into an empty one |
| Strings.IndexOf | app.js:276 | `indexOf` finds the first occurrence, or the end when there is none |
| Strings.IndexOfAt | app.js:276 | a position with no occurrence before it that holds the character, or is the end, is the one `indexOf` finds |
| Strings.Split | app.js:276 | `split` gives at least one piece |
| Strings.SplitWhole | app.js:432 | text without the separator is a single piece |
| Strings.SplitFirst | app.js:432 | the first separator ends the first piece and splitting goes on after it |
| Strings.SplitJoin | app.js:276 | joining the pieces of `split` gives the text back |
| Strings.SplitPiecesFree | app.js:276 | no piece of `split` holds the separator |
| Strings.FirstPiece | app.js:276 | the first piece is everything before the first separator |
| Strings.ReplaceAllNoMatch | app.js:236 | a character where the pattern does not start is copied by a global `replace` |
| Strings.ReplaceAllSkips | app.js:236 | text without the pattern's first character is copied by a global `replace` |
| Strings.TrimStartShape | app.js:283 | `trimStart` removes exactly a leading run of white space |
| Strings.TrimEndShape | app.js:283 | `trimEnd` removes exactly a trailing run of white space |
| Strings.TrimShape | app.js:283 | `trim` keeps a middle slice with white space only around it and none at its ends |
| Titles.LineEnd | app.js:282 | `.` runs to the first line terminator or the end of the text |
| Titles.LineEndAt | app.js:282 | the first line terminator is unique |
| Titles.DocTitleMatchUnique | app.js:282 | `/^# .*?(?=\r?\n)/` has at most one match |
| Titles.DocTitleSpec | app.js:282-283 | the page title is the matched line without `#`, trimmed, and the file path when there is no match |
| Titles.MarkdownTitleSpec | app.js:461-469 | the listing title is the trimmed group of `/^# (.*?)(?:\r?\n\|$)/`, and `null` when there is no match |
| Titles.TitlesAgree | app.js:282-283 | where the page title matches, the listing title is the same text |
| Titles.UnterminatedHeading | app.js:464-465 | a heading with no line break after it gives a listing title but falls back to the path for the page |
| Documents.FilePath | app.js:276 | the file path has no `?`, is a prefix of the URL, and is followed by the `?` when shorter |
| Documents.FilePathNoQuery | app.js:276 | a URL without `?` is its own file path |
| Documents.FilePathDropsQuery | app.js:276 | whatever query follows the first `?`, the file path is what stands before it |
| Documents.DatetimePath | app.js:324 | the path is the URL less its last 13 characters, or empty for a shorter URL |
| Documents.DatetimePathSuffix | app.js:324 | for a URL ending in `.__datetime__`, the path followed by the suffix is the URL |
| Documents.DatetimePathWithQuery | app.js:324 | a query string after the suffix is cut into rather than removed, so the path keeps part of the suffix |
| Documents.DatetimeReplySpec | app.js:321-338 | 500 exactly when decoding fails, else 400 `Bad request!` or 200 with the file's time, as the stat fails or not |
| Documents.DocReplySpec | app.js:271-319 | the page is served exactly when the URL decodes and the file can be read, with the first-line title or the path; otherwise 500 |
| Documents.DocReplyIgnoresQuery | app.js:274-283 | the query string changes neither the file read nor the title nor the content |
| Documents.DocReplyMathFree | app.js:285-300 | a document without `$`, rendered without `$`, is shown exactly as `marked` renders it |
| Search.LastIndexOf | app.js:382 | the last occurrence of a character, or none |
| Search.LastDotAt | app.js:382 | a dot with no dot after it is the last one |
| Search.EndingIsExtension | app.js:382-386 | a name ending in `.md` or `.html`, in any case, with something before it, has that extension |
| Search.SearchedByEnding | app.js:382-386 | a file is searched exactly when its name ends with `.md` or `.html` in any case and is longer than that ending |
| Search.MatchesAllNext | app.js:363-402 | one more entry adds its paths at the end |
| Search.MatchesHit | app.js:366-394 | an entry contributes exactly the paths it has a hit for: links, excluded directories and unreadable entries none, a directory those below it, a file itself when wanted |
| Search.MatchesAllHit | app.js:361-409 | a directory's entries contribute exactly the paths one of them has a hit for |
| Search.HitAmongLast | app.js:363 | a hit among entries is a hit among all but the last, or one for the last |
| Search.EmptyQueryFindsEveryDocument | app.js:357 | the empty query reports every readable Markdown or HTML file |
| Search.Searcher.constructor | app.js:355-357 | a search starts with no results, the root's length, and the lowered query |
| Search.Searcher.Walk | app.js:359-410 | the inner `search` appends, in enumeration order, exactly the paths the spec function gives, and nothing when the directory cannot be read |
| Search.SearchFiles | app.js:354-415 | `search_files` returns the walk's paths, and a path is in it exactly when some entry below the root has a hit for it |
| Search.SearchReply | app.js:340-352 | 500 when decoding fails, an empty list without `q`, and otherwise the search results for `q` |
| Ranges.DigitValue | app.js:433-434 | a digit's value is below the radix, and a non-digit gives the radix |
| Ranges.DigitRun | app.js:433-434 | the longest prefix of digits is found |
| Ranges.ParseUnsigned | app.js:433-434 | a number read after the sign is never negative |
| Ranges.DigitChar | app.js:439 | the digit written for a value reads back as that value |
| Ranges.Digits | app.js:439 | a number is written with at least one digit, in digits only, reading back as the number |
| Ranges.ParseDigits | app.js:433-434 | a run of decimal digits is read whole, in base 10 |
| Ranges.NoLeadingSpace | app.js:433 | text not starting with white space is not trimmed by `parseInt` |
| Ranges.RunToEnd | app.js:433-434 | a text of digits only is one run |
| Ranges.ParseDecimalText | app.js:433-439 | `parseInt` reads back every integer as the handler writes it |
| Ranges.DigitsHaveNoDash | app.js:432 | written numbers contain no `-`, so they survive `split('-')` |
| Ranges.VideoStatus | app.js:423-457 | for a file that can be stated, a missing or empty `Range` header gets 200 with the whole size, a non-empty one 206 exactly when the stream accepts its bounds, and 500 otherwise |
| Ranges.StripBytes | app.js:432 | `replace(/bytes=/, '')` removes the leading `bytes=` |
| Ranges.HeaderPieces | app.js:432 | `bytes=x-y` splits into `x` and `y` |
| Ranges.ClosedRange | app.js:432-441 | `bytes=a-b` gives start `a`, end `b` and length `b - a + 1` |
| Ranges.ParseEmpty | app.js:434 | `parseInt("")` is `NaN` |
| Ranges.OpenRange | app.js:432-436 | `bytes=a-` runs to the last byte, with length `size - a` |
| Ranges.NoBoundsCheck | app.js:431-444 | `bytes=a-b` with `a <= b` gets 206 with start `a`, end `b`, `Content-Range: bytes a-b/size` and length `b - a + 1`, even past the last byte, where that length exceeds what the file holds |
| Ranges.InvertedRangeRejected | app.js:431-457 | a start after the end makes the stream throw, and the answer is 500 |
| Ranges.OpenRangeOnEmptyFile | app.js:431-457 | `bytes=a-` on an empty file asks for an end of -1, and the answer is 500 |
| Ranges.RangeWithoutDash | app.js:432-435 | a header without `-` runs from its number to the last byte |
| Ranges.RangeWithoutStart | app.js:432-436 | a header with nothing before its `-` has a `NaN` start and length |
| Ranges.MissingStartRejected | app.js:432-457 | a header with nothing before its `-` gives the stream a `NaN` start, and the answer is 500 |
| Listing.ItemOf | app.js:492-509 | an entry is listed exactly when it can be stated, keeps its name and kind, and gets a title only if it is a non-directory `.md` file, then the one `getMarkdownTitle` reads |
| Listing.ItemsOf | app.js:491-509 | the entries are listed in order, one item each, or the listing fails when any entry cannot be stated |
| Listing.OrderedGroups | app.js:512-517 | in an ordered listing no file precedes a directory and names are in order within each group |
| Listing.InsertOrdered | app.js:512-517 | inserting after the items that are not after it keeps a listing ordered |
| Listing.Insert | app.js:512-517 | one insertion step keeps the listing ordered and adds exactly the item |
| Listing.SortItems | app.js:512-517 | the sorted items are ordered, directories first and by name, and are a permutation of the entries |
| Listing.ConcatSnoc | app.js:525-533 | appending a line appends its text |
| Listing.ListingStart | app.js:520-523 | before the entries the text is the heading and, unless the URL is `/`, the parent link |
| Listing.ListingNext | app.js:525-533 | each entry appends its bullet |
| Listing.BuildListing | app.js:519-533 | the listing text is the heading, the parent link, then one bullet per entry in order |
| Listing.ParentLinkIsNotRoot | app.js:522 | the parent link has no `](/` |
| Listing.ItemLineIsNotParent | app.js:526-532 | no entry's bullet is the parent link |
| Listing.ParentLinkUnlessRoot | app.js:520-523 | the listing has the parent link exactly when the URL is not `/`, and starts with the heading |
| Listing.UntitledDirectoryLine | app.js:526-531 | an untitled directory has a trailing `/` in both its label and its link |
| Listing.DefaultReply | app.js:471-550 | redirect to the first of `.md`, `index.md`, `/index.md` that exists; only when none does, the sorted listing of a readable directory; otherwise 404 |
| Auth.Setting | app.js:27-29 | an unset or empty variable gives the default, any other its value |
| Auth.RequireAuth | app.js:40-54 | the gate either passes the request or sends it to `/login` |
| Auth.RequireAuthSpec | app.js:42-53 | the gate passes exactly the login paths and the requests whose cookie is the expected token |
| Auth.LoginSpec | app.js:133-147 | a login succeeds exactly with the configured credentials and then sets the expected token; otherwise it shows the error and keeps the cookie |
| Auth.LoginThenPass | app.js:136-143 | after a successful login every request passes the gate |
| Auth.LogoutThenBlocked | app.js:150-153 | after a logout every request outside the login page is sent to it |
| Auth.FailedLoginKeepsGate | app.js:144-146 | a failed login changes nothing for the next request |

## Left out

- The whole `escapeMath`/`unescapeMath` round trip is proved for each `replace` pass on its own
  (`MathPasses.PassRoundTrip`), not for the composition of the two passes. It is also not proved
  through `marked`, which is a parameter.
- MathEscape.ContentRoundTrip: holds only for content that contains no placeholder string.
  `MathEscape.PlaceholderInContentIsNotKept` shows that a literal `&#x5C;` in a span comes back
  as a backslash.
- MathPasses.PassRoundTrip: requires that no span of the text held a placeholder string, for
  the same reason.
- Lemmas about a general callback require `KeepsContent`, a callback that keeps non-empty
  content non-empty. The two callbacks of the server do (`MathPasses.EscapeKeepsContent`).
- `marked`, its mermaid code renderer and the EJS templates are left out. The template
  parameters `page` and `params` are not modelled, and neither is `new URL` throwing.
- In `default_handler`, `decodeURIComponent` sits outside the `try`. Its failure is handled by
  Express, so `Listing.DefaultReply` takes the decoded URL.
- `generateAuthToken` is a parameter. No claim is made about collisions of SHA-256. Cookie
  attributes (max age, `httpOnly`, `secure`) are not modelled.
- `toLowerCase` is modelled on ASCII letters only.
- `localeCompare` is an abstract total preorder `le`.
- `path.join` is a parameter in the listing. In the search it is `directory + "/" + name`, which
  assumes a root without a trailing separator. `path.extname` follows the POSIX rules.
- `Listing.SortItems` sorts a sequence by insertion and returns a new one. The in-place update of
  `items` and the engine's sorting algorithm are not captured. Stability is not stated.
- Ranges.ParseDecimalText: integers are unbounded. Number precision beyond 2^53, exponent
  notation above 10^21 and `-0` are not modelled.
- Ranges.VideoResponse stops at the headers and the check `fs.createReadStream` makes of its
  `start` and `end` options (`Ranges.StreamAccepts`, following the stream's documented option
  rules). The stream itself (`pipe`, chunk size, read errors after it opens) is left out. So are
  the error text of the 500 and the range headers left set on it.
- `toLocaleString` is left out. The modification time is given as text.
- `main`, `get_ip_address`, the Express routing and static middleware, logging and the `quiet`
  flag are left out.
- `GET /` (redirect to `/search`) and `GET /login` (render the form) are left out.

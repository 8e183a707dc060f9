/** `doc_handler` and `datetime_handler`: a Markdown page with its math shielded from the
    renderer, and the modification time of a document. The file system is a map from full
    paths to what reading or stating them gives; the Markdown renderer is a parameter. */
module Documents {
  import opened Wrappers
  import opened Strings
  import opened Titles
  import opened MathSpans
  import opened MathPasses
  import opened Responses

  const DatetimeSuffix := ".__datetime__"

  /** `req_url.split('?')[0]`: the request path without its query string. */
  function FilePath(url: string): (r: string)
    ensures '?' !in r
    ensures StartsWith(url, r)
    ensures |r| < |url| ==> url[|r|] == '?'
  {
    FirstPiece(url, '?');
    Split(url, '?')[0]
  }

  /** A URL without a query string is its own file path. */
  lemma {:induction false} FilePathNoQuery(url: string)
    requires '?' !in url
    ensures FilePath(url) == url
  {
    FirstPiece(url, '?');
    assert url[..|url|] == url;
    IndexOfAt(url, '?', |url|);
  }

  /** Whatever query follows the first `?`, the file path is what stands before it. */
  lemma {:induction false} FilePathDropsQuery(path: string, query: string)
    requires '?' !in path
    ensures FilePath(path + "?" + query) == path
  {
    var url := path + "?" + query;
    FirstPiece(url, '?');
    assert url[..|path|] == path;
    IndexOfAt(url, '?', |path|);
  }

  /** `req_url.substring(0, req_url.length - 13)`: the URL less as many characters as the
      suffix has, counted from the end, whatever they are; a negative end counts as zero. */
  function DatetimePath(url: string): (r: string)
    ensures |url| >= |DatetimeSuffix| ==> |r| == |url| - |DatetimeSuffix|
    ensures |url| < |DatetimeSuffix| ==> r == []
    ensures StartsWith(url, r)
  {
    if |url| < |DatetimeSuffix| then [] else url[..|url| - |DatetimeSuffix|]
  }

  /** For a URL that ends with the suffix, the path and the suffix put back together give the URL. */
  lemma {:induction false} DatetimePathSuffix(url: string)
    requires EndsWith(url, DatetimeSuffix)
    ensures DatetimePath(url) + DatetimeSuffix == url
  {
    assert url == url[..|url| - |DatetimeSuffix|] + url[|url| - |DatetimeSuffix|..];
  }

  /** A query string after the suffix is cut into instead of removed: the path then keeps
      part of the suffix. */
  lemma {:induction false} DatetimePathWithQuery()
    ensures DatetimePath("/a.md.__datetime__?x=1") == "/a.md.__d"
  {
  }

  /** `datetime_handler`. `decoded` is `decodeURIComponent(req.url)`, `None` when that throws;
      `mtimes` maps every path `fs.stat` succeeds on to `stats.mtime.toLocaleString()`. */
  function DatetimeReply(decoded: Option<string>, docsPath: string, mtimes: map<string, string>): Reply {
    match decoded
    case None => InternalError
    case Some(url) =>
      var full := docsPath + DatetimePath(url);
      if full in mtimes then Send(200, mtimes[full]) else Send(400, "Bad request!")
  }

  /** The three outcomes of `datetime_handler`, each with its condition, and the time of the
      document named before the suffix. */
  lemma {:induction false} DatetimeReplySpec(decoded: Option<string>, docsPath: string, mtimes: map<string, string>)
    ensures DatetimeReply(decoded, docsPath, mtimes) == InternalError <==> decoded.None?
    ensures DatetimeReply(decoded, docsPath, mtimes).Send?
    ensures decoded.Some? ==>
      (DatetimeReply(decoded, docsPath, mtimes).status == 200 <==> docsPath + DatetimePath(decoded.value) in mtimes)
    ensures decoded.Some? && EndsWith(decoded.value, DatetimeSuffix) ==>
      var doc := docsPath + DatetimePath(decoded.value);
      (doc in mtimes ==> DatetimeReply(decoded, docsPath, mtimes) == Send(200, mtimes[doc]))
      && (doc !in mtimes ==> DatetimeReply(decoded, docsPath, mtimes) == Send(400, "Bad request!"))
      && doc + DatetimeSuffix == docsPath + decoded.value
  {
    if decoded.Some? && EndsWith(decoded.value, DatetimeSuffix) {
      DatetimePathSuffix(decoded.value);
    }
  }

  /** `doc_handler`. `files` maps every path `readFileSync` can read to its text; `render` is
      `marked` as configured by the server. The title comes from the text before the math is
      shielded; the rendered HTML gets its math back. */
  function DocReply(decoded: Option<string>, docsPath: string, files: map<string, string>,
                    render: string -> string): Reply {
    match decoded
    case None => InternalError
    case Some(url) =>
      var filePath := FilePath(url);
      if docsPath + filePath !in files then InternalError
      else
        var doc := files[docsPath + filePath];
        Page(DocTitle(doc, filePath), UnescapeMath(render(EscapeMath(doc))))
  }

  /** The page is served exactly when the URL decodes and the file before the query string
      can be read; its title is the one the first line gives, or the file path. */
  lemma {:induction false} DocReplySpec(decoded: Option<string>, docsPath: string, files: map<string, string>,
                                        render: string -> string)
    ensures DocReply(decoded, docsPath, files, render).Page? <==>
      decoded.Some? && docsPath + FilePath(decoded.value) in files
    ensures !DocReply(decoded, docsPath, files, render).Page? ==> DocReply(decoded, docsPath, files, render) == InternalError
    ensures DocReply(decoded, docsPath, files, render).Page? ==>
      var doc := files[docsPath + FilePath(decoded.value)];
      (forall k: nat :: DocTitleMatch(doc, k) ==> DocReply(decoded, docsPath, files, render).title == Trim(doc[1..k]))
      && ((forall k: nat :: !DocTitleMatch(doc, k)) ==> DocReply(decoded, docsPath, files, render).title == FilePath(decoded.value))
  {
    if decoded.Some? && docsPath + FilePath(decoded.value) in files {
      DocTitleSpec(files[docsPath + FilePath(decoded.value)], FilePath(decoded.value));
    }
  }

  /** The query string picks neither the file nor anything on the page but the template
      parameters, which this model leaves out. */
  lemma {:induction false} DocReplyIgnoresQuery(path: string, query: string, docsPath: string,
                                                files: map<string, string>, render: string -> string)
    requires '?' !in path
    ensures DocReply(Some(path + "?" + query), docsPath, files, render) == DocReply(Some(path), docsPath, files, render)
  {
    FilePathDropsQuery(path, query);
    FilePathNoQuery(path);
  }

  /** A document without `$`, whose rendering has none either, is shown exactly as the renderer
      makes it: the math shield changes nothing. */
  lemma {:induction false} DocReplyMathFree(url: string, docsPath: string, files: map<string, string>,
                                            render: string -> string)
    requires docsPath + FilePath(url) in files
    requires '$' !in files[docsPath + FilePath(url)]
    requires '$' !in render(files[docsPath + FilePath(url)])
    ensures DocReply(Some(url), docsPath, files, render).content == render(files[docsPath + FilePath(url)])
  {
    var doc := files[docsPath + FilePath(url)];
    MathFreeTextUntouched(doc);
    MathFreeTextUntouched(render(doc));
  }
}

/** `search_files`: a depth-first walk of the document tree that collects, in enumeration
    order, the root-relative paths of the Markdown and HTML files whose text contains the
    query, ignoring case. */
module Search {
  import opened Wrappers
  import opened Strings
  import opened Responses

  /** An entry as `lstatSync` and the reads after it see it. */
  datatype Node =
      /** A directory; `readable` is false when `readdirSync` fails on it. */
    | Dir(name: string, readable: bool, children: seq<Node>)
      /** Anything else `lstatSync` reports; `content` is `None` when it cannot be read as text. */
    | File(name: string, content: Option<string>)
    | Symlink(name: string)
      /** An entry `lstatSync` fails on. */
    | Unreadable(name: string)

  const Excluded := "node_modules"

  /** The last position holding `c`, if any. */
  function LastIndexOf(s: string, c: char): (r: Option<nat>)
    ensures r.Some? ==> r.value < |s| && s[r.value] == c && c !in s[r.value + 1..]
    ensures r.None? ==> c !in s
  {
    if s == [] then None
    else if s[|s| - 1] == c then Some(|s| - 1)
    else
      var r := LastIndexOf(s[..|s| - 1], c);
      assert r.Some? ==> s[r.value + 1..] == s[..|s| - 1][r.value + 1..] + [s[|s| - 1]];
      assert s == s[..|s| - 1] + [s[|s| - 1]];
      r
  }

  /** `path.extname` of an entry name: from the last `.` on, unless there is none, it is the
      first character, or the name is `..`. */
  function Extname(name: string): string {
    match LastIndexOf(name, '.')
    case None => ""
    case Some(d) => if d == 0 || name == ".." then "" else name[d..]
  }

  /** The extensions the search looks into. */
  predicate Searched(name: string) {
    Lower(Extname(name)) == ".md" || Lower(Extname(name)) == ".html"
  }

  /** Lowering keeps the dot and no other character becomes one. */
  lemma {:induction false} LowerDot(c: char)
    ensures LowerChar(c) == '.' <==> c == '.'
  {
  }

  /** A dot with no dot after it is the last one. */
  lemma {:induction false} LastDotAt(name: string, k: nat)
    requires k < |name| && name[k] == '.'
    requires forall m :: k < m < |name| ==> name[m] != '.'
    ensures LastIndexOf(name, '.') == Some(k)
    decreases |name|
  {
    if k < |name| - 1 {
      LastDotAt(name[..|name| - 1], k);
    }
  }

  /** A name whose last `|e|` characters lower to the extension `e`, a dot followed by
      dot-free characters, with something before it, has an extension that lowers to `e`. */
  lemma {:induction false} EndingIsExtension(name: string, e: string)
    requires 2 <= |e| < |name| && e[0] == '.' && '.' !in e[1..]
    requires Lower(name[|name| - |e|..]) == e
    ensures Lower(Extname(name)) == e
  {
    var k := |name| - |e|;
    assert LowerChar(name[k]) == Lower(name[k..])[0];
    LowerDot(name[k]);
    forall m | k < m < |name|
      ensures name[m] != '.'
    {
      assert LowerChar(name[m]) == e[m - k] == e[1..][m - k - 1];
      LowerDot(name[m]);
    }
    LastDotAt(name, k);
  }

  /** The same rule stated on the name alone: it ends with `.md` or `.html` in any case, with
      something before that ending. */
  lemma {:induction false} SearchedByEnding(name: string)
    ensures Searched(name) <==>
      (|name| > 3 && Lower(name[|name| - 3..]) == ".md") || (|name| > 5 && Lower(name[|name| - 5..]) == ".html")
  {
    var n := |name|;
    if Searched(name) {
      var d := LastIndexOf(name, '.').value;
      assert name[d..] == name[n - |name[d..]|..];
    }
    if n > 3 && Lower(name[n - 3..]) == ".md" {
      EndingIsExtension(name, ".md");
    }
    if n > 5 && Lower(name[n - 5..]) == ".html" {
      EndingIsExtension(name, ".html");
    }
  }

  // ---------------------------------------------------------------------
  // What the walk collects
  // ---------------------------------------------------------------------

  /** `path.join(directory, name)` for an entry name returned by `readdirSync`. */
  function JoinPath(directory: string, name: string): string {
    directory + "/" + name
  }

  /** `file_path.substring(prefix_length).replace(/\\/g, '/')`. */
  function RelativePath(path: string, prefixLength: nat): string {
    ReplaceAll(if prefixLength <= |path| then path[prefixLength..] else [], "\\", "/")
  }

  /** The file passes every test of the walk: a searched extension, readable text, and the
      lowered text contains the (already lowered) search string. */
  predicate Wanted(name: string, content: Option<string>, searchString: string) {
    Searched(name) && content.Some? && Includes(Lower(content.value), searchString)
  }

  /** The paths one entry of `directory` contributes, in the order the walk pushes them. */
  function Matches(n: Node, directory: string, prefixLength: nat, searchString: string): seq<string>
    decreases n
  {
    match n
    case Symlink(_) => []
    case Unreadable(_) => []
    case Dir(name, readable, children) =>
      if name == Excluded || !readable then []
      else MatchesAll(children, JoinPath(directory, name), prefixLength, searchString)
    case File(name, content) =>
      if Wanted(name, content, searchString) then [RelativePath(JoinPath(directory, name), prefixLength)] else []
  }

  /** The paths the entries `cs` of `directory` contribute, one entry after the other. */
  function MatchesAll(cs: seq<Node>, directory: string, prefixLength: nat, searchString: string): seq<string>
    decreases cs
  {
    if cs == [] then []
    else MatchesAll(cs[..|cs| - 1], directory, prefixLength, searchString)
         + Matches(cs[|cs| - 1], directory, prefixLength, searchString)
  }

  /** `p` is reported for entry `n` of `directory`: `n` is a wanted file whose relative path is
      `p`, or a readable directory, not excluded, with such a file somewhere below it. */
  ghost predicate Hit(n: Node, directory: string, prefixLength: nat, searchString: string, p: string)
    decreases n
  {
    match n
    case Symlink(_) => false
    case Unreadable(_) => false
    case Dir(name, readable, children) =>
      name != Excluded && readable && HitAmong(children, JoinPath(directory, name), prefixLength, searchString, p)
    case File(name, content) =>
      Wanted(name, content, searchString) && p == RelativePath(JoinPath(directory, name), prefixLength)
  }

  /** One more entry adds what it contributes at the end. */
  lemma {:induction false} MatchesAllNext(cs: seq<Node>, i: nat, directory: string, prefixLength: nat, searchString: string)
    requires i < |cs|
    ensures MatchesAll(cs[..i + 1], directory, prefixLength, searchString)
         == MatchesAll(cs[..i], directory, prefixLength, searchString) + Matches(cs[i], directory, prefixLength, searchString)
  {
    assert cs[..i + 1][..i] == cs[..i];
  }

  /** One of the entries `cs` of `directory` has a hit for `p`. */
  ghost predicate HitAmong(cs: seq<Node>, directory: string, prefixLength: nat, searchString: string, p: string)
    decreases cs
  {
    exists i :: 0 <= i < |cs| && Hit(cs[i], directory, prefixLength, searchString, p)
  }

  /** An entry contributes exactly the paths it has a hit for. */
  lemma {:induction false} MatchesHit(n: Node, directory: string, prefixLength: nat, searchString: string, p: string)
    ensures p in Matches(n, directory, prefixLength, searchString) <==> Hit(n, directory, prefixLength, searchString, p)
    decreases n
  {
    match n
    case Symlink(_) =>
    case Unreadable(_) =>
    case File(_, _) =>
    case Dir(name, readable, children) =>
      if name != Excluded && readable {
        MatchesAllHit(children, JoinPath(directory, name), prefixLength, searchString, p);
      }
  }

  /** The entries of a directory contribute exactly the paths one of them has a hit for. */
  lemma {:induction false} MatchesAllHit(cs: seq<Node>, directory: string, prefixLength: nat, searchString: string, p: string)
    ensures p in MatchesAll(cs, directory, prefixLength, searchString) <==> HitAmong(cs, directory, prefixLength, searchString, p)
    decreases cs
  {
    if cs != [] {
      var last := |cs| - 1;
      var front := cs[..last];
      MatchesAllHit(front, directory, prefixLength, searchString, p);
      MatchesHit(cs[last], directory, prefixLength, searchString, p);
      HitAmongLast(cs, directory, prefixLength, searchString, p);
    }
  }

  /** A hit among some entries is a hit among all but the last, or a hit for the last. */
  lemma {:induction false} HitAmongLast(cs: seq<Node>, directory: string, prefixLength: nat, searchString: string, p: string)
    requires cs != []
    ensures HitAmong(cs, directory, prefixLength, searchString, p) <==>
      HitAmong(cs[..|cs| - 1], directory, prefixLength, searchString, p) || Hit(cs[|cs| - 1], directory, prefixLength, searchString, p)
  {
    var front := cs[..|cs| - 1];
    if HitAmong(front, directory, prefixLength, searchString, p) {
      var i :| 0 <= i < |front| && Hit(front[i], directory, prefixLength, searchString, p);
      assert front[i] == cs[i];
    }
    if HitAmong(cs, directory, prefixLength, searchString, p) {
      var i :| 0 <= i < |cs| && Hit(cs[i], directory, prefixLength, searchString, p);
      if i < |front| {
        assert front[i] == cs[i];
      }
    }
  }

  /** The empty query is contained in every text, so it reports every readable Markdown and
      HTML file rather than nothing. */
  lemma {:induction false} EmptyQueryFindsEveryDocument(name: string, content: string, directory: string, prefixLength: nat)
    requires Searched(name)
    ensures Hit(File(name, Some(content)), directory, prefixLength, Lower(""),
                RelativePath(JoinPath(directory, name), prefixLength))
  {
    assert OccursAt(Lower(content), Lower(""), 0);
  }

  // ---------------------------------------------------------------------
  // The walk
  // ---------------------------------------------------------------------

  /** The state of one `search_files` call: the root's length, the lowered query, and the
      `files_matching` array the inner `search` pushes onto. */
  class Searcher {
    const prefixLength: nat
    const searchString: string
    var filesMatching: seq<string>

    constructor (root: string, query: string)
      ensures prefixLength == |root| && searchString == Lower(query) && filesMatching == []
    {
      prefixLength := |root|;
      searchString := Lower(query);
      filesMatching := [];
    }

    /** The inner `search(directory)`: reads the directory (nothing when that fails) and goes
        through its entries in order, skipping links, the excluded directory, unsearched
        extensions, unreadable files and files without the query, descending into the other
        directories and pushing the wanted files. */
    method Walk(directory: string, readable: bool, children: seq<Node>)
      modifies this
      ensures filesMatching == old(filesMatching)
        + (if readable then MatchesAll(children, directory, prefixLength, searchString) else [])
      decreases children
    {
      if !readable {
        return;
      }
      for i := 0 to |children|
        invariant filesMatching == old(filesMatching) + MatchesAll(children[..i], directory, prefixLength, searchString)
      {
        var entry := children[i];
        MatchesAllNext(children, i, directory, prefixLength, searchString);
        var filePath := JoinPath(directory, entry.name);
        match entry {
          case Symlink(_) =>
          case Unreadable(_) =>
          case Dir(name, r, cs) =>
            if name != Excluded {
              Walk(filePath, r, cs);
            }
          case File(name, content) =>
            if Searched(name) && content.Some? && Includes(Lower(content.value), searchString) {
              filesMatching := filesMatching + [RelativePath(filePath, prefixLength)];
            }
        }
      }
      assert children[..|children|] == children;
    }
  }

  /** `search_files(directory, query)`: the paths of the wanted files below the root, in the
      order of the walk, and each of them because of a hit. */
  method SearchFiles(root: string, readable: bool, children: seq<Node>, query: string) returns (files: seq<string>)
    ensures files == (if readable then MatchesAll(children, root, |root|, Lower(query)) else [])
    ensures forall p :: p in files <==> readable && HitAmong(children, root, |root|, Lower(query), p)
  {
    var searcher := new Searcher(root, query);
    searcher.Walk(root, readable, children);
    files := searcher.filesMatching;
    forall p
      ensures p in files <==> readable && HitAmong(children, root, |root|, Lower(query), p)
    {
      MatchesAllHit(children, root, |root|, Lower(query), p);
    }
  }

  /** `search_handler`: the page shows the query and, when there is one, what the search finds.
      `decoded` is `decodeURIComponent(req.url)`, `None` when it throws; `queryOf` reads the
      `q` parameter of the decoded URL. */
  method SearchReply(decoded: Option<string>, queryOf: string -> Option<string>,
                     root: string, readable: bool, children: seq<Node>) returns (reply: Reply)
    ensures decoded.None? ==> reply == InternalError
    ensures decoded.Some? && queryOf(decoded.value).None? ==> reply == SearchPage(None, [])
    ensures decoded.Some? && queryOf(decoded.value).Some? ==>
      var q := queryOf(decoded.value).value;
      reply == SearchPage(Some(q), if readable then MatchesAll(children, root, |root|, Lower(q)) else [])
  {
    match decoded
    case None =>
      reply := InternalError;
    case Some(url) =>
      var query := queryOf(url);
      var fileList: seq<string> := [];
      if query.Some? {
        fileList := SearchFiles(root, readable, children, query.value);
      }
      reply := SearchPage(query, fileList);
  }
}

/** `default_handler`: the catch-all route. It redirects to the first Markdown file the URL
    names with one of three endings, else lists the directory the URL names, else answers 404.
    The file system is a map from full paths to what `statSync` and the reads after it see;
    `path.join`, `encodeURIComponent`, `localeCompare` and `marked` are parameters. */
module Listing {
  import opened Wrappers
  import opened Strings
  import opened Titles
  import opened Responses

  /** What a path names. */
  datatype FsNode =
      /** `entries` is `None` when `readdirSync` fails. */
    | Directory(entries: Option<seq<string>>)
      /** `content` is `None` when the file cannot be read as text. */
    | RegularFile(content: Option<string>)

  /** One entry of the listing. */
  datatype Item = Item(name: string, isDirectory: bool, path: string, title: Option<string>)

  // ---------------------------------------------------------------------
  // The entries
  // ---------------------------------------------------------------------

  /** An entry gets a title only when it is not a directory and its name ends in `.md`, in any
      case. */
  predicate TitleCandidate(name: string, node: FsNode) {
    !node.Directory? && EndsWith(Lower(name), ".md")
  }

  /** The callback of `files.map`: `None` when `statSync` fails on the entry, which abandons the
      listing. */
  function ItemOf(url: string, fullPath: string, name: string, fs: map<string, FsNode>,
                  join: (string, string) -> string): (r: Option<Item>)
    ensures r.Some? <==> join(fullPath, name) in fs
    ensures r.Some? ==> r.value.name == name && r.value.isDirectory == fs[join(fullPath, name)].Directory?
    ensures r.Some? && r.value.title.Some? ==> TitleCandidate(name, fs[join(fullPath, name)])
    ensures r.Some? && TitleCandidate(name, fs[join(fullPath, name)]) ==>
      r.value.title == MarkdownTitle(fs[join(fullPath, name)].content)
  {
    var filePath := join(fullPath, name);
    if filePath !in fs then None
    else
      var node := fs[filePath];
      var title := if TitleCandidate(name, node) then MarkdownTitle(node.content) else None;
      Some(Item(name, node.Directory?, ReplaceAll(join(url, name), "\\", "/"), title))
  }

  /** `files.map(...)`: every entry in order, or `None` when one of them cannot be stated. */
  function ItemsOf(url: string, fullPath: string, names: seq<string>, fs: map<string, FsNode>,
                   join: (string, string) -> string): (r: Option<seq<Item>>)
    ensures r.Some? <==> forall i :: 0 <= i < |names| ==> ItemOf(url, fullPath, names[i], fs, join).Some?
    ensures r.Some? ==> |r.value| == |names|
    ensures r.Some? ==> forall i :: 0 <= i < |names| ==> r.value[i] == ItemOf(url, fullPath, names[i], fs, join).value
  {
    if names == [] then Some([])
    else
      match ItemOf(url, fullPath, names[0], fs, join)
      case None => None
      case Some(item) =>
        var rest := ItemsOf(url, fullPath, names[1..], fs, join);
        assert forall i :: 1 <= i < |names| ==> names[i] == names[1..][i - 1];
        if rest.None? then None else Some([item] + rest.value)
  }

  // ---------------------------------------------------------------------
  // The order
  // ---------------------------------------------------------------------

  /** What `localeCompare` is taken to be: a total preorder on names (`le(a, b)` when the
      comparison is not positive). */
  ghost predicate TotalPreorder(le: (string, string) -> bool) {
    && (forall a, b :: le(a, b) || le(b, a))
    && (forall a, b, c :: le(a, b) && le(b, c) ==> le(a, c))
  }

  /** The comparator of `items.sort`: directories before files, then by name. */
  predicate NotAfter(x: Item, y: Item, le: (string, string) -> bool) {
    (x.isDirectory && !y.isDirectory) || (x.isDirectory == y.isDirectory && le(x.name, y.name))
  }

  ghost predicate Ordered(s: seq<Item>, le: (string, string) -> bool) {
    forall i, j :: 0 <= i < j < |s| ==> NotAfter(s[i], s[j], le)
  }

  /** In an ordered listing no file comes before a directory, and within each group the names
      are in order. */
  lemma {:induction false} OrderedGroups(s: seq<Item>, le: (string, string) -> bool, i: nat, j: nat)
    requires Ordered(s, le) && i < j < |s|
    ensures s[j].isDirectory ==> s[i].isDirectory
    ensures s[i].isDirectory == s[j].isDirectory ==> le(s[i].name, s[j].name)
  {
    assert NotAfter(s[i], s[j], le);
  }

  /** `x` placed after the prefix of `s` that is not after it keeps `s` ordered. */
  lemma {:induction false} InsertOrdered(s: seq<Item>, x: Item, j: nat, le: (string, string) -> bool)
    requires TotalPreorder(le) && Ordered(s, le) && j <= |s|
    requires forall m :: 0 <= m < j ==> NotAfter(s[m], x, le)
    requires j < |s| ==> !NotAfter(s[j], x, le)
    ensures Ordered(s[..j] + [x] + s[j..], le)
  {
    var r := s[..j] + [x] + s[j..];
    if j < |s| {
      assert NotAfter(x, s[j], le);
    }
    forall a, b | 0 <= a < b < |r|
      ensures NotAfter(r[a], r[b], le)
    {
      if b < j {
        assert r[a] == s[a] && r[b] == s[b];
      } else if a < j && b == j {
        assert r[a] == s[a];
      } else if a < j {
        assert r[a] == s[a] && r[b] == s[b - 1];
      } else if a == j {
        assert r[b] == s[b - 1];
        if b - 1 > j {
          assert NotAfter(s[j], s[b - 1], le);
        }
      } else {
        assert r[a] == s[a - 1] && r[b] == s[b - 1];
      }
    }
  }

  /** One step of insertion: `x` goes after every item that is not after it. */
  method Insert(s: seq<Item>, x: Item, le: (string, string) -> bool) returns (r: seq<Item>)
    requires TotalPreorder(le) && Ordered(s, le)
    ensures Ordered(r, le)
    ensures multiset(r) == multiset(s) + multiset{x}
  {
    var j := 0;
    while j < |s| && NotAfter(s[j], x, le)
      invariant j <= |s|
      invariant forall m :: 0 <= m < j ==> NotAfter(s[m], x, le)
    {
      j := j + 1;
    }
    InsertOrdered(s, x, j, le);
    r := s[..j] + [x] + s[j..];
    assert s == s[..j] + s[j..];
  }

  /** `items.sort(...)`: the same items, directories first and by name within each group. */
  method SortItems(items: seq<Item>, le: (string, string) -> bool) returns (sorted: seq<Item>)
    requires TotalPreorder(le)
    ensures Ordered(sorted, le)
    ensures multiset(sorted) == multiset(items)
  {
    sorted := [];
    for i := 0 to |items|
      invariant Ordered(sorted, le)
      invariant multiset(sorted) == multiset(items[..i])
    {
      sorted := Insert(sorted, items[i], le);
      assert items[..i + 1] == items[..i] + [items[i]];
    }
    assert items[..|items|] == items;
  }

  // ---------------------------------------------------------------------
  // The listing text
  // ---------------------------------------------------------------------

  const ParentLine := "- [../ Parent Directory](../)\n"

  /** `req_url || '/'`. */
  function ShownUrl(url: string): string {
    if url == "" then "/" else url
  }

  function HeaderLine(url: string): string {
    "# Directory listing for " + ShownUrl(url) + "\n\n"
  }

  function DisplayName(item: Item): string {
    item.name + (if item.isDirectory then "/" else "")
  }

  /** `if (item.title)`: a missing title and an empty one are both false. */
  predicate Titled(item: Item) {
    item.title.Some? && item.title.value != ""
  }

  /** The bullet of one entry: a titled entry shows its title with its name after it, any other
      its name; a directory's name, and its link when untitled, end with `/`. */
  function ItemLine(item: Item, encode: string -> string): string {
    if Titled(item) then
      "- [" + item.title.value + "](/" + encode(item.path) + ") _(" + DisplayName(item) + ")_\n"
    else
      "- [" + DisplayName(item) + "](/" + encode(item.path) + (if item.isDirectory then "/" else "") + ")\n"
  }

  /** The lines of the listing: the heading, the parent link unless the URL is `/`, then one
      bullet per entry in the given order. */
  function ListingLines(url: string, items: seq<Item>, encode: string -> string): seq<string> {
    [HeaderLine(url)] + (if url != "/" then [ParentLine] else [])
    + seq(|items|, i requires 0 <= i < |items| => ItemLine(items[i], encode))
  }

  function Concat(lines: seq<string>): string {
    if lines == [] then [] else Concat(lines[..|lines| - 1]) + lines[|lines| - 1]
  }

  /** Appending a line to the lines appends it to the text. */
  lemma {:induction false} ConcatSnoc(lines: seq<string>, line: string)
    ensures Concat(lines + [line]) == Concat(lines) + line
  {
    assert (lines + [line])[..|lines|] == lines;
  }

  /** Before any entry, the text is the heading and, unless the URL is `/`, the parent link. */
  lemma {:induction false} ListingStart(url: string, encode: string -> string)
    ensures Concat(ListingLines(url, [], encode)) == HeaderLine(url) + (if url != "/" then ParentLine else "")
  {
    assert [HeaderLine(url)][..0] == [];
    if url != "/" {
      assert ListingLines(url, [], encode) == [HeaderLine(url)] + [ParentLine];
      ConcatSnoc([HeaderLine(url)], ParentLine);
    } else {
      assert ListingLines(url, [], encode) == [HeaderLine(url)];
    }
  }

  /** One more entry adds its bullet at the end. */
  lemma {:induction false} ListingNext(url: string, items: seq<Item>, i: nat, encode: string -> string)
    requires i < |items|
    ensures Concat(ListingLines(url, items[..i + 1], encode)) == Concat(ListingLines(url, items[..i], encode)) + ItemLine(items[i], encode)
  {
    assert ListingLines(url, items[..i + 1], encode) == ListingLines(url, items[..i], encode) + [ItemLine(items[i], encode)];
    ConcatSnoc(ListingLines(url, items[..i], encode), ItemLine(items[i], encode));
  }

  /** The `content += ...` of the handler: the heading, the parent link, then a bullet per
      entry, appended in order. */
  method BuildListing(url: string, items: seq<Item>, encode: string -> string) returns (content: string)
    ensures content == Concat(ListingLines(url, items, encode))
  {
    content := HeaderLine(url);
    if url != "/" {
      content := content + ParentLine;
    }
    ListingStart(url, encode);
    assert items[..0] == [];
    for i := 0 to |items|
      invariant content == Concat(ListingLines(url, items[..i], encode))
    {
      ListingNext(url, items, i, encode);
      content := content + ItemLine(items[i], encode);
    }
    assert items[..|items|] == items;
  }

  /** No `]` in the parent line is followed, two places later, by `/`, as the `](/` of every
      entry's link is. */
  lemma {:induction false} ParentLinkIsNotRoot(k: nat)
    ensures k + 2 < |ParentLine| ==> ParentLine[k] != ']' || ParentLine[k + 2] != '/'
  {
    var p := ParentLine;
    if k < 23 {
      assert p[..23] == "- [../ Parent Directory";
      assert p[k] == p[..23][k];
    } else if k > 23 && k + 2 < |p| {
      assert p[24..] == "(../)\n";
      assert p[k] == p[24..][k - 24];
    }
  }

  /** No entry's bullet is the parent line. */
  lemma {:induction false} ItemLineIsNotParent(item: Item, encode: string -> string)
    ensures ItemLine(item, encode) != ParentLine
  {
    var shown := if Titled(item) then item.title.value else DisplayName(item);
    var line := ItemLine(item, encode);
    var k := 3 + |shown|;
    assert line[k] == ']' && line[k + 2] == '/';
    ParentLinkIsNotRoot(k);
  }

  /** The listing has the parent link exactly when the URL is not `/`, and it starts with the
      heading naming the URL. */
  lemma {:induction false} ParentLinkUnlessRoot(url: string, items: seq<Item>, encode: string -> string)
    ensures ParentLine in ListingLines(url, items, encode) <==> url != "/"
    ensures ListingLines(url, items, encode)[0] == HeaderLine(url)
  {
    var lines := ListingLines(url, items, encode);
    if url == "/" {
      forall j | 0 <= j < |lines|
        ensures lines[j] != ParentLine
      {
        if j == 0 {
          assert lines[0][0] == '#';
        } else {
          ItemLineIsNotParent(items[j - 1], encode);
        }
      }
    } else {
      assert lines[1] == ParentLine;
    }
  }

  /** An untitled directory carries a `/` after its name both in the label and in the link. */
  lemma {:induction false} UntitledDirectoryLine(item: Item, encode: string -> string)
    requires item.isDirectory && !Titled(item)
    ensures ItemLine(item, encode) == "- [" + item.name + "/](/" + encode(item.path) + "/)\n"
  {
  }

  // ---------------------------------------------------------------------
  // The handler
  // ---------------------------------------------------------------------

  /** The endings tried, in order, before a directory listing. */
  const Postfixes: seq<string> := [".md", "index.md", "/index.md"]

  /** `accessSync` finds the URL with the `k`-th ending. */
  predicate PostfixExists(url: string, docsPath: string, fs: map<string, FsNode>, k: nat)
    requires k < |Postfixes|
  {
    docsPath + url + Postfixes[k] in fs
  }

  /** The entries of the directory the URL names, when it is one that can be listed. */
  function Listable(url: string, docsPath: string, fs: map<string, FsNode>,
                    join: (string, string) -> string): Option<seq<Item>> {
    var fullPath := docsPath + url;
    if fullPath in fs && fs[fullPath].Directory? && fs[fullPath].entries.Some? then
      ItemsOf(url, fullPath, fs[fullPath].entries.value, fs, join)
    else None
  }

  /** `default_handler` for the decoded URL `url`: a redirect to the first ending that exists;
      when none does, the listing of the directory the URL names, its entries ordered
      directories first and by name; when that fails, 404. */
  method DefaultReply(url: string, docsPath: string, fs: map<string, FsNode>,
                      join: (string, string) -> string, encode: string -> string,
                      le: (string, string) -> bool, render: string -> string) returns (reply: Reply)
    requires TotalPreorder(le)
    ensures forall k :: (0 <= k < |Postfixes| && PostfixExists(url, docsPath, fs, k)
                         && forall j :: 0 <= j < k ==> !PostfixExists(url, docsPath, fs, j))
                        ==> reply == Redirect(url + Postfixes[k])
    ensures (forall k :: 0 <= k < |Postfixes| ==> !PostfixExists(url, docsPath, fs, k)) ==>
      if Listable(url, docsPath, fs, join).Some? then
        && reply.Page?
        && reply.title == "Directory: " + ShownUrl(url)
        && exists sorted :: Ordered(sorted, le)
             && multiset(sorted) == multiset(Listable(url, docsPath, fs, join).value)
             && reply.content == render(Concat(ListingLines(url, sorted, encode)))
      else reply == Send(404, "404 Not Found!")
  {
    for i := 0 to |Postfixes|
      invariant forall j :: 0 <= j < i ==> !PostfixExists(url, docsPath, fs, j)
    {
      if PostfixExists(url, docsPath, fs, i) {
        reply := Redirect(url + Postfixes[i]);
        return;
      }
    }
    var fullPath := docsPath + url;
    if fullPath in fs && fs[fullPath].Directory? && fs[fullPath].entries.Some? {
      var items := ItemsOf(url, fullPath, fs[fullPath].entries.value, fs, join);
      if items.Some? {
        var sorted := SortItems(items.value, le);
        var content := BuildListing(url, sorted, encode);
        reply := Page("Directory: " + ShownUrl(url), render(content));
        return;
      }
    }
    reply := Send(404, "404 Not Found!");
  }
}

/**
  createDirIndex: the HTML listing served for a directory that has no index
  file. It holds a title and heading made of the escaped request path, a
  link to ".." unless that path is the root, one item per directory entry
  in sorted order, and a closing footer.
 */
module DirIndex {
  import opened Wrappers
  import opened FileSystem
  import opened Resolver
  import opened Html
  import opened Sorting
  import opened Resource

  /** The request URI; the listing reads its path and derives each item's link from it. */
  datatype Uri = Uri(host: string, path: string, queryString: string)

  /** One list item: the link target and the text shown, both already escaped. */
  datatype Entry = Entry(href: string, text: string)

  const ListingContentType: string := "text/html"
  const ParentEntry: Entry := Entry("..", "..")
  const Footer: string := "</ul></body></html>"

  function Header(title: string): string {
    "<html><head><title>" + title + "</title></head><body>" + "<h1>" + title + "</h1>" + "<ul>"
  }

  function ItemHtml(e: Entry): string {
    "<li><a href=\"" + e.href + "\">" + e.text + "</a></li>"
  }

  /** The items, one after another. */
  function Render(entries: seq<Entry>): string {
    if entries == [] then []
    else Render(entries[..|entries| - 1]) + ItemHtml(entries[|entries| - 1])
  }

  /** The ".." item, present exactly when the escaped request path is longer than one byte. */
  function ParentEntries(title: string): seq<Entry> {
    if |title| > 1 then [ParentEntry] else []
  }

  /**
    The URI after `update` (URI.Update) has been applied for each name in
    turn, starting from a copy of `base`, as the listing loop does.
   */
  function UriAfter(base: Uri, names: seq<string>, update: (Uri, string) -> Uri): Uri {
    if names == [] then base
    else update(UriAfter(base, names[..|names| - 1], update), names[|names| - 1])
  }

  /** One item per name, in the order given; the link is the escaped path of the updated URI. */
  function ChildEntries(base: Uri, names: seq<string>, update: (Uri, string) -> Uri): seq<Entry> {
    if names == [] then []
    else
      ChildEntries(base, names[..|names| - 1], update)
        + [Entry(EscapeString(UriAfter(base, names, update).path), EscapeString(names[|names| - 1]))]
  }

  /** All items of the listing of a directory holding `names`. */
  function Entries(base: Uri, names: seq<string>, update: (Uri, string) -> Uri): seq<Entry> {
    ParentEntries(EscapeString(base.path)) + ChildEntries(base, SortNames(names), update)
  }

  function Page(base: Uri, names: seq<string>, update: (Uri, string) -> Uri): string {
    var title := EscapeString(base.path);
    Header(title) + Render(Entries(base, names, update)) + Footer
  }

  /** The descriptor createDirIndex builds; it leaves `f` nil and `t` unassigned. */
  function ListingFile(base: Uri, names: seq<string>, update: (Uri, string) -> Uri): FsFile {
    var page := Page(base, names, update);
    FsFile(null, page, ListingContentType, |page|, ZeroTime)
  }

  /** The handles createDirIndex opens: one, closed straight after listing it. */
  function DirIndexTrace(fs: Fs, filePath: string): seq<HandleOp> {
    if OpenError(fs, filePath).Some? then [] else [Open(filePath), Close(filePath)]
  }

  /** What createDirIndex returns: the listing, or the error of os.Open or Readdirnames. */
  function DirIndexResult(base: Uri, filePath: string, fs: Fs, update: (Uri, string) -> Uri): Result<FsFile, Error> {
    if OpenError(fs, filePath).Some? then Err(Os(OpenError(fs, filePath).value))
    else match ReadDirNames(fs, filePath)
      case Err(e) => Err(Os(e))
      case Ok(names) => Ok(ListingFile(base, names, update))
  }

  lemma {:induction false} RenderAppend(a: seq<Entry>, b: seq<Entry>)
    ensures Render(a + b) == Render(a) + Render(b)
    decreases |b|
  {
    if b != [] {
      assert (a + b)[..|a + b| - 1] == a + b[..|b| - 1];
      RenderAppend(a, b[..|b| - 1]);
    } else {
      assert a + b == a;
    }
  }

  /**
    createDirIndex. The header and the ".." item are written before the
    directory is opened; the loop appends one item per sorted name, updating
    a copy of the request URI with each name.
   */
  method CreateDirIndex(base: Uri, filePath: string, fs: Fs, update: (Uri, string) -> Uri)
    returns (res: Result<FsFile, Error>, trace: seq<HandleOp>)
    ensures res == DirIndexResult(base, filePath, fs, update)
    ensures trace == DirIndexTrace(fs, filePath)
    ensures res.Ok? ==> res.value.f == null && res.value.contentType == ListingContentType
    ensures res.Ok? ==> res.value.contentLength == |res.value.dirIndex|
  {
    var title := EscapeString(base.path);
    var buf := Header(title);
    if |title| > 1 {
      buf := buf + ItemHtml(ParentEntry);
    }
    ParentItem(title);

    var openErr := OpenError(fs, filePath);
    if openErr.Some? {
      return Err(Os(openErr.value)), [];
    }
    var listing := ReadDirNames(fs, filePath);
    trace := [Open(filePath), Close(filePath)];
    if listing.Err? {
      return Err(Os(listing.error)), trace;
    }

    var sorted := SortNames(listing.value);
    var items := WriteItems(base, sorted, update);
    ListingPage(base, listing.value, update);
    buf := buf + items + Footer;
    res := Ok(FsFile(null, buf, ListingContentType, |buf|, ZeroTime));
  }

  /** The header followed by the ".." item, when there is one. */
  lemma ParentItem(title: string)
    ensures Header(title) + Render(ParentEntries(title))
         == if |title| > 1 then Header(title) + ItemHtml(ParentEntry) else Header(title)
  {
    if |title| > 1 {
      assert Render([ParentEntry]) == Render([]) + ItemHtml(ParentEntry);
    } else {
      assert Header(title) + [] == Header(title);
    }
  }

  /** The loop of createDirIndex: one item per name, updating a copy of the request URI with each name. */
  method WriteItems(base: Uri, names: seq<string>, update: (Uri, string) -> Uri) returns (items: string)
    ensures items == Render(ChildEntries(base, names, update))
  {
    items := [];
    var u := base;
    var i := 0;
    while i < |names|
      invariant 0 <= i <= |names|
      invariant u == UriAfter(base, names[..i], update)
      invariant items == Render(ChildEntries(base, names[..i], update))
    {
      ListingStep(base, names, update, i);
      u := update(u, names[i]);
      items := items + ItemHtml(Entry(EscapeString(u.path), EscapeString(names[i])));
      i := i + 1;
    }
    assert names[..|names|] == names;
  }

  lemma Associative(a: string, b: string, c: string)
    ensures a + (b + c) == a + b + c
  {
  }

  lemma {:induction false} ChildEntriesLength(base: Uri, names: seq<string>, update: (Uri, string) -> Uri)
    ensures |ChildEntries(base, names, update)| == |names|
    decreases |names|
  {
    if names != [] {
      ChildEntriesLength(base, names[..|names| - 1], update);
    }
  }

  /** The page is the header, the ".." item if any, the children's items and the footer. */
  lemma ListingPage(base: Uri, names: seq<string>, update: (Uri, string) -> Uri)
    ensures Page(base, names, update)
         == Header(EscapeString(base.path)) + Render(ParentEntries(EscapeString(base.path)))
          + Render(ChildEntries(base, SortNames(names), update)) + Footer
  {
    var title := EscapeString(base.path);
    RenderAppend(ParentEntries(title), ChildEntries(base, SortNames(names), update));
    Associative(Header(title), Render(ParentEntries(title)), Render(ChildEntries(base, SortNames(names), update)));
  }

  /** Item i of the children is the i-th name, its link derived after updating with names 0..i. */
  lemma {:induction false} ChildEntryAt(base: Uri, names: seq<string>, update: (Uri, string) -> Uri, i: nat)
    requires i < |names|
    ensures |ChildEntries(base, names, update)| == |names|
    ensures ChildEntries(base, names, update)[i]
         == Entry(EscapeString(UriAfter(base, names[..i + 1], update).path), EscapeString(names[i]))
    decreases |names|
  {
    var init := names[..|names| - 1];
    var last := Entry(EscapeString(UriAfter(base, names, update).path), EscapeString(names[|names| - 1]));
    assert ChildEntries(base, names, update) == ChildEntries(base, init, update) + [last];
    ChildEntriesLength(base, init, update);
    if i < |names| - 1 {
      ChildEntryAt(base, init, update, i);
      assert init[..i + 1] == names[..i + 1] && init[i] == names[i];
    } else {
      assert names[..i + 1] == names;
    }
  }

  /** One turn of the listing loop: the URI and the items grow by the next name. */
  lemma ListingStep(base: Uri, names: seq<string>, update: (Uri, string) -> Uri, i: nat)
    requires i < |names|
    ensures UriAfter(base, names[..i + 1], update) == update(UriAfter(base, names[..i], update), names[i])
    ensures Render(ChildEntries(base, names[..i + 1], update))
         == Render(ChildEntries(base, names[..i], update))
          + ItemHtml(Entry(EscapeString(UriAfter(base, names[..i + 1], update).path), EscapeString(names[i])))
  {
    var next := names[..i + 1];
    assert next[..i] == names[..i];
    var es := ChildEntries(base, next, update);
    assert es[..|es| - 1] == ChildEntries(base, names[..i], update);
  }

  /**
    The listing's items: the ".." item first exactly when the escaped request
    path is longer than one byte, then one item per directory entry, in
    sorted order, each showing the escaped name.
   */
  lemma ListingItems(base: Uri, names: seq<string>, update: (Uri, string) -> Uri)
    ensures var parent := if |EscapeString(base.path)| > 1 then 1 else 0;
            var es := Entries(base, names, update);
            && |es| == parent + |names|
            && (parent == 1 <==> es[..parent] == [ParentEntry])
            && forall i | parent <= i < |es| :: es[i].text == EscapeString(SortNames(names)[i - parent])
  {
    var sorted := SortNames(names);
    var title := EscapeString(base.path);
    var children := ChildEntries(base, sorted, update);
    assert Entries(base, names, update) == ParentEntries(title) + children;
    assert |sorted| == |names|;
    ChildTexts(base, sorted, update);
    ParentThenChildren(title, children, sorted);
  }

  /** The ".." item, if any, followed by items showing the given names. */
  lemma ParentThenChildren(title: string, children: seq<Entry>, names: seq<string>)
    requires |children| == |names|
    requires forall i | 0 <= i < |names| :: children[i].text == EscapeString(names[i])
    ensures var parent := if |title| > 1 then 1 else 0;
            var es := ParentEntries(title) + children;
            && |es| == parent + |names|
            && (parent == 1 <==> es[..parent] == [ParentEntry])
            && forall i | parent <= i < |es| :: es[i].text == EscapeString(names[i - parent])
  {
    var es := ParentEntries(title) + children;
    if |title| > 1 {
      assert es == [ParentEntry] + children;
      assert es[..1] == [ParentEntry];
      forall i | 1 <= i < |es| ensures es[i].text == EscapeString(names[i - 1]) {
        assert es[i] == children[i - 1];
      }
    } else {
      assert es == children;
      assert es[..0] == [];
    }
  }

  /** The children's texts are the escaped names, in order. */
  lemma ChildTexts(base: Uri, names: seq<string>, update: (Uri, string) -> Uri)
    ensures var cs := ChildEntries(base, names, update);
            |cs| == |names| && forall i | 0 <= i < |names| :: cs[i].text == EscapeString(names[i])
  {
    ChildEntriesLength(base, names, update);
    forall i | 0 <= i < |names| ensures ChildEntries(base, names, update)[i].text == EscapeString(names[i]) {
      ChildEntryAt(base, names, update, i);
    }
  }

  /** No link and no label of the listing can open or close markup. */
  lemma ListingIsEscaped(base: Uri, names: seq<string>, update: (Uri, string) -> Uri)
    ensures forall e | e in Entries(base, names, update) :: NoMarkup(e.href) && NoMarkup(e.text)
  {
    var sorted := SortNames(names);
    ChildEntriesLength(base, sorted, update);
    forall e | e in Entries(base, names, update) ensures NoMarkup(e.href) && NoMarkup(e.text) {
      if e !in ParentEntries(EscapeString(base.path)) {
        var i :| 0 <= i < |ChildEntries(base, sorted, update)| && ChildEntries(base, sorted, update)[i] == e;
        ChildEntryAt(base, sorted, update, i);
      }
    }
  }

  /** A directory holding b.txt, a.txt and index.htm lists them as a.txt, b.txt, index.htm. */
  lemma ListingOrderExample()
    ensures SortNames(["b.txt", "a.txt", "index.htm"]) == ["a.txt", "b.txt", "index.htm"]
  {
    var want := ["a.txt", "b.txt", "index.htm"];
    assert LessEq("a.txt", "b.txt") && LessEq("b.txt", "index.htm");
    assert Sorted(want) by {
      LessEqTransitive("a.txt", "b.txt", "index.htm");
    }
    assert multiset(want) == multiset(["b.txt", "a.txt", "index.htm"]);
    SortedPermutationsAgree(SortNames(["b.txt", "a.txt", "index.htm"]), want);
  }
}

/**
 * `buildDocTree`, `findNodeByPath` and `flattenTree` of `lib/docs.ts`.
 *
 * Pages name their parent by title, and the index built by the first pass is
 * keyed by title, so every node reference the second pass pushes is "the
 * node indexed under this title". The index is therefore modelled as a map
 * from titles to entries whose children are titles; the third pass grows the
 * forest of `DocNode` values from it, stamping each node's path on the way.
 */
module DocTree {
  import opened Wrappers
  import opened Text
  import opened DocTypes
  import opened Slug

  /** A page in the built forest, with its slug, its child nodes and its `/`-joined path. */
  datatype DocNode = DocNode(page: DocPage, slug: string, children: seq<DocNode>, path: string)

  /** One slot of the title index: the page, its slug, the titles of its children and its path. */
  datatype Entry = Entry(page: DocPage, slug: string, children: seq<string>, path: string)

  /** The titles of the pages, as a set. */
  function TitleSet(pages: seq<DocPage>): set<string> {
    set p | p in pages :: p.title
  }

  /** No two pages share a title. */
  predicate DistinctTitles(pages: seq<DocPage>) {
    forall i, j :: 0 <= i < j < |pages| ==> pages[i].title != pages[j].title
  }

  /**
   * Where the link pass puts a page: among the children of its parent
   * (`Some(parent)`) when `parent` is present, non-empty and the title of
   * some page; otherwise among the roots (`None`).
   */
  function Slot(titles: set<string>, p: DocPage): Option<string> {
    if p.parent.Some? && p.parent.value != "" && p.parent.value in titles then Some(p.parent.value)
    else None
  }

  /** The titles of the pages of `ps` that go to slot `s`, in input order. */
  function Placed(titles: set<string>, ps: seq<DocPage>, s: Option<string>): seq<string> {
    if ps == [] then []
    else
      var last := ps[|ps| - 1];
      Placed(titles, ps[..|ps| - 1], s) + (if Slot(titles, last) == s then [last.title] else [])
  }

  /** The titles of the root pages, in input order. */
  function RootTitles(pages: seq<DocPage>): seq<string> {
    Placed(TitleSet(pages), pages, None)
  }

  /** The titles of the children of the page titled `t`, in input order. */
  function ChildTitles(pages: seq<DocPage>, t: string): seq<string> {
    Placed(TitleSet(pages), pages, Some(t))
  }

  /** The page the index keeps for title `t`: the last page with that title. */
  function IndexedPage(pages: seq<DocPage>, t: string): (p: DocPage)
    requires t in TitleSet(pages)
    ensures p in pages && p.title == t
  {
    var last := pages[|pages| - 1];
    if last.title == t then last
    else
      TitleBeforeLast(pages, t);
      IndexedPage(pages[..|pages| - 1], t)
  }

  /** A title that is not the last page's is the title of an earlier page. */
  lemma TitleBeforeLast(pages: seq<DocPage>, t: string)
    requires t in TitleSet(pages) && pages[|pages| - 1].title != t
    ensures t in TitleSet(pages[..|pages| - 1])
  {
    var q :| q in pages && q.title == t;
    var i :| 0 <= i < |pages| && pages[i] == q;
    assert pages[..|pages| - 1][i] == q;
  }

  /** A freshly indexed entry: no children yet, and the path is the slug. */
  function FreshEntry(p: DocPage): Entry {
    var slug := Slugify(p.title);
    Entry(p, slug, [], slug)
  }

  /** The path of a node: its slug, under its parent's path when that path is non-empty. */
  function JoinPath(parentPath: string, slug: string): string {
    if parentPath != "" then parentPath + "/" + slug else slug
  }

  /** The titles of `pages[..n]` grow by one title per page. */
  lemma TitleSetSnoc(pages: seq<DocPage>, n: nat)
    requires n < |pages|
    ensures TitleSet(pages[..n + 1]) == TitleSet(pages[..n]) + {pages[n].title}
  {
    assert pages[..n + 1] == pages[..n] + [pages[n]];
  }

  /**
   * First pass: index every page under its title. A later page with the same
   * title overwrites the earlier one, so each title keeps its last page.
   */
  method IndexPages(pages: seq<DocPage>) returns (index: map<string, Entry>)
    ensures index.Keys == TitleSet(pages)
    ensures forall t :: t in index ==> index[t] == FreshEntry(IndexedPage(pages, t))
  {
    index := map[];
    for i := 0 to |pages|
      invariant index.Keys == TitleSet(pages[..i])
      invariant forall t :: t in index ==> index[t] == FreshEntry(IndexedPage(pages[..i], t))
    {
      TitleSetSnoc(pages, i);
      assert pages[..i + 1][..i] == pages[..i];
      index := index[pages[i].title := FreshEntry(pages[i])];
    }
    assert pages[..|pages|] == pages;
  }

  /** `linked` is the index after both passes: every title, its last page, its children in order. */
  predicate IsLinkedIndex(pages: seq<DocPage>, linked: map<string, Entry>) {
    linked.Keys == TitleSet(pages) &&
    forall t :: t in linked ==>
      linked[t] == FreshEntry(IndexedPage(pages, t)).(children := ChildTitles(pages, t))
  }

  /**
   * Second pass: append each page, in input order, to the children of its
   * parent when the parent is non-empty and indexed, otherwise to the roots.
   */
  method LinkPages(pages: seq<DocPage>, index: map<string, Entry>)
    returns (linked: map<string, Entry>, roots: seq<string>)
    requires index.Keys == TitleSet(pages)
    requires forall t :: t in index ==> index[t].children == []
    ensures linked.Keys == index.Keys
    ensures forall t :: t in linked ==> linked[t] == index[t].(children := ChildTitles(pages, t))
    ensures roots == RootTitles(pages)
  {
    var titles := TitleSet(pages);
    linked, roots := index, [];
    for i := 0 to |pages|
      invariant LinkedUpTo(index, titles, pages[..i], linked)
      invariant roots == Placed(titles, pages[..i], None)
    {
      var page := pages[i];
      PlacedStep(titles, pages, i, None);
      if page.parent.Some? && page.parent.value != "" && page.parent.value in linked {
        var p := page.parent.value;
        LinkChild(index, titles, pages, i, linked);
        linked := linked[p := linked[p].(children := linked[p].children + [page.title])];
      } else {
        LinkRoot(index, titles, pages, i, linked);
        roots := roots + [page.title];
      }
    }
    assert pages[..|pages|] == pages;
  }

  /** After linking the pages `ps`, every slot of the index holds the titles placed under it. */
  predicate LinkedUpTo(index: map<string, Entry>, titles: set<string>, ps: seq<DocPage>, linked: map<string, Entry>) {
    linked.Keys == index.Keys &&
    forall t :: t in linked ==> linked[t] == index[t].(children := Placed(titles, ps, Some(t)))
  }

  /** Appending page `i` to the children of its indexed parent keeps the index linked. */
  lemma LinkChild(index: map<string, Entry>, titles: set<string>, pages: seq<DocPage>, i: nat, linked: map<string, Entry>)
    requires i < |pages| && index.Keys == titles
    requires LinkedUpTo(index, titles, pages[..i], linked)
    requires pages[i].parent.Some? && pages[i].parent.value != "" && pages[i].parent.value in linked
    ensures var p := pages[i].parent.value;
      LinkedUpTo(index, titles, pages[..i + 1], linked[p := linked[p].(children := linked[p].children + [pages[i].title])])
  {
    var p := pages[i].parent.value;
    var next := linked[p := linked[p].(children := linked[p].children + [pages[i].title])];
    forall t | t in next
      ensures next[t] == index[t].(children := Placed(titles, pages[..i + 1], Some(t)))
    {
      PlacedStep(titles, pages, i, Some(t));
    }
  }

  /** A page without an indexed parent leaves every slot of the index as it is. */
  lemma LinkRoot(index: map<string, Entry>, titles: set<string>, pages: seq<DocPage>, i: nat, linked: map<string, Entry>)
    requires i < |pages| && index.Keys == titles
    requires LinkedUpTo(index, titles, pages[..i], linked)
    requires !(pages[i].parent.Some? && pages[i].parent.value != "" && pages[i].parent.value in linked)
    ensures LinkedUpTo(index, titles, pages[..i + 1], linked)
  {
    forall t | t in linked
      ensures linked[t] == index[t].(children := Placed(titles, pages[..i + 1], Some(t)))
    {
      PlacedStep(titles, pages, i, Some(t));
    }
  }

  /** Placing one more page extends exactly the slot the page goes to. */
  lemma PlacedStep(titles: set<string>, pages: seq<DocPage>, i: nat, s: Option<string>)
    requires i < |pages|
    ensures Placed(titles, pages[..i + 1], s) ==
      Placed(titles, pages[..i], s) + (if Slot(titles, pages[i]) == s then [pages[i].title] else [])
  {
    assert pages[..i + 1][..i] == pages[..i];
  }

  /**
   * The ancestors of the node being stamped, from its root down to itself:
   * the first is a root, each next one a child of the one before, and none
   * repeats.
   */
  ghost predicate ChainOK(pages: seq<DocPage>, chain: seq<string>) {
    (chain != [] ==> chain[0] in RootTitles(pages)) &&
    (forall i :: 0 < i < |chain| ==> chain[i] in ChildTitles(pages, chain[i - 1])) &&
    (forall i, j :: 0 <= i < j < |chain| ==> chain[i] != chain[j])
  }

  /**
   * `node` is the page of its title grown from the linked index, with its
   * path stamped under `parentPath` and its children grown likewise in order.
   */
  predicate Grown(pages: seq<DocPage>, node: DocNode, parentPath: string)
    decreases node, 1
  {
    var t := node.page.title;
    t in TitleSet(pages) &&
    node.page == IndexedPage(pages, t) &&
    node.slug == Slugify(t) &&
    node.path == JoinPath(parentPath, node.slug) &&
    GrownList(pages, node.children, ChildTitles(pages, t), node.path)
  }

  /** `nodes` are the pages titled `titles`, in that order, each grown under `parentPath`. */
  predicate GrownList(pages: seq<DocPage>, nodes: seq<DocNode>, titles: seq<string>, parentPath: string)
    decreases nodes, 0
  {
    |nodes| == |titles| &&
    forall k :: 0 <= k < |nodes| ==> nodes[k].page.title == titles[k] && Grown(pages, nodes[k], parentPath)
  }

  /** Growing the node for the next title extends a grown list. */
  lemma GrownListSnoc(pages: seq<DocPage>, nodes: seq<DocNode>, titles: seq<string>, k: nat,
                      parentPath: string, node: DocNode)
    requires k < |titles| && GrownList(pages, nodes, titles[..k], parentPath)
    requires node.page.title == titles[k] && Grown(pages, node, parentPath)
    ensures GrownList(pages, nodes + [node], titles[..k + 1], parentPath)
  {
    var ns, ts := nodes + [node], titles[..k + 1];
    forall j | 0 <= j < |ns|
      ensures ns[j].page.title == ts[j] && Grown(pages, ns[j], parentPath)
    {
      if j < |nodes| {
        assert ns[j] == nodes[j] && ts[j] == titles[..k][j];
      }
    }
  }

  /** Every title placed in a slot belongs to a page that goes to that slot. */
  lemma {:induction false} PlacedMember(titles: set<string>, ps: seq<DocPage>, s: Option<string>, x: string)
    requires x in Placed(titles, ps, s)
    ensures exists i :: 0 <= i < |ps| && ps[i].title == x && Slot(titles, ps[i]) == s
  {
    var init := ps[..|ps| - 1];
    if x in Placed(titles, init, s) {
      PlacedMember(titles, init, s, x);
      var i :| 0 <= i < |init| && init[i].title == x && Slot(titles, init[i]) == s;
      assert ps[i] == init[i];
    } else {
      assert ps[|ps| - 1].title == x;
    }
  }

  /** With distinct titles a title is placed in one slot at most. */
  lemma SameTitleSameSlot(pages: seq<DocPage>, x: string, s1: Option<string>, s2: Option<string>)
    requires DistinctTitles(pages)
    requires x in Placed(TitleSet(pages), pages, s1) && x in Placed(TitleSet(pages), pages, s2)
    ensures s1 == s2
  {
    PlacedMember(TitleSet(pages), pages, s1, x);
    PlacedMember(TitleSet(pages), pages, s2, x);
  }

  /** A child of the last node of an ancestor chain is a page title not yet on the chain. */
  lemma ChildExtendsChain(pages: seq<DocPage>, chain: seq<string>, c: string)
    requires DistinctTitles(pages)
    requires chain != [] && ChainOK(pages, chain)
    requires c in ChildTitles(pages, chain[|chain| - 1])
    ensures c in TitleSet(pages) && c !in chain
    ensures ChainOK(pages, chain + [c])
    ensures (set x | x in chain + [c]) == (set x | x in chain) + {c}
  {
    var titles := TitleSet(pages);
    var last := chain[|chain| - 1];
    PlacedMember(titles, pages, Some(last), c);
    if j :| 0 <= j < |chain| && chain[j] == c {
      if j == 0 {
        SameTitleSameSlot(pages, c, None, Some(last));
      } else {
        SameTitleSameSlot(pages, c, Some(chain[j - 1]), Some(last));
      }
      assert false;
    }
    var ext := chain + [c];
    assert forall i :: 0 < i < |ext| ==> ext[i] in ChildTitles(pages, ext[i - 1]) by {
      forall i | 0 < i < |ext| ensures ext[i] in ChildTitles(pages, ext[i - 1]) {
        if i < |chain| {
          assert ext[i] == chain[i] && ext[i - 1] == chain[i - 1];
        }
      }
    }
  }

  /** Every title listed as a child or a root is indexed. */
  lemma PlacedIndexed(pages: seq<DocPage>, s: Option<string>, x: string)
    requires x in Placed(TitleSet(pages), pages, s)
    ensures x in TitleSet(pages)
  {
    PlacedMember(TitleSet(pages), pages, s, x);
  }

  /** The node assembled from an index entry and its grown children is grown. */
  lemma GrowNode(pages: seq<DocPage>, linked: map<string, Entry>, title: string, parentPath: string,
                 kids: seq<DocNode>)
    requires IsLinkedIndex(pages, linked) && title in linked
    requires GrownList(pages, kids, linked[title].children, JoinPath(parentPath, linked[title].slug))
    ensures var e := linked[title];
      Grown(pages, DocNode(e.page, e.slug, kids, JoinPath(parentPath, e.slug)), parentPath)
  {
  }

  /**
   * `updatePaths`: stamp the node titled `title` under `parentPath`, then its
   * children in order under the node's own path. `chain` lists the node's
   * ancestors; it never repeats, which is what bounds the recursion.
   */
  method UpdatePaths(ghost pages: seq<DocPage>, linked: map<string, Entry>, title: string,
                     parentPath: string, ghost chain: seq<string>)
    returns (node: DocNode)
    requires DistinctTitles(pages) && IsLinkedIndex(pages, linked)
    requires chain != [] && chain[|chain| - 1] == title && ChainOK(pages, chain)
    requires title in TitleSet(pages)
    ensures node.page.title == title && Grown(pages, node, parentPath)
    decreases TitleSet(pages) - (set x | x in chain)
  {
    var entry := linked[title];
    var path := JoinPath(parentPath, entry.slug);
    var kids: seq<DocNode> := [];
    for k := 0 to |entry.children|
      invariant GrownList(pages, kids, entry.children[..k], path)
    {
      var c := entry.children[k];
      ChildExtendsChain(pages, chain, c);
      var child := UpdatePaths(pages, linked, c, path, chain + [c]);
      GrownListSnoc(pages, kids, entry.children, k, path, child);
      kids := kids + [child];
    }
    assert entry.children[..|entry.children|] == entry.children;
    GrowNode(pages, linked, title, parentPath, kids);
    node := DocNode(entry.page, entry.slug, kids, path);
  }

  /**
   * `buildDocTree`: index, link, then stamp paths from every root. The roots
   * are the root pages in input order, each grown into its subtree with its
   * slug as its path.
   */
  method BuildDocTree(pages: seq<DocPage>) returns (roots: seq<DocNode>)
    requires DistinctTitles(pages)
    ensures GrownList(pages, roots, RootTitles(pages), "")
  {
    var index := IndexPages(pages);
    var linked, rootTitles := LinkPages(pages, index);
    assert IsLinkedIndex(pages, linked);
    roots := [];
    for k := 0 to |rootTitles|
      invariant GrownList(pages, roots, rootTitles[..k], "")
    {
      var r := rootTitles[k];
      assert r in TitleSet(pages) && ChainOK(pages, [r]) by {
        PlacedIndexed(pages, None, r);
      }
      var root := UpdatePaths(pages, linked, r, "", [r]);
      GrownListSnoc(pages, roots, rootTitles, k, "", root);
      roots := roots + [root];
    }
    assert rootTitles[..|rootTitles|] == rootTitles;
  }

  // Placement properties of the link pass.

  /** The index keeps the last page with each title: page `j`, when no later page shares its title. */
  lemma {:induction false} IndexedPageIsLast(pages: seq<DocPage>, j: nat)
    requires j < |pages|
    requires forall k :: j < k < |pages| ==> pages[k].title != pages[j].title
    ensures pages[j].title in TitleSet(pages) && IndexedPage(pages, pages[j].title) == pages[j]
  {
    assert pages[j] in pages;
    var n := |pages| - 1;
    if j < n {
      var init := pages[..n];
      assert init[j] == pages[j];
      IndexedPageIsLast(init, j);
    }
  }

  /**
   * With distinct titles every page is placed exactly once: its title occurs
   * once in the list of its own slot and in no other list.
   */
  lemma {:induction false} PlacedExactlyOnce(titles: set<string>, ps: seq<DocPage>, i: nat, s: Option<string>)
    requires DistinctTitles(ps) && i < |ps|
    ensures multiset(Placed(titles, ps, s))[ps[i].title] == if Slot(titles, ps[i]) == s then 1 else 0
  {
    var n := |ps| - 1;
    var init := ps[..n];
    assert DistinctTitles(init) by {
      assert forall j :: 0 <= j < n ==> init[j] == ps[j];
    }
    var before := Placed(titles, init, s);
    var extra := if Slot(titles, ps[n]) == s then [ps[n].title] else [];
    assert multiset(Placed(titles, ps, s)) == multiset(before) + multiset(extra);
    if i == n {
      if ps[i].title in before {
        PlacedMember(titles, init, s, ps[i].title);
        assert false;
      }
    } else {
      assert multiset(before)[ps[i].title] == if Slot(titles, ps[i]) == s then 1 else 0 by {
        assert init[i] == ps[i];
        PlacedExactlyOnce(titles, init, i, s);
      }
      assert ps[n].title != ps[i].title;
    }
  }

  /** Where page `i` sits in the list of its slot: after the earlier pages of that slot. */
  function Position(titles: set<string>, pages: seq<DocPage>, i: nat): nat
    requires i < |pages|
  {
    |Placed(titles, pages[..i], Slot(titles, pages[i]))|
  }

  /** The list of a slot for a prefix of the pages is a prefix of the full list. */
  lemma {:induction false} PlacedPrefix(titles: set<string>, ps: seq<DocPage>, j: nat, s: Option<string>)
    requires j <= |ps|
    ensures Placed(titles, ps[..j], s) <= Placed(titles, ps, s)
    decreases |ps|
  {
    if j < |ps| {
      var init := ps[..|ps| - 1];
      assert init[..j] == ps[..j];
      PlacedPrefix(titles, init, j, s);
    } else {
      assert ps[..j] == ps;
    }
  }

  /**
   * Every page, duplicates included, is placed in the list of its slot at its
   * position, so each occurrence of a title is pushed once.
   */
  lemma PlacedAt(titles: set<string>, pages: seq<DocPage>, i: nat)
    requires i < |pages|
    ensures var list := Placed(titles, pages, Slot(titles, pages[i]));
      Position(titles, pages, i) < |list| && list[Position(titles, pages, i)] == pages[i].title
  {
    var s := Slot(titles, pages[i]);
    assert pages[..i + 1][..i] == pages[..i];
    PlacedPrefix(titles, pages, i + 1, s);
  }

  /** Siblings and roots keep input order: of two pages in one slot, the earlier comes first. */
  lemma SiblingOrder(titles: set<string>, pages: seq<DocPage>, i: nat, j: nat)
    requires i < j < |pages| && Slot(titles, pages[i]) == Slot(titles, pages[j])
    ensures Position(titles, pages, i) < Position(titles, pages, j)
  {
    var s := Slot(titles, pages[i]);
    assert pages[..i + 1][..i] == pages[..i];
    assert pages[..j][..i + 1] == pages[..i + 1];
    PlacedPrefix(titles, pages[..j], i + 1, s);
  }

  // findNodeByPath.

  /** `Array.prototype.find` by slug: the position of the first node with that slug, if any. */
  function FindBySlug(nodes: seq<DocNode>, slug: string): (r: Option<nat>)
    ensures r.Some? ==> (r.value < |nodes| && nodes[r.value].slug == slug &&
                         forall j :: 0 <= j < r.value ==> nodes[j].slug != slug)
    ensures r.None? ==> forall j :: 0 <= j < |nodes| ==> nodes[j].slug != slug
  {
    if nodes == [] then None
    else if nodes[0].slug == slug then Some(0)
    else match FindBySlug(nodes[1..], slug)
      case None => None
      case Some(i) => Some(i + 1)
  }

  /**
   * What `findNodeByPath` returns: nothing for no segments; otherwise the
   * first node of the level whose slug is the first segment, and from there
   * the lookup of the remaining segments among its children.
   */
  function Lookup(nodes: seq<DocNode>, segs: seq<string>): (r: Option<DocNode>)
    ensures segs == [] ==> r.None?
    ensures r.Some? ==> r.value.slug == segs[|segs| - 1]
    decreases segs
  {
    if segs == [] then None
    else match FindBySlug(nodes, segs[0])
      case None => None
      case Some(i) => if |segs| == 1 then Some(nodes[i]) else Lookup(nodes[i].children, segs[1..])
  }

  /** `findNodeByPath`: walk down one level per segment, keeping the last node found. */
  method FindNodeByPath(tree: seq<DocNode>, slugPath: seq<string>) returns (result: Option<DocNode>)
    ensures result == Lookup(tree, slugPath)
  {
    if |slugPath| == 0 {
      return None;
    }
    var currentNodes := tree;
    result := None;
    for i := 0 to |slugPath|
      invariant i == 0 ==> currentNodes == tree
      invariant 0 < i ==> result.Some? && currentNodes == result.value.children
      invariant 0 < i ==>
        (Lookup(tree, slugPath) == if i == |slugPath| then result else Lookup(currentNodes, slugPath[i..]))
    {
      assert slugPath[i..][0] == slugPath[i] && slugPath[i..][1..] == slugPath[i + 1..];
      var found := FindBySlug(currentNodes, slugPath[i]);
      if found.None? {
        return None;
      }
      result := Some(currentNodes[found.value]);
      currentNodes := currentNodes[found.value].children;
    }
  }

  /** Every node's path is its slug under its parent's path, all the way down. */
  predicate Stamped(nodes: seq<DocNode>, parentPath: string)
    decreases nodes
  {
    forall k :: 0 <= k < |nodes| ==>
      nodes[k].path == JoinPath(parentPath, nodes[k].slug) && Stamped(nodes[k].children, nodes[k].path)
  }

  /** A grown forest has its paths stamped. */
  lemma {:induction false} GrownStamped(pages: seq<DocPage>, nodes: seq<DocNode>, titles: seq<string>,
                                       parentPath: string)
    requires GrownList(pages, nodes, titles, parentPath)
    ensures Stamped(nodes, parentPath)
    decreases nodes
  {
    forall k | 0 <= k < |nodes|
      ensures nodes[k].path == JoinPath(parentPath, nodes[k].slug) && Stamped(nodes[k].children, nodes[k].path)
    {
      GrownAt(pages, nodes, titles, parentPath, k);
      GrownStamped(pages, nodes[k].children, ChildTitles(pages, nodes[k].page.title), nodes[k].path);
    }
  }

  /**
   * A lookup with non-empty segments in a stamped forest finds the node whose
   * path is the segments joined by `/` under the forest's parent path.
   */
  lemma {:induction false} LookupPath(nodes: seq<DocNode>, parentPath: string, segs: seq<string>)
    requires Stamped(nodes, parentPath)
    requires forall k :: 0 <= k < |segs| ==> segs[k] != ""
    requires Lookup(nodes, segs).Some?
    ensures Lookup(nodes, segs).value.path == JoinPath(parentPath, Join(segs, "/"))
    decreases segs
  {
    var i := FindBySlug(nodes, segs[0]).value;
    var n := nodes[i];
    assert n.path == JoinPath(parentPath, segs[0]);
    if |segs| > 1 {
      var rest := segs[1..];
      LookupStep(nodes, segs);
      LookupPath(n.children, n.path, rest);
      assert segs[0] != "";
      JoinPathCons(parentPath, segs[0], Join(rest, "/"));
      assert Join(segs, "/") == segs[0] + "/" + Join(rest, "/");
    } else {
      assert Join(segs, "/") == segs[0];
    }
  }

  /** From the roots of a built forest, a found node's path is exactly the segments joined by `/`. */
  lemma LookupPathFromRoots(pages: seq<DocPage>, roots: seq<DocNode>, segs: seq<string>)
    requires GrownList(pages, roots, RootTitles(pages), "")
    requires forall k :: 0 <= k < |segs| ==> segs[k] != ""
    requires Lookup(roots, segs).Some?
    ensures Lookup(roots, segs).value.path == Join(segs, "/")
  {
    GrownStamped(pages, roots, RootTitles(pages), "");
    LookupPath(roots, "", segs);
  }

  /** Past the first segment, the lookup continues among the children of the first match. */
  lemma LookupStep(nodes: seq<DocNode>, segs: seq<string>)
    requires Lookup(nodes, segs).Some? && |segs| > 1
    ensures var i := FindBySlug(nodes, segs[0]).value;
      Lookup(nodes, segs) == Lookup(nodes[i].children, segs[1..])
  {
  }

  /** A node of a grown list has its path under the list's parent path, and grown children. */
  lemma GrownAt(pages: seq<DocPage>, nodes: seq<DocNode>, titles: seq<string>, parentPath: string, i: nat)
    requires GrownList(pages, nodes, titles, parentPath) && i < |nodes|
    ensures nodes[i].path == JoinPath(parentPath, nodes[i].slug)
    ensures GrownList(pages, nodes[i].children, ChildTitles(pages, nodes[i].page.title), nodes[i].path)
  {
    assert Grown(pages, nodes[i], parentPath);
  }

  /** Extending a node's path by a child's slug is extending the joined segments. */
  lemma JoinPathCons(parentPath: string, slug: string, tail: string)
    requires slug != ""
    ensures JoinPath(JoinPath(parentPath, slug), tail) == JoinPath(parentPath, slug + "/" + tail)
  {
  }

  // flattenTree.

  /** The pre-order listing of a forest: each node, then its subtree, then the following trees. */
  function Preorder(forest: seq<DocNode>): seq<DocNode>
    decreases forest
  {
    if forest == [] then [] else [forest[0]] + Preorder(forest[0].children) + Preorder(forest[1..])
  }

  /** Listing two forests one after the other lists the first, then the second. */
  lemma {:induction false} PreorderConcat(a: seq<DocNode>, b: seq<DocNode>)
    ensures Preorder(a + b) == Preorder(a) + Preorder(b)
  {
    if a == [] {
      assert a + b == b;
    } else {
      assert (a + b)[0] == a[0] && (a + b)[1..] == a[1..] + b;
      PreorderConcat(a[1..], b);
    }
  }

  /** `flattenTree`: each node of the forest, followed by the flattening of its children. */
  method FlattenTree(tree: seq<DocNode>) returns (result: seq<DocNode>)
    ensures result == Preorder(tree)
    decreases tree
  {
    result := [];
    for k := 0 to |tree|
      invariant result == Preorder(tree[..k])
    {
      var node := tree[k];
      result := result + [node];
      var sub := FlattenTree(node.children);
      result := result + sub;
      PreorderSnoc(tree, k);
    }
    assert tree[..|tree|] == tree;
  }

  /** Listing one more root of a forest appends that root and the listing of its children. */
  lemma PreorderSnoc(tree: seq<DocNode>, k: nat)
    requires k < |tree|
    ensures Preorder(tree[..k + 1]) == Preorder(tree[..k]) + [tree[k]] + Preorder(tree[k].children)
  {
    var node := tree[k];
    assert tree[..k + 1] == tree[..k] + [node];
    PreorderConcat(tree[..k], [node]);
    assert [node][1..] == [];
  }

  /** In `list`, the node at `p` is immediately followed by the listing of its children. */
  predicate FollowedByChildren(list: seq<DocNode>, p: nat) {
    p < |list| &&
    var sub := Preorder(list[p].children);
    p + 1 + |sub| <= |list| && list[p + 1..p + 1 + |sub|] == sub
  }

  /** In the listing, every node is immediately followed by the listing of its children. */
  lemma {:induction false} PreorderFollows(forest: seq<DocNode>, p: nat)
    requires p < |Preorder(forest)|
    ensures FollowedByChildren(Preorder(forest), p)
    decreases forest
  {
    var list := Preorder(forest);
    var first := Preorder(forest[0].children);
    var rest := Preorder(forest[1..]);
    assert list == [forest[0]] + first + rest;
    if p == 0 {
      FollowedAtHead(list, forest[0], rest);
    } else if p < 1 + |first| {
      PreorderFollows(forest[0].children, p - 1);
      FollowedInMiddle(list, p, [forest[0]], first, rest, p - 1);
    } else {
      var q := p - 1 - |first|;
      PreorderFollows(forest[1..], q);
      assert list == ([forest[0]] + first) + rest + [];
      FollowedInMiddle(list, p, [forest[0]] + first, rest, [], q);
    }
  }

  /** A node placed first, right before its children's listing, is followed by it. */
  lemma FollowedAtHead(list: seq<DocNode>, root: DocNode, rest: seq<DocNode>)
    requires list == [root] + Preorder(root.children) + rest
    ensures FollowedByChildren(list, 0)
  {
    var sub := Preorder(root.children);
    assert list[0] == root;
    SliceMiddle([root], sub, rest, 1, 1 + |sub|);
  }

  /** A node followed by its children's listing in `mid` still is once `mid` is embedded in a longer list. */
  lemma FollowedInMiddle(whole: seq<DocNode>, j: nat, pre: seq<DocNode>, mid: seq<DocNode>, post: seq<DocNode>, i: nat)
    requires whole == pre + mid + post && j == |pre| + i
    requires FollowedByChildren(mid, i)
    ensures FollowedByChildren(whole, j)
  {
    var sub := Preorder(mid[i].children);
    assert whole[|pre| + i] == mid[i];
    SliceMiddle(pre, mid, post, |pre| + i + 1, |pre| + i + 1 + |sub|);
  }

  /** A slice that falls within the middle part of a concatenation is a slice of that part. */
  lemma SliceMiddle<T>(a: seq<T>, b: seq<T>, c: seq<T>, lo: nat, hi: nat)
    requires |a| <= lo <= hi <= |a| + |b|
    ensures (a + b + c)[lo..hi] == b[lo - |a|..hi - |a|]
  {
  }

  /** The node at any position of a forest is listed, and so is every node of its subtree. */
  lemma {:induction false} PreorderContains(forest: seq<DocNode>, i: nat)
    requires i < |forest|
    ensures forest[i] in Preorder(forest)
    ensures forall x :: x in Preorder(forest[i].children) ==> x in Preorder(forest)
    decreases i
  {
    if i > 0 {
      PreorderContains(forest[1..], i - 1);
      assert forest[1..][i - 1] == forest[i];
    }
  }

  /** A node `findNodeByPath` returns is one `flattenTree` lists. */
  lemma {:induction false} LookupListed(nodes: seq<DocNode>, segs: seq<string>)
    requires Lookup(nodes, segs).Some?
    ensures Lookup(nodes, segs).value in Preorder(nodes)
    decreases segs
  {
    var i := FindBySlug(nodes, segs[0]).value;
    PreorderContains(nodes, i);
    if |segs| > 1 {
      LookupListed(nodes[i].children, segs[1..]);
    }
  }

  // What is present is found.

  /** No node of the level has slug `slug`. */
  predicate NoSlug(nodes: seq<DocNode>, slug: string) {
    forall j :: 0 <= j < |nodes| ==> nodes[j].slug != slug
  }

  /**
   * A segment that matches no slug at its level gives not-found, whatever
   * follows it: segment 0 among the forest's nodes, segment `i > 0` among
   * the children of the node the segments before it lead to.
   */
  lemma {:induction false} LookupMissing(nodes: seq<DocNode>, segs: seq<string>, i: nat)
    requires i < |segs|
    requires i == 0 ==> NoSlug(nodes, segs[0])
    requires 0 < i ==> Lookup(nodes, segs[..i]).Some? && NoSlug(Lookup(nodes, segs[..i]).value.children, segs[i])
    ensures Lookup(nodes, segs).None?
    decreases i
  {
    if 0 < i {
      var k := FindBySlug(nodes, segs[0]).value;
      var rest := segs[1..];
      if i == 1 {
        assert Lookup(nodes, segs[..1]) == Some(nodes[k]);
        assert Lookup(nodes, segs) == Lookup(nodes[k].children, rest);
      } else {
        assert segs[..i][1..] == rest[..i - 1];
        assert Lookup(nodes, segs[..i]) == Lookup(nodes[k].children, rest[..i - 1]);
        LookupMissing(nodes[k].children, rest, i - 1);
      }
    }
  }

  /** Sibling slugs are distinct at every level of the forest. */
  predicate UniqueSlugs(nodes: seq<DocNode>)
    decreases nodes
  {
    (forall i, j :: 0 <= i < j < |nodes| ==> nodes[i].slug != nodes[j].slug) &&
    forall k :: 0 <= k < |nodes| ==> UniqueSlugs(nodes[k].children)
  }

  /** `idx` picks a node of the level, then one of its children, and so on. */
  predicate IndexPath(nodes: seq<DocNode>, idx: seq<nat>)
    decreases idx
  {
    idx != [] && idx[0] < |nodes| && (|idx| == 1 || IndexPath(nodes[idx[0]].children, idx[1..]))
  }

  /** The node an index path ends at. */
  function NodeAt(nodes: seq<DocNode>, idx: seq<nat>): DocNode
    requires IndexPath(nodes, idx)
    decreases idx
  {
    if |idx| == 1 then nodes[idx[0]] else NodeAt(nodes[idx[0]].children, idx[1..])
  }

  /** The slugs of the nodes an index path passes through, its last node included. */
  function SlugsAlong(nodes: seq<DocNode>, idx: seq<nat>): seq<string>
    requires IndexPath(nodes, idx)
    decreases idx
  {
    var n := nodes[idx[0]];
    if |idx| == 1 then [n.slug] else [n.slug] + SlugsAlong(n.children, idx[1..])
  }

  /** With distinct sibling slugs, the slugs along an index path find the node it ends at. */
  lemma {:induction false} LookupFindsPresent(nodes: seq<DocNode>, idx: seq<nat>)
    requires UniqueSlugs(nodes) && IndexPath(nodes, idx)
    ensures Lookup(nodes, SlugsAlong(nodes, idx)) == Some(NodeAt(nodes, idx))
    decreases idx
  {
    var segs := SlugsAlong(nodes, idx);
    var i := idx[0];
    assert nodes[i].slug == segs[0];
    assert FindBySlug(nodes, segs[0]) == Some(i);
    if |idx| > 1 {
      LookupFindsPresent(nodes[i].children, idx[1..]);
      assert segs[1..] == SlugsAlong(nodes[i].children, idx[1..]);
    }
  }

  /** Every node the flattening lists is the end of some index path. */
  lemma {:induction false} ListedHasIndexPath(forest: seq<DocNode>, x: DocNode)
    requires x in Preorder(forest)
    ensures exists idx :: IndexPath(forest, idx) && NodeAt(forest, idx) == x
    decreases forest
  {
    var sub := Preorder(forest[0].children);
    if x == forest[0] {
      assert IndexPath(forest, [0]) && NodeAt(forest, [0]) == x;
    } else if x in sub {
      ListedHasIndexPath(forest[0].children, x);
      var idx :| IndexPath(forest[0].children, idx) && NodeAt(forest[0].children, idx) == x;
      var p := [0] + idx;
      assert p[1..] == idx;
      assert IndexPath(forest, p) && NodeAt(forest, p) == x;
    } else {
      ListedHasIndexPath(forest[1..], x);
      var idx :| IndexPath(forest[1..], idx) && NodeAt(forest[1..], idx) == x;
      var p := [idx[0] + 1] + idx[1..];
      assert p[0] == idx[0] + 1 && p[1..] == idx[1..];
      assert forest[p[0]] == forest[1..][idx[0]];
      assert IndexPath(forest, p) && NodeAt(forest, p) == x;
    }
  }

  /**
   * With distinct sibling slugs, every node `flattenTree` lists is what
   * `findNodeByPath` returns for the slugs of its ancestors and itself.
   */
  lemma ListedFound(forest: seq<DocNode>, x: DocNode)
    requires UniqueSlugs(forest) && x in Preorder(forest)
    ensures exists segs :: Lookup(forest, segs) == Some(x)
  {
    ListedHasIndexPath(forest, x);
    var idx :| IndexPath(forest, idx) && NodeAt(forest, idx) == x;
    LookupFindsPresent(forest, idx);
  }

  // Counting the flattened pages.

  /** The titles of a list of nodes. */
  function TitlesOf(nodes: seq<DocNode>): (ts: seq<string>)
    ensures |ts| == |nodes| && forall k :: 0 <= k < |nodes| ==> ts[k] == nodes[k].page.title
  {
    if nodes == [] then [] else [nodes[0].page.title] + TitlesOf(nodes[1..])
  }

  /** The titles of two lists of nodes are those of the first, then those of the second. */
  lemma TitlesOfConcat(a: seq<DocNode>, b: seq<DocNode>)
    ensures TitlesOf(a + b) == TitlesOf(a) + TitlesOf(b)
  {
    var l, r := TitlesOf(a + b), TitlesOf(a) + TitlesOf(b);
    assert |l| == |r|;
    forall k | 0 <= k < |l|
      ensures l[k] == r[k]
    {
      if k < |a| {
        assert (a + b)[k] == a[k];
      } else {
        assert (a + b)[k] == b[k - |a|];
      }
    }
  }

  /** The child titles the linked index holds for each node of a list, one list after another. */
  function Kids(pages: seq<DocPage>, nodes: seq<DocNode>): seq<string> {
    if nodes == [] then [] else ChildTitles(pages, nodes[0].page.title) + Kids(pages, nodes[1..])
  }

  /** The child titles of two lists of nodes are those of the first, then those of the second. */
  lemma {:induction false} KidsConcat(pages: seq<DocPage>, a: seq<DocNode>, b: seq<DocNode>)
    ensures Kids(pages, a + b) == Kids(pages, a) + Kids(pages, b)
  {
    if a == [] {
      assert a + b == b;
    } else {
      assert (a + b)[0] == a[0] && (a + b)[1..] == a[1..] + b;
      KidsConcat(pages, a[1..], b);
    }
  }

  /** A non-empty grown list starts with the grown node of its first title. */
  lemma GrownListHead(pages: seq<DocPage>, nodes: seq<DocNode>, titles: seq<string>, parentPath: string)
    requires GrownList(pages, nodes, titles, parentPath) && nodes != []
    ensures nodes[0].page.title == titles[0] && Grown(pages, nodes[0], parentPath)
    ensures titles == [titles[0]] + titles[1..]
  {
  }

  /** The rest of a non-empty grown list is grown too. */
  lemma GrownListTail(pages: seq<DocPage>, nodes: seq<DocNode>, titles: seq<string>, parentPath: string)
    requires GrownList(pages, nodes, titles, parentPath) && nodes != []
    ensures GrownList(pages, nodes[1..], titles[1..], parentPath)
  {
    forall k | 0 <= k < |nodes| - 1
      ensures nodes[1..][k].page.title == titles[1..][k] && Grown(pages, nodes[1..][k], parentPath)
    {
      assert nodes[1..][k] == nodes[k + 1];
    }
  }

  /** The titles and child titles of a listing: those of the first node, its subtree, then the rest. */
  lemma PreorderSplit(pages: seq<DocPage>, nodes: seq<DocNode>)
    requires nodes != []
    ensures var n, c, r := nodes[0], Preorder(nodes[0].children), Preorder(nodes[1..]);
      TitlesOf(Preorder(nodes)) == [n.page.title] + TitlesOf(c) + TitlesOf(r) &&
      Kids(pages, Preorder(nodes)) == ChildTitles(pages, n.page.title) + Kids(pages, c) + Kids(pages, r)
  {
    var n, c, r := nodes[0], Preorder(nodes[0].children), Preorder(nodes[1..]);
    assert Preorder(nodes) == [n] + c + r;
    TitlesOfConcat([n] + c, r);
    TitlesOfConcat([n], c);
    KidsConcat(pages, [n] + c, r);
    KidsConcat(pages, [n], c);
    assert Kids(pages, [n]) == ChildTitles(pages, n.page.title) by {
      assert [n][1..] == [];
    }
  }

  /**
   * In the listing of a grown forest, each title occurs once for every time
   * it is one of the forest's own titles plus once for every time it is a
   * child title of a listed node.
   */
  lemma {:induction false} PreorderTitles(pages: seq<DocPage>, nodes: seq<DocNode>, titles: seq<string>,
                                         parentPath: string)
    requires GrownList(pages, nodes, titles, parentPath)
    ensures multiset(TitlesOf(Preorder(nodes))) == multiset(titles) + multiset(Kids(pages, Preorder(nodes)))
    decreases nodes
  {
    if nodes != [] {
      var n := nodes[0];
      GrownListHead(pages, nodes, titles, parentPath);
      GrownListTail(pages, nodes, titles, parentPath);
      PreorderTitles(pages, n.children, ChildTitles(pages, n.page.title), n.path);
      PreorderTitles(pages, nodes[1..], titles[1..], parentPath);
      PreorderSplit(pages, nodes);
    }
  }

  /**
   * With distinct titles, a page's title is a child title of a list of nodes
   * as often as its parent's title is among the nodes, and never when the
   * page is a root.
   */
  lemma {:induction false} KidsCount(pages: seq<DocPage>, nodes: seq<DocNode>, i: nat)
    requires DistinctTitles(pages) && i < |pages|
    ensures multiset(Kids(pages, nodes))[pages[i].title] ==
      match Slot(TitleSet(pages), pages[i])
      case None => 0
      case Some(parent) => multiset(TitlesOf(nodes))[parent]
  {
    if nodes != [] {
      PlacedExactlyOnce(TitleSet(pages), pages, i, Some(nodes[0].page.title));
      KidsCount(pages, nodes[1..], i);
    }
  }

  /** Title `x` is reachable from the roots: it ends a chain of ancestors that starts at a root. */
  ghost predicate Rooted(pages: seq<DocPage>, x: string) {
    exists chain :: ChainOK(pages, chain) && chain != [] && chain[|chain| - 1] == x
  }

  /** The titles of the pages reachable from the roots. */
  ghost function ReachableTitles(pages: seq<DocPage>): set<string> {
    set x | x in TitleSet(pages) && Rooted(pages, x)
  }

  /** A child of a reachable page is reachable. */
  lemma ChildRooted(pages: seq<DocPage>, t: string, c: string)
    requires DistinctTitles(pages) && Rooted(pages, t) && c in ChildTitles(pages, t)
    ensures Rooted(pages, c)
  {
    var chain :| ChainOK(pages, chain) && chain != [] && chain[|chain| - 1] == t;
    ChildExtendsChain(pages, chain, c);
    assert (chain + [c])[|chain|] == c;
  }

  /** Under reachable titles, a grown forest lists only reachable titles. */
  lemma {:induction false} ListedRooted(pages: seq<DocPage>, nodes: seq<DocNode>, titles: seq<string>,
                                       parentPath: string)
    requires DistinctTitles(pages) && GrownList(pages, nodes, titles, parentPath)
    requires forall t :: t in titles ==> Rooted(pages, t)
    ensures forall t :: t in TitlesOf(Preorder(nodes)) ==> Rooted(pages, t)
    decreases nodes
  {
    if nodes != [] {
      var n := nodes[0];
      GrownListHead(pages, nodes, titles, parentPath);
      GrownListTail(pages, nodes, titles, parentPath);
      assert titles[0] in titles;
      forall c | c in ChildTitles(pages, titles[0])
        ensures Rooted(pages, c)
      {
        ChildRooted(pages, titles[0], c);
      }
      ListedRooted(pages, n.children, ChildTitles(pages, titles[0]), n.path);
      ListedRooted(pages, nodes[1..], titles[1..], parentPath);
      PreorderSplit(pages, nodes);
    }
  }

  /**
   * With distinct titles, flattening the built forest lists a root page's
   * title once, and any other page's title as often as its parent's.
   */
  lemma ListedCount(pages: seq<DocPage>, roots: seq<DocNode>, j: nat)
    requires DistinctTitles(pages) && GrownList(pages, roots, RootTitles(pages), "") && j < |pages|
    ensures var listed := multiset(TitlesOf(Preorder(roots)));
      listed[pages[j].title] ==
        match Slot(TitleSet(pages), pages[j])
        case None => 1
        case Some(parent) => listed[parent]
  {
    PreorderTitles(pages, roots, RootTitles(pages), "");
    PlacedExactlyOnce(TitleSet(pages), pages, j, None);
    KidsCount(pages, Preorder(roots), j);
  }

  /**
   * A title placed in slot `s` is a page title; it is listed once if `s` is
   * the roots, otherwise as often as the parent `s` names.
   */
  lemma PlacedListed(pages: seq<DocPage>, roots: seq<DocNode>, s: Option<string>, x: string)
    requires DistinctTitles(pages) && GrownList(pages, roots, RootTitles(pages), "")
    requires x in Placed(TitleSet(pages), pages, s)
    ensures x in TitleSet(pages)
    ensures var listed := multiset(TitlesOf(Preorder(roots)));
      listed[x] == if s.Some? then listed[s.value] else 1
  {
    PlacedMember(TitleSet(pages), pages, s, x);
    var j :| 0 <= j < |pages| && pages[j].title == x && Slot(TitleSet(pages), pages[j]) == s;
    ListedCount(pages, roots, j);
  }

  /** Every title on a chain from a root is a page title listed exactly once by flattening the built forest. */
  lemma {:induction false} ChainListedOnce(pages: seq<DocPage>, roots: seq<DocNode>, chain: seq<string>, i: nat)
    requires DistinctTitles(pages) && GrownList(pages, roots, RootTitles(pages), "")
    requires ChainOK(pages, chain) && i < |chain|
    ensures chain[i] in TitleSet(pages)
    ensures multiset(TitlesOf(Preorder(roots)))[chain[i]] == 1
    decreases i
  {
    if i == 0 {
      PlacedListed(pages, roots, None, chain[0]);
    } else {
      ChainListedOnce(pages, roots, chain, i - 1);
      PlacedListed(pages, roots, Some(chain[i - 1]), chain[i]);
    }
  }

  /**
   * With distinct titles, flattening the built forest lists every page
   * reachable from the roots exactly once and nothing else.
   */
  lemma FlattenListsReachable(pages: seq<DocPage>, roots: seq<DocNode>)
    requires DistinctTitles(pages) && GrownList(pages, roots, RootTitles(pages), "")
    ensures multiset(TitlesOf(Preorder(roots))) == multiset(ReachableTitles(pages))
  {
    forall x
      ensures multiset(TitlesOf(Preorder(roots)))[x] == multiset(ReachableTitles(pages))[x]
    {
      ListedIffReachable(pages, roots, x);
    }
  }

  /** A title is listed once when it is reachable, and not at all otherwise. */
  lemma ListedIffReachable(pages: seq<DocPage>, roots: seq<DocNode>, x: string)
    requires DistinctTitles(pages) && GrownList(pages, roots, RootTitles(pages), "")
    ensures multiset(TitlesOf(Preorder(roots)))[x] == if x in ReachableTitles(pages) then 1 else 0
  {
    var listed := multiset(TitlesOf(Preorder(roots)));
    if Rooted(pages, x) {
      assert x in TitleSet(pages) && listed[x] == 1 by {
        var chain :| ChainOK(pages, chain) && chain != [] && chain[|chain| - 1] == x;
        ChainListedOnce(pages, roots, chain, |chain| - 1);
      }
      assert x in ReachableTitles(pages);
    } else {
      assert x !in TitlesOf(Preorder(roots)) by {
        ListedAreRooted(pages, roots);
      }
      assert x !in ReachableTitles(pages);
    }
  }

  /** Every title the listing holds is reachable from the roots. */
  lemma ListedAreRooted(pages: seq<DocPage>, roots: seq<DocNode>)
    requires DistinctTitles(pages) && GrownList(pages, roots, RootTitles(pages), "")
    ensures forall t :: t in TitlesOf(Preorder(roots)) ==> Rooted(pages, t)
  {
    forall t | t in RootTitles(pages)
      ensures Rooted(pages, t)
    {
      assert ChainOK(pages, [t]);
    }
    ListedRooted(pages, roots, RootTitles(pages), "");
  }

  /** With distinct titles, the flattened built forest is as long as the set of reachable titles. */
  lemma FlattenCountsReachable(pages: seq<DocPage>, roots: seq<DocNode>)
    requires DistinctTitles(pages) && GrownList(pages, roots, RootTitles(pages), "")
    ensures |Preorder(roots)| == |ReachableTitles(pages)|
  {
    FlattenListsReachable(pages, roots);
    assert |Preorder(roots)| == |multiset(TitlesOf(Preorder(roots)))|;
  }
}

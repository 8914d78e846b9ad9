/** The category tree that `generateCategories` of
    src/utils/markdownLoader.js (lines 93-159) builds from the article list:
    one node per directory segment, created the first time an article
    reaches it, with each article filed under the node of its full
    category path; then `convertToTree` re-indexes the articles of each
    root node by title and returns the nodes below the roots as built. */
module Categories {
  import opened Wrappers
  import opened JsText
  import opened Articles

  const CategoryHrefPrefix := "#category/"
  const PostHrefPrefix := "#post/"

  /** An article entry of the tree (`name`, `href`, `article`). */
  datatype Leaf = Leaf(name: string, href: string, article: Article)

  /** A category node (`name`, `href`, `children`). */
  datatype Node = Node(name: string, href: string, children: Children)

  /** A `children` array: the article entries pushed onto it are its
      elements, and the sub-categories stored on it by name
      (`currentLevel[part] = …` on the array) are named properties, kept
      here in insertion order. */
  datatype Children = Children(elems: seq<Leaf>, subs: seq<Node>)

  function LeafOf(a: Article): Leaf {
    Leaf(a.title, PostHrefPrefix + a.id, a)
  }

  function EmptyNode(name: string, href: string): Node {
    Node(name, href, Children([], []))
  }

  /** `level[name]`: the position of the node stored under `name`. */
  function Find(level: seq<Node>, name: string): (r: Option<nat>)
    ensures r.Some? ==> r.value < |level| && level[r.value].name == name
    ensures r.None? ==> forall j :: 0 <= j < |level| ==> level[j].name != name
  {
    if level == [] then None
    else if level[0].name == name then Some(0)
    else match Find(level[1..], name)
      case None => None
      case Some(i) => Some(i + 1)
  }

  /** One step of the walk down a category path (lines 121-140): the node
      for `parts[index]` is created when missing, with the `href` of the
      path up to it, and then updated. */
  function Descend(level: seq<Node>, parts: seq<string>, index: nat, leaf: Leaf): seq<Node>
    requires index < |parts|
    decreases |parts| - index, 1
  {
    var part := parts[index];
    var found := Find(level, part);
    var lvl := if found.None? then level + [EmptyNode(part, CategoryHrefPrefix + Join(parts[..index + 1], "/"))] else level;
    var i := if found.None? then |level| else found.value;
    lvl[i := Updated(lvl[i], parts, index, leaf)]
  }

  /** What the walk does to the node for `parts[index]`: at the last
      segment the article entry is pushed onto its children, before it the
      walk goes on into its children. */
  function Updated(node: Node, parts: seq<string>, index: nat, leaf: Leaf): Node
    requires index < |parts|
    decreases |parts| - index, 0
  {
    if index == |parts| - 1 then
      node.(children := node.children.(elems := node.children.elems + [leaf]))
    else
      node.(children := node.children.(subs := Descend(node.children.subs, parts, index + 1, leaf)))
  }

  /** The body of `articles.forEach` (lines 99-141), on the root level. */
  function AddArticle(root: seq<Node>, a: Article): seq<Node> {
    if a.category == Uncategorized then
      var found := Find(root, Uncategorized);
      var lvl := if found.None? then root + [EmptyNode(Uncategorized, CategoryHrefPrefix + Uncategorized)] else root;
      var i := if found.None? then |root| else found.value;
      lvl[i := lvl[i].(children := lvl[i].children.(elems := lvl[i].children.elems + [LeafOf(a)]))]
    else
      Descend(root, Split(a.category, '/'), 0, LeafOf(a))
  }

  /** The root level after the first `|arts|` iterations. */
  function Build(arts: seq<Article>): seq<Node>
    decreases |arts|
  {
    if arts == [] then []
    else AddArticle(Build(arts[..|arts| - 1]), arts[|arts| - 1])
  }

  /** `leaves.reduce((acc, child) => { acc[child.name] = child; … }, {})`
      read back with `Object.values`: one entry per name, in the order the
      names first appear, holding the last leaf with that name. */
  function IndexByName(leaves: seq<Leaf>): seq<Leaf>
    decreases |leaves|
  {
    if leaves == [] then []
    else IndexInto(IndexByName(leaves[..|leaves| - 1]), leaves[|leaves| - 1])
  }

  /** The reduce callback, `acc[child.name] = child`: an existing name keeps
      its place and takes the new leaf, a new name goes at the end. */
  function IndexInto(acc: seq<Leaf>, child: Leaf): seq<Leaf> {
    match FindLeaf(acc, child.name)
    case Some(i) => acc[i := child]
    case None => acc + [child]
  }

  function FindLeaf(leaves: seq<Leaf>, name: string): (r: Option<nat>)
    ensures r.Some? ==> r.value < |leaves| && leaves[r.value].name == name
    ensures r.None? ==> forall j :: 0 <= j < |leaves| ==> leaves[j].name != name
  {
    if leaves == [] then None
    else if leaves[0].name == name then Some(0)
    else match FindLeaf(leaves[1..], name)
      case None => None
      case Some(i) => Some(i + 1)
  }

  /** The `map` callback of `convertToTree` (lines 146-155): a node with
      article entries gets a fresh array of them, indexed by name; the
      recursive call on that index returns the leaves as they are, since
      leaves have no `children`. A node without entries is left alone. */
  function ConvertNode(item: Node): Node {
    if |item.children.elems| > 0 then item.(children := Children(IndexByName(item.children.elems), []))
    else item
  }

  /** `convertToTree` on a keyed level: its values in insertion order. */
  function ConvertToTree(level: seq<Node>): seq<Node> {
    seq(|level|, k requires 0 <= k < |level| => ConvertNode(level[k]))
  }

  /** `generateCategories` */
  method GenerateCategories(articles: seq<Article>) returns (tree: seq<Node>)
    ensures tree == ConvertToTree(SpecLevel(articles, []))
  {
    var categoryTree: seq<Node> := [];
    var i := 0;
    while i < |articles|
      invariant 0 <= i <= |articles|
      invariant categoryTree == Build(articles[..i])
    {
      assert articles[..i + 1][..i] == articles[..i];
      categoryTree := AddArticle(categoryTree, articles[i]);
      i := i + 1;
    }
    assert articles[..i] == articles;
    BuildMatchesSpec(articles);
    tree := ConvertToTree(categoryTree);
  }

  // ---------------------------------------------------------------------
  // The tree described directly in terms of the articles

  /** The segments of an article's category, `未分类` included. */
  function CatPath(a: Article): seq<string> {
    Split(a.category, '/')
  }

  /** The entries of the articles whose category path is `q`, in order. */
  function LeavesAt(arts: seq<Article>, q: seq<string>): (r: seq<Leaf>)
    ensures forall k :: 0 <= k < |r| ==> r[k] == LeafOf(r[k].article) && CatPath(r[k].article) == q
    decreases |arts|
  {
    if arts == [] then []
    else
      var a := arts[|arts| - 1];
      LeavesAt(arts[..|arts| - 1], q) + (if CatPath(a) == q then [LeafOf(a)] else [])
  }

  /** The longest category path. */
  function Bound(arts: seq<Article>): nat
    decreases |arts|
  {
    if arts == [] then 0
    else
      var b := Bound(arts[..|arts| - 1]);
      var a := arts[|arts| - 1];
      if |CatPath(a)| > b then |CatPath(a)| else b
  }

  /** The segment after `p` of every article whose category path goes
      below `p`, with repeats, in article order. */
  function NextSegs(arts: seq<Article>, p: seq<string>): (r: seq<string>)
    ensures |r| > 0 ==> |p| < Bound(arts)
    decreases |arts|
  {
    if arts == [] then []
    else
      var a := arts[|arts| - 1];
      NextSegs(arts[..|arts| - 1], p) + (if p < CatPath(a) then [CatPath(a)[|p|]] else [])
  }

  /** The distinct elements of `xs` in the order they first appear. */
  function FirstSeen(xs: seq<string>): (r: seq<string>)
    ensures forall x :: x in r <==> x in xs
    ensures forall i, j :: 0 <= i < j < |r| ==> r[i] != r[j]
    decreases |xs|
  {
    if xs == [] then []
    else
      var r := FirstSeen(xs[..|xs| - 1]);
      var x := xs[|xs| - 1];
      assert xs == xs[..|xs| - 1] + [x];
      if x in r then r else r + [x]
  }

  function Depth(arts: seq<Article>, p: seq<string>): nat {
    if |p| <= Bound(arts) then Bound(arts) - |p| else 0
  }

  /** The node for category path `q`: its entries are the articles filed
      exactly under `q`, its sub-categories those one segment below. */
  function SpecNode(arts: seq<Article>, q: seq<string>): Node
    requires |q| > 0
    decreases Depth(arts, q), 2, 0
  {
    Node(q[|q| - 1], CategoryHrefPrefix + Join(q, "/"), Children(LeavesAt(arts, q), SpecLevel(arts, q)))
  }

  /** The level below category path `p`: one node per next segment, in the
      order the articles first reach them. */
  function SpecLevel(arts: seq<Article>, p: seq<string>): seq<Node>
    decreases Depth(arts, p), 1, 0
  {
    SpecNodes(arts, p, FirstSeen(NextSegs(arts, p)))
  }

  function SpecNodes(arts: seq<Article>, p: seq<string>, names: seq<string>): seq<Node>
    requires forall n :: n in names ==> n in NextSegs(arts, p)
    decreases Depth(arts, p), 0, |names|
  {
    if names == [] then []
    else
      assert names[0] in names;
      assert |NextSegs(arts, p)| > 0;
      assert Depth(arts, p + [names[0]]) < Depth(arts, p);
      [SpecNode(arts, p + [names[0]])] + SpecNodes(arts, p, names[1..])
  }

  // ---------------------------------------------------------------------
  // Lemmas

  lemma {:induction false} SpecNodesIndex(arts: seq<Article>, p: seq<string>, names: seq<string>)
    requires forall n :: n in names ==> n in NextSegs(arts, p)
    ensures |SpecNodes(arts, p, names)| == |names|
    ensures forall k :: 0 <= k < |names| ==> SpecNodes(arts, p, names)[k] == SpecNode(arts, p + [names[k]])
    decreases |names|
  {
    if names != [] {
      SpecNodesIndex(arts, p, names[1..]);
    }
  }

  /** `p + [n]` is a prefix of `c` exactly when `p` is a proper prefix of
      `c` followed there by `n`. */
  lemma PrefixExtend(p: seq<string>, n: string, c: seq<string>)
    ensures p + [n] <= c <==> p < c && c[|p|] == n
  {
    if p + [n] <= c {
      assert c[..|p|] == (p + [n])[..|p|] == p;
    }
    if p < c && c[|p|] == n {
      assert c[..|p| + 1] == c[..|p|] + [c[|p|]];
    }
  }

  /** What appending one article does to the entries at `q`. */
  lemma LeavesAppended(arts: seq<Article>, a: Article, q: seq<string>)
    ensures LeavesAt(arts + [a], q) == LeavesAt(arts, q) + (if CatPath(a) == q then [LeafOf(a)] else [])
  {
    assert (arts + [a])[..|arts|] == arts;
  }

  /** What appending one article does to the segments below `p`. */
  lemma NextSegsAppended(arts: seq<Article>, a: Article, p: seq<string>)
    ensures NextSegs(arts + [a], p) == NextSegs(arts, p) + (if p < CatPath(a) then [CatPath(a)[|p|]] else [])
  {
    assert (arts + [a])[..|arts|] == arts;
  }

  lemma FirstSeenAppended(xs: seq<string>, x: string)
    ensures FirstSeen(xs + [x]) == if x in FirstSeen(xs) then FirstSeen(xs) else FirstSeen(xs) + [x]
  {
    assert (xs + [x])[..|xs|] == xs;
  }

  /** A category path no article reaches has neither entries nor
      sub-categories. */
  lemma {:induction false} Unreached(arts: seq<Article>, p: seq<string>, part: string)
    requires part !in NextSegs(arts, p)
    ensures LeavesAt(arts, p + [part]) == [] && NextSegs(arts, p + [part]) == []
    decreases |arts|
  {
    if arts != [] {
      var n := |arts| - 1;
      var c := CatPath(arts[n]);
      Unreached(arts[..n], p, part);
      PrefixExtend(p, part, c);
    }
  }

  /** Appending an article whose path does not go below `p` leaves the
      level below `p` as it was. */
  lemma {:induction false} UnchangedLevel(arts: seq<Article>, a: Article, p: seq<string>)
    requires !(p < CatPath(a))
    ensures SpecLevel(arts + [a], p) == SpecLevel(arts, p)
    decreases Depth(arts + [a], p)
  {
    var c := CatPath(a);
    NextSegsAppended(arts, a, p);
    var names := FirstSeen(NextSegs(arts, p));
    SpecNodesIndex(arts, p, names);
    SpecNodesIndex(arts + [a], p, names);
    forall k | 0 <= k < |names|
      ensures SpecNode(arts + [a], p + [names[k]]) == SpecNode(arts, p + [names[k]])
    {
      var q := p + [names[k]];
      PrefixExtend(p, names[k], c);
      LeavesAppended(arts, a, q);
      UnchangedLevel(arts, a, q);
    }
    assert SpecNodes(arts + [a], p, names) == SpecNodes(arts, p, names);
    assert NextSegs(arts + [a], p) == NextSegs(arts, p);
    assert SpecLevel(arts + [a], p) == SpecNodes(arts + [a], p, names);
  }

  /** Appending an article whose path does not pass through `q` leaves the
      node for `q` as it was. */
  lemma UnchangedNode(arts: seq<Article>, a: Article, q: seq<string>)
    requires |q| > 0 && !(q <= CatPath(a))
    ensures SpecNode(arts + [a], q) == SpecNode(arts, q)
  {
    LeavesAppended(arts, a, q);
    UnchangedLevel(arts, a, q);
  }

  /** The walk's update of the node for `p + [c[|p|]]` turns the node of the
      earlier articles into the node of the articles with `a` appended. */
  lemma {:induction false} UpdatedSpec(arts: seq<Article>, a: Article, p: seq<string>)
    requires p < CatPath(a)
    ensures var q := p + [CatPath(a)[|p|]];
            Updated(SpecNode(arts, q), CatPath(a), |p|, LeafOf(a)) == SpecNode(arts + [a], q)
    decreases |CatPath(a)| - |p|, 0
  {
    var c := CatPath(a);
    var q := p + [c[|p|]];
    PrefixExtend(p, c[|p|], c);
    LeavesAppended(arts, a, q);
    if |p| == |c| - 1 {
      assert q == c;
      UnchangedLevel(arts, a, q);
    } else {
      assert q < c;
      DescendSpec(arts, a, q);
    }
  }

  /** The walk at a level that has no node for the segment appends one. */
  lemma DescendCreates(level: seq<Node>, parts: seq<string>, index: nat, leaf: Leaf)
    requires index < |parts| && Find(level, parts[index]).None?
    ensures Descend(level, parts, index, leaf)
            == level + [Updated(EmptyNode(parts[index], CategoryHrefPrefix + Join(parts[..index + 1], "/")), parts, index, leaf)]
  {
  }

  /** The walk at a level that has the node for the segment updates it in
      place. */
  lemma DescendFinds(level: seq<Node>, parts: seq<string>, index: nat, leaf: Leaf)
    requires index < |parts| && Find(level, parts[index]).Some?
    ensures var i := Find(level, parts[index]).value;
            Descend(level, parts, index, leaf) == level[i := Updated(level[i], parts, index, leaf)]
  {
  }

  /** The nodes of the level below `p` that the path of `a` does not pass
      through are the same before and after appending `a`. */
  lemma OtherNodesUnchanged(arts: seq<Article>, a: Article, p: seq<string>)
    requires p < CatPath(a)
    ensures var names := FirstSeen(NextSegs(arts, p));
            forall k :: 0 <= k < |names| && names[k] != CatPath(a)[|p|] ==>
              SpecNode(arts + [a], p + [names[k]]) == SpecNode(arts, p + [names[k]])
  {
    var c := CatPath(a);
    var names := FirstSeen(NextSegs(arts, p));
    forall k | 0 <= k < |names| && names[k] != c[|p|]
      ensures SpecNode(arts + [a], p + [names[k]]) == SpecNode(arts, p + [names[k]])
    {
      PrefixExtend(p, names[k], c);
      UnchangedNode(arts, a, p + [names[k]]);
    }
  }

  /** `DescendSpec` where the node for the next segment already exists. */
  lemma DescendIntoExisting(arts: seq<Article>, a: Article, p: seq<string>)
    requires p < CatPath(a)
    requires CatPath(a)[|p|] in NextSegs(arts, p)
    requires var q := p + [CatPath(a)[|p|]];
             Updated(SpecNode(arts, q), CatPath(a), |p|, LeafOf(a)) == SpecNode(arts + [a], q)
    ensures Descend(SpecLevel(arts, p), CatPath(a), |p|, LeafOf(a)) == SpecLevel(arts + [a], p)
  {
    var c := CatPath(a);
    var level := SpecLevel(arts, p);
    var i := FindExisting(arts, p, c[|p|]);
    NodesAgreeElsewhere(arts, a, p, i);
    DescendFinds(level, c, |p|, LeafOf(a));
    LevelUpdated(level, SpecLevel(arts + [a], p), i, Updated(level[i], c, |p|, LeafOf(a)));
  }

  /** A segment some article reaches below `p` has its node in the level. */
  lemma FindExisting(arts: seq<Article>, p: seq<string>, part: string) returns (i: nat)
    requires part in NextSegs(arts, p)
    ensures Find(SpecLevel(arts, p), part) == Some(i)
  {
    var names := FirstSeen(NextSegs(arts, p));
    SpecNodesIndex(arts, p, names);
    var k :| 0 <= k < |names| && names[k] == part;
    assert SpecLevel(arts, p)[k].name == part;
    i := Find(SpecLevel(arts, p), part).value;
  }

  /** Appending `a` changes, in the level below `p`, only the node `i` for
      the segment of `a`'s path. */
  lemma NodesAgreeElsewhere(arts: seq<Article>, a: Article, p: seq<string>, i: nat)
    requires p < CatPath(a) && CatPath(a)[|p|] in NextSegs(arts, p)
    requires i < |SpecLevel(arts, p)| && SpecLevel(arts, p)[i].name == CatPath(a)[|p|]
    ensures |SpecLevel(arts + [a], p)| == |SpecLevel(arts, p)|
    ensures SpecLevel(arts, p)[i] == SpecNode(arts, p + [CatPath(a)[|p|]])
    ensures SpecLevel(arts + [a], p)[i] == SpecNode(arts + [a], p + [CatPath(a)[|p|]])
    ensures forall k :: 0 <= k < |SpecLevel(arts, p)| && k != i ==>
              SpecLevel(arts + [a], p)[k] == SpecLevel(arts, p)[k]
  {
    var c := CatPath(a);
    var part := c[|p|];
    var names := FirstSeen(NextSegs(arts, p));
    SameNames(arts, a, p);
    LevelSize(arts, p);
    LevelSize(arts + [a], p);
    LevelAt(arts, p, i);
    LevelAt(arts + [a], p, i);
    forall k | 0 <= k < |names| && k != i
      ensures SpecLevel(arts + [a], p)[k] == SpecLevel(arts, p)[k]
    {
      LevelAt(arts, p, k);
      LevelAt(arts + [a], p, k);
      assert names[k] != names[i];
      PrefixExtend(p, names[k], c);
      UnchangedNode(arts, a, p + [names[k]]);
    }
  }

  lemma LevelSize(arts: seq<Article>, p: seq<string>)
    ensures |SpecLevel(arts, p)| == |FirstSeen(NextSegs(arts, p))|
  {
    SpecNodesIndex(arts, p, FirstSeen(NextSegs(arts, p)));
  }

  lemma LevelAt(arts: seq<Article>, p: seq<string>, k: nat)
    requires k < |FirstSeen(NextSegs(arts, p))|
    ensures |SpecLevel(arts, p)| == |FirstSeen(NextSegs(arts, p))|
    ensures SpecLevel(arts, p)[k] == SpecNode(arts, p + [FirstSeen(NextSegs(arts, p))[k]])
  {
    SpecNodesIndex(arts, p, FirstSeen(NextSegs(arts, p)));
  }

  /** An article that goes through an existing segment below `p` adds no
      new one. */
  lemma SameNames(arts: seq<Article>, a: Article, p: seq<string>)
    requires p < CatPath(a) && CatPath(a)[|p|] in NextSegs(arts, p)
    ensures FirstSeen(NextSegs(arts + [a], p)) == FirstSeen(NextSegs(arts, p))
  {
    NextSegsAppended(arts, a, p);
    FirstSeenAppended(NextSegs(arts, p), CatPath(a)[|p|]);
  }

  /** Updating one node of a level gives a level that agrees with it there
      and elsewhere keeps the old nodes. */
  lemma LevelUpdated(level: seq<Node>, level': seq<Node>, i: nat, x: Node)
    requires i < |level| == |level'| && level'[i] == x
    requires forall k :: 0 <= k < |level| && k != i ==> level'[k] == level[k]
    ensures level[i := x] == level'
  {
  }

  /** The node for a path no article reaches is an empty node. */
  lemma UnreachedNode(arts: seq<Article>, p: seq<string>, part: string)
    requires part !in NextSegs(arts, p)
    ensures SpecNode(arts, p + [part]) == EmptyNode(part, CategoryHrefPrefix + Join(p + [part], "/"))
  {
    Unreached(arts, p, part);
    assert SpecLevel(arts, p + [part]) == SpecNodes(arts, p + [part], []);
  }

  /** A new segment below `p` adds one node at the end of the level. */
  lemma LevelGrows(arts: seq<Article>, a: Article, p: seq<string>)
    requires p < CatPath(a)
    requires CatPath(a)[|p|] !in NextSegs(arts, p)
    ensures SpecLevel(arts + [a], p) == SpecLevel(arts, p) + [SpecNode(arts + [a], p + [CatPath(a)[|p|]])]
  {
    var part := CatPath(a)[|p|];
    var q := p + [part];
    NextSegsAppended(arts, a, p);
    FirstSeenAppended(NextSegs(arts, p), part);
    var names := FirstSeen(NextSegs(arts, p));
    var names' := names + [part];
    assert FirstSeen(NextSegs(arts + [a], p)) == names';
    var l := SpecLevel(arts, p);
    var l' := SpecLevel(arts + [a], p);
    SpecNodesIndex(arts, p, names);
    SpecNodesIndex(arts + [a], p, names');
    OtherNodesUnchanged(arts, a, p);
    forall k | 0 <= k < |l|
      ensures l'[k] == l[k]
    {
      assert names'[k] == names[k] != part;
    }
    LevelAppended(l, l', SpecNode(arts + [a], q));
  }

  /** A level one node longer that agrees with the old one on its nodes is
      the old level with that node appended. */
  lemma LevelAppended(level: seq<Node>, level': seq<Node>, x: Node)
    requires |level'| == |level| + 1 && level'[|level|] == x
    requires forall k :: 0 <= k < |level| ==> level'[k] == level[k]
    ensures level' == level + [x]
  {
  }

  /** `DescendSpec` where the node for the next segment is created. */
  lemma DescendIntoNew(arts: seq<Article>, a: Article, p: seq<string>)
    requires p < CatPath(a)
    requires CatPath(a)[|p|] !in NextSegs(arts, p)
    requires var q := p + [CatPath(a)[|p|]];
             Updated(SpecNode(arts, q), CatPath(a), |p|, LeafOf(a)) == SpecNode(arts + [a], q)
    ensures Descend(SpecLevel(arts, p), CatPath(a), |p|, LeafOf(a)) == SpecLevel(arts + [a], p)
  {
    var c := CatPath(a);
    var part := c[|p|];
    var q := p + [part];
    NextPrefix(p, c);
    NewSegmentAbsent(arts, p, part);
    UnreachedNode(arts, p, part);
    LevelGrows(arts, a, p);
    DescendNew(SpecLevel(arts, p), c, |p|, LeafOf(a), SpecNode(arts, q), SpecNode(arts + [a], q),
               SpecLevel(arts + [a], p));
  }

  /** The prefix of `c` one segment longer than `p`. */
  lemma NextPrefix(p: seq<string>, c: seq<string>)
    requires p < c
    ensures c[..|p| + 1] == p + [c[|p|]]
  {
  }

  /** Descending into a segment the level lacks appends the updated new node. */
  lemma DescendNew(level: seq<Node>, c: seq<string>, i: nat, leaf: Leaf, before: Node, after: Node,
                   grown: seq<Node>)
    requires i < |c| && Find(level, c[i]).None?
    requires before == EmptyNode(c[i], CategoryHrefPrefix + Join(c[..i + 1], "/"))
    requires Updated(before, c, i, leaf) == after && grown == level + [after]
    ensures Descend(level, c, i, leaf) == grown
  {
    DescendCreates(level, c, i, leaf);
  }


  /** A segment no article reaches below `p` has no node in its level. */
  lemma NewSegmentAbsent(arts: seq<Article>, p: seq<string>, part: string)
    requires part !in NextSegs(arts, p)
    ensures Find(SpecLevel(arts, p), part).None?
  {
    SpecNodesIndex(arts, p, FirstSeen(NextSegs(arts, p)));
  }

  /** The walk down the path of `a` from level `p` turns the level of the
      earlier articles into the level of the articles with `a` appended. */
  lemma {:induction false} DescendSpec(arts: seq<Article>, a: Article, p: seq<string>)
    requires p < CatPath(a)
    ensures Descend(SpecLevel(arts, p), CatPath(a), |p|, LeafOf(a)) == SpecLevel(arts + [a], p)
    decreases |CatPath(a)| - |p|, 1
  {
    UpdatedSpec(arts, a, p);
    if CatPath(a)[|p|] in NextSegs(arts, p) {
      DescendIntoExisting(arts, a, p);
    } else {
      DescendIntoNew(arts, a, p);
    }
  }

  /** The branch for `未分类` does what the general walk does for the
      one-segment path `["未分类"]`. */
  lemma UncategorizedBranchAgrees(root: seq<Node>, a: Article)
    ensures AddArticle(root, a) == Descend(root, CatPath(a), 0, LeafOf(a))
  {
    if a.category == Uncategorized {
      SplitWithoutSeparator(Uncategorized, '/');
      assert CatPath(a) == [Uncategorized];
      assert Join(CatPath(a)[..1], "/") == Uncategorized;
    }
  }

  /** The tree built article by article is the tree described directly in
      terms of the articles. */
  lemma {:induction false} BuildMatchesSpec(arts: seq<Article>)
    ensures Build(arts) == SpecLevel(arts, [])
    decreases |arts|
  {
    if arts != [] {
      var n := |arts| - 1;
      BuildMatchesSpec(arts[..n]);
      UncategorizedBranchAgrees(Build(arts[..n]), arts[n]);
      assert arts[..n] + [arts[n]] == arts;
      DescendSpec(arts[..n], arts[n], []);
    }
  }

  /** The names of some leaves, in order. */
  function Names(leaves: seq<Leaf>): seq<string> {
    seq(|leaves|, k requires 0 <= k < |leaves| => leaves[k].name)
  }

  /** The last of `leaves` with the given name. */
  function LastNamed(leaves: seq<Leaf>, name: string): Option<Leaf>
    decreases |leaves|
  {
    if leaves == [] then None
    else if leaves[|leaves| - 1].name == name then Some(leaves[|leaves| - 1])
    else LastNamed(leaves[..|leaves| - 1], name)
  }

  lemma NamesAppended(prefix: seq<Leaf>, child: Leaf)
    ensures Names(prefix + [child]) == Names(prefix) + [child.name]
  {
  }

  lemma LastNamedAppended(prefix: seq<Leaf>, child: Leaf, name: string)
    ensures LastNamed(prefix + [child], name) == if child.name == name then Some(child) else LastNamed(prefix, name)
  {
    assert (prefix + [child])[..|prefix|] == prefix;
  }

  /** One step of the reduce keeps the index exact: one leaf per name, in
      the order the names first appear, each the last with its name. */
  lemma IndexIntoSpec(prefix: seq<Leaf>, child: Leaf, acc: seq<Leaf>)
    requires Names(acc) == FirstSeen(Names(prefix))
    requires forall k :: 0 <= k < |acc| ==> LastNamed(prefix, acc[k].name) == Some(acc[k])
    ensures Names(IndexInto(acc, child)) == FirstSeen(Names(prefix + [child]))
    ensures forall k :: 0 <= k < |IndexInto(acc, child)| ==>
              LastNamed(prefix + [child], IndexInto(acc, child)[k].name) == Some(IndexInto(acc, child)[k])
  {
    match FindLeaf(acc, child.name)
    case Some(i) =>
      IndexReplaced(prefix, child, acc, i, acc[i := child]);
    case None =>
      IndexAdded(prefix, child, acc);
  }

  /** A name already in the index keeps its place and takes the new leaf. */
  lemma IndexReplaced(prefix: seq<Leaf>, child: Leaf, acc: seq<Leaf>, i: nat, r: seq<Leaf>)
    requires i < |acc| && acc[i].name == child.name && r == acc[i := child]
    requires Names(acc) == FirstSeen(Names(prefix))
    requires forall k :: 0 <= k < |acc| ==> LastNamed(prefix, acc[k].name) == Some(acc[k])
    ensures Names(r) == FirstSeen(Names(prefix + [child]))
    ensures forall k :: 0 <= k < |r| ==> LastNamed(prefix + [child], r[k].name) == Some(r[k])
  {
    NamesAppended(prefix, child);
    FirstSeenAppended(Names(prefix), child.name);
    assert Names(acc)[i] == child.name;
    NamesUpdated(acc, i, child, r);
    OtherNames(acc, i);
    LastNamedReplaced(prefix, child, acc, i, r);
  }

  /** After the replacement every entry is still the last of its name. */
  lemma LastNamedReplaced(prefix: seq<Leaf>, child: Leaf, acc: seq<Leaf>, i: nat, r: seq<Leaf>)
    requires i < |acc| && acc[i].name == child.name && r == acc[i := child]
    requires forall k :: 0 <= k < |acc| && k != i ==> acc[k].name != acc[i].name
    requires forall k :: 0 <= k < |acc| ==> LastNamed(prefix, acc[k].name) == Some(acc[k])
    ensures forall k :: 0 <= k < |r| ==> LastNamed(prefix + [child], r[k].name) == Some(r[k])
  {
    forall k | 0 <= k < |r|
      ensures LastNamed(prefix + [child], r[k].name) == Some(r[k])
    {
      LastNamedAppended(prefix, child, r[k].name);
    }
  }

  lemma NamesUpdated(acc: seq<Leaf>, i: nat, child: Leaf, r: seq<Leaf>)
    requires i < |acc| && acc[i].name == child.name && r == acc[i := child]
    ensures Names(r) == Names(acc)
  {
  }

  /** In a list of distinct names, no other entry has the name of entry `i`. */
  lemma OtherNames(acc: seq<Leaf>, i: nat)
    requires i < |acc| && forall j, k :: 0 <= j < k < |Names(acc)| ==> Names(acc)[j] != Names(acc)[k]
    ensures forall k :: 0 <= k < |acc| && k != i ==> acc[k].name != acc[i].name
  {
    forall k | 0 <= k < |acc| && k != i
      ensures acc[k].name != acc[i].name
    {
      if k < i {
        assert Names(acc)[k] != Names(acc)[i];
      } else {
        assert Names(acc)[i] != Names(acc)[k];
      }
    }
  }

  /** A new name goes at the end with its leaf. */
  lemma IndexAdded(prefix: seq<Leaf>, child: Leaf, acc: seq<Leaf>)
    requires forall j :: 0 <= j < |acc| ==> acc[j].name != child.name
    requires Names(acc) == FirstSeen(Names(prefix))
    requires forall k :: 0 <= k < |acc| ==> LastNamed(prefix, acc[k].name) == Some(acc[k])
    ensures Names(acc + [child]) == FirstSeen(Names(prefix + [child]))
    ensures forall k :: 0 <= k < |acc| + 1 ==>
              LastNamed(prefix + [child], (acc + [child])[k].name) == Some((acc + [child])[k])
  {
    NamesAppended(prefix, child);
    NamesAppended(acc, child);
    FirstSeenAppended(Names(prefix), child.name);
    assert child.name !in Names(acc) by {
      forall k | 0 <= k < |acc|
        ensures Names(acc)[k] != child.name
      {
      }
    }
    forall k | 0 <= k < |acc| + 1
      ensures LastNamed(prefix + [child], (acc + [child])[k].name) == Some((acc + [child])[k])
    {
      LastNamedAppended(prefix, child, (acc + [child])[k].name);
    }
  }

  /** Indexing by name keeps one leaf per name, in the order the names first
      appear, and that leaf is the last one with the name. */
  lemma {:induction false} IndexByNameSpec(leaves: seq<Leaf>)
    ensures Names(IndexByName(leaves)) == FirstSeen(Names(leaves))
    ensures forall k :: 0 <= k < |IndexByName(leaves)| ==>
              LastNamed(leaves, IndexByName(leaves)[k].name) == Some(IndexByName(leaves)[k])
    decreases |leaves|
  {
    if leaves != [] {
      var n := |leaves| - 1;
      IndexByNameSpec(leaves[..n]);
      assert leaves == leaves[..n] + [leaves[n]];
      IndexIntoSpec(leaves[..n], leaves[n], IndexByName(leaves[..n]));
    }
  }

  /** Every category path starts at the root, so the segments below the root
      are the first segments of all the articles' paths. */
  lemma {:induction false} FirstSegments(arts: seq<Article>)
    ensures NextSegs(arts, []) == seq(|arts|, k requires 0 <= k < |arts| => CatPath(arts[k])[0])
    decreases |arts|
  {
    if arts != [] {
      var n := |arts| - 1;
      FirstSegments(arts[..n]);
      assert [] < CatPath(arts[n]);
    }
  }

  /** The roots are the distinct first segments of the articles' paths. */
  lemma RootsAreFirstSegments(arts: seq<Article>)
    ensures FirstSeen(NextSegs(arts, [])) ==
            FirstSeen(seq(|arts|, k requires 0 <= k < |arts| => CatPath(arts[k])[0]))
  {
    FirstSegments(arts);
  }

  /** The generated tree in terms of the articles: one root per distinct
      first segment, in the order the articles first reach it, linking to
      `#category/<segment>`. A root with articles filed directly under it
      keeps only those articles, indexed by title, and loses its
      sub-categories; a root without such articles keeps its sub-categories
      as they were built. */
  lemma TreeShape(arts: seq<Article>)
    ensures var tree := ConvertToTree(SpecLevel(arts, []));
            var roots := FirstSeen(NextSegs(arts, []));
            && |tree| == |roots|
            && forall k :: 0 <= k < |tree| ==>
                 var leaves := LeavesAt(arts, [roots[k]]);
                 && tree[k].name == roots[k]
                 && tree[k].href == CategoryHrefPrefix + roots[k]
                 && (leaves != [] ==> tree[k].children == Children(IndexByName(leaves), []))
                 && (leaves == [] ==> tree[k].children == Children([], SpecLevel(arts, [roots[k]])))
    ensures FirstSeen(NextSegs(arts, [])) ==
            FirstSeen(seq(|arts|, k requires 0 <= k < |arts| => CatPath(arts[k])[0]))
  {
    RootsAreFirstSegments(arts);
    var roots := FirstSeen(NextSegs(arts, []));
    var level := SpecLevel(arts, []);
    SpecNodesIndex(arts, [], roots);
    forall k | 0 <= k < |roots|
      ensures level[k] == SpecNode(arts, [roots[k]])
    {
      assert [] + [roots[k]] == [roots[k]];
    }
    forall k | 0 <= k < |roots|
      ensures var leaves := LeavesAt(arts, [roots[k]]);
              var node := ConvertNode(SpecNode(arts, [roots[k]]));
              && node.name == roots[k]
              && node.href == CategoryHrefPrefix + roots[k]
              && (leaves != [] ==> node.children == Children(IndexByName(leaves), []))
              && (leaves == [] ==> node.children == Children([], SpecLevel(arts, [roots[k]])))
    {
      RootNode(arts, roots[k]);
    }
  }

  /** A converted root node. */
  lemma RootNode(arts: seq<Article>, r: string)
    ensures var leaves := LeavesAt(arts, [r]);
            var node := ConvertNode(SpecNode(arts, [r]));
            && node.name == r
            && node.href == CategoryHrefPrefix + r
            && (leaves != [] ==> node.children == Children(IndexByName(leaves), []))
            && (leaves == [] ==> node.children == Children([], SpecLevel(arts, [r])))
  {
    assert Join([r], "/") == r;
  }

  /** The entry of every article is among the entries at its own path. */
  lemma {:induction false} FiledInLeaves(arts: seq<Article>, k: nat)
    requires k < |arts|
    ensures LeafOf(arts[k]) in LeavesAt(arts, CatPath(arts[k]))
    decreases |arts|
  {
    var n := |arts| - 1;
    if k < n {
      FiledInLeaves(arts[..n], k);
    }
  }

  /** `level[q[0]].children[q[1]]…`: the node reached from `level` by
      following the segments of `q` through the sub-categories. */
  function Lookup(level: seq<Node>, q: seq<string>): Option<Node>
    requires |q| > 0
    decreases |q|
  {
    match Find(level, q[0])
    case None => None
    case Some(i) => if |q| == 1 then Some(level[i]) else Lookup(level[i].children.subs, q[1..])
  }

  /** Every segment of an article's path is reached from the path before it. */
  lemma {:induction false} Reached(arts: seq<Article>, k: nat, p: seq<string>)
    requires k < |arts| && p < CatPath(arts[k])
    ensures CatPath(arts[k])[|p|] in NextSegs(arts, p)
    decreases |arts|
  {
    var n := |arts| - 1;
    var x := CatPath(arts[k])[|p|];
    var last := CatPath(arts[n]);
    var front := NextSegs(arts[..n], p);
    var tail := if p < last then [last[|p|]] else [];
    assert NextSegs(arts, p) == front + tail;
    if k < n {
      assert arts[..n][k] == arts[k];
      Reached(arts[..n], k, p);
      InEither(x, front, tail);
    } else {
      assert tail == [x];
      InEither(x, front, tail);
    }
  }

  lemma InEither<T>(x: T, front: seq<T>, tail: seq<T>)
    requires x in front || x in tail
    ensures x in front + tail
  {
  }

  /** The node of a segment some article reaches below `p`. */
  lemma FoundNode(arts: seq<Article>, p: seq<string>, part: string) returns (i: nat)
    requires part in NextSegs(arts, p)
    ensures Find(SpecLevel(arts, p), part) == Some(i)
    ensures SpecLevel(arts, p)[i] == SpecNode(arts, p + [part])
  {
    i := FindExisting(arts, p, part);
    LevelSize(arts, p);
    LevelAt(arts, p, i);
  }

  /** Following the rest of an article's path from the level below `p`
      reaches the node of the whole path. */
  lemma {:induction false} LookupFrom(arts: seq<Article>, k: nat, p: seq<string>)
    requires k < |arts| && p < CatPath(arts[k])
    ensures var c := CatPath(arts[k]);
            Lookup(SpecLevel(arts, p), c[|p|..]) == Some(SpecNode(arts, c))
    decreases |CatPath(arts[k])| - |p|
  {
    var c := CatPath(arts[k]);
    var part := c[|p|];
    var q := p + [part];
    Reached(arts, k, p);
    var i := FoundNode(arts, p, part);
    PrefixExtend(p, part, c);
    assert c[|p|..][0] == part;
    if |q| == |c| {
      assert q == c;
    } else {
      assert q < c;
      assert c[|p|..][1..] == c[|q|..];
      LookupFrom(arts, k, q);
    }
  }

  /** Every article is filed in the built tree: following the segments of
      its category from the root reaches a node whose `href` links to that
      category and whose children hold the article's entry. */
  lemma EveryArticleFiled(arts: seq<Article>, k: nat)
    requires k < |arts|
    ensures var n := Lookup(Build(arts), CatPath(arts[k]));
            && n.Some?
            && n.value.href == CategoryHrefPrefix + arts[k].category
            && LeafOf(arts[k]) in n.value.children.elems
  {
    var c := CatPath(arts[k]);
    BuildMatchesSpec(arts);
    assert [] < c;
    assert c[0..] == c;
    LookupFrom(arts, k, []);
    JoinSplit(arts[k].category, '/');
    FiledInLeaves(arts, k);
  }

  lemma FirstSeenSmall(x: string)
    ensures FirstSeen([x]) == [x] && FirstSeen([x, x]) == [x]
  {
    FirstSeenOne(x);
    FirstSeenAppended([x], x);
    assert [x] + [x] == [x, x];
  }

  lemma FirstSeenOne(x: string)
    ensures FirstSeen([x]) == [x]
  {
    FirstSeenAppended([], x);
    assert [] + [x] == [x];
  }

  /** The facts about two articles filed in `x` and `x/y` that the example
      below needs. */
  lemma TwoArticles(a1: Article, a2: Article, x: string, y: string)
    requires '/' !in x && '/' !in y
    requires a1.category == x && a2.category == x + "/" + y
    ensures CatPath(a1) == [x] && CatPath(a2) == [x, y]
    ensures NextSegs([a1, a2], []) == [x, x]
    ensures NextSegs([a1, a2], [x]) == [y]
    ensures LeavesAt([a1, a2], [x]) == [LeafOf(a1)]
  {
    TwoPaths(a1, a2, x, y);
    TwoNextSegs(a1, a2, x, y);
    assert [] + [a1] == [a1] && [a1] + [a2] == [a1, a2];
    LeavesAppended([], a1, [x]);
    LeavesAppended([a1], a2, [x]);
  }

  lemma TwoPaths(a1: Article, a2: Article, x: string, y: string)
    requires '/' !in x && '/' !in y
    requires a1.category == x && a2.category == x + "/" + y
    ensures CatPath(a1) == [x] && CatPath(a2) == [x, y]
  {
    SplitWithoutSeparator(x, '/');
    SplitAtFirstSeparator(x, y, '/');
    SplitWithoutSeparator(y, '/');
    assert x + "/" + y == x + ['/'] + y;
  }

  lemma TwoNextSegs(a1: Article, a2: Article, x: string, y: string)
    requires CatPath(a1) == [x] && CatPath(a2) == [x, y]
    ensures NextSegs([a1, a2], []) == [x, x]
    ensures NextSegs([a1, a2], [x]) == [y]
  {
    assert [] + [a1] == [a1] && [a1] + [a2] == [a1, a2];
    NextSegsAppended([], a1, []);
    NextSegsAppended([a1], a2, []);
    NextSegsAppended([], a1, [x]);
    NextSegsAppended([a1], a2, [x]);
    assert [x] < [x, y];
  }

  /** An article filed in `x` and one filed in `x/y`: the built tree has
      the sub-category `y` under `x`. */
  lemma SubcategoryBuilt(a1: Article, a2: Article, x: string, y: string)
    requires '/' !in x && '/' !in y
    requires a1.category == x && a2.category == x + "/" + y
    ensures |SpecLevel([a1, a2], [x])| == 1
  {
    var arts := [a1, a2];
    TwoArticles(a1, a2, x, y);
    FirstSeenSmall(y);
    assert SpecLevel(arts, [x]) == SpecNodes(arts, [x], [y]);
    SpecNodesIndex(arts, [x], [y]);
  }

  /** One leaf is its own index. */
  lemma IndexOfOne(leaf: Leaf)
    ensures IndexByName([leaf]) == [leaf]
  {
    assert [leaf][..0] == [];
  }

  /** The same two articles: the converted tree shows `x` with its own
      article only, and the sub-category `y` is gone. */
  lemma SubcategoryDroppedExample(a1: Article, a2: Article, x: string, y: string)
    requires '/' !in x && '/' !in y
    requires a1.category == x && a2.category == x + "/" + y
    ensures ConvertToTree(SpecLevel([a1, a2], [])) == [Node(x, CategoryHrefPrefix + x, Children([LeafOf(a1)], []))]
  {
    var arts := [a1, a2];
    TwoArticles(a1, a2, x, y);
    FirstSeenSmall(x);
    IndexOfOne(LeafOf(a1));
    TreeShape(arts);
    var tree := ConvertToTree(SpecLevel(arts, []));
    assert FirstSeen(NextSegs(arts, [])) == [x];
    assert |tree| == 1;
    assert tree[0] == Node(x, CategoryHrefPrefix + x, Children([LeafOf(a1)], []));
  }
}

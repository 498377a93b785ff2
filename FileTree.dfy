// The node tree of a FileList, as a value.
//
// A FileList owns a tree of FileListNode objects linked by Parent,
// Previous/Next (siblings) and FirstChild/LastChild pointers. The model
// keeps the nodes in an arena: node i is `nodes[i]`, a node's Guid is its
// index, and the root the FileList creates is node 0. Pointers become
// optional indices. Beside the nodes, the (ghost) `children` lists give,
// for every node, its children in sibling order; the well-formedness
// predicates below tie the pointers, the counters and the cached full
// paths to those lists.

module FileTree {
  import opened Wrappers
  import opened BinaryFormat
  import opened Utilities

  /** DateTime.MaxValue.Ticks: the ticks a DateTime can hold are 0 to this. */
  const MAX_TICKS: int := 3155378975999999999

  type Ticks = t: int | 0 <= t <= MAX_TICKS

  /** What a node records about a file or folder (the IFileInfo fields). */
  datatype Entry = Entry(
    name: string,
    isDirectory: bool,
    length: int64,
    creationTicks: Ticks,
    lastWriteTicks: Ticks)

  /** The entry of the root every FileList starts with. */
  const RootEntry: Entry := Entry("root", true, 0, 0, 0)

  const ROOT: nat := 0

  /** A FileListNode: its entry, its links and its two child counters. */
  datatype Node = Node(
    entry: Entry,
    parent: Option<nat>,
    previous: Option<nat>,
    next: Option<nat>,
    firstChild: Option<nat>,
    lastChild: Option<nat>,
    subfolderCount: int,
    fileCount: int,
    fullPath: Option<string>)

  /** A fresh node under `parent`: no siblings, no children, nothing cached. */
  function NewNode(parent: Option<nat>, e: Entry): Node {
    Node(e, parent, None, None, None, None, 0, 0, None)
  }

  datatype Arena = Arena(nodes: seq<Node>, children: seq<seq<nat>>)

  /** The pointer-free tree below a node: entries and children in order. */
  datatype Item = Item(entry: Entry, children: seq<Item>)

  // ---------------------------------------------------------------------
  // Well-formedness

  ghost predicate Shape(a: Arena) {
    |a.nodes| == |a.children| && |a.nodes| >= 1
  }

  ghost predicate RootOk(a: Arena)
    requires Shape(a)
  {
    a.nodes[ROOT].parent.None? && a.nodes[ROOT].entry == RootEntry
  }

  /** Every node but the root has a parent, created before it. */
  ghost predicate ParentsBelow(a: Arena)
    requires Shape(a)
  {
    forall i :: 0 <= i < |a.nodes| ==>
      (a.nodes[i].parent.Some? ==> a.nodes[i].parent.value < i) &&
      (i != ROOT ==> a.nodes[i].parent.Some?)
  }

  /** A child comes after its parent and names it as its parent. */
  ghost predicate ChildrenInRange(a: Arena)
    requires Shape(a)
  {
    forall p, k :: 0 <= p < |a.children| && 0 <= k < |a.children[p]| ==>
      p < a.children[p][k] < |a.nodes|
  }

  ghost predicate ChildrenKnowParent(a: Arena)
    requires Shape(a) && ChildrenInRange(a)
  {
    forall p, k :: 0 <= p < |a.children| && 0 <= k < |a.children[p]| ==>
      a.nodes[a.children[p][k]].parent == Some(p)
  }

  /** No node occurs twice in cs. */
  ghost predicate Distinct(cs: seq<nat>) {
    forall j, k :: 0 <= j < k < |cs| ==> cs[j] != cs[k]
  }

  ghost predicate ChildrenDistinct(a: Arena)
    requires Shape(a)
  {
    forall p :: 0 <= p < |a.children| ==> Distinct(a.children[p])
  }

  function First(cs: seq<nat>): Option<nat> {
    if cs == [] then None else Some(cs[0])
  }

  function Last(cs: seq<nat>): Option<nat> {
    if cs == [] then None else Some(cs[|cs| - 1])
  }

  /** FirstChild and LastChild are the ends of the children list. */
  ghost predicate EndsLinked(a: Arena)
    requires Shape(a)
  {
    forall p :: 0 <= p < |a.nodes| ==>
      a.nodes[p].firstChild == First(a.children[p]) &&
      a.nodes[p].lastChild == Last(a.children[p])
  }

  /** The node before cs[k] in the list, if any. */
  function Before(cs: seq<nat>, k: nat): Option<nat>
    requires k < |cs|
  {
    if k == 0 then None else Some(cs[k - 1])
  }

  /** The node after cs[k] in the list, if any. */
  function After(cs: seq<nat>, k: nat): Option<nat>
    requires k < |cs|
  {
    if k + 1 < |cs| then Some(cs[k + 1]) else None
  }

  /** Previous and Next link each child to its neighbours in the list. */
  ghost predicate SiblingsLinked(a: Arena)
    requires Shape(a) && ChildrenInRange(a)
  {
    forall p, k :: 0 <= p < |a.children| && 0 <= k < |a.children[p]| ==>
      a.nodes[a.children[p][k]].previous == Before(a.children[p], k) &&
      a.nodes[a.children[p][k]].next == After(a.children[p], k)
  }

  ghost predicate AllBelow(a: Arena, cs: seq<nat>) {
    forall k :: 0 <= k < |cs| ==> cs[k] < |a.nodes|
  }

  /** How many of the nodes cs are directories. */
  function CountDirs(a: Arena, cs: seq<nat>): (r: nat)
    requires AllBelow(a, cs)
    ensures r <= |cs|
  {
    if cs == [] then 0
    else CountDirs(a, cs[..|cs| - 1]) + (if a.nodes[cs[|cs| - 1]].entry.isDirectory then 1 else 0)
  }

  /** SubfolderCount and FileCount count the directory and file children. */
  ghost predicate CountsAgree(a: Arena)
    requires Shape(a) && ChildrenInRange(a)
  {
    forall p :: 0 <= p < |a.nodes| ==>
      a.nodes[p].subfolderCount == CountDirs(a, a.children[p]) &&
      a.nodes[p].fileCount == |a.children[p]| - CountDirs(a, a.children[p])
  }

  /** A cached full path is the node's full path. */
  ghost predicate CacheAgrees(a: Arena)
    requires Shape(a) && ParentsBelow(a)
  {
    forall i :: 0 <= i < |a.nodes| && a.nodes[i].fullPath.Some? ==>
      a.nodes[i].fullPath.value == PathOf(a, i)
  }

  ghost predicate Linked(a: Arena) {
    Shape(a) && ChildrenInRange(a) && ChildrenKnowParent(a) && ChildrenDistinct(a) &&
    EndsLinked(a) && SiblingsLinked(a)
  }

  ghost predicate WellFormed(a: Arena) {
    Linked(a) && RootOk(a) && ParentsBelow(a) && CountsAgree(a) && CacheAgrees(a)
  }

  /** All of cs are directories exactly when every one of them is counted. */
  lemma {:induction false} CountDirsAll(a: Arena, cs: seq<nat>)
    requires AllBelow(a, cs)
    ensures CountDirs(a, cs) == |cs| <==> forall k :: 0 <= k < |cs| ==> a.nodes[cs[k]].entry.isDirectory
  {
    if cs != [] {
      var init := cs[..|cs| - 1];
      CountDirsAll(a, init);
      assert forall k :: 0 <= k < |init| ==> init[k] == cs[k];
    }
  }

  /** None of cs is a directory exactly when none is counted. */
  lemma {:induction false} CountDirsNone(a: Arena, cs: seq<nat>)
    requires AllBelow(a, cs)
    ensures CountDirs(a, cs) == 0 <==> forall k :: 0 <= k < |cs| ==> !a.nodes[cs[k]].entry.isDirectory
  {
    if cs != [] {
      var init := cs[..|cs| - 1];
      CountDirsNone(a, init);
      assert forall k :: 0 <= k < |init| ==> init[k] == cs[k];
    }
  }

  /**
   * A node's SubfolderCount and FileCount add up to its number of
   * children; FileCount is 0 exactly when they are all directories, and
   * SubfolderCount exactly when they are all files.
   */
  lemma CountersAddUp(a: Arena, p: nat)
    requires WellFormed(a) && p < |a.nodes|
    ensures a.nodes[p].subfolderCount + a.nodes[p].fileCount == |a.children[p]|
    ensures 0 <= a.nodes[p].subfolderCount && 0 <= a.nodes[p].fileCount
    ensures a.nodes[p].fileCount == 0 <==>
      forall k :: 0 <= k < |a.children[p]| ==> a.nodes[a.children[p][k]].entry.isDirectory
    ensures a.nodes[p].subfolderCount == 0 <==>
      forall k :: 0 <= k < |a.children[p]| ==> !a.nodes[a.children[p][k]].entry.isDirectory
  {
    CountDirsAll(a, a.children[p]);
    CountDirsNone(a, a.children[p]);
  }

  /** A node is attached when it is the root or in its parent's list. */
  ghost predicate Attached(a: Arena, i: nat)
    requires Shape(a) && i < |a.nodes|
  {
    match a.nodes[i].parent
    case None => true
    case Some(p) => p < |a.nodes| && i in a.children[p]
  }

  // ---------------------------------------------------------------------
  // Full paths

  /** The names from the topmost node below the root down to node i. */
  function Ancestry(a: Arena, i: nat): (r: seq<string>)
    requires Shape(a) && ParentsBelow(a) && i < |a.nodes|
    decreases i
  {
    match a.nodes[i].parent
    case None => []
    case Some(p) => Ancestry(a, p) + [a.nodes[i].entry.name]
  }

  /** The parts joined with '/', a separator written only after a non-empty prefix. */
  function Join(parts: seq<string>): string {
    if parts == [] then ""
    else
      var init := Join(parts[..|parts| - 1]);
      if init == "" then parts[|parts| - 1] else init + "/" + parts[|parts| - 1]
  }

  function PathOf(a: Arena, i: nat): string
    requires Shape(a) && ParentsBelow(a) && i < |a.nodes|
  {
    Join(Ancestry(a, i))
  }

  /** The root's path is empty; a node's path extends its parent's. */
  lemma PathOfParent(a: Arena, i: nat)
    requires Shape(a) && RootOk(a) && ParentsBelow(a) && i < |a.nodes|
    ensures i == ROOT ==> PathOf(a, i) == ""
    ensures i != ROOT ==>
      var p, name := a.nodes[i].parent.value, a.nodes[i].entry.name;
      PathOf(a, i) == if PathOf(a, p) == "" then name else PathOf(a, p) + "/" + name
  {
    if i != ROOT {
      var ps := Ancestry(a, a.nodes[i].parent.value);
      assert (ps + [a.nodes[i].entry.name])[..|ps|] == ps;
    }
  }

  /** Nodes whose names are non-empty and free of '/': the ancestors of i but the root. */
  ghost predicate PlainNames(a: Arena, i: nat)
    requires Shape(a) && ParentsBelow(a) && i < |a.nodes|
    decreases i
  {
    match a.nodes[i].parent
    case None => true
    case Some(p) => IsPart(a.nodes[i].entry.name) && PlainNames(a, p)
  }

  /** Splitting a full path gives back the names it was built from. */
  lemma {:induction false} SplitPathOf(a: Arena, i: nat)
    requires Shape(a) && ParentsBelow(a) && i < |a.nodes| && PlainNames(a, i)
    ensures SplitPathIntoParts(PathOf(a, i)) == Ancestry(a, i)
    decreases i
  {
    match a.nodes[i].parent
    case None =>
      assert SplitPathIntoParts("") == [] by { assert PartsFrom("", 0, 0) == []; }
    case Some(p) =>
      var name := a.nodes[i].entry.name;
      var ps := Ancestry(a, p);
      assert (ps + [name])[..|ps|] == ps;
      SplitPathOf(a, p);
      SplitOfPart(name);
      if PathOf(a, p) != "" {
        SplitAtSlash(PathOf(a, p), name);
      }
  }

  /** Tree edits that keep every name and parent keep every full path. */
  lemma {:induction false} PathOfFrame(a: Arena, b: Arena, i: nat)
    requires Shape(a) && ParentsBelow(a) && Shape(b) && ParentsBelow(b)
    requires i < |a.nodes| <= |b.nodes|
    requires forall j :: 0 <= j <= i ==>
      a.nodes[j].entry.name == b.nodes[j].entry.name && a.nodes[j].parent == b.nodes[j].parent
    ensures Ancestry(a, i) == Ancestry(b, i) && PathOf(a, i) == PathOf(b, i)
    decreases i
  {
    match a.nodes[i].parent
    case None =>
    case Some(p) => PathOfFrame(a, b, p);
  }

  // ---------------------------------------------------------------------
  // Finding children by name

  function FoldChar(c: char): char {
    if 'A' <= c <= 'Z' then (c as int + 32) as char else c
  }

  /** A name with its ASCII capitals made small. */
  function Fold(s: string): (r: string)
    ensures |r| == |s|
    ensures forall k :: 0 <= k < |s| ==> r[k] == FoldChar(s[k])
  {
    seq(|s|, k requires 0 <= k < |s| => FoldChar(s[k]))
  }

  /** Name equality as the invariant culture compares, with or without case. */
  predicate NameMatches(x: string, y: string, ignoreCase: bool) {
    if ignoreCase then Fold(x) == Fold(y) else x == y
  }

  /** The first of the nodes cs whose name matches `name`. */
  function FindFirst(a: Arena, cs: seq<nat>, name: string, ignoreCase: bool): (r: Option<nat>)
    requires AllBelow(a, cs)
    ensures r.Some? ==> r.value in cs && NameMatches(a.nodes[r.value].entry.name, name, ignoreCase)
  {
    if cs == [] then None
    else if NameMatches(a.nodes[cs[0]].entry.name, name, ignoreCase) then Some(cs[0])
    else FindFirst(a, cs[1..], name, ignoreCase)
  }

  /** FindFirst answers cs[k] exactly when cs[k] matches and nothing before it does. */
  lemma {:induction false} FindFirstAt(a: Arena, cs: seq<nat>, name: string, ignoreCase: bool, k: nat)
    requires AllBelow(a, cs) && k < |cs|
    requires NameMatches(a.nodes[cs[k]].entry.name, name, ignoreCase)
    requires forall j :: 0 <= j < k ==> !NameMatches(a.nodes[cs[j]].entry.name, name, ignoreCase)
    ensures FindFirst(a, cs, name, ignoreCase) == Some(cs[k])
  {
    if k > 0 {
      FindFirstAt(a, cs[1..], name, ignoreCase, k - 1);
    }
  }

  /** FindFirst answers None exactly when no node of cs matches. */
  lemma {:induction false} FindFirstNone(a: Arena, cs: seq<nat>, name: string, ignoreCase: bool)
    requires AllBelow(a, cs)
    ensures FindFirst(a, cs, name, ignoreCase) == None <==>
      forall k :: 0 <= k < |cs| ==> !NameMatches(a.nodes[cs[k]].entry.name, name, ignoreCase)
  {
    if cs != [] {
      FindFirstNone(a, cs[1..], name, ignoreCase);
      assert forall k :: 1 <= k < |cs| ==> cs[k] == cs[1..][k - 1];
    }
  }

  /** When nothing in cs[..k] matches, the search can start at k. */
  lemma {:induction false} FindFirstSkip(a: Arena, cs: seq<nat>, name: string, ignoreCase: bool, k: nat)
    requires AllBelow(a, cs) && k < |cs|
    requires !NameMatches(a.nodes[cs[k]].entry.name, name, ignoreCase)
    ensures FindFirst(a, cs[k..], name, ignoreCase) == FindFirst(a, cs[k + 1..], name, ignoreCase)
  {
    assert cs[k..][1..] == cs[k + 1..];
  }

  // ---------------------------------------------------------------------
  // Resolving a path (TryGetFileInfo)

  ghost predicate ChildrenOf(a: Arena, n: nat)
    requires Shape(a)
  {
    n < |a.nodes| && AllBelow(a, a.children[n])
  }

  /**
   * From node cur, follow each part to the first child whose name matches
   * it ignoring case; the walk stops at the first part no child matches.
   */
  function Resolve(a: Arena, cur: nat, parts: seq<string>): (r: nat)
    requires Shape(a) && ChildrenInRange(a) && cur < |a.nodes|
    ensures r < |a.nodes|
    decreases |parts|
  {
    if parts == [] then cur
    else
      match FindFirst(a, a.children[cur], parts[0], true)
      case None => cur
      case Some(c) => Resolve(a, c, parts[1..])
  }

  /** The node reached when every one of the parts finds a child, or None. */
  function WalkAll(a: Arena, cur: nat, parts: seq<string>): (r: Option<nat>)
    requires Shape(a) && ChildrenInRange(a) && cur < |a.nodes|
    ensures r.Some? ==> r.value < |a.nodes|
  {
    if parts == [] then Some(cur)
    else
      match WalkAll(a, cur, parts[..|parts| - 1])
      case None => None
      case Some(m) => FindFirst(a, a.children[m], parts[|parts| - 1], true)
  }

  /** Once the parts xs all resolve, Resolve carries on from where they lead. */
  lemma {:induction false} ResolveAfterWalk(a: Arena, cur: nat, xs: seq<string>, ys: seq<string>)
    requires Shape(a) && ChildrenInRange(a) && cur < |a.nodes|
    requires WalkAll(a, cur, xs).Some?
    ensures Resolve(a, cur, xs + ys) == Resolve(a, WalkAll(a, cur, xs).value, ys)
    decreases |xs|
  {
    if xs != [] {
      var init, x := xs[..|xs| - 1], xs[|xs| - 1];
      assert xs + ys == init + ([x] + ys);
      ResolveAfterWalk(a, cur, init, [x] + ys);
      assert ([x] + ys)[1..] == ys;
    } else {
      assert xs + ys == ys;
    }
  }

  /** The walk stops at the first part that no child matches and ignores the rest. */
  lemma ResolveStopsAtMiss(a: Arena, xs: seq<string>, y: string, zs: seq<string>)
    requires Shape(a) && ChildrenInRange(a)
    requires WalkAll(a, ROOT, xs).Some?
    requires FindFirst(a, a.children[WalkAll(a, ROOT, xs).value], y, true).None?
    ensures Resolve(a, ROOT, xs + [y] + zs) == WalkAll(a, ROOT, xs).value
  {
    assert xs + [y] + zs == xs + ([y] + zs);
    ResolveAfterWalk(a, ROOT, xs, [y] + zs);
  }

  /** No two children of a node have names equal up to case. */
  ghost predicate FoldedUnique(a: Arena, cs: seq<nat>)
    requires AllBelow(a, cs)
  {
    forall j, k :: 0 <= j < |cs| && 0 <= k < |cs| && j != k ==>
      Fold(a.nodes[cs[j]].entry.name) != Fold(a.nodes[cs[k]].entry.name)
  }

  /** The chain from i up to the root is attached, with names unique up to case among siblings. */
  ghost predicate Reachable(a: Arena, i: nat)
    requires Shape(a) && ParentsBelow(a) && ChildrenInRange(a) && i < |a.nodes|
    decreases i
  {
    match a.nodes[i].parent
    case None => i == ROOT
    case Some(p) => i in a.children[p] && FoldedUnique(a, a.children[p]) && Reachable(a, p)
  }

  lemma {:induction false} WalkAncestry(a: Arena, i: nat)
    requires Shape(a) && ParentsBelow(a) && ChildrenInRange(a) && i < |a.nodes| && Reachable(a, i)
    ensures WalkAll(a, ROOT, Ancestry(a, i)) == Some(i)
    decreases i
  {
    match a.nodes[i].parent
    case None =>
    case Some(p) =>
      WalkAncestry(a, p);
      var ps := Ancestry(a, p);
      var name := a.nodes[i].entry.name;
      assert (ps + [name])[..|ps|] == ps;
      var cs := a.children[p];
      var k :| 0 <= k < |cs| && cs[k] == i;
      FindFirstAt(a, cs, name, true, k);
  }

  /**
   * TryGetFileInfo finds any reachable node by its own full path, when the
   * names on the way are non-empty and without '/'.
   */
  lemma ResolvePathOf(a: Arena, i: nat)
    requires Shape(a) && ParentsBelow(a) && ChildrenInRange(a) && i < |a.nodes|
    requires Reachable(a, i) && PlainNames(a, i)
    ensures Resolve(a, ROOT, SplitPathIntoParts(PathOf(a, i))) == i
  {
    SplitPathOf(a, i);
    WalkAncestry(a, i);
    ResolveAfterWalk(a, ROOT, Ancestry(a, i), []);
    assert Ancestry(a, i) + [] == Ancestry(a, i);
  }

  // ---------------------------------------------------------------------
  // The pointer-free tree

  ghost predicate IndexTree(a: Arena) {
    Shape(a) && ChildrenInRange(a)
  }

  /** The tree below node i. */
  function AbsNode(a: Arena, i: nat): Item
    requires IndexTree(a) && i < |a.nodes|
    decreases |a.nodes| - i, 1
  {
    Item(a.nodes[i].entry, AbsList(a, a.children[i], i))
  }

  /** The trees below the nodes cs, all of which come after node lo. */
  function AbsList(a: Arena, cs: seq<nat>, lo: nat): (r: seq<Item>)
    requires IndexTree(a)
    requires forall k :: 0 <= k < |cs| ==> lo < cs[k] < |a.nodes|
    ensures |r| == |cs|
    decreases |a.nodes| - lo, 0, |cs|
  {
    if cs == [] then []
    else AbsList(a, cs[..|cs| - 1], lo) + [AbsNode(a, cs[|cs| - 1])]
  }

  lemma AbsListAt(a: Arena, cs: seq<nat>, lo: nat, k: nat)
    requires IndexTree(a)
    requires forall j :: 0 <= j < |cs| ==> lo < cs[j] < |a.nodes|
    requires k < |cs|
    ensures AbsList(a, cs, lo)[k] == AbsNode(a, cs[k])
    decreases |cs|
  {
    if k < |cs| - 1 {
      AbsListAt(a, cs[..|cs| - 1], lo, k);
    }
  }

  /** a and b agree on the entries and the children of nodes lo and above (of a). */
  ghost predicate AgreeFrom(a: Arena, b: Arena, lo: nat) {
    |a.nodes| <= |b.nodes| && |a.children| <= |b.children| &&
    forall j :: lo <= j < |a.nodes| && j < |a.children| ==>
      a.nodes[j].entry == b.nodes[j].entry && a.children[j] == b.children[j]
  }

  /** Editing only nodes below lo, or adding nodes, leaves the trees at lo and above alone. */
  lemma {:induction false} AbsNodeFrame(a: Arena, b: Arena, lo: nat, i: nat)
    requires IndexTree(a) && IndexTree(b) && AgreeFrom(a, b, lo)
    requires lo <= i < |a.nodes|
    ensures AbsNode(a, i) == AbsNode(b, i)
    decreases |a.nodes| - i, 1
  {
    AbsListFrame(a, b, lo, a.children[i], i);
  }

  lemma {:induction false} AbsListFrame(a: Arena, b: Arena, lo: nat, cs: seq<nat>, p: nat)
    requires IndexTree(a) && IndexTree(b) && AgreeFrom(a, b, lo)
    requires lo <= p + 1
    requires forall k :: 0 <= k < |cs| ==> p < cs[k] < |a.nodes|
    ensures AbsList(a, cs, p) == AbsList(b, cs, p)
    decreases |a.nodes| - p, 0, |cs|
  {
    if cs != [] {
      AbsListFrame(a, b, lo, cs[..|cs| - 1], p);
      AbsNodeFrame(a, b, lo, cs[|cs| - 1]);
    }
  }

  /** The same nodes under a lower bound of p or of q give the same trees. */
  lemma {:induction false} AbsListBound(a: Arena, cs: seq<nat>, p: nat, q: nat)
    requires IndexTree(a)
    requires forall k :: 0 <= k < |cs| ==> p < cs[k] < |a.nodes| && q < cs[k]
    ensures AbsList(a, cs, p) == AbsList(a, cs, q)
  {
    if cs != [] {
      AbsListBound(a, cs[..|cs| - 1], p, q);
    }
  }

  // ---------------------------------------------------------------------
  // Subtrees

  /** The links every tree walk relies on: children after their parents and naming them. */
  ghost predicate Tree(a: Arena) {
    IndexTree(a) && ParentsBelow(a) && ChildrenKnowParent(a)
  }

  /** Node d is node c or lies in c's subtree. */
  ghost predicate AtOrUnder(a: Arena, d: nat, c: nat)
    requires Shape(a) && ParentsBelow(a) && d < |a.nodes|
    decreases d
  {
    d == c || (a.nodes[d].parent.Some? && AtOrUnder(a, a.nodes[d].parent.value, c))
  }

  /** Node d lies strictly inside c's subtree. */
  ghost predicate Below(a: Arena, d: nat, c: nat)
    requires Shape(a) && ParentsBelow(a) && d < |a.nodes|
  {
    a.nodes[d].parent.Some? && AtOrUnder(a, a.nodes[d].parent.value, c)
  }

  lemma {:induction false} AtOrUnderOrder(a: Arena, d: nat, c: nat)
    requires Shape(a) && ParentsBelow(a) && d < |a.nodes| && AtOrUnder(a, d, c)
    ensures c <= d
    decreases d
  {
    if d != c {
      AtOrUnderOrder(a, a.nodes[d].parent.value, c);
    }
  }

  /** The subtree of a child of l lies below l. */
  lemma {:induction false} UnderChild(a: Arena, d: nat, c: nat, l: nat)
    requires Shape(a) && ParentsBelow(a) && d < |a.nodes| && c < |a.nodes|
    requires a.nodes[c].parent == Some(l) && AtOrUnder(a, d, c)
    ensures Below(a, d, l)
    decreases d
  {
    if d != c {
      UnderChild(a, a.nodes[d].parent.value, c, l);
    }
  }

  /** Two different children of one node have disjoint subtrees: x is not in c's. */
  lemma SiblingsApart(a: Arena, l: nat, x: nat, c: nat)
    requires Shape(a) && ParentsBelow(a) && x < |a.nodes| && c < |a.nodes|
    requires a.nodes[x].parent == Some(l) && a.nodes[c].parent == Some(l) && x != c
    ensures !AtOrUnder(a, x, c)
  {
    if AtOrUnder(a, x, c) {
      AtOrUnderOrder(a, l, c);
      assert false;
    }
  }

  lemma NotBelowSelf(a: Arena, x: nat)
    requires Shape(a) && ParentsBelow(a) && x < |a.nodes|
    ensures !Below(a, x, x)
  {
    if Below(a, x, x) {
      AtOrUnderOrder(a, a.nodes[x].parent.value, x);
      assert false;
    }
  }

  /** Apart from node c's children and the nodes b adds, b has a's entries and children. */
  ghost predicate AgreeExcept(a: Arena, b: Arena, c: nat) {
    |a.nodes| <= |b.nodes| && |a.children| <= |b.children| &&
    forall j :: 0 <= j < |a.nodes| && j < |a.children| ==>
      a.nodes[j].entry == b.nodes[j].entry && (j != c ==> a.children[j] == b.children[j])
  }

  /** Editing node c's children leaves the trees whose subtree does not hold c alone. */
  lemma {:induction false} AbsNodeFrameExcept(a: Arena, b: Arena, c: nat, i: nat)
    requires Tree(a) && IndexTree(b) && AgreeExcept(a, b, c)
    requires i < |a.nodes| && c < |a.nodes| && !AtOrUnder(a, c, i)
    ensures AbsNode(a, i) == AbsNode(b, i)
    decreases |a.nodes| - i, 1
  {
    var cs := a.children[i];
    forall k | 0 <= k < |cs|
      ensures !AtOrUnder(a, c, cs[k])
    {
      if AtOrUnder(a, c, cs[k]) {
        UnderChild(a, c, cs[k], i);
      }
    }
    AbsListFrameExcept(a, b, c, cs, i);
  }

  lemma {:induction false} AbsListFrameExcept(a: Arena, b: Arena, c: nat, cs: seq<nat>, p: nat)
    requires Tree(a) && IndexTree(b) && AgreeExcept(a, b, c) && c < |a.nodes|
    requires forall k :: 0 <= k < |cs| ==> p < cs[k] < |a.nodes| && !AtOrUnder(a, c, cs[k])
    ensures AbsList(a, cs, p) == AbsList(b, cs, p)
    decreases |a.nodes| - p, 0, |cs|
  {
    if cs != [] {
      AbsListFrameExcept(a, b, c, cs[..|cs| - 1], p);
      AbsNodeFrameExcept(a, b, c, cs[|cs| - 1]);
    }
  }
}

// The edits a FileList makes to its nodes, as functions on arenas.
//
// The FileListNode constructor adds a node that knows its parent but is in
// no child list yet; AddChild links such a node at the end of its
// parent's list and counts it; FullPath stores a computed path in the
// node's cache. Each edit keeps an arena well-formed, and each changes the
// trees below the nodes only where it should.

module TreeEdits {
  import opened Wrappers
  import opened FileTree

  // ---------------------------------------------------------------------
  // Facts shared by the edits

  /** The same directory flags for the nodes cs give the same count of directories. */
  lemma {:induction false} CountDirsFrame(a: Arena, b: Arena, cs: seq<nat>)
    requires AllBelow(a, cs) && AllBelow(b, cs)
    requires forall k :: 0 <= k < |cs| ==> b.nodes[cs[k]].entry.isDirectory == a.nodes[cs[k]].entry.isDirectory
    ensures CountDirs(b, cs) == CountDirs(a, cs)
  {
    if cs != [] {
      CountDirsFrame(a, b, cs[..|cs| - 1]);
    }
  }

  /** Appending c to a list adds one to its count of directories exactly when c is one. */
  lemma CountDirsAppend(a: Arena, cs: seq<nat>, c: nat)
    requires AllBelow(a, cs) && c < |a.nodes|
    ensures CountDirs(a, cs + [c]) == CountDirs(a, cs) + (if a.nodes[c].entry.isDirectory then 1 else 0)
  {
    assert (cs + [c])[..|cs|] == cs;
  }

  /** Edits that keep every node's entry and parent keep every full path. */
  lemma PathsKept(a: Arena, b: Arena)
    requires Shape(a) && ParentsBelow(a) && Shape(b) && ParentsBelow(b) && |a.nodes| <= |b.nodes|
    requires forall j :: 0 <= j < |a.nodes| ==> b.nodes[j].entry == a.nodes[j].entry && b.nodes[j].parent == a.nodes[j].parent
    ensures forall i :: 0 <= i < |a.nodes| ==> PathOf(b, i) == PathOf(a, i)
  {
    forall i | 0 <= i < |a.nodes|
      ensures PathOf(b, i) == PathOf(a, i)
    {
      PathOfFrame(a, b, i);
    }
  }

  // ---------------------------------------------------------------------
  // The FileListNode constructor

  /** The arena with a new node under `parent` at the next index: no siblings, no children, no cached path. */
  function Created(a: Arena, parent: nat, e: Entry): Arena {
    Arena(a.nodes + [NewNode(Some(parent), e)], a.children + [[]])
  }

  /** b is a with one more node, new node n, under parent, in no list. */
  ghost predicate Grown(a: Arena, b: Arena, parent: nat, n: nat) {
    n == |a.nodes| == |a.children| && |b.nodes| == |b.children| == n + 1 && parent < n &&
    (forall j :: 0 <= j < n ==> b.nodes[j] == a.nodes[j] && b.children[j] == a.children[j]) &&
    b.nodes[n].parent == Some(parent) && b.nodes[n].previous.None? && b.nodes[n].next.None? &&
    b.nodes[n].firstChild.None? && b.nodes[n].lastChild.None? &&
    b.nodes[n].subfolderCount == 0 && b.nodes[n].fileCount == 0 && b.nodes[n].fullPath.None? &&
    b.children[n] == []
  }

  lemma CreatedGrown(a: Arena, parent: nat, e: Entry)
    requires Shape(a) && parent < |a.nodes|
    ensures var b, n := Created(a, parent, e), |a.nodes|;
      Grown(a, b, parent, n) && AgreeFrom(a, b, 0) && AgreeExcept(a, b, parent) && b.nodes[n].entry == e
  {
  }

  lemma GrownParents(a: Arena, b: Arena, parent: nat, n: nat)
    requires Shape(a) && RootOk(a) && ParentsBelow(a) && Grown(a, b, parent, n)
    ensures Shape(b) && RootOk(b) && ParentsBelow(b)
  {
  }

  lemma GrownInRange(a: Arena, b: Arena, parent: nat, n: nat)
    requires Shape(a) && ChildrenInRange(a) && Grown(a, b, parent, n)
    ensures Shape(b) && ChildrenInRange(b)
  {
    forall q, k | 0 <= q < |b.children| && 0 <= k < |b.children[q]|
      ensures q < b.children[q][k] < |b.nodes|
    {
      assert b.children[q] == a.children[q];
    }
  }

  lemma GrownKnowParent(a: Arena, b: Arena, parent: nat, n: nat)
    requires Shape(a) && ChildrenInRange(a) && ChildrenKnowParent(a) && Grown(a, b, parent, n)
    requires Shape(b) && ChildrenInRange(b)
    ensures ChildrenKnowParent(b)
  {
    forall q, k | 0 <= q < |b.children| && 0 <= k < |b.children[q]|
      ensures b.nodes[b.children[q][k]].parent == Some(q)
    {
      assert b.children[q] == a.children[q];
      assert a.children[q][k] < n;
    }
  }

  lemma GrownDistinct(a: Arena, b: Arena, parent: nat, n: nat)
    requires Shape(a) && ChildrenInRange(a) && ChildrenDistinct(a) && Grown(a, b, parent, n)
    ensures Shape(b) && ChildrenDistinct(b) && n !in b.children[parent]
  {
    forall q | 0 <= q < |b.children|
      ensures Distinct(b.children[q])
    {
      assert q < n ==> b.children[q] == a.children[q];
    }
    forall k | 0 <= k < |a.children[parent]|
      ensures a.children[parent][k] != n
    {
      assert a.children[parent][k] < n;
    }
  }

  lemma GrownEnds(a: Arena, b: Arena, parent: nat, n: nat)
    requires Shape(a) && EndsLinked(a) && Grown(a, b, parent, n)
    ensures Shape(b) && EndsLinked(b)
  {
    forall q | 0 <= q < |b.nodes|
      ensures b.nodes[q].firstChild == First(b.children[q]) && b.nodes[q].lastChild == Last(b.children[q])
    {
      if q < n {
        assert b.nodes[q] == a.nodes[q] && b.children[q] == a.children[q];
      }
    }
  }

  lemma GrownSiblings(a: Arena, b: Arena, parent: nat, n: nat)
    requires Shape(a) && ChildrenInRange(a) && SiblingsLinked(a) && Grown(a, b, parent, n)
    requires Shape(b) && ChildrenInRange(b)
    ensures SiblingsLinked(b)
  {
    forall q, k | 0 <= q < |b.children| && 0 <= k < |b.children[q]|
      ensures b.nodes[b.children[q][k]].previous == Before(b.children[q], k)
      ensures b.nodes[b.children[q][k]].next == After(b.children[q], k)
    {
      assert b.children[q] == a.children[q];
      assert a.children[q][k] < n;
    }
  }

  lemma GrownLinked(a: Arena, b: Arena, parent: nat, n: nat)
    requires Linked(a) && Grown(a, b, parent, n)
    ensures Linked(b) && Detached(b, parent, n)
  {
    GrownInRange(a, b, parent, n);
    GrownKnowParent(a, b, parent, n);
    GrownDistinct(a, b, parent, n);
    GrownEnds(a, b, parent, n);
    GrownSiblings(a, b, parent, n);
  }

  lemma GrownCounts(a: Arena, b: Arena, parent: nat, n: nat)
    requires Shape(a) && ChildrenInRange(a) && CountsAgree(a) && Grown(a, b, parent, n)
    requires Shape(b) && ChildrenInRange(b)
    ensures CountsAgree(b)
  {
    forall p | 0 <= p < n
      ensures CountDirs(b, b.children[p]) == CountDirs(a, a.children[p])
    {
      CountDirsFrame(a, b, a.children[p]);
    }
  }

  lemma GrownCache(a: Arena, b: Arena, parent: nat, n: nat)
    requires Shape(a) && ParentsBelow(a) && CacheAgrees(a) && Grown(a, b, parent, n)
    requires Shape(b) && ParentsBelow(b)
    ensures CacheAgrees(b)
  {
    PathsKept(a, b);
  }

  /** A new node leaves the arena well-formed and every existing tree as it was; it is in no list. */
  lemma CreatedWellFormed(a: Arena, parent: nat, e: Entry)
    requires WellFormed(a) && parent < |a.nodes|
    ensures var b := Created(a, parent, e);
      WellFormed(b) && AgreeFrom(a, b, 0) && AgreeExcept(a, b, parent) &&
      b.nodes[|a.nodes|].entry == e && Detached(b, parent, |a.nodes|)
  {
    var b, n := Created(a, parent, e), |a.nodes|;
    CreatedGrown(a, parent, e);
    GrownParents(a, b, parent, n);
    GrownLinked(a, b, parent, n);
    GrownCounts(a, b, parent, n);
    GrownCache(a, b, parent, n);
  }

  // ---------------------------------------------------------------------
  // AddChild

  /**
   * The arena after node p's AddChild(c): the counter for c's kind goes up;
   * a first child becomes both ends of the list; otherwise the old last
   * child's Next and c's Previous link the two and c becomes the last child.
   */
  function WithChild(a: Arena, p: nat, c: nat): Arena
    requires Shape(a) && p < |a.nodes| && c < |a.nodes|
    requires a.nodes[p].firstChild.Some? ==> a.nodes[p].lastChild.Some? && a.nodes[p].lastChild.value < |a.nodes|
  {
    var n := a.nodes[p];
    var counted := if a.nodes[c].entry.isDirectory then n.(subfolderCount := n.subfolderCount + 1)
      else n.(fileCount := n.fileCount + 1);
    var nodes := a.nodes[p := counted];
    var children := a.children[p := a.children[p] + [c]];
    if n.firstChild.None? then
      Arena(nodes[p := counted.(firstChild := Some(c), lastChild := Some(c))], children)
    else
      var last := n.lastChild.value;
      var linked := nodes[last := nodes[last].(next := Some(c))];
      var joined := linked[c := linked[c].(previous := Some(last))];
      Arena(joined[p := joined[p].(lastChild := Some(c))], children)
  }

  /** What AddChild may be given: a node of p's that is in no list and has no siblings yet. */
  ghost predicate Detached(a: Arena, p: nat, c: nat)
    requires Shape(a)
  {
    p < |a.nodes| && c < |a.nodes| && a.nodes[c].parent == Some(p) && c !in a.children[p] &&
    a.nodes[c].previous.None? && a.nodes[c].next.None?
  }

  /** b is a after node p's AddChild(c), field by field; cs are p's children before. */
  ghost predicate Added(a: Arena, b: Arena, p: nat, c: nat, cs: seq<nat>) {
    |b.nodes| == |a.nodes| == |a.children| == |b.children| && p < c < |a.nodes| &&
    cs == a.children[p] && c !in cs && b.children[p] == cs + [c] &&
    (forall j :: 0 <= j < |a.children| && j != p ==> b.children[j] == a.children[j]) &&
    (forall j :: 0 <= j < |a.nodes| ==>
      b.nodes[j].entry == a.nodes[j].entry && b.nodes[j].parent == a.nodes[j].parent &&
      b.nodes[j].fullPath == a.nodes[j].fullPath) &&
    (forall j :: 0 <= j < |a.nodes| && j != p ==>
      b.nodes[j].firstChild == a.nodes[j].firstChild && b.nodes[j].lastChild == a.nodes[j].lastChild &&
      b.nodes[j].subfolderCount == a.nodes[j].subfolderCount && b.nodes[j].fileCount == a.nodes[j].fileCount) &&
    (forall j :: 0 <= j < |a.nodes| && j != c && Some(j) != Last(cs) ==>
      b.nodes[j].previous == a.nodes[j].previous && b.nodes[j].next == a.nodes[j].next) &&
    b.nodes[p].firstChild == First(cs + [c]) && b.nodes[p].lastChild == Some(c) &&
    b.nodes[p].subfolderCount == a.nodes[p].subfolderCount + (if a.nodes[c].entry.isDirectory then 1 else 0) &&
    b.nodes[p].fileCount == a.nodes[p].fileCount + (if a.nodes[c].entry.isDirectory then 0 else 1) &&
    b.nodes[c].previous == Last(cs) && b.nodes[c].next.None? &&
    (cs != [] ==>
      cs[|cs| - 1] < |a.nodes| &&
      b.nodes[cs[|cs| - 1]].next == Some(c) && b.nodes[cs[|cs| - 1]].previous == a.nodes[cs[|cs| - 1]].previous)
  }

  /** Unfolding WithChild, given the links at p that a well-formed arena has. */
  lemma WithChildAdded(a: Arena, p: nat, c: nat)
    requires Shape(a) && Detached(a, p, c) && p < c
    requires a.nodes[p].firstChild == First(a.children[p]) && a.nodes[p].lastChild == Last(a.children[p])
    requires a.children[p] != [] ==> p < a.children[p][|a.children[p]| - 1] < |a.nodes|
    ensures Added(a, WithChild(a, p, c), p, c, a.children[p])
  {
    var cs := a.children[p];
    if cs != [] {
      assert cs[|cs| - 1] in cs;
    }
  }

  lemma AddedInRange(a: Arena, b: Arena, p: nat, c: nat, cs: seq<nat>)
    requires Shape(a) && ChildrenInRange(a) && Added(a, b, p, c, cs)
    ensures Shape(b) && ChildrenInRange(b)
  {
    forall q, k | 0 <= q < |b.children| && 0 <= k < |b.children[q]|
      ensures q < b.children[q][k] < |b.nodes|
    {
      if q == p && k < |cs| {
        assert b.children[q][k] == cs[k];
      }
    }
  }

  lemma AddedKnowParent(a: Arena, b: Arena, p: nat, c: nat, cs: seq<nat>)
    requires Shape(a) && ChildrenInRange(a) && ChildrenKnowParent(a) && Added(a, b, p, c, cs)
    requires a.nodes[c].parent == Some(p) && Shape(b) && ChildrenInRange(b)
    ensures ChildrenKnowParent(b)
  {
    forall q, k | 0 <= q < |b.children| && 0 <= k < |b.children[q]|
      ensures b.nodes[b.children[q][k]].parent == Some(q)
    {
      if q == p && k < |cs| {
        assert b.children[q][k] == cs[k];
      }
    }
  }

  lemma AddedDistinct(a: Arena, b: Arena, p: nat, c: nat, cs: seq<nat>)
    requires Shape(a) && ChildrenDistinct(a) && Added(a, b, p, c, cs)
    ensures Shape(b) && ChildrenDistinct(b)
  {
    assert Distinct(cs + [c]);
  }

  lemma AddedEnds(a: Arena, b: Arena, p: nat, c: nat, cs: seq<nat>)
    requires Shape(a) && EndsLinked(a) && Added(a, b, p, c, cs)
    ensures Shape(b) && EndsLinked(b)
  {
  }

  /** Outside p's list, no node's siblings change. */
  lemma AddedSiblingsElsewhere(a: Arena, b: Arena, p: nat, c: nat, cs: seq<nat>, q: nat, k: nat)
    requires Shape(a) && ChildrenInRange(a) && ChildrenKnowParent(a) && SiblingsLinked(a) && Added(a, b, p, c, cs)
    requires a.nodes[c].parent == Some(p) && q < |a.children| && q != p && k < |a.children[q]|
    ensures b.nodes[a.children[q][k]].previous == Before(a.children[q], k)
    ensures b.nodes[a.children[q][k]].next == After(a.children[q], k)
  {
    var x := a.children[q][k];
    assert a.nodes[x].parent == Some(q);
    if cs != [] {
      assert a.nodes[cs[|cs| - 1]].parent == Some(p);
    }
  }

  /** In p's list the old last child now points at c, and c back at it. */
  lemma AddedSiblingsHere(a: Arena, b: Arena, p: nat, c: nat, cs: seq<nat>, k: nat)
    requires Shape(a) && ChildrenInRange(a) && ChildrenDistinct(a) && SiblingsLinked(a) && Added(a, b, p, c, cs)
    requires k <= |cs|
    ensures b.nodes[(cs + [c])[k]].previous == Before(cs + [c], k)
    ensures b.nodes[(cs + [c])[k]].next == After(cs + [c], k)
  {
    if k + 1 < |cs| {
      assert (cs + [c])[k] == cs[k];
      assert a.nodes[cs[k]].previous == Before(cs, k);
      assert cs[k] != cs[|cs| - 1];
    } else if k + 1 == |cs| {
      assert (cs + [c])[k] == cs[k];
      assert a.nodes[cs[k]].previous == Before(cs, k);
    }
  }

  lemma AddedSiblings(a: Arena, b: Arena, p: nat, c: nat, cs: seq<nat>)
    requires Shape(a) && ChildrenInRange(a) && ChildrenKnowParent(a) && ChildrenDistinct(a) && SiblingsLinked(a)
    requires Added(a, b, p, c, cs) && a.nodes[c].parent == Some(p) && Shape(b) && ChildrenInRange(b)
    ensures SiblingsLinked(b)
  {
    forall q, k | 0 <= q < |b.children| && 0 <= k < |b.children[q]|
      ensures b.nodes[b.children[q][k]].previous == Before(b.children[q], k)
      ensures b.nodes[b.children[q][k]].next == After(b.children[q], k)
    {
      if q == p {
        AddedSiblingsHere(a, b, p, c, cs, k);
      } else {
        AddedSiblingsElsewhere(a, b, p, c, cs, q, k);
      }
    }
  }

  lemma AddedLinks(a: Arena, b: Arena, p: nat, c: nat, cs: seq<nat>)
    requires Linked(a) && Added(a, b, p, c, cs) && a.nodes[c].parent == Some(p)
    ensures Linked(b)
  {
    AddedInRange(a, b, p, c, cs);
    AddedKnowParent(a, b, p, c, cs);
    AddedDistinct(a, b, p, c, cs);
    AddedEnds(a, b, p, c, cs);
    AddedSiblings(a, b, p, c, cs);
  }

  lemma AddedCountAt(a: Arena, b: Arena, p: nat, c: nat, cs: seq<nat>, q: nat)
    requires Shape(a) && ChildrenInRange(a) && CountsAgree(a) && Added(a, b, p, c, cs)
    requires Shape(b) && ChildrenInRange(b) && q < |b.nodes|
    ensures b.nodes[q].subfolderCount == CountDirs(b, b.children[q])
    ensures b.nodes[q].fileCount == |b.children[q]| - CountDirs(b, b.children[q])
  {
    CountDirsFrame(a, b, a.children[q]);
    if q == p {
      CountDirsAppend(b, cs, c);
    }
  }

  lemma AddedCounts(a: Arena, b: Arena, p: nat, c: nat, cs: seq<nat>)
    requires Shape(a) && ChildrenInRange(a) && CountsAgree(a) && Added(a, b, p, c, cs)
    requires Shape(b) && ChildrenInRange(b)
    ensures CountsAgree(b)
  {
    forall q | 0 <= q < |b.nodes|
      ensures b.nodes[q].subfolderCount == CountDirs(b, b.children[q])
      ensures b.nodes[q].fileCount == |b.children[q]| - CountDirs(b, b.children[q])
    {
      AddedCountAt(a, b, p, c, cs, q);
    }
  }

  lemma AddedCache(a: Arena, b: Arena, p: nat, c: nat, cs: seq<nat>)
    requires Shape(a) && RootOk(a) && ParentsBelow(a) && CacheAgrees(a) && Added(a, b, p, c, cs)
    ensures Shape(b) && RootOk(b) && ParentsBelow(b) && CacheAgrees(b)
  {
    assert ParentsBelow(b);
    PathsKept(a, b);
  }

  /** AddChild keeps the arena well-formed and puts c last among p's children. */
  lemma WithChildWellFormed(a: Arena, p: nat, c: nat)
    requires WellFormed(a) && Detached(a, p, c)
    ensures var b := WithChild(a, p, c);
      WellFormed(b) && b.children[p] == a.children[p] + [c] &&
      AgreeFrom(a, b, p + 1) && AgreeExcept(a, b, p)
  {
    var b, cs := WithChild(a, p, c), a.children[p];
    assert p < c;
    if cs != [] {
      assert p < cs[|cs| - 1] < |a.nodes|;
    }
    WithChildAdded(a, p, c);
    AddedLinks(a, b, p, c, cs);
    AddedCounts(a, b, p, c, cs);
    AddedCache(a, b, p, c, cs);
  }

  /** A list that gains c at its end, the nodes from p + 1 on unchanged, gains c's tree at its end. */
  lemma AppendedTree(a: Arena, b: Arena, p: nat, c: nat)
    requires IndexTree(a) && IndexTree(b) && AgreeFrom(a, b, p + 1) && p < c < |a.nodes|
    requires b.children[p] == a.children[p] + [c] && b.nodes[p].entry == a.nodes[p].entry
    ensures AbsNode(b, p) == Item(a.nodes[p].entry, AbsNode(a, p).children + [AbsNode(a, c)])
  {
    var cs := a.children[p];
    assert (cs + [c])[..|cs|] == cs;
    AbsListFrame(a, b, p + 1, cs, p);
    AbsNodeFrame(a, b, p + 1, c);
  }

  /** After AddChild, the tree below p ends with c's tree. */
  lemma WithChildTree(a: Arena, p: nat, c: nat)
    requires WellFormed(a) && Detached(a, p, c)
    ensures var b := WithChild(a, p, c);
      WellFormed(b) && AbsNode(b, p) == Item(a.nodes[p].entry, AbsNode(a, p).children + [AbsNode(a, c)])
  {
    WithChildWellFormed(a, p, c);
    assert p < c;
    AppendedTree(a, WithChild(a, p, c), p, c);
  }

  /** b is a with a new node c added last under p, made from entry e; p's older children keep their trees. */
  ghost predicate Extended(a: Arena, b: Arena, p: nat, c: nat, e: Entry) {
    IndexTree(a) && IndexTree(b) && c == |a.nodes| && |b.nodes| == c + 1 && p < c &&
    b.children[p] == a.children[p] + [c] && AgreeExcept(a, b, p) &&
    b.nodes[c].parent == Some(p) && b.nodes[c].entry == e &&
    AbsList(b, a.children[p], p) == AbsList(a, a.children[p], p)
  }

  /** The FileListNode constructor and then AddChild keep the arena well-formed. */
  lemma NewChildWellFormed(a: Arena, p: nat, e: Entry)
    requires WellFormed(a) && p < |a.nodes|
    ensures var c := |a.nodes|;
      var a1 := Created(a, p, e);
      var a2 := WithChild(a1, p, c);
      WellFormed(a2) && IndexTree(a1) && |a1.nodes| == |a2.nodes| == c + 1 && AgreeFrom(a, a1, 0) && AgreeExcept(a, a1, p) &&
      a1.nodes[c].entry == e && AgreeFrom(a1, a2, p + 1) && AgreeExcept(a1, a2, p) &&
      a2.children[p] == a1.children[p] + [c] && a1.children[p] == a.children[p]
  {
    var c := |a.nodes|;
    CreatedWellFormed(a, p, e);
    WithChildWellFormed(Created(a, p, e), p, c);
  }

  lemma ExtendedFrom(a: Arena, a1: Arena, a2: Arena, p: nat, c: nat, e: Entry)
    requires IndexTree(a) && IndexTree(a1) && Tree(a2) && c == |a.nodes| && |a1.nodes| == |a2.nodes| == c + 1 && p < c
    requires AgreeFrom(a, a1, 0) && AgreeExcept(a, a1, p) && a1.nodes[c].entry == e
    requires AgreeFrom(a1, a2, p + 1) && AgreeExcept(a1, a2, p)
    requires a2.children[p] == a1.children[p] + [c] && a1.children[p] == a.children[p]
    ensures Extended(a, a2, p, c, e)
  {
    var cs := a.children[p];
    assert a2.children[p][|cs|] == c;
    AbsListFrame(a, a1, 0, cs, p);
    AbsListFrame(a1, a2, p + 1, cs, p);
  }

  /** The FileListNode constructor and then AddChild on a well-formed arena. */
  lemma NewChildArena(a: Arena, p: nat, e: Entry)
    requires WellFormed(a) && p < |a.nodes|
    ensures var b := WithChild(Created(a, p, e), p, |a.nodes|);
      WellFormed(b) && Extended(a, b, p, |a.nodes|, e)
  {
    var c := |a.nodes|;
    NewChildWellFormed(a, p, e);
    ExtendedFrom(a, Created(a, p, e), WithChild(Created(a, p, e), p, c), p, c, e);
  }

  /** Chained agreement: edits below p, then edits below c, where c is new to a. */
  lemma AgreeExceptChain(a0: Arena, a: Arena, b: Arena, d: Arena, p: nat, c: nat)
    requires AgreeExcept(a0, a, p) && AgreeExcept(a, b, p) && AgreeExcept(b, d, c)
    requires |a0.nodes| <= |a.nodes| <= c && |a0.children| <= |a.children|
    ensures AgreeExcept(a0, d, p)
  {
  }

  /**
   * A new node c made under p and added to p, then edits to c's children
   * only: the tree below p gains c's tree at its end, and nothing below
   * a0's other nodes changes.
   */
  lemma ExtendedStep(a0: Arena, a: Arena, b: Arena, p: nat, c: nat, e: Entry, d: Arena)
    requires Tree(b) && Extended(a, b, p, c, e) && AgreeExcept(a0, a, p) && |a0.nodes| <= |a.nodes|
    requires |a0.children| <= |a.children| && IndexTree(d) && AgreeExcept(b, d, c)
    ensures AbsNode(d, p).children == AbsNode(a, p).children + [AbsNode(d, c)]
    ensures AgreeExcept(a0, d, p) && d.nodes[c].entry == e
  {
    var cs := a.children[p];
    assert d.children[p] == cs + [c];
    assert (cs + [c])[..|cs|] == cs;
    forall k | 0 <= k < |cs|
      ensures !AtOrUnder(b, c, cs[k])
    {
      assert b.children[p][k] == cs[k];
      SiblingsApart(b, p, c, cs[k]);
    }
    AbsListFrameExcept(b, d, c, cs, p);
    AgreeExceptChain(a0, a, b, d, p, c);
  }

  lemma NewChildStep(a0: Arena, a: Arena, p: nat, e: Entry, d: Arena)
    requires WellFormed(a) && p < |a.nodes| && AgreeExcept(a0, a, p) && |a0.nodes| <= |a.nodes|
    requires IndexTree(d)
    requires AgreeExcept(WithChild(Created(a, p, e), p, |a.nodes|), d, |a.nodes|)
    ensures AbsNode(d, p).children == AbsNode(a, p).children + [AbsNode(d, |a.nodes|)]
    ensures AgreeExcept(a0, d, p) && d.nodes[|a.nodes|].entry == e
  {
    NewChildArena(a, p, e);
    ExtendedStep(a0, a, WithChild(Created(a, p, e), p, |a.nodes|), p, |a.nodes|, e, d);
  }

  // ---------------------------------------------------------------------
  // The full-path cache

  function WithCache(a: Arena, i: nat, path: string): Arena
    requires i < |a.nodes|
  {
    Arena(a.nodes[i := a.nodes[i].(fullPath := Some(path))], a.children)
  }

  /** b differs from a in cached paths only. */
  ghost predicate SameLinks(a: Arena, b: Arena) {
    |a.nodes| == |b.nodes| && a.children == b.children &&
    forall j :: 0 <= j < |a.nodes| ==>
      b.nodes[j].entry == a.nodes[j].entry && b.nodes[j].parent == a.nodes[j].parent &&
      b.nodes[j].previous == a.nodes[j].previous && b.nodes[j].next == a.nodes[j].next &&
      b.nodes[j].firstChild == a.nodes[j].firstChild && b.nodes[j].lastChild == a.nodes[j].lastChild &&
      b.nodes[j].subfolderCount == a.nodes[j].subfolderCount && b.nodes[j].fileCount == a.nodes[j].fileCount
  }

  lemma SameLinksShape(a: Arena, b: Arena)
    requires Shape(a) && RootOk(a) && ParentsBelow(a) && ChildrenInRange(a) && SameLinks(a, b)
    ensures Shape(b) && RootOk(b) && ParentsBelow(b) && ChildrenInRange(b)
  {
  }

  lemma SameLinksKnowParent(a: Arena, b: Arena)
    requires Shape(a) && ChildrenInRange(a) && ChildrenKnowParent(a) && SameLinks(a, b)
    requires Shape(b) && ChildrenInRange(b)
    ensures ChildrenKnowParent(b)
  {
  }

  lemma SameLinksEnds(a: Arena, b: Arena)
    requires Shape(a) && ChildrenDistinct(a) && EndsLinked(a) && SameLinks(a, b)
    ensures Shape(b) && ChildrenDistinct(b) && EndsLinked(b)
  {
  }

  lemma SameLinksSiblings(a: Arena, b: Arena)
    requires Shape(a) && ChildrenInRange(a) && SiblingsLinked(a) && SameLinks(a, b)
    requires Shape(b) && ChildrenInRange(b)
    ensures SiblingsLinked(b)
  {
  }

  lemma SameLinksCounts(a: Arena, b: Arena)
    requires Shape(a) && ChildrenInRange(a) && CountsAgree(a) && SameLinks(a, b)
    requires Shape(b) && ChildrenInRange(b)
    ensures CountsAgree(b)
  {
    forall p | 0 <= p < |b.nodes|
      ensures CountDirs(b, b.children[p]) == CountDirs(a, a.children[p])
    {
      CountDirsFrame(a, b, a.children[p]);
    }
  }

  lemma SameLinksKept(a: Arena, b: Arena)
    requires Linked(a) && RootOk(a) && ParentsBelow(a) && CountsAgree(a) && SameLinks(a, b)
    ensures Linked(b) && RootOk(b) && ParentsBelow(b) && CountsAgree(b)
  {
    SameLinksShape(a, b);
    SameLinksKnowParent(a, b);
    SameLinksEnds(a, b);
    SameLinksSiblings(a, b);
    SameLinksCounts(a, b);
  }

  lemma CachedSame(a: Arena, i: nat, path: string)
    requires i < |a.nodes|
    ensures var b := WithCache(a, i, path);
      SameLinks(a, b) && b.nodes[i].fullPath == Some(path) &&
      forall j :: 0 <= j < |a.nodes| && j != i ==> b.nodes[j].fullPath == a.nodes[j].fullPath
  {
  }

  /** Caching a node's own full path keeps the arena well-formed. */
  lemma CacheWellFormed(a: Arena, i: nat, path: string)
    requires WellFormed(a) && i < |a.nodes| && path == PathOf(a, i)
    ensures WellFormed(WithCache(a, i, path))
  {
    var b := WithCache(a, i, path);
    CachedSame(a, i, path);
    SameLinksKept(a, b);
    CachedAgrees(a, b, i);
  }

  lemma CachedAgrees(a: Arena, b: Arena, i: nat)
    requires Shape(a) && ParentsBelow(a) && CacheAgrees(a) && SameLinks(a, b) && Shape(b) && ParentsBelow(b)
    requires i < |a.nodes| && b.nodes[i].fullPath == Some(PathOf(a, i))
    requires forall j :: 0 <= j < |a.nodes| && j != i ==> b.nodes[j].fullPath == a.nodes[j].fullPath
    ensures CacheAgrees(b)
  {
    PathsKept(a, b);
  }
}

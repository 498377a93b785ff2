// What FileList.CompareTo reports when it compares two trees.
//
// RecursiveCompareTo walks the children of a left node, then the children
// of a right node. The first pass looks every left child up on the right
// by name (FindChild: case-sensitive, first match) and reports the ones
// missing there; matched directories are compared recursively, matched
// files by their attributes. The second pass looks every right child up on
// the left and reports the ones missing there; matched pairs are compared
// again, unless the right child is the one remembered in the `check` set.
// That set is cleared at the start of every step of the first pass, so
// after it the set holds at most the match of the LAST left child.
//
// Records name nodes by their index: the left one in the left tree's
// arena, the right one in the right tree's arena.

module Differences {
  import opened Wrappers
  import opened FileTree

  // ---------------------------------------------------------------------
  // FileListDifferences and FileListDifference

  type Flags = bv8

  const NONE: Flags := 0
  const LEFT_MISSING: Flags := 1
  const RIGHT_MISSING: Flags := 2
  const IS_DIRECTORY_MISMATCH: Flags := 4
  const LENGTH_MISMATCH: Flags := 8
  const CREATION_TIME_MISMATCH: Flags := 16
  const LAST_WRITE_TIME_MISMATCH: Flags := 32

  /** One reported difference: the left node, the right node (either may be absent) and the flags. */
  datatype Difference = Difference(left: Option<nat>, right: Option<nat>, difference: Flags)

  /** The attributes CompareDifferences looks at (not the name) agree. */
  predicate SameAttributes(x: Entry, y: Entry) {
    x.isDirectory == y.isDirectory && x.length == y.length &&
    x.creationTicks == y.creationTicks && x.lastWriteTicks == y.lastWriteTicks
  }

  /** The flags CompareDifferences sets: one bit per attribute that differs. */
  function Mismatches(x: Entry, y: Entry): (f: Flags)
    ensures (f & IS_DIRECTORY_MISMATCH != 0) <==> x.isDirectory != y.isDirectory
    ensures (f & LENGTH_MISMATCH != 0) <==> x.length != y.length
    ensures (f & CREATION_TIME_MISMATCH != 0) <==> x.creationTicks != y.creationTicks
    ensures (f & LAST_WRITE_TIME_MISMATCH != 0) <==> x.lastWriteTicks != y.lastWriteTicks
    ensures f & (LEFT_MISSING | RIGHT_MISSING) == 0 && f < 64
    ensures f == NONE <==> SameAttributes(x, y)
  {
    (if x.isDirectory != y.isDirectory then IS_DIRECTORY_MISMATCH else NONE) |
    (if x.length != y.length then LENGTH_MISMATCH else NONE) |
    (if x.creationTicks != y.creationTicks then CREATION_TIME_MISMATCH else NONE) |
    (if x.lastWriteTicks != y.lastWriteTicks then LAST_WRITE_TIME_MISMATCH else NONE)
  }

  /** The difference between nodes left and right, and whether there is none. */
  function CompareDifferences(left: nat, right: nat, x: Entry, y: Entry): (r: (bool, Difference))
    ensures r.1.left == Some(left) && r.1.right == Some(right)
    ensures r.0 <==> r.1.difference == NONE
    ensures r.0 <==> SameAttributes(x, y)
  {
    var d := Difference(Some(left), Some(right), Mismatches(x, y));
    (d.difference == NONE, d)
  }

  /** What a comparison adds to the list: its difference, unless there is none. */
  function Reported(c: (bool, Difference)): seq<Difference> {
    if c.0 then [] else [c.1]
  }

  // ---------------------------------------------------------------------
  // RecursiveCompareTo

  function NameOf(a: Arena, i: nat): string
    requires i < |a.nodes|
  {
    a.nodes[i].entry.name
  }

  /** The differences below left node l and right node r. */
  function Diff(a: Arena, b: Arena, l: nat, r: nat): seq<Difference>
    requires IndexTree(a) && IndexTree(b) && l < |a.nodes| && r < |b.nodes|
    decreases |a.nodes| - l, 3
  {
    LeftPass(a, b, l, r, |a.children[l]|) + RightPass(a, b, l, r, |b.children[r]|)
  }

  /** The first loop over the first n left children. */
  function LeftPass(a: Arena, b: Arena, l: nat, r: nat, n: nat): seq<Difference>
    requires IndexTree(a) && IndexTree(b) && l < |a.nodes| && r < |b.nodes|
    requires n <= |a.children[l]|
    decreases |a.nodes| - l, 2, n
  {
    if n == 0 then []
    else LeftPass(a, b, l, r, n - 1) + LeftStep(a, b, l, r, a.children[l][n - 1])
  }

  /** One step of the first loop, for left child x. */
  function LeftStep(a: Arena, b: Arena, l: nat, r: nat, x: nat): seq<Difference>
    requires IndexTree(a) && IndexTree(b) && l < x < |a.nodes| && r < |b.nodes|
    decreases |a.nodes| - l, 0
  {
    match FindFirst(b, b.children[r], NameOf(a, x), false)
    case None => [Difference(Some(x), None, RIGHT_MISSING)]
    case Some(y) =>
      if a.nodes[x].entry.isDirectory then Diff(a, b, x, y)
      else Reported(CompareDifferences(x, y, a.nodes[x].entry, b.nodes[y].entry))
  }

  /** The `check` set after the first loop: the match of the last left child, if it has one. */
  function Skip(a: Arena, b: Arena, l: nat, r: nat): Option<nat>
    requires IndexTree(a) && IndexTree(b) && l < |a.nodes| && r < |b.nodes|
  {
    var cs := a.children[l];
    if cs == [] then None else FindFirst(b, b.children[r], NameOf(a, cs[|cs| - 1]), false)
  }

  /** The second loop over the first n right children. */
  function RightPass(a: Arena, b: Arena, l: nat, r: nat, n: nat): seq<Difference>
    requires IndexTree(a) && IndexTree(b) && l < |a.nodes| && r < |b.nodes|
    requires n <= |b.children[r]|
    decreases |a.nodes| - l, 2, n
  {
    if n == 0 then []
    else RightPass(a, b, l, r, n - 1) + RightStep(a, b, l, r, b.children[r][n - 1])
  }

  /** One step of the second loop, for right child y; here it is y that decides whether to recurse. */
  function RightStep(a: Arena, b: Arena, l: nat, r: nat, y: nat): seq<Difference>
    requires IndexTree(a) && IndexTree(b) && l < |a.nodes| && r < |b.nodes| && y < |b.nodes|
    decreases |a.nodes| - l, 1
  {
    if Skip(a, b, l, r) == Some(y) then []
    else
      match FindFirst(a, a.children[l], NameOf(b, y), false)
      case None => [Difference(None, Some(y), LEFT_MISSING)]
      case Some(x) =>
        if b.nodes[y].entry.isDirectory then Diff(a, b, x, y)
        else Reported(CompareDifferences(x, y, a.nodes[x].entry, b.nodes[y].entry))
  }

  /** CompareTo: the differences between the two roots. */
  function CompareTrees(a: Arena, b: Arena): seq<Difference>
    requires IndexTree(a) && IndexTree(b)
  {
    Diff(a, b, ROOT, ROOT)
  }

  // ---------------------------------------------------------------------
  // Where the records point

  /** cs[k] appears in cs at position k only. */
  ghost predicate OccursOnce(cs: seq<nat>, k: nat)
    requires k < |cs|
  {
    forall j :: 0 <= j < |cs| && j != k ==> cs[j] != cs[k]
  }

  lemma DistinctOnce(a: Arena, p: nat, k: nat)
    requires Shape(a) && ChildrenDistinct(a) && p < |a.children| && k < |a.children[p]|
    ensures OccursOnce(a.children[p], k)
  {
  }

  /** o is absent, or a node of top's subtree (top present). */
  ghost predicate Inside(a: Arena, o: Option<nat>, top: Option<nat>)
    requires Shape(a) && ParentsBelow(a)
  {
    o.None? || (top.Some? && o.value < |a.nodes| && AtOrUnder(a, o.value, top.value))
  }

  /** o is absent, or a node strictly below l. */
  ghost predicate InsideBelow(a: Arena, o: Option<nat>, l: nat)
    requires Shape(a) && ParentsBelow(a)
  {
    o.None? || (o.value < |a.nodes| && Below(a, o.value, l))
  }

  /** Every record names nodes strictly below l on the left and strictly below r on the right. */
  ghost predicate AllBelowPair(a: Arena, b: Arena, ds: seq<Difference>, l: nat, r: nat)
    requires Tree(a) && Tree(b)
  {
    forall k :: 0 <= k < |ds| ==> InsideBelow(a, ds[k].left, l) && InsideBelow(b, ds[k].right, r)
  }

  /** Every record names nodes of lt's subtree on the left and of rt's on the right. */
  ghost predicate AllInside(a: Arena, b: Arena, ds: seq<Difference>, lt: Option<nat>, rt: Option<nat>)
    requires Tree(a) && Tree(b)
  {
    forall k :: 0 <= k < |ds| ==> Inside(a, ds[k].left, lt) && Inside(b, ds[k].right, rt)
  }

  lemma AllBelowPairConcat(a: Arena, b: Arena, ds: seq<Difference>, es: seq<Difference>, l: nat, r: nat)
    requires Tree(a) && Tree(b) && AllBelowPair(a, b, ds, l, r) && AllBelowPair(a, b, es, l, r)
    ensures AllBelowPair(a, b, ds + es, l, r)
  {
    forall k | 0 <= k < |ds + es|
      ensures InsideBelow(a, (ds + es)[k].left, l) && InsideBelow(b, (ds + es)[k].right, r)
    {
      if k >= |ds| {
        assert (ds + es)[k] == es[k - |ds|];
      }
    }
  }

  /** Records inside the subtrees of a child of l and a child of r lie below l and r. */
  lemma InsideChildren(a: Arena, b: Arena, ds: seq<Difference>, l: nat, r: nat, c: nat, m: Option<nat>)
    requires Tree(a) && Tree(b) && c < |a.nodes| && a.nodes[c].parent == Some(l)
    requires m.Some? ==> m.value < |b.nodes| && b.nodes[m.value].parent == Some(r)
    requires AllInside(a, b, ds, Some(c), m)
    ensures AllBelowPair(a, b, ds, l, r)
  {
    forall k | 0 <= k < |ds|
      ensures InsideBelow(a, ds[k].left, l) && InsideBelow(b, ds[k].right, r)
    {
      if ds[k].left.Some? {
        UnderChild(a, ds[k].left.value, c, l);
      }
      if ds[k].right.Some? {
        UnderChild(b, ds[k].right.value, m.value, r);
      }
    }
  }

  /** The child found by FindFirst among the children of p has p as its parent. */
  lemma FoundChild(a: Arena, p: nat, name: string, ignoreCase: bool)
    requires Tree(a) && p < |a.nodes|
    ensures var m := FindFirst(a, a.children[p], name, ignoreCase);
      m.Some? ==> m.value < |a.nodes| && a.nodes[m.value].parent == Some(p)
  {
  }

  /** Every difference below l and r names nodes strictly inside their subtrees. */
  lemma {:induction false} DiffBelow(a: Arena, b: Arena, l: nat, r: nat)
    requires Tree(a) && Tree(b) && l < |a.nodes| && r < |b.nodes|
    ensures AllBelowPair(a, b, Diff(a, b, l, r), l, r)
    decreases |a.nodes| - l, 3
  {
    LeftPassBelow(a, b, l, r, |a.children[l]|);
    RightPassBelow(a, b, l, r, |b.children[r]|);
    AllBelowPairConcat(a, b, LeftPass(a, b, l, r, |a.children[l]|), RightPass(a, b, l, r, |b.children[r]|), l, r);
  }

  lemma {:induction false} LeftPassBelow(a: Arena, b: Arena, l: nat, r: nat, n: nat)
    requires Tree(a) && Tree(b) && l < |a.nodes| && r < |b.nodes| && n <= |a.children[l]|
    ensures AllBelowPair(a, b, LeftPass(a, b, l, r, n), l, r)
    decreases |a.nodes| - l, 2, n
  {
    if n > 0 {
      var x := a.children[l][n - 1];
      LeftPassBelow(a, b, l, r, n - 1);
      LeftStepInside(a, b, l, r, x);
      FoundChild(b, r, NameOf(a, x), false);
      InsideChildren(a, b, LeftStep(a, b, l, r, x), l, r, x, FindFirst(b, b.children[r], NameOf(a, x), false));
      AllBelowPairConcat(a, b, LeftPass(a, b, l, r, n - 1), LeftStep(a, b, l, r, x), l, r);
    }
  }

  lemma {:induction false} RightPassBelow(a: Arena, b: Arena, l: nat, r: nat, n: nat)
    requires Tree(a) && Tree(b) && l < |a.nodes| && r < |b.nodes| && n <= |b.children[r]|
    ensures AllBelowPair(a, b, RightPass(a, b, l, r, n), l, r)
    decreases |a.nodes| - l, 2, n
  {
    if n > 0 {
      var y := b.children[r][n - 1];
      RightPassBelow(a, b, l, r, n - 1);
      var ds := RightStep(a, b, l, r, y);
      var m := FindFirst(a, a.children[l], NameOf(b, y), false);
      RightStepInside(a, b, l, r, y);
      FoundChild(a, l, NameOf(b, y), false);
      forall k | 0 <= k < |ds|
        ensures InsideBelow(a, ds[k].left, l) && InsideBelow(b, ds[k].right, r)
      {
        if ds[k].left.Some? {
          UnderChild(a, ds[k].left.value, m.value, l);
        }
        if ds[k].right.Some? {
          UnderChild(b, ds[k].right.value, y, r);
        }
      }
      AllBelowPairConcat(a, b, RightPass(a, b, l, r, n - 1), ds, l, r);
    }
  }

  /** A step of the first loop names x's subtree on the left and its match's on the right. */
  lemma {:induction false} LeftStepInside(a: Arena, b: Arena, l: nat, r: nat, x: nat)
    requires Tree(a) && Tree(b) && l < x < |a.nodes| && r < |b.nodes|
    ensures AllInside(a, b, LeftStep(a, b, l, r, x), Some(x), FindFirst(b, b.children[r], NameOf(a, x), false))
    decreases |a.nodes| - l, 0
  {
    match FindFirst(b, b.children[r], NameOf(a, x), false)
    case None =>
    case Some(y) =>
      if a.nodes[x].entry.isDirectory {
        DiffBelow(a, b, x, y);
      }
  }

  /** A step of the second loop names its match's subtree on the left and y's on the right. */
  lemma {:induction false} RightStepInside(a: Arena, b: Arena, l: nat, r: nat, y: nat)
    requires Tree(a) && Tree(b) && l < |a.nodes| && r < |b.nodes| && y < |b.nodes|
    ensures AllInside(a, b, RightStep(a, b, l, r, y), FindFirst(a, a.children[l], NameOf(b, y), false), Some(y))
    decreases |a.nodes| - l, 1
  {
    if Skip(a, b, l, r) != Some(y) {
      match FindFirst(a, a.children[l], NameOf(b, y), false)
      case None =>
      case Some(x) =>
        if b.nodes[y].entry.isDirectory {
          DiffBelow(a, b, x, y);
        }
    }
  }

  // ---------------------------------------------------------------------
  // The records about given nodes

  /** The records whose left node is x (when x is given) and whose right node is y (when y is given). */
  predicate About(d: Difference, x: Option<nat>, y: Option<nat>) {
    (x.None? || d.left == x) && (y.None? || d.right == y)
  }

  function Mentioning(ds: seq<Difference>, x: Option<nat>, y: Option<nat>): seq<Difference> {
    MentioningUpTo(ds, x, y, |ds|)
  }

  /** The records among the first n of ds that are about x and y, in order. */
  function MentioningUpTo(ds: seq<Difference>, x: Option<nat>, y: Option<nat>, n: nat): seq<Difference>
    requires n <= |ds|
  {
    if n == 0 then []
    else MentioningUpTo(ds, x, y, n - 1) + (if About(ds[n - 1], x, y) then [ds[n - 1]] else [])
  }

  lemma {:induction false} MentioningPrefix(ds: seq<Difference>, es: seq<Difference>, x: Option<nat>, y: Option<nat>, n: nat)
    requires n <= |ds|
    ensures MentioningUpTo(ds + es, x, y, n) == MentioningUpTo(ds, x, y, n)
  {
    if n > 0 {
      MentioningPrefix(ds, es, x, y, n - 1);
      assert (ds + es)[n - 1] == ds[n - 1];
    }
  }

  lemma {:induction false} MentioningSuffix(ds: seq<Difference>, es: seq<Difference>, x: Option<nat>, y: Option<nat>, n: nat)
    requires n <= |es|
    ensures MentioningUpTo(ds + es, x, y, |ds| + n) == Mentioning(ds, x, y) + MentioningUpTo(es, x, y, n)
  {
    if n == 0 {
      MentioningPrefix(ds, es, x, y, |ds|);
    } else {
      MentioningSuffix(ds, es, x, y, n - 1);
      assert (ds + es)[|ds| + n - 1] == es[n - 1];
    }
  }

  lemma MentioningConcat(ds: seq<Difference>, es: seq<Difference>, x: Option<nat>, y: Option<nat>)
    ensures Mentioning(ds + es, x, y) == Mentioning(ds, x, y) + Mentioning(es, x, y)
  {
    MentioningSuffix(ds, es, x, y, |es|);
  }

  lemma {:induction false} MentioningNoneUpTo(ds: seq<Difference>, x: Option<nat>, y: Option<nat>, n: nat)
    requires n <= |ds| && forall k :: 0 <= k < |ds| ==> !About(ds[k], x, y)
    ensures MentioningUpTo(ds, x, y, n) == []
  {
    if n > 0 {
      MentioningNoneUpTo(ds, x, y, n - 1);
    }
  }

  lemma MentioningNone(ds: seq<Difference>, x: Option<nat>, y: Option<nat>)
    requires forall k :: 0 <= k < |ds| ==> !About(ds[k], x, y)
    ensures Mentioning(ds, x, y) == []
  {
    MentioningNoneUpTo(ds, x, y, |ds|);
  }

  lemma MentioningAll(ds: seq<Difference>, x: Option<nat>, y: Option<nat>)
    requires |ds| <= 1 && forall k :: 0 <= k < |ds| ==> About(ds[k], x, y)
    ensures Mentioning(ds, x, y) == ds
  {
    if ds != [] {
      assert MentioningUpTo(ds, x, y, 0) == [];
    }
  }

  /** No record below x names x itself. */
  lemma DiffNotAboutTop(a: Arena, b: Arena, x: nat, y: nat, ox: Option<nat>, oy: Option<nat>)
    requires Tree(a) && Tree(b) && x < |a.nodes| && y < |b.nodes|
    requires ox == Some(x) || oy == Some(y)
    ensures Mentioning(Diff(a, b, x, y), ox, oy) == []
  {
    var ds := Diff(a, b, x, y);
    DiffBelow(a, b, x, y);
    NotBelowSelf(a, x);
    NotBelowSelf(b, y);
    MentioningNone(ds, ox, oy);
  }

  /** Of the first loop, only the step for left child cs[k0] can produce records naming cs[k0] on the left. */
  lemma {:induction false} LeftPassAbout(a: Arena, b: Arena, l: nat, r: nat, n: nat, k0: nat, y: Option<nat>)
    requires Tree(a) && Tree(b) && l < |a.nodes| && r < |b.nodes| && k0 < n <= |a.children[l]|
    requires OccursOnce(a.children[l], k0)
    ensures var x := a.children[l][k0];
      Mentioning(LeftPass(a, b, l, r, n), Some(x), y) == Mentioning(LeftStep(a, b, l, r, x), Some(x), y)
    decreases n
  {
    var cs := a.children[l];
    var x, c := cs[k0], cs[n - 1];
    var before, step := LeftPass(a, b, l, r, n - 1), LeftStep(a, b, l, r, c);
    assert LeftPass(a, b, l, r, n) == before + step;
    MentioningConcat(before, step, Some(x), y);
    if n - 1 == k0 {
      LeftPassNotAbout(a, b, l, r, n - 1, x, y);
    } else {
      LeftPassAbout(a, b, l, r, n - 1, k0, y);
      LeftStepNotAbout(a, b, l, r, c, x, y);
    }
  }

  /** Steps of the first loop for children other than x name no node of x's subtree. */
  lemma {:induction false} LeftPassNotAbout(a: Arena, b: Arena, l: nat, r: nat, n: nat, x: nat, y: Option<nat>)
    requires Tree(a) && Tree(b) && l < |a.nodes| && r < |b.nodes| && n <= |a.children[l]|
    requires x < |a.nodes| && a.nodes[x].parent == Some(l)
    requires forall j :: 0 <= j < n ==> a.children[l][j] != x
    ensures Mentioning(LeftPass(a, b, l, r, n), Some(x), y) == []
    decreases n
  {
    if n > 0 {
      var c := a.children[l][n - 1];
      var before, step := LeftPass(a, b, l, r, n - 1), LeftStep(a, b, l, r, c);
      assert LeftPass(a, b, l, r, n) == before + step;
      MentioningConcat(before, step, Some(x), y);
      LeftPassNotAbout(a, b, l, r, n - 1, x, y);
      LeftStepNotAbout(a, b, l, r, c, x, y);
    }
  }

  /** A step of the first loop for a sibling c of x names no node of x's subtree. */
  lemma LeftStepNotAbout(a: Arena, b: Arena, l: nat, r: nat, c: nat, x: nat, y: Option<nat>)
    requires Tree(a) && Tree(b) && l < c < |a.nodes| && r < |b.nodes| && x < |a.nodes|
    requires a.nodes[x].parent == Some(l) && a.nodes[c].parent == Some(l) && x != c
    ensures Mentioning(LeftStep(a, b, l, r, c), Some(x), y) == []
  {
    LeftStepInside(a, b, l, r, c);
    SiblingsApart(a, l, x, c);
    MentioningNone(LeftStep(a, b, l, r, c), Some(x), y);
  }

  /** Of the second loop, only the step for right child ys[k0] can produce records naming it on the right. */
  lemma {:induction false} RightPassAbout(a: Arena, b: Arena, l: nat, r: nat, n: nat, k0: nat, x: Option<nat>)
    requires Tree(a) && Tree(b) && l < |a.nodes| && r < |b.nodes| && k0 < n <= |b.children[r]|
    requires OccursOnce(b.children[r], k0)
    ensures var y := b.children[r][k0];
      Mentioning(RightPass(a, b, l, r, n), x, Some(y)) == Mentioning(RightStep(a, b, l, r, y), x, Some(y))
    decreases n
  {
    var ys := b.children[r];
    var y, c := ys[k0], ys[n - 1];
    var before, step := RightPass(a, b, l, r, n - 1), RightStep(a, b, l, r, c);
    assert RightPass(a, b, l, r, n) == before + step;
    MentioningConcat(before, step, x, Some(y));
    if n - 1 == k0 {
      RightPassNotAbout(a, b, l, r, n - 1, x, y);
    } else {
      RightPassAbout(a, b, l, r, n - 1, k0, x);
      RightStepNotAbout(a, b, l, r, c, x, y);
    }
  }

  /** Steps of the second loop for children other than y name no node of y's subtree. */
  lemma {:induction false} RightPassNotAbout(a: Arena, b: Arena, l: nat, r: nat, n: nat, x: Option<nat>, y: nat)
    requires Tree(a) && Tree(b) && l < |a.nodes| && r < |b.nodes| && n <= |b.children[r]|
    requires y < |b.nodes| && b.nodes[y].parent == Some(r)
    requires forall j :: 0 <= j < n ==> b.children[r][j] != y
    ensures Mentioning(RightPass(a, b, l, r, n), x, Some(y)) == []
    decreases n
  {
    if n > 0 {
      var c := b.children[r][n - 1];
      var before, step := RightPass(a, b, l, r, n - 1), RightStep(a, b, l, r, c);
      assert RightPass(a, b, l, r, n) == before + step;
      MentioningConcat(before, step, x, Some(y));
      RightPassNotAbout(a, b, l, r, n - 1, x, y);
      RightStepNotAbout(a, b, l, r, c, x, y);
    }
  }

  /** A step of the second loop for a sibling c of y names no node of y's subtree. */
  lemma RightStepNotAbout(a: Arena, b: Arena, l: nat, r: nat, c: nat, x: Option<nat>, y: nat)
    requires Tree(a) && Tree(b) && l < |a.nodes| && r < c < |b.nodes| && y < |b.nodes|
    requires b.nodes[y].parent == Some(r) && b.nodes[c].parent == Some(r) && y != c
    ensures Mentioning(RightStep(a, b, l, r, c), x, Some(y)) == []
  {
    RightStepInside(a, b, l, r, c);
    SiblingsApart(b, r, y, c);
    MentioningNone(RightStep(a, b, l, r, c), x, Some(y));
  }

  /** A left child x that no right child's name leads to is named by no record of the second loop. */
  lemma {:induction false} RightPassNotAboutLeft(a: Arena, b: Arena, l: nat, r: nat, n: nat, x: nat)
    requires Tree(a) && Tree(b) && l < |a.nodes| && r < |b.nodes| && n <= |b.children[r]|
    requires x < |a.nodes| && a.nodes[x].parent == Some(l)
    requires forall j :: 0 <= j < n ==> FindFirst(a, a.children[l], NameOf(b, b.children[r][j]), false) != Some(x)
    ensures Mentioning(RightPass(a, b, l, r, n), Some(x), None) == []
    decreases n
  {
    if n > 0 {
      var y := b.children[r][n - 1];
      var before, step := RightPass(a, b, l, r, n - 1), RightStep(a, b, l, r, y);
      assert RightPass(a, b, l, r, n) == before + step;
      RightPassNotAboutLeft(a, b, l, r, n - 1, x);
      MentioningConcat(before, step, Some(x), None);
      RightStepNotAboutLeft(a, b, l, r, y, x);
    }
  }

  /** A step of the second loop whose name does not lead to x names nothing of x's subtree on the left. */
  lemma RightStepNotAboutLeft(a: Arena, b: Arena, l: nat, r: nat, y: nat, x: nat)
    requires Tree(a) && Tree(b) && l < |a.nodes| && r < y < |b.nodes|
    requires x < |a.nodes| && a.nodes[x].parent == Some(l)
    requires FindFirst(a, a.children[l], NameOf(b, y), false) != Some(x)
    ensures Mentioning(RightStep(a, b, l, r, y), Some(x), None) == []
  {
    RightStepInside(a, b, l, r, y);
    var m := FindFirst(a, a.children[l], NameOf(b, y), false);
    FoundChild(a, l, NameOf(b, y), false);
    if m.Some? {
      SiblingsApart(a, l, x, m.value);
    }
    MentioningNone(RightStep(a, b, l, r, y), Some(x), None);
  }

  /** A right child y that no left child's name leads to is named by no record of the first loop. */
  lemma {:induction false} LeftPassNotAboutRight(a: Arena, b: Arena, l: nat, r: nat, n: nat, y: nat)
    requires Tree(a) && Tree(b) && l < |a.nodes| && r < |b.nodes| && n <= |a.children[l]|
    requires y < |b.nodes| && b.nodes[y].parent == Some(r)
    requires forall j :: 0 <= j < n ==> FindFirst(b, b.children[r], NameOf(a, a.children[l][j]), false) != Some(y)
    ensures Mentioning(LeftPass(a, b, l, r, n), None, Some(y)) == []
    decreases n
  {
    if n > 0 {
      var x := a.children[l][n - 1];
      var before, step := LeftPass(a, b, l, r, n - 1), LeftStep(a, b, l, r, x);
      assert LeftPass(a, b, l, r, n) == before + step;
      LeftPassNotAboutRight(a, b, l, r, n - 1, y);
      MentioningConcat(before, step, None, Some(y));
      LeftStepNotAboutRight(a, b, l, r, x, y);
    }
  }

  /** A step of the first loop whose name does not lead to y names nothing of y's subtree on the right. */
  lemma LeftStepNotAboutRight(a: Arena, b: Arena, l: nat, r: nat, x: nat, y: nat)
    requires Tree(a) && Tree(b) && l < x < |a.nodes| && r < |b.nodes|
    requires y < |b.nodes| && b.nodes[y].parent == Some(r)
    requires FindFirst(b, b.children[r], NameOf(a, x), false) != Some(y)
    ensures Mentioning(LeftStep(a, b, l, r, x), None, Some(y)) == []
  {
    LeftStepInside(a, b, l, r, x);
    var m := FindFirst(b, b.children[r], NameOf(a, x), false);
    FoundChild(b, r, NameOf(a, x), false);
    if m.Some? {
      SiblingsApart(b, r, y, m.value);
    }
    MentioningNone(LeftStep(a, b, l, r, x), None, Some(y));
  }

  /** A name that leads from one side to a node on the other leads back to some node. */
  lemma NameLeadsBack(a: Arena, b: Arena, l: nat, r: nat, j: nat, x: nat)
    requires Tree(a) && Tree(b) && l < |a.nodes| && r < |b.nodes| && j < |b.children[r]| && x < |a.nodes|
    requires FindFirst(a, a.children[l], NameOf(b, b.children[r][j]), false) == Some(x)
    ensures FindFirst(b, b.children[r], NameOf(a, x), false).Some?
  {
    FindFirstNone(b, b.children[r], NameOf(a, x), false);
  }

  // ---------------------------------------------------------------------
  // What CompareTo promises

  /**
   * A left child whose name no right child has is reported once, as
   * RightMissing, and no other record names it on the left.
   */
  lemma RightMissingOnce(a: Arena, b: Arena, l: nat, r: nat, x: nat)
    requires Tree(a) && Tree(b) && ChildrenDistinct(a) && l < |a.nodes| && r < |b.nodes| && x in a.children[l]
    requires FindFirst(b, b.children[r], NameOf(a, x), false) == None
    ensures Mentioning(Diff(a, b, l, r), Some(x), None) == [Difference(Some(x), None, RIGHT_MISSING)]
  {
    var cs := a.children[l];
    var k0 :| 0 <= k0 < |cs| && cs[k0] == x;
    DistinctOnce(a, l, k0);
    LeftPassAbout(a, b, l, r, |cs|, k0, None);
    MentioningAll(LeftStep(a, b, l, r, x), Some(x), None);
    forall j | 0 <= j < |b.children[r]|
      ensures FindFirst(a, cs, NameOf(b, b.children[r][j]), false) != Some(x)
    {
      if FindFirst(a, cs, NameOf(b, b.children[r][j]), false) == Some(x) {
        NameLeadsBack(a, b, l, r, j, x);
      }
    }
    RightPassNotAboutLeft(a, b, l, r, |b.children[r]|, x);
    MentioningConcat(LeftPass(a, b, l, r, |cs|), RightPass(a, b, l, r, |b.children[r]|), Some(x), None);
  }

  /**
   * A right child whose name no left child has is reported once, as
   * LeftMissing, and no other record names it on the right.
   */
  lemma LeftMissingOnce(a: Arena, b: Arena, l: nat, r: nat, y: nat)
    requires Tree(a) && Tree(b) && ChildrenDistinct(b) && l < |a.nodes| && r < |b.nodes| && y in b.children[r]
    requires FindFirst(a, a.children[l], NameOf(b, y), false) == None
    ensures Mentioning(Diff(a, b, l, r), None, Some(y)) == [Difference(None, Some(y), LEFT_MISSING)]
  {
    var ys := b.children[r];
    var k0 :| 0 <= k0 < |ys| && ys[k0] == y;
    FindFirstNone(a, a.children[l], NameOf(b, y), false);
    forall j | 0 <= j < |a.children[l]|
      ensures FindFirst(b, ys, NameOf(a, a.children[l][j]), false) != Some(y)
    {
    }
    assert Skip(a, b, l, r) != Some(y);
    DistinctOnce(b, r, k0);
    RightPassAbout(a, b, l, r, |ys|, k0, None);
    MentioningAll(RightStep(a, b, l, r, y), None, Some(y));
    LeftPassNotAboutRight(a, b, l, r, |a.children[l]|, y);
    MentioningConcat(LeftPass(a, b, l, r, |a.children[l]|), RightPass(a, b, l, r, |ys|), None, Some(y));
  }

  /**
   * A matched pair of children, x on the left and y on the right, each the
   * first of its name: the first loop reports their attribute differences
   * when x is a file, the second loop again when y is a file and is not the
   * remembered match of the last left child. So two mismatched files are
   * reported twice unless y is that match. A directory x against a file y
   * is flagged IsDirectoryMismatch only by the second loop, and only when y
   * is not the last left child's match: if it is, the pair is never
   * flagged.
   */
  lemma PairReports(a: Arena, b: Arena, l: nat, r: nat, x: nat, y: nat)
    requires Tree(a) && Tree(b) && ChildrenDistinct(a) && ChildrenDistinct(b) && l < |a.nodes| && r < |b.nodes|
    requires x in a.children[l] && y in b.children[r]
    requires FindFirst(b, b.children[r], NameOf(a, x), false) == Some(y)
    requires FindFirst(a, a.children[l], NameOf(b, y), false) == Some(x)
    ensures var e := Reported(CompareDifferences(x, y, a.nodes[x].entry, b.nodes[y].entry));
      Mentioning(Diff(a, b, l, r), Some(x), Some(y)) ==
        (if a.nodes[x].entry.isDirectory then [] else e) +
        (if b.nodes[y].entry.isDirectory || Skip(a, b, l, r) == Some(y) then [] else e)
  {
    var cs, ys := a.children[l], b.children[r];
    var kx :| 0 <= kx < |cs| && cs[kx] == x;
    var ky :| 0 <= ky < |ys| && ys[ky] == y;
    var e := Reported(CompareDifferences(x, y, a.nodes[x].entry, b.nodes[y].entry));
    MentioningAll(e, Some(x), Some(y));
    DistinctOnce(a, l, kx);
    DistinctOnce(b, r, ky);
    // the first loop
    LeftPassAbout(a, b, l, r, |cs|, kx, Some(y));
    var mentionedLeft := Mentioning(LeftPass(a, b, l, r, |cs|), Some(x), Some(y));
    if a.nodes[x].entry.isDirectory {
      DiffNotAboutTop(a, b, x, y, Some(x), Some(y));
    }
    assert mentionedLeft == if a.nodes[x].entry.isDirectory then [] else e;
    // the second loop
    RightPassAbout(a, b, l, r, |ys|, ky, Some(x));
    var mentionedRight := Mentioning(RightPass(a, b, l, r, |ys|), Some(x), Some(y));
    if Skip(a, b, l, r) != Some(y) && b.nodes[y].entry.isDirectory {
      DiffNotAboutTop(a, b, x, y, Some(x), Some(y));
    }
    assert mentionedRight == if b.nodes[y].entry.isDirectory || Skip(a, b, l, r) == Some(y) then [] else e;
    MentioningConcat(LeftPass(a, b, l, r, |cs|), RightPass(a, b, l, r, |ys|), Some(x), Some(y));
  }

  // ---------------------------------------------------------------------
  // Identical trees

  /** Sibling names are distinct (as a file system keeps them), at every level. */
  ghost predicate UniqueNames(x: Item)
    decreases x
  {
    (forall j, k :: 0 <= j < k < |x.children| ==> x.children[j].entry.name != x.children[k].entry.name) &&
    forall k :: 0 <= k < |x.children| ==> UniqueNames(x.children[k])
  }

  /** In two equal trees with unique names, the k-th child's name leads to the k-th child. */
  lemma {:induction false} FindInTwin(a: Arena, b: Arena, l: nat, r: nat, k: nat)
    requires IndexTree(a) && IndexTree(b) && l < |a.nodes| && r < |b.nodes|
    requires AbsNode(a, l) == AbsNode(b, r) && UniqueNames(AbsNode(a, l))
    requires k < |a.children[l]|
    ensures k < |b.children[r]|
    ensures AbsNode(a, a.children[l][k]) == AbsNode(b, b.children[r][k])
    ensures FindFirst(b, b.children[r], NameOf(a, a.children[l][k]), false) == Some(b.children[r][k])
    ensures FindFirst(a, a.children[l], NameOf(b, b.children[r][k]), false) == Some(a.children[l][k])
  {
    var cs, ys := a.children[l], b.children[r];
    var items := AbsNode(a, l).children;
    assert |items| == |cs| && |items| == |ys|;
    AbsListAt(a, cs, l, k);
    AbsListAt(b, ys, r, k);
    forall j | 0 <= j < k
      ensures !NameMatches(NameOf(b, ys[j]), NameOf(a, cs[k]), false)
      ensures !NameMatches(NameOf(a, cs[j]), NameOf(b, ys[k]), false)
    {
      AbsListAt(a, cs, l, j);
      AbsListAt(b, ys, r, j);
    }
    FindFirstAt(b, ys, NameOf(a, cs[k]), false, k);
    FindFirstAt(a, cs, NameOf(b, ys[k]), false, k);
  }

  /** Comparing a tree with an equal one, names unique among siblings, reports nothing. */
  lemma {:induction false} EqualTreesNoDifferences(a: Arena, b: Arena, l: nat, r: nat)
    requires IndexTree(a) && IndexTree(b) && l < |a.nodes| && r < |b.nodes|
    requires AbsNode(a, l) == AbsNode(b, r) && UniqueNames(AbsNode(a, l))
    ensures Diff(a, b, l, r) == []
    decreases |a.nodes| - l, 3
  {
    assert |a.children[l]| == |AbsNode(a, l).children| == |b.children[r]|;
    LeftPassEmpty(a, b, l, r, |a.children[l]|);
    RightPassEmpty(a, b, l, r, |b.children[r]|);
  }

  lemma {:induction false} LeftPassEmpty(a: Arena, b: Arena, l: nat, r: nat, n: nat)
    requires IndexTree(a) && IndexTree(b) && l < |a.nodes| && r < |b.nodes|
    requires AbsNode(a, l) == AbsNode(b, r) && UniqueNames(AbsNode(a, l))
    requires n <= |a.children[l]|
    ensures LeftPass(a, b, l, r, n) == []
    decreases |a.nodes| - l, 2, n
  {
    if n > 0 {
      LeftPassEmpty(a, b, l, r, n - 1);
      var x, y := a.children[l][n - 1], b.children[r][n - 1];
      FindInTwin(a, b, l, r, n - 1);
      if a.nodes[x].entry.isDirectory {
        AbsListAt(a, a.children[l], l, n - 1);
        EqualTreesNoDifferences(a, b, x, y);
      }
    }
  }

  lemma {:induction false} RightPassEmpty(a: Arena, b: Arena, l: nat, r: nat, n: nat)
    requires IndexTree(a) && IndexTree(b) && l < |a.nodes| && r < |b.nodes|
    requires AbsNode(a, l) == AbsNode(b, r) && UniqueNames(AbsNode(a, l))
    requires n <= |b.children[r]|
    ensures RightPass(a, b, l, r, n) == []
    decreases |a.nodes| - l, 2, n
  {
    if n > 0 {
      RightPassEmpty(a, b, l, r, n - 1);
      assert |a.children[l]| == |AbsNode(a, l).children| == |b.children[r]|;
      var x, y := a.children[l][n - 1], b.children[r][n - 1];
      FindInTwin(a, b, l, r, n - 1);
      if b.nodes[y].entry.isDirectory {
        AbsListAt(a, a.children[l], l, n - 1);
        EqualTreesNoDifferences(a, b, x, y);
      }
    }
  }
}

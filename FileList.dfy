// FileList: a tree of FileListNode objects under a synthetic root.
//
// The class keeps the node arena of FileTree in a field and edits it in
// place, one pointer at a time, as the FileListNode methods do; the ghost
// `children` field records each node's children in sibling order. Every
// method is proved against the functions on arenas: AddChild against
// WithChild, FindChild against FindFirst, the full path against PathOf,
// TryGetFileInfo against Resolve, the comparison against Diff, and the
// index writer and reader against EncodeBlock and DecodeBlock.

module FileLists {
  import opened Wrappers
  import opened BinaryFormat
  import opened Utilities
  import opened FileTree
  import opened IndexFormat
  import opened Differences
  import opened TreeEdits
  import opened Listings

  class FileList {
    var nodes: seq<Node>
    ghost var children: seq<seq<nat>>

    ghost function Snapshot(): Arena
      reads this
    {
      Arena(nodes, children)
    }

    ghost predicate Valid()
      reads this
    {
      WellFormed(Snapshot())
    }

    /** The part of Valid that walking a child list by FirstChild and Next relies on. */
    ghost predicate Walkable()
      reads this
    {
      IndexTree(Snapshot()) && EndsLinked(Snapshot()) && NextLinked(Snapshot())
    }

    /** The private constructor: a list holding only its root, a directory named "root". */
    constructor ()
      ensures Valid() && |nodes| == 1 && AbsNode(Snapshot(), ROOT) == Item(RootEntry, [])
    {
      nodes := [NewNode(None, RootEntry)];
      children := [[]];
    }

    /** The FileListNode constructor: a node under `parent` that is in no child list yet. */
    method CreateNode(parent: nat, e: Entry) returns (id: nat)
      requires Valid() && parent < |nodes|
      modifies this
      ensures Snapshot() == Created(old(Snapshot()), parent, e) && id == old(|nodes|)
      ensures Valid() && Detached(Snapshot(), parent, id)
    {
      CreatedWellFormed(Snapshot(), parent, e);
      id := |nodes|;
      nodes := nodes + [NewNode(Some(parent), e)];
      children := children + [[]];
    }

    /** FileListNode.AddChild: count c, then link it after the last child of p. */
    method AddChild(p: nat, c: nat)
      requires Valid() && Detached(Snapshot(), p, c)
      modifies this
      ensures Snapshot() == WithChild(old(Snapshot()), p, c)
      ensures Valid() && children == old(children)[p := old(children)[p] + [c]]
    {
      WithChildWellFormed(Snapshot(), p, c);
      LastChildInRange(Snapshot(), p);
      LinkChild(p, c);
    }

    /** The pointer updates of AddChild, on any arena where p's last child is a node whenever p has children. */
    method LinkChild(p: nat, c: nat)
      requires Shape(Snapshot()) && p < |nodes| && c < |nodes|
      requires nodes[p].firstChild.Some? ==> nodes[p].lastChild.Some? && nodes[p].lastChild.value < |nodes|
      modifies this
      ensures Snapshot() == WithChild(old(Snapshot()), p, c)
    {
      var n := nodes[p];
      if nodes[c].entry.isDirectory {
        nodes := nodes[p := n.(subfolderCount := n.subfolderCount + 1)];
      } else {
        nodes := nodes[p := n.(fileCount := n.fileCount + 1)];
      }
      if nodes[p].firstChild.None? {
        nodes := nodes[p := nodes[p].(firstChild := Some(c), lastChild := Some(c))];
      } else {
        var last := nodes[p].lastChild.value;
        nodes := nodes[last := nodes[last].(next := Some(c))];
        nodes := nodes[c := nodes[c].(previous := Some(last))];
        nodes := nodes[p := nodes[p].(lastChild := Some(c))];
      }
      children := children[p := children[p] + [c]];
    }

    /** FileListNode.FindChild: the first child of p, in sibling order, named exactly `name`. */
    method FindChild(p: nat, name: string) returns (r: Option<nat>)
      requires Walkable() && p < |nodes|
      ensures r == FindFirst(Snapshot(), children[p], name, false)
    {
      ghost var a, cs := Snapshot(), children[p];
      var node := nodes[p].firstChild;
      ghost var k := 0;
      while node.Some?
        invariant k <= |cs| && node == (if k < |cs| then Some(cs[k]) else None)
        invariant FindFirst(a, cs, name, false) == FindFirst(a, cs[k..], name, false)
        decreases |cs| - k
      {
        if nodes[node.value].entry.name == name {
          return node;
        }
        FindFirstSkip(a, cs, name, false, k);
        node := nodes[node.value].next;
        k := k + 1;
      }
      return None;
    }

    /** FileListNode.CalculateFullPath: the names from i up to below the root, then joined in reverse. */
    method CalculateFullPath(i: nat) returns (path: string)
      requires Shape(Snapshot()) && ParentsBelow(Snapshot()) && i < |nodes|
      ensures path == PathOf(Snapshot(), i)
    {
      ghost var a := Snapshot();
      var reversedParts: seq<string> := [];
      var node: Option<nat> := Some(i);
      while node.Some?
        invariant node.Some? ==> node.value < |nodes| && Ancestry(a, node.value) + Reversed(reversedParts) == Ancestry(a, i)
        invariant node.None? ==> Reversed(reversedParts) == Ancestry(a, i)
        decreases if node.Some? then node.value + 1 else 0
      {
        var n := node.value;
        if nodes[n].parent.None? {
          assert Ancestry(a, n) == [];
          assert Reversed(reversedParts) == Ancestry(a, i);
          break;
        }
        var name := nodes[n].entry.name;
        ReversedAppend(reversedParts, name);
        assert Ancestry(a, n) == Ancestry(a, nodes[n].parent.value) + [name];
        assert Ancestry(a, n) + Reversed(reversedParts) == Ancestry(a, nodes[n].parent.value) + Reversed(reversedParts + [name]);
        reversedParts := reversedParts + [name];
        node := nodes[n].parent;
      }
      assert Reversed(reversedParts) == Ancestry(a, i);
      var parts := Reversed(reversedParts);
      var sb := "";
      var j := |reversedParts|;
      while j > 0
        invariant 0 <= j <= |reversedParts|
        invariant sb == Join(parts[..|reversedParts| - j])
      {
        j := j - 1;
        JoinStep(parts, |reversedParts| - j - 1);
        if |sb| != 0 {
          sb := sb + "/";
        }
        sb := sb + reversedParts[j];
      }
      assert parts[..|reversedParts|] == parts;
      path := sb;
    }

    /** FileListNode.FullPath: computed on first use, then answered from the cache. */
    method FullPath(i: nat) returns (path: string)
      requires Valid() && i < |nodes|
      modifies this
      ensures nodes == old(nodes)[i := old(nodes)[i].(fullPath := Some(path))] && children == old(children)
      ensures Valid() && path == PathOf(old(Snapshot()), i) && path == PathOf(Snapshot(), i)
    {
      ghost var a := Snapshot();
      if nodes[i].fullPath.None? {
        var p := CalculateFullPath(i);
        CacheWellFormed(a, i, p);
        nodes := nodes[i := nodes[i].(fullPath := Some(p))];
        assert Snapshot() == WithCache(a, i, p);
        PathOfFrame(a, Snapshot(), i);
      } else {
        assert nodes[i] == nodes[i].(fullPath := Some(nodes[i].fullPath.value));
      }
      path := nodes[i].fullPath.value;
    }

    /**
     * TryGetFileInfo: from the root, follow each part of the path to the
     * first child whose name matches it ignoring case, stopping at the
     * first part no child matches. It answers true whatever it finds.
     */
    method TryGetFileInfo(path: string) returns (found: bool, fileInfo: nat)
      requires Valid()
      ensures found && fileInfo == Resolve(Snapshot(), ROOT, SplitPathIntoParts(path))
    {
      ghost var a := Snapshot();
      var parts := SplitPathIntoParts(path);
      var root: nat := ROOT;
      var i := 0;
      while i < |parts|
        invariant i <= |parts| && root < |nodes|
        invariant Resolve(a, ROOT, parts) == Resolve(a, root, parts[i..])
      {
        var part := parts[i];
        ghost var cur, cs := root, children[root];
        var child := nodes[root].firstChild;
        ghost var k := 0;
        while child.Some?
          invariant k <= |cs| && child == (if k < |cs| then Some(cs[k]) else None)
          invariant FindFirst(a, cs, part, true) == FindFirst(a, cs[k..], part, true)
          invariant root == cur
          decreases |cs| - k
        {
          if Fold(part) == Fold(nodes[child.value].entry.name) {
            root := child.value;
            break;
          }
          FindFirstSkip(a, cs, part, true, k);
          child := nodes[child.value].next;
          k := k + 1;
        }
        assert child.None? ==> root == cur && FindFirst(a, cs, part, true) == None;
        assert child.Some? ==> FindFirst(a, cs, part, true) == Some(root);
        ResolveStep(a, cur, parts, i);
        if child.None? {
          break;
        }
        i := i + 1;
      }
      fileInfo := root;
      found := true;
    }

    /**
     * RecursiveWriteStream: a placeholder count, each child's fields (and,
     * for a directory, its own block), then the count written over the
     * placeholder and the position moved back to the end. The cast of the
     * placeholder's offset to int is exact only below 2^31 bytes.
     */
    method RecursiveWriteStream(bw: Stream, node: nat)
      requires Walkable() && node < |nodes| && bw.Valid() && bw.position == |bw.data|
      requires |bw.data| + |EncodeBlock(AbsNode(Snapshot(), node).children)| <= TWO_31
      modifies bw
      ensures bw.Valid() && bw.position == |bw.data|
      ensures bw.data == old(bw.data) + EncodeBlock(AbsNode(Snapshot(), node).children)
      decreases |nodes| - node, 0
    {
      ghost var a, cs := Snapshot(), children[node];
      ghost var items := AbsNode(a, node).children;
      ghost var d0 := bw.data;
      var offset := bw.position;
      bw.WriteInt32(0);
      var count := 0;
      var child := nodes[node].firstChild;
      ghost var k := 0;
      while child.Some?
        invariant k <= |cs| && child == (if k < |cs| then Some(cs[k]) else None)
        invariant count == k
        invariant bw.Valid() && bw.position == |bw.data|
        invariant bw.data == d0 + Int32Bytes(0) + EncodeEntries(items[..k])
        decreases |cs| - k
      {
        var c := child.value;
        BlockStep(a, node, k, d0, bw.data);
        NextChild(a, node, k);
        WriteEntry(bw, c);
        count := count + 1;
        child := nodes[c].next;
        k := k + 1;
      }
      assert items[..|cs|] == items;
      PatchCount(bw, offset, count, d0, EncodeEntries(items));
      AppendAssoc(d0, Int32Bytes(WrapInt32(|items|)), EncodeEntries(items));
    }

    /** The count written over its placeholder at offset, and the position moved back to the end. */
    method PatchCount(bw: Stream, offset: nat, count: nat, ghost d: seq<byte>, ghost rest: seq<byte>)
      requires bw.data == d + Int32Bytes(0) + rest && offset == |d| && bw.position == |bw.data|
      modifies bw
      ensures bw.data == d + Int32Bytes(WrapInt32(count)) + rest
      ensures bw.Valid() && bw.position == |bw.data|
    {
      bw.Seek(offset, Begin);
      BackPatch(d, Int32Bytes(0), rest, Int32Bytes(WrapInt32(count)));
      bw.WriteInt32(WrapInt32(count));
      bw.Seek(0, End);
    }

    /** One child as the loop of RecursiveWriteStream writes it: name, flag, length, times, then a directory's block. */
    method WriteEntry(bw: Stream, c: nat)
      requires Walkable() && c < |nodes| && bw.Valid() && bw.position == |bw.data|
      requires |bw.data| + |EncodeEntry(AbsNode(Snapshot(), c))| <= TWO_31
      modifies bw
      ensures bw.Valid() && bw.position == |bw.data|
      ensures bw.data == old(bw.data) + EncodeEntry(AbsNode(Snapshot(), c))
      decreases |nodes| - c, 1
    {
      ghost var x := AbsNode(Snapshot(), c);
      EntryFields(x);
      var e := nodes[c].entry;
      ghost var before := bw.data;
      bw.WriteString(e.name);
      ghost var written := StringBytes(e.name);
      bw.WriteBoolean(e.isDirectory);
      AppendAssoc(before, written, [BooleanByte(e.isDirectory)]);
      written := written + [BooleanByte(e.isDirectory)];
      bw.WriteInt64(e.length);
      AppendAssoc(before, written, Int64Bytes(e.length));
      written := written + Int64Bytes(e.length);
      bw.WriteInt64(e.creationTicks);
      AppendAssoc(before, written, Int64Bytes(e.creationTicks));
      written := written + Int64Bytes(e.creationTicks);
      bw.WriteInt64(e.lastWriteTicks);
      AppendAssoc(before, written, Int64Bytes(e.lastWriteTicks));
      written := written + Int64Bytes(e.lastWriteTicks);
      if e.isDirectory {
        RecursiveWriteStream(bw, c);
      }
      AppendAssoc(before, written, EntryBody(x));
    }

    /** Save: the bytes a new file receives, the block of the root's children. */
    method Save() returns (bytes: seq<byte>)
      requires Valid() && |EncodeIndex(AbsNode(Snapshot(), ROOT).children)| <= TWO_31
      ensures bytes == EncodeIndex(AbsNode(Snapshot(), ROOT).children)
    {
      LinkedNext(Snapshot());
      var bw := new Stream();
      RecursiveWriteStream(bw, ROOT);
      bytes := bw.data;
    }

    /**
     * RecursiveCompareTo: the differences between left node l of this list and
     * right node r of other, added to differences. Its first loop is
     * CompareLeftChildren, its second CompareRightChildren, and the `check`
     * set passes from one to the other.
     */
    method RecursiveCompareTo(other: FileList, differences: seq<Difference>, l: nat, r: nat) returns (ds: seq<Difference>)
      requires Walkable() && other.Walkable() && l < |nodes| && r < |other.nodes|
      ensures ds == differences + Diff(Snapshot(), other.Snapshot(), l, r)
      decreases |nodes| - l, 3
    {
      var check;
      ds, check := CompareLeftChildren(other, differences, l, r);
      ghost var first := ds;
      ds := CompareRightChildren(other, ds, l, r, check);
      AppendAssoc(differences, LeftPass(Snapshot(), other.Snapshot(), l, r, |children[l]|),
        RightPass(Snapshot(), other.Snapshot(), l, r, |other.children[r]|));
    }

    /** The first loop: every child of l looked up among the children of r. */
    method CompareLeftChildren(other: FileList, differences: seq<Difference>, l: nat, r: nat) returns (ds: seq<Difference>, check: set<nat>)
      requires Walkable() && other.Walkable() && l < |nodes| && r < |other.nodes|
      ensures ds == differences + LeftPass(Snapshot(), other.Snapshot(), l, r, |children[l]|)
      ensures check == Members(Skip(Snapshot(), other.Snapshot(), l, r))
      decreases |nodes| - l, 2
    {
      ghost var a, b := Snapshot(), other.Snapshot();
      ghost var cs, rs := children[l], other.children[r];
      ds := differences;
      check := {};
      var node := nodes[l].firstChild;
      ghost var k := 0;
      while node.Some?
        invariant k <= |cs| && node == (if k < |cs| then Some(cs[k]) else None)
        invariant ds == differences + LeftPass(a, b, l, r, k)
        invariant check == if k == 0 then {} else Members(FindFirst(b, rs, NameOf(a, cs[k - 1]), false))
        decreases |cs| - k
      {
        var x := node.value;
        NextChild(a, l, k);
        check := {};
        var find;
        ds, find := CompareLeftChild(other, ds, l, r, x);
        if find.Some? {
          check := check + {find.value};
        }
        AppendAssoc(differences, LeftPass(a, b, l, r, k), LeftStep(a, b, l, r, x));
        node := nodes[x].next;
        k := k + 1;
      }
      assert k == |cs| && Snapshot() == a && other.Snapshot() == b;
    }

    /** The second loop: every child of r that is not in check looked up among the children of l. */
    method CompareRightChildren(other: FileList, differences: seq<Difference>, l: nat, r: nat, check: set<nat>) returns (ds: seq<Difference>)
      requires Walkable() && other.Walkable() && l < |nodes| && r < |other.nodes|
      requires check == Members(Skip(Snapshot(), other.Snapshot(), l, r))
      ensures ds == differences + RightPass(Snapshot(), other.Snapshot(), l, r, |other.children[r]|)
      decreases |nodes| - l, 2
    {
      ghost var a, b := Snapshot(), other.Snapshot();
      ghost var rs := other.children[r];
      ds := differences;
      var node := other.nodes[r].firstChild;
      ghost var k := 0;
      while node.Some?
        invariant k <= |rs| && node == (if k < |rs| then Some(rs[k]) else None)
        invariant ds == differences + RightPass(a, b, l, r, k)
        decreases |rs| - k
      {
        var y := node.value;
        NextChild(b, r, k);
        if y !in check {
          ds := CompareRightChild(other, ds, l, r, y);
        }
        AppendAssoc(differences, RightPass(a, b, l, r, k), RightStep(a, b, l, r, y));
        node := other.nodes[y].next;
        k := k + 1;
      }
      assert k == |rs| && Snapshot() == a && other.Snapshot() == b;
    }

    /** A step of the first loop: left child x looked up among r's children, and what that adds. */
    method CompareLeftChild(other: FileList, ds: seq<Difference>, l: nat, r: nat, x: nat) returns (ds': seq<Difference>, find: Option<nat>)
      requires Walkable() && other.Walkable() && l < x < |nodes| && r < |other.nodes|
      ensures find == FindFirst(other.Snapshot(), other.children[r], NameOf(Snapshot(), x), false)
      ensures ds' == ds + LeftStep(Snapshot(), other.Snapshot(), l, r, x)
      decreases |nodes| - x, 4
    {
      ds' := ds;
      find := other.FindChild(r, nodes[x].entry.name);
      if find.Some? {
        FoundBelow(other.Snapshot(), r, nodes[x].entry.name);
        if nodes[x].entry.isDirectory {
          ds' := RecursiveCompareTo(other, ds', x, find.value);
        } else {
          var (same, diff) := CompareDifferences(x, find.value, nodes[x].entry, other.nodes[find.value].entry);
          if !same {
            ds' := ds' + [diff];
          }
        }
      } else {
        ds' := ds' + [Difference(Some(x), None, RIGHT_MISSING)];
      }
    }

    /** A step of the second loop for a right child y that is not the one remembered in check. */
    method CompareRightChild(other: FileList, ds: seq<Difference>, l: nat, r: nat, y: nat) returns (ds': seq<Difference>)
      requires Walkable() && other.Walkable() && l < |nodes| && r < |other.nodes| && y < |other.nodes|
      requires Skip(Snapshot(), other.Snapshot(), l, r) != Some(y)
      ensures ds' == ds + RightStep(Snapshot(), other.Snapshot(), l, r, y)
      decreases |nodes| - l, 1
    {
      ghost var a, b := Snapshot(), other.Snapshot();
      ds' := ds;
      var find := FindChild(l, other.nodes[y].entry.name);
      if find.Some? {
        var x := find.value;
        FoundBelow(a, l, other.nodes[y].entry.name);
        if other.nodes[y].entry.isDirectory {
          assert RightStep(a, b, l, r, y) == Diff(a, b, x, y);
          ds' := RecursiveCompareTo(other, ds', x, y);
        } else {
          var (same, diff) := CompareDifferences(x, y, nodes[x].entry, other.nodes[y].entry);
          assert RightStep(a, b, l, r, y) == Reported((same, diff));
          if !same {
            ds' := ds' + [diff];
          }
        }
      } else {
        assert RightStep(a, b, l, r, y) == [Difference(None, Some(y), LEFT_MISSING)];
        ds' := ds' + [Difference(None, Some(y), LEFT_MISSING)];
      }
    }

    /**
     * RecursiveReadFolder: a node for every sub-directory, each filled from
     * its own listing before the next is made (ReadFolders), then a node for
     * every file (ReadFiles).
     */
    method RecursiveReadFolder(parent: nat, listing: Listing)
      requires Valid() && parent < |nodes|
      modifies this
      ensures Valid() && AgreeExcept(old(Snapshot()), Snapshot(), parent)
      ensures AbsNode(Snapshot(), parent).children == old(AbsNode(Snapshot(), parent).children) + ListingItems(listing)
      decreases listing, 2
    {
      ghost var a0 := Snapshot();
      ReadFolders(parent, listing);
      ghost var a1 := Snapshot();
      ReadFiles(parent, listing);
      AgreeExceptTrans(a0, a1, Snapshot(), parent);
      AppendAssoc(AbsNode(a0, parent).children, FolderItems(listing.folders), FileItems(listing.files));
    }

    /** The first loop of RecursiveReadFolder, over the sub-directories. */
    method ReadFolders(parent: nat, listing: Listing)
      requires Valid() && parent < |nodes|
      modifies this
      ensures Valid() && AgreeExcept(old(Snapshot()), Snapshot(), parent)
      ensures AbsNode(Snapshot(), parent).children == old(AbsNode(Snapshot(), parent).children) + FolderItems(listing.folders)
      decreases listing, 1
    {
      ghost var a0 := Snapshot();
      ghost var before := AbsNode(a0, parent).children;
      var i := 0;
      while i < |listing.folders|
        invariant i <= |listing.folders| && Valid() && parent < |nodes|
        invariant AgreeExcept(a0, Snapshot(), parent)
        invariant AbsNode(Snapshot(), parent).children == before + FolderItems(listing.folders[..i])
      {
        ghost var a := Snapshot();
        ReadFolderEntry(parent, listing.folders[i]);
        AgreeExceptTrans(a0, a, Snapshot(), parent);
        FolderItemsSnoc(listing.folders, i);
        AppendAssoc(before, FolderItems(listing.folders[..i]), [FolderItem(listing.folders[i])]);
        i := i + 1;
      }
      assert listing.folders[..i] == listing.folders;
    }

    /** The second loop of RecursiveReadFolder, over the files. */
    method ReadFiles(parent: nat, listing: Listing)
      requires Valid() && parent < |nodes|
      modifies this
      ensures Valid() && AgreeExcept(old(Snapshot()), Snapshot(), parent)
      ensures AbsNode(Snapshot(), parent).children == old(AbsNode(Snapshot(), parent).children) + FileItems(listing.files)
    {
      ghost var a0 := Snapshot();
      ghost var before := AbsNode(a0, parent).children;
      var j := 0;
      while j < |listing.files|
        invariant j <= |listing.files| && Valid() && parent < |nodes|
        invariant AgreeExcept(a0, Snapshot(), parent)
        invariant AbsNode(Snapshot(), parent).children == before + FileItems(listing.files[..j])
      {
        ghost var a := Snapshot();
        ReadFileEntry(parent, listing.files[j]);
        AgreeExceptTrans(a0, a, Snapshot(), parent);
        FileItemsSnoc(listing.files, j);
        AppendAssoc(before, FileItems(listing.files[..j]), [Item(FileEntry(listing.files[j]), [])]);
        j := j + 1;
      }
      assert listing.files[..j] == listing.files;
    }

    /** The first loop's body: a directory node for folder, added to parent, then filled from its listing. */
    method ReadFolderEntry(parent: nat, folder: Folder)
      requires Valid() && parent < |nodes|
      modifies this
      ensures Valid() && AgreeExcept(old(Snapshot()), Snapshot(), parent)
      ensures AbsNode(Snapshot(), parent).children ==
        old(AbsNode(Snapshot(), parent).children) + [FolderItem(folder)]
      decreases folder, 0
    {
      ghost var a := Snapshot();
      var node := CreateNode(parent, FolderEntry(folder.name));
      AddChild(parent, node);
      Childless(Snapshot(), node);
      RecursiveReadFolder(node, folder.contents);
      ChildRead(a, Snapshot(), parent, FolderEntry(folder.name), ListingItems(folder.contents));
    }

    /** The second loop's body: a file node for file, added to parent. */
    method ReadFileEntry(parent: nat, file: FileStat)
      requires Valid() && parent < |nodes|
      modifies this
      ensures Valid() && AgreeExcept(old(Snapshot()), Snapshot(), parent)
      ensures AbsNode(Snapshot(), parent).children == old(AbsNode(Snapshot(), parent).children) + [Item(FileEntry(file), [])]
    {
      ghost var a := Snapshot();
      var node := CreateNode(parent, FileEntry(file));
      AddChild(parent, node);
      Childless(Snapshot(), node);
      ChildRead(a, Snapshot(), parent, FileEntry(file), []);
    }

    /** FromFolder: a new list holding the tree read from listing below its root. */
    static method FromFolder(listing: Listing) returns (fl: FileList)
      ensures fresh(fl) && fl.Valid()
      ensures AbsNode(fl.Snapshot(), ROOT) == Item(RootEntry, ListingItems(listing))
    {
      fl := new FileList();
      fl.RecursiveReadFolder(ROOT, listing);
    }

    /**
     * RecursiveReadStream: a count, then that many entries, each added to
     * parent as soon as its fields are read and, for a directory, filled
     * from the entries that follow before the next sibling is read.
     */
    method RecursiveReadStream(br: Stream, parent: nat) returns (r: Result<(), StreamError>)
      requires Valid() && parent < |nodes| && br.Valid()
      modifies this, br
      ensures Valid() && br.Valid() && br.data == old(br.data)
      ensures AgreeExcept(old(Snapshot()), Snapshot(), parent)
      ensures match DecodeBlock(br.data, old(br.position))
              case Ok((xs, q)) =>
                r.Ok? && br.position == q &&
                AbsNode(Snapshot(), parent).children == old(AbsNode(Snapshot(), parent).children) + xs
              case Err(e) => r == Err(e)
      decreases |br.data| - br.position, 2
    {
      var count := br.ReadInt32();
      if count.Err? {
        return Err(count.error);
      }
      r := ReadEntries(br, parent, count.value);
    }

    /** The loop of RecursiveReadStream, over count entries. */
    method ReadEntries(br: Stream, parent: nat, count: int32) returns (r: Result<(), StreamError>)
      requires Valid() && parent < |nodes| && br.Valid()
      modifies this, br
      ensures Valid() && br.Valid() && br.data == old(br.data)
      ensures AgreeExcept(old(Snapshot()), Snapshot(), parent)
      ensures match DecodeEntries(br.data, old(br.position), count)
              case Ok((xs, q)) =>
                r.Ok? && br.position == q &&
                AbsNode(Snapshot(), parent).children == old(AbsNode(Snapshot(), parent).children) + xs
              case Err(e) => r == Err(e)
      decreases |br.data| - br.position, 1
    {
      ghost var a0 := Snapshot();
      ghost var data, p0 := br.data, br.position;
      ghost var before := AbsNode(a0, parent).children;
      ghost var read: seq<Item> := [];
      var i: int := 0;
      ghost var left: int := count;
      NothingPreceded(DecodeEntries(data, p0, count));
      while i < count
        invariant i == 0 || i <= count
        invariant left == count - i
        invariant Valid() && parent < |nodes| && br.Valid() && br.data == data && p0 <= br.position
        invariant AgreeExcept(a0, Snapshot(), parent)
        invariant AbsNode(Snapshot(), parent).children == before + read
        invariant Preceded(read, DecodeEntries(data, br.position, left)) == DecodeEntries(data, p0, count)
        decreases count - i
      {
        ghost var a := Snapshot();
        ghost var pos := br.position;
        var e := ReadStreamEntry(br, parent);
        AgreeExceptTrans(a0, a, Snapshot(), parent);
        if e.Err? {
          EntryReadFails(data, pos, left, read, e.error);
          return Err(e.error);
        }
        ghost var x := DecodeEntry(data, pos).value.0;
        EntryReadStep(data, pos, left, read, x, br.position, DecodeEntries(data, p0, count));
        AppendAssoc(before, read, [x]);
        read := read + [x];
        i := i + 1;
        left := left - 1;
      }
      NothingLeft(data, br.position, left, read, DecodeEntries(data, p0, count));
      r := Ok(());
    }

    /** The loop's body: one entry read and added to parent, with its children if it is a directory. */
    method ReadStreamEntry(br: Stream, parent: nat) returns (r: Result<(), StreamError>)
      requires Valid() && parent < |nodes| && br.Valid()
      modifies this, br
      ensures Valid() && br.Valid() && br.data == old(br.data)
      ensures AgreeExcept(old(Snapshot()), Snapshot(), parent)
      ensures match DecodeEntry(br.data, old(br.position))
              case Ok((x, p)) =>
                r.Ok? && br.position == p &&
                AbsNode(Snapshot(), parent).children == old(AbsNode(Snapshot(), parent).children) + [x]
              case Err(e) => r == Err(e)
      decreases |br.data| - br.position, 0
    {
      ghost var a := Snapshot();
      ghost var pos := br.position;
      var fields := ReadEntryFields(br);
      if fields.Err? {
        return Err(fields.error);
      }
      var e := fields.value;
      ghost var p := br.position;
      var node := CreateNode(parent, e);
      AddChild(parent, node);
      Childless(Snapshot(), node);
      if e.isDirectory {
        r := RecursiveReadStream(br, node);
        DirectoryRead(br.data, pos, e, p);
        ghost var kids := AbsNode(Snapshot(), node).children;
        ChildRead(a, Snapshot(), parent, e, kids);
        if r.Ok? {
          assert kids == DecodeBlock(br.data, p).value.0;
          assert DecodeEntry(br.data, pos) == Ok((Item(e, kids), br.position));
        }
      } else {
        r := Ok(());
        ChildRead(a, Snapshot(), parent, e, []);
        FileRead(br.data, pos, e, p);
      }
    }

    /**
     * FromRepositoryIndex: a new list read from the index file's bytes, or
     * only its root when there is no index file (None).
     */
    static method FromRepositoryIndex(file: Option<seq<byte>>) returns (r: Result<FileList, StreamError>)
      ensures r.Ok? ==> fresh(r.value) && r.value.Valid()
      ensures file.None? ==> r.Ok? && AbsNode(r.value.Snapshot(), ROOT) == Item(RootEntry, [])
      ensures file.Some? ==>
        match DecodeIndex(file.value)
        case Ok(xs) => r.Ok? && AbsNode(r.value.Snapshot(), ROOT) == Item(RootEntry, xs)
        case Err(e) => r == Err(e)
    {
      var fl := new FileList();
      if file.Some? {
        var br := new Stream.Over(file.value);
        var read := fl.RecursiveReadStream(br, ROOT);
        if read.Err? {
          return Err(read.error);
        }
      }
      r := Ok(fl);
    }

    /** CompareTo: the differences between this list's root and other's. */
    method CompareTo(other: FileList) returns (ds: seq<Difference>)
      requires Valid() && other.Valid()
      ensures ds == CompareTrees(Snapshot(), other.Snapshot())
    {
      LinkedNext(Snapshot());
      LinkedNext(other.Snapshot());
      ds := RecursiveCompareTo(other, [], ROOT, ROOT);
    }
  }

  /** The fixed fields of one entry, read in order; a timestamp out of range stops the read. */
  method ReadEntryFields(br: Stream) returns (r: Result<Entry, StreamError>)
    requires br.Valid()
    modifies br
    ensures br.Valid() && br.data == old(br.data)
    ensures match DecodeFields(br.data, old(br.position))
            case Ok((e, p)) => r == Ok(e) && br.position == p
            case Err(err) => r == Err(err)
  {
    var name := br.ReadString();
    if name.Err? {
      return Err(name.error);
    }
    var isDirectory := br.ReadBoolean();
    if isDirectory.Err? {
      return Err(isDirectory.error);
    }
    var length := br.ReadInt64();
    if length.Err? {
      return Err(length.error);
    }
    var creation := br.ReadInt64();
    if creation.Err? {
      return Err(creation.error);
    }
    if !(0 <= creation.value <= MAX_TICKS) {
      return Err(ArgumentOutOfRange);
    }
    var lastWrite := br.ReadInt64();
    if lastWrite.Err? {
      return Err(lastWrite.error);
    }
    if !(0 <= lastWrite.value <= MAX_TICKS) {
      return Err(ArgumentOutOfRange);
    }
    r := Ok(Entry(name.value, isDirectory.value, length.value, creation.value, lastWrite.value));
  }

  /** An entry whose fields read as a file's ends with them. */
  lemma FileRead(data: seq<byte>, pos: nat, e: Entry, p: nat)
    requires pos <= |data| && DecodeFields(data, pos) == Ok((e, p)) && !e.isDirectory
    ensures DecodeEntry(data, pos) == Ok((Item(e, []), p))
  {
  }

  /** An entry whose fields read as a directory's goes on with a block of children. */
  lemma DirectoryRead(data: seq<byte>, pos: nat, e: Entry, p: nat)
    requires pos <= |data| && DecodeFields(data, pos) == Ok((e, p)) && e.isDirectory
    ensures p <= |data|
    ensures DecodeEntry(data, pos) ==
      match DecodeBlock(data, p)
      case Ok((xs, q)) => Ok((Item(e, xs), q))
      case Err(err) => Err(err)
  {
  }

  /** The items already read, in front of what the rest of the input decodes to. */
  ghost function Preceded(read: seq<Item>, rest: Result<(seq<Item>, nat), StreamError>): (r: Result<(seq<Item>, nat), StreamError>)
    ensures r.Ok? <==> rest.Ok?
    ensures r.Ok? ==> r.value == (read + rest.value.0, rest.value.1)
  {
    match rest
    case Err(e) => Err(e)
    case Ok((xs, q)) => Ok((read + xs, q))
  }

  lemma NothingPreceded(rest: Result<(seq<Item>, nat), StreamError>)
    ensures Preceded([], rest) == rest
  {
    if rest.Ok? {
      assert [] + rest.value.0 == rest.value.0;
    }
  }

  /** One more entry read: what was read gains it, and the rest is one entry shorter. */
  lemma EntryReadStep(data: seq<byte>, pos: nat, n: int, read: seq<Item>, x: Item, p: nat,
                      whole: Result<(seq<Item>, nat), StreamError>)
    requires pos <= |data| && n > 0 && DecodeEntry(data, pos) == Ok((x, p))
    requires Preceded(read, DecodeEntries(data, pos, n)) == whole
    ensures p <= |data|
    ensures Preceded(read + [x], DecodeEntries(data, p, n - 1)) == whole
  {
    match DecodeEntries(data, p, n - 1)
    case Err(_) =>
    case Ok((xs, q)) => AppendAssoc(read, [x], xs);
  }

  /** An entry that fails to read fails the rest. */
  lemma EntryReadFails(data: seq<byte>, pos: nat, n: int, read: seq<Item>, err: StreamError)
    requires pos <= |data| && n > 0 && DecodeEntry(data, pos) == Err(err)
    ensures Preceded(read, DecodeEntries(data, pos, n)) == Err(err)
  {
  }

  /** With no entries left to read, everything was read and the reader stands at the end. */
  lemma NothingLeft(data: seq<byte>, pos: nat, n: int, read: seq<Item>,
                    whole: Result<(seq<Item>, nat), StreamError>)
    requires pos <= |data| && n <= 0
    requires Preceded(read, DecodeEntries(data, pos, n)) == whole
    ensures whole == Ok((read, pos))
  {
    assert read + [] == read;
  }

  /**
   * Writing the k-th child's entry after the first k extends the block by one
   * entry, and inside a block that fits below 2^31 bytes there is room for it.
   */
  lemma BlockStep(a: Arena, node: nat, k: nat, d0: seq<byte>, before: seq<byte>)
    requires IndexTree(a) && node < |a.nodes| && k < |a.children[node]|
    requires before == d0 + Int32Bytes(0) + EncodeEntries(AbsNode(a, node).children[..k])
    requires |d0| + |EncodeBlock(AbsNode(a, node).children)| <= TWO_31
    ensures node < a.children[node][k] < |a.nodes|
    ensures |before| + |EncodeEntry(AbsNode(a, a.children[node][k]))| <= TWO_31
    ensures before + EncodeEntry(AbsNode(a, a.children[node][k])) ==
      d0 + Int32Bytes(0) + EncodeEntries(AbsNode(a, node).children[..k + 1])
  {
    var items := AbsNode(a, node).children;
    AbsListAt(a, a.children[node], node, k);
    EntriesSnoc(items, k);
    EntriesPrefixLength(items, k + 1);
    AppendAssoc(d0 + Int32Bytes(0), EncodeEntries(items[..k]), EncodeEntry(items[k]));
  }

  /** Following Next from the k-th child reaches the next one, or nothing after the last. */
  lemma NextChild(a: Arena, p: nat, k: nat)
    requires Shape(a) && ChildrenInRange(a) && NextLinked(a)
    requires p < |a.nodes| && k < |a.children[p]|
    ensures a.nodes[a.children[p][k]].next == if k + 1 < |a.children[p]| then Some(a.children[p][k + 1]) else None
  {
    assert a.nodes[a.children[p][k]].next == After(a.children[p], k);
  }

  /**
   * The Next half of SiblingsLinked, instantiated only where a child's node
   * is looked at, so that following one Next does not lead on to the next.
   */
  ghost predicate NextLinked(a: Arena)
    requires Shape(a) && ChildrenInRange(a)
  {
    forall p, k {:trigger a.nodes[a.children[p][k]]} :: 0 <= p < |a.children| && 0 <= k < |a.children[p]| ==>
      a.nodes[a.children[p][k]].next == After(a.children[p], k)
  }

  /** A well-formed list can be walked. */
  lemma LinkedNext(a: Arena)
    requires Shape(a) && ChildrenInRange(a) && SiblingsLinked(a)
    ensures NextLinked(a)
  {
    forall p, k | 0 <= p < |a.children| && 0 <= k < |a.children[p]|
      ensures a.nodes[a.children[p][k]].next == After(a.children[p], k)
    {
    }
  }

  /** The child FindChild finds under p lies after p in the arena. */
  lemma FoundBelow(a: Arena, p: nat, name: string)
    requires IndexTree(a) && p < |a.nodes|
    ensures var m := FindFirst(a, a.children[p], name, false);
      m.Some? ==> p < m.value < |a.nodes|
  {
  }

  /**
   * A child made under p and added to it, then filled with kids: p's
   * children gain that child's tree, and nothing else below a changes
   * apart from p's list.
   */
  lemma ChildRead(a: Arena, d: Arena, p: nat, e: Entry, kids: seq<Item>)
    requires WellFormed(a) && p < |a.nodes|
    requires IndexTree(d) && AgreeExcept(WithChild(Created(a, p, e), p, |a.nodes|), d, |a.nodes|)
    requires |a.nodes| < |d.nodes| && AbsNode(d, |a.nodes|).children == kids
    ensures AbsNode(d, p).children == AbsNode(a, p).children + [Item(e, kids)]
    ensures AgreeExcept(a, d, p)
  {
    var c := |a.nodes|;
    NewChildStep(a, a, p, e, d);
    assert AbsNode(d, c) == Item(e, kids);
  }

  /** Agreement outside p's list is transitive. */
  lemma AgreeExceptTrans(a: Arena, b: Arena, d: Arena, p: nat)
    requires AgreeExcept(a, b, p) && AgreeExcept(b, d, p)
    ensures AgreeExcept(a, d, p)
  {
  }

  /** A node with an empty list has no subtrees. */
  lemma Childless(a: Arena, i: nat)
    requires IndexTree(a) && i < |a.nodes| && a.children[i] == []
    ensures AbsNode(a, i).children == []
  {
  }


  /** The set holding the value of o, if it has one. */
  function Members(o: Option<nat>): (r: set<nat>)
    ensures forall x :: x in r <==> o == Some(x)
  {
    if o.Some? then {o.value} else {}
  }

  /** In a well-formed arena a node with a first child has a last child, and it is a node. */
  lemma LastChildInRange(a: Arena, p: nat)
    requires WellFormed(a) && p < |a.nodes|
    ensures a.nodes[p].firstChild.Some? ==> a.nodes[p].lastChild.Some? && a.nodes[p].lastChild.value < |a.nodes|
  {
    var cs := a.children[p];
    if cs != [] {
      assert p < cs[|cs| - 1] < |a.nodes|;
    }
  }

  /** The parts in the opposite order. */
  function Reversed(xs: seq<string>): (r: seq<string>)
    ensures |r| == |xs| && forall k :: 0 <= k < |xs| ==> r[k] == xs[|xs| - 1 - k]
  {
    seq(|xs|, k requires 0 <= k < |xs| => xs[|xs| - 1 - k])
  }

  /** Resolving the parts from i on: the first part picks a child, or the walk ends here. */
  lemma ResolveStep(a: Arena, cur: nat, parts: seq<string>, i: nat)
    requires Shape(a) && ChildrenInRange(a) && cur < |a.nodes| && i < |parts|
    ensures FindFirst(a, a.children[cur], parts[i], true).None? ==> Resolve(a, cur, parts[i..]) == cur
    ensures FindFirst(a, a.children[cur], parts[i], true).Some? ==>
      Resolve(a, cur, parts[i..]) == Resolve(a, FindFirst(a, a.children[cur], parts[i], true).value, parts[i + 1..])
  {
    assert parts[i..][1..] == parts[i + 1..];
  }

  /** Join adds one part: after a separator unless what it has so far is empty. */
  lemma JoinStep(parts: seq<string>, m: nat)
    requires m < |parts|
    ensures Join(parts[..m]) == "" ==> Join(parts[..m + 1]) == parts[m]
    ensures Join(parts[..m]) != "" ==> Join(parts[..m + 1]) == Join(parts[..m]) + "/" + parts[m]
  {
    assert parts[..m + 1][..m] == parts[..m];
  }

  lemma ReversedAppend(xs: seq<string>, x: string)
    ensures Reversed(xs + [x]) == [x] + Reversed(xs)
  {
  }
}

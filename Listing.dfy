// What FileList.FromFolder sees of a directory on disk.
//
// RecursiveReadFolder asks the file system for the sub-directories of a
// path and then for its files, and for each file its length and its
// creation and last-write times. The model is handed that answer as a
// value: a Listing holds the folders, each with its own Listing, and the
// files, in the order the file system returns them.

module Listings {
  import opened Wrappers
  import opened BinaryFormat
  import opened FileTree
  import opened IndexFormat

  /** A file as FileInfo describes it: name, length and the two times in ticks. */
  datatype FileStat = FileStat(name: string, length: int64, creationTicks: Ticks, lastWriteTicks: Ticks)

  /** A directory's sub-directories and files. */
  datatype Listing = Listing(folders: seq<Folder>, files: seq<FileStat>)

  datatype Folder = Folder(name: string, contents: Listing)

  /** The entry a folder gets: a directory of length 0 with both times at tick 0. */
  function FolderEntry(name: string): (e: Entry)
    ensures e.name == name && e.isDirectory
  {
    Entry(name, true, 0, 0, 0)
  }

  /** The entry a file gets: its name, a file, and the attributes FileInfo reports. */
  function FileEntry(f: FileStat): (e: Entry)
    ensures e.name == f.name && !e.isDirectory
  {
    Entry(f.name, false, f.length, f.creationTicks, f.lastWriteTicks)
  }

  /** The children a directory read from this listing gets: its folders first, then its files. */
  function ListingItems(l: Listing): (r: seq<Item>)
    ensures |r| == |l.folders| + |l.files|
    ensures forall k :: 0 <= k < |l.folders| ==> r[k] == FolderItem(l.folders[k])
    ensures forall k :: 0 <= k < |l.files| ==> r[|l.folders| + k] == Item(FileEntry(l.files[k]), [])
    decreases l, 2
  {
    FolderItems(l.folders) + FileItems(l.files)
  }

  /** The tree read from one folder: a directory node holding what its own listing gives. */
  function FolderItem(f: Folder): (r: Item)
    ensures r.entry == FolderEntry(f.name) && |r.children| == |f.contents.folders| + |f.contents.files|
    decreases f, 0
  {
    Item(FolderEntry(f.name), ListingItems(f.contents))
  }

  /** The trees read from the folders fs, in order. */
  function FolderItems(fs: seq<Folder>): (r: seq<Item>)
    ensures |r| == |fs|
    decreases fs, 1
  {
    seq(|fs|, k requires 0 <= k < |fs| => FolderItem(fs[k]))
  }

  /** The leaves read from the files fs. */
  function FileItems(fs: seq<FileStat>): (r: seq<Item>)
    ensures |r| == |fs|
    ensures forall k :: 0 <= k < |fs| ==> r[k] == Item(FileEntry(fs[k]), [])
  {
    seq(|fs|, k requires 0 <= k < |fs| => Item(FileEntry(fs[k]), []))
  }

  lemma FolderItemsSnoc(fs: seq<Folder>, i: nat)
    requires i < |fs|
    ensures FolderItems(fs[..i + 1]) == FolderItems(fs[..i]) + [FolderItem(fs[i])]
  {
  }

  lemma FileItemsSnoc(fs: seq<FileStat>, j: nat)
    requires j < |fs|
    ensures FileItems(fs[..j + 1]) == FileItems(fs[..j]) + [Item(FileEntry(fs[j]), [])]
  {
  }

  /** Every tree read from a listing has childless files, so saving it and loading it back gives it again. */
  lemma {:induction false} ListingChildless(l: Listing)
    ensures forall k :: 0 <= k < |ListingItems(l)| ==> FilesChildless(ListingItems(l)[k])
    decreases l, 1
  {
    forall k | 0 <= k < |l.folders|
      ensures FilesChildless(ListingItems(l)[k])
    {
      FolderChildless(l.folders[k]);
    }
  }

  lemma {:induction false} FolderChildless(f: Folder)
    ensures FilesChildless(FolderItem(f))
    decreases f, 0
  {
    ListingChildless(f.contents);
  }

  /** A tree read from a folder and saved loads back as the same tree. */
  lemma FolderIndexRoundTrip(l: Listing)
    requires EncodableList(ListingItems(l))
    ensures DecodeIndex(EncodeIndex(ListingItems(l))) == Ok(ListingItems(l))
  {
    ListingChildless(l);
    IndexRoundTrip(ListingItems(l), []);
    assert EncodeIndex(ListingItems(l)) + [] == EncodeIndex(ListingItems(l));
  }
}

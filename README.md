# Bit file-list snapshot, index codec and tree diff, in Dafny

This project models the core of the `bit` console application's version
tracking: the `FileList` class (`src/Bit.ConsoleApp/FileList.cs`). A
`FileList` is an ordered tree of `FileListNode`s under a synthetic root
named `"root"`. Each node has a parent back-reference, a doubly linked list
of children (`FirstChild`/`LastChild`/`Previous`/`Next`), two counters
(`SubfolderCount`, `FileCount`) and a lazily cached `FullPath`. The class
can look up a path (`TryGetFileInfo`), save itself to the repository index
in `BinaryWriter` format (`RecursiveWriteStream`, with a back-patched
child count), load itself back (`RecursiveReadStream`), and compare itself
with another list (`CompareTo`, a two-pass structural diff). It also models
the path splitting and hexadecimal codec of `Utilities`, as pinned down
by `test/Bit.Tests/UtilitiesTests.cs`.

Modules:

- `Wrappers`: `Option` and `Result`.
- `BinaryFormat`: the `BinaryWriter`/`BinaryReader` primitives the index
  uses. These are little-endian int32/int64, one-byte booleans, and strings
  written as a 7-bit-encoded byte count followed by UTF-8. A seekable
  `Stream` class holds the bytes and the position.
- `FileTree`: the node arena as a value (`Arena`), its well-formedness, and
  the specification functions. `FindFirst` specifies `FindChild`, `PathOf`
  specifies `FullPath`, `Resolve` specifies `TryGetFileInfo`, and
  `AbsNode` gives the pointer-free tree (`Item`).
- `TreeEdits`: the node constructor, `AddChild` and the path cache as
  functions on arenas, proved to keep the arena well-formed.
- `IndexFormat`: the index layout as pure `EncodeBlock`/`DecodeBlock`
  functions and the round-trip proof.
- `Differences`: `FileListDifferences` flags, `CompareDifferences`, and
  `Diff`, which specifies `RecursiveCompareTo`. The lemmas cover which
  records it emits and in which order.
- `Listings`: the directory listing `RecursiveReadFolder` is handed.
- `FileLists`: the `FileList` class. It is imperative, as the source is.
  Its methods walk the linked lists with loop variables, append to the
  difference list, write and back-patch the stream, and read it back. Each
  method is proved against the functions above.
- `Utilities`: `SplitPathIntoParts`, `ToHex`, `FromHex` and the unit-test
  vectors.

The model follows the code's behaviour, quirks included:

- `TryGetFileInfo` always answers `true`. A path whose parts stop matching
  yields the deepest node reached, and the empty path yields the root.
- `FindChild`, and so the diff, compares names case-sensitively. Path
  lookup compares them case-insensitively.
- The `check` set of `RecursiveCompareTo` is cleared on every step of the
  first pass. After that pass it remembers only the last left child's
  match, so the second pass compares every other matched pair again.
- The second pass decides whether to recurse by the right node's
  `IsDirectory`, and the first pass by the left node's.
- A directory on the left against a same-named file on the right is
  flagged `IsDirectoryMismatch` only by the second pass. When that file is
  the match of the last left child, the second pass skips it, so the
  mismatch is never reported (`Differences.PairReports`).
- Nothing stops a file node from having children: neither `AddChild` nor
  the well-formedness of the model (`FileTree.WellFormed`) forbids it. The
  writer recurses only into directories, so such children are silently
  dropped on save. This is why `IndexFormat.IndexRoundTrip` requires
  `FilesChildless`, and why every tree the reader builds satisfies it
  (`IndexFormat.DecodedBlockShape`).
- String lengths are read as `BinaryReader.Read7BitEncodedInt` does in
  .NET 5 and later: a fifth byte above 15 is a format error. .NET Core 3.1
  and earlier accept a fifth byte of 16 to 127 and drop its high bits. Only
  corrupt indexes tell the two apart.

## Model

| member | source | states |
|---|---|---|
| `FileLists.FileList.constructor` | src/Bit.ConsoleApp/FileList.cs:170-174 | A new list is well-formed and holds only its root: a directory named "root" with zero length and times. |
| `FileLists.FileList.CreateNode` | src/Bit.ConsoleApp/FileList.cs:96-111 | A new node knows its parent, is in no child list, has no siblings, children or cached path, and keeps the list well-formed. |
| `FileLists.FileList.AddChild` | src/Bit.ConsoleApp/FileList.cs:116-133 | The parent's child sequence becomes the old one plus the node, and the arena changes exactly as `WithChild` says. That means one counter up, `FirstChild` set on the first child, old last's `Next` and the new node's `Previous` linked, and `LastChild` moved. The list stays well-formed. |
| `FileLists.FileList.LinkChild` | src/Bit.ConsoleApp/FileList.cs:118-132 | The pointer and counter updates of `AddChild` produce exactly `WithChild` of the old arena. |
| `TreeEdits.WithChildWellFormed` | src/Bit.ConsoleApp/FileList.cs:116-133 | Appending a detached child keeps every link invariant and counter agreement. The parent's children gain the node at the end, and no other node's children change. |
| `TreeEdits.WithChildTree` | src/Bit.ConsoleApp/FileList.cs:116-133 | After `AddChild` the tree below the parent is the old tree with the child's tree appended last. |
| `TreeEdits.CreatedWellFormed` | src/Bit.ConsoleApp/FileList.cs:96-111 | Creating a node keeps the arena well-formed, changes no existing tree, and leaves the node detached. |
| `FileTree.CountersAddUp` | src/Bit.ConsoleApp/FileList.cs:71-73 | In a well-formed list `SubfolderCount + FileCount` is the number of children. `FileCount` is 0 iff all children are directories, and `SubfolderCount` is 0 iff none is. |
| `FileLists.FileList.FindChild` | src/Bit.ConsoleApp/FileList.cs:135-144 | Walking `FirstChild`/`Next` returns `FindFirst` of the child sequence under the case-sensitive compare, and changes nothing. |
| `FileTree.FindFirstAt` | src/Bit.ConsoleApp/FileList.cs:137-140 | The lookup answers child k exactly when child k matches and no earlier child does (first match wins). |
| `FileTree.FindFirstNone` | src/Bit.ConsoleApp/FileList.cs:143 | The lookup answers none iff no child matches. |
| `FileLists.FileList.CalculateFullPath` | src/Bit.ConsoleApp/FileList.cs:146-167 | Collecting names up to the root (excluded), then joining them in reverse with '/', gives `PathOf` the node. |
| `FileLists.FileList.FullPath` | src/Bit.ConsoleApp/FileList.cs:85-94 | Returns the node's full path and caches it in that node only. A cached value is returned as is, because a well-formed list's cache always agrees with `PathOf`. |
| `FileTree.PathOfParent` | src/Bit.ConsoleApp/FileList.cs:149-164 | The root's path is "". A node's path is its name when the parent's path is empty, and otherwise the parent's path, '/', and its name. |
| `FileTree.SplitPathOf` | src/Bit.ConsoleApp/FileList.cs:146-167 | Splitting a node's full path gives back the names of its ancestors below the root, for names that are non-empty and free of '/'. |
| `FileLists.FileList.TryGetFileInfo` | src/Bit.ConsoleApp/FileList.cs:176-199 | Always returns `true`, with the node `Resolve` reaches. Parts are matched in order, case-insensitively, first match wins, and the walk stops at the first miss. |
| `FileTree.ResolveStopsAtMiss` | src/Bit.ConsoleApp/FileList.cs:193-198 | When a part matches no child, the result is the node reached by the parts before it, whatever follows. |
| `FileTree.ResolveAfterWalk` | src/Bit.ConsoleApp/FileList.cs:181-195 | Once a prefix of parts fully matches, resolution continues from the node that prefix reached. |
| `FileTree.ResolvePathOf` | src/Bit.ConsoleApp/FileList.cs:176-199 | Looking up any reachable node by its own full path finds that node, when sibling names are unique up to case. |
| `FileLists.FileList.RecursiveWriteStream` | src/Bit.ConsoleApp/FileList.cs:201-222 | Appends exactly `EncodeBlock` of the node's children: the back-patched int32 count, then each child's fields and a directory's nested block. The position ends at the end of the stream. |
| `FileLists.FileList.WriteEntry` | src/Bit.ConsoleApp/FileList.cs:208-214 | Appends one child's name, flag, length, creation ticks, last-write ticks and, for a directory, its block. |
| `FileLists.FileList.PatchCount` | src/Bit.ConsoleApp/FileList.cs:219-221 | Seeking back and writing the count replaces just the 4-byte placeholder, and the position returns to the end. |
| `BinaryFormat.BackPatch` | src/Bit.ConsoleApp/FileList.cs:219-220 | Overwriting a placeholder with bytes of the same length changes only those bytes. |
| `FileLists.FileList.Save` | src/Bit.ConsoleApp/FileList.cs:224-231 | The stored bytes are `EncodeIndex` of the root's children. |
| `IndexFormat.IndexRoundTrip` | src/Bit.ConsoleApp/FileList.cs:339-356 | Decoding what the writer emits rebuilds the same children, in order, with all fields, even with trailing bytes. This holds for any tree whose files have no children and whose names and counts fit in int32. |
| `IndexFormat.BlockRoundTrip` | src/Bit.ConsoleApp/FileList.cs:339-356 | A written block reads back as the same sequence of children and ends where the block ends. |
| `IndexFormat.EntryRoundTrip` | src/Bit.ConsoleApp/FileList.cs:344-354 | A written entry reads back as the same entry and children. |
| `IndexFormat.DecodedBlockShape` | src/Bit.ConsoleApp/FileList.cs:350-354 | Every tree the reader builds has childless files, since only directories recurse. |
| `IndexFormat.EncodeEntriesFront` | src/Bit.ConsoleApp/FileList.cs:206-217 | The children are written one after another, first child first. |
| `FileLists.FileList.RecursiveReadStream` | src/Bit.ConsoleApp/FileList.cs:339-356 | Reading a block appends exactly the `DecodeBlock` children to the parent and leaves the position after them. A truncated or malformed stream gives the same error as `DecodeBlock`. Other nodes' children are untouched and the list stays well-formed, so its counters add up. |
| `FileLists.FileList.ReadEntries` | src/Bit.ConsoleApp/FileList.cs:341-355 | The loop over count entries appends what `DecodeEntries` decodes, or fails with its error. A count of zero or less reads nothing. |
| `FileLists.FileList.ReadStreamEntry` | src/Bit.ConsoleApp/FileList.cs:344-354 | One entry is read, added with `AddChild` and, for a directory, filled before the next sibling, as `DecodeEntry` says. |
| `FileLists.ReadEntryFields` | src/Bit.ConsoleApp/FileList.cs:344-348 | The name, flag, length and both tick values are read in order, as `DecodeFields` says. Ticks outside the DateTime range fail. |
| `FileLists.FileList.FromRepositoryIndex` | src/Bit.ConsoleApp/FileList.cs:367-382 | A missing index gives a list with only the root. Otherwise the root gets the decoded children, or the decoding error is returned. |
| `BinaryFormat.StringReadsBack` | src/Bit.ConsoleApp/FileList.cs:208 | A written name (7-bit length prefix plus UTF-8) reads back as the same string. |
| `BinaryFormat.Int32ReadsBack` | src/Bit.ConsoleApp/FileList.cs:204 | A written int32 reads back as itself. |
| `BinaryFormat.Int64ReadsBack` | src/Bit.ConsoleApp/FileList.cs:210-212 | A written int64 reads back as itself. |
| `BinaryFormat.BooleanReadsBack` | src/Bit.ConsoleApp/FileList.cs:209 | A written boolean reads back as itself. |
| `Differences.Mismatches` | src/Bit.ConsoleApp/FileList.cs:235-247 | Each of `IsDirectoryMismatch`, `LengthMismatch`, `CreationTimeMismatch` and `LastWriteTimeMismatch` is set iff that field differs. No presence bit is set, and the flags are `None` iff all four fields agree. |
| `Differences.CompareDifferences` | src/Bit.ConsoleApp/FileList.cs:233-251 | The record names both nodes. The result is `true` iff the flags are `None`, iff the four fields agree. |
| `FileLists.FileList.RecursiveCompareTo` | src/Bit.ConsoleApp/FileList.cs:253-305 | Appends exactly `Diff`: all first-pass records, in left-child order with recursive results inline, then all second-pass records in right-child order. |
| `FileLists.FileList.CompareLeftChildren` | src/Bit.ConsoleApp/FileList.cs:256-280 | The first loop appends `LeftPass`. Because `check` is cleared on every step, it leaves `check` holding only the last left child's match. |
| `FileLists.FileList.CompareLeftChild` | src/Bit.ConsoleApp/FileList.cs:260-279 | One first-pass step returns `FindChild` of the left name on the right. A miss appends `RightMissing` with `Left` set. A left directory recurses. A left file appends a flags record only when they differ. |
| `FileLists.FileList.CompareRightChildren` | src/Bit.ConsoleApp/FileList.cs:282-304 | The second loop appends `RightPass`, skipping only the right child in `check`. |
| `FileLists.FileList.CompareRightChild` | src/Bit.ConsoleApp/FileList.cs:287-303 | One second-pass step: a miss appends `LeftMissing` with `Right` set. A right directory recurses, and a right file appends a flags record only when they differ. |
| `FileLists.FileList.CompareTo` | src/Bit.ConsoleApp/FileList.cs:307-312 | Returns the differences between the two roots, `CompareTrees`. |
| `Differences.RightMissingOnce` | src/Bit.ConsoleApp/FileList.cs:271-278 | A left child with no same-named right child is named on the left by exactly one record, `RightMissing` with `Right` absent. |
| `Differences.LeftMissingOnce` | src/Bit.ConsoleApp/FileList.cs:295-302 | A right child with no same-named left child is named on the right by exactly one record, `LeftMissing` with `Left` absent. |
| `Differences.PairReports` | src/Bit.ConsoleApp/FileList.cs:258-293 | For a matched pair, the first pass reports the flags when the left one is a file. The second pass reports them again when the right one is a file and is not the last left child's match. So mismatched files are reported twice unless the right one is that match. |
| `Differences.DiffBelow` | src/Bit.ConsoleApp/FileList.cs:253-305 | Every record names nodes strictly inside the two compared subtrees. |
| `Differences.EqualTreesNoDifferences` | src/Bit.ConsoleApp/FileList.cs:253-305 | Comparing a tree with an equal one, with sibling names unique, yields no records. |
| `FileLists.FileList.RecursiveReadFolder` | src/Bit.ConsoleApp/FileList.cs:316-337 | The parent gains `ListingItems`: every sub-folder as a directory of length 0 with tick-0 times, filled recursively, then every file with its length and times. Both groups keep listing order. |
| `FileLists.FileList.ReadFolders` | src/Bit.ConsoleApp/FileList.cs:318-323 | The folder loop appends one filled directory per folder, in order. |
| `FileLists.FileList.ReadFiles` | src/Bit.ConsoleApp/FileList.cs:325-336 | The file loop appends one file node per file, in order. |
| `FileLists.FileList.ReadFolderEntry` | src/Bit.ConsoleApp/FileList.cs:320-322 | One folder becomes one directory child holding its listing's tree. |
| `FileLists.FileList.ReadFileEntry` | src/Bit.ConsoleApp/FileList.cs:327-335 | One file becomes one childless file child with its length and times. |
| `FileLists.FileList.FromFolder` | src/Bit.ConsoleApp/FileList.cs:358-365 | A new well-formed list whose root holds exactly the tree read from the listing. |
| `Listings.ListingItems` | src/Bit.ConsoleApp/FileList.cs:318-336 | Folders come first and files after, each in listing order, with the folder and file entries described above. |
| `Listings.FolderIndexRoundTrip` | src/Bit.ConsoleApp/FileList.cs:316-356 | A tree read from a folder, saved and loaded back is the same tree. |
| `Utilities.SplitPathIntoParts` | test/Bit.Tests/UtilitiesTests.cs:10-39 | Every part is non-empty and free of '/'. |
| `Utilities.SplitAtSlash` | test/Bit.Tests/UtilitiesTests.cs:14-28 | A '/' separates: the parts of x + "/" + y are those of x followed by those of y. Leading, trailing and repeated slashes therefore add no parts. |
| `Utilities.SplitOfPart` | test/Bit.Tests/UtilitiesTests.cs:14 | A non-empty name without '/' is a single part. |
| `Utilities.SplitKeepsCharacters` | test/Bit.Tests/UtilitiesTests.cs:14-28 | The parts, concatenated, are exactly the path's characters other than '/'. |
| `Utilities.SplitVectorsNoParts` | test/Bit.Tests/UtilitiesTests.cs:11-13 | "", "/" and "//" split into no parts. |
| `Utilities.SplitVectorsOnePart` | test/Bit.Tests/UtilitiesTests.cs:14-17 | The one-part test vectors. |
| `Utilities.SplitVectorsTwoParts` | test/Bit.Tests/UtilitiesTests.cs:18-23 | The two-part test vectors. |
| `Utilities.SplitVectorsMoreParts` | test/Bit.Tests/UtilitiesTests.cs:24-28 | The remaining vectors, including "a///b//c" giving [a, b, c]. |
| `Utilities.ToHex` | test/Bit.Tests/UtilitiesTests.cs:41-62 | The output has two characters per byte. |
| `Utilities.ToHexAt` | test/Bit.Tests/UtilitiesTests.cs:41-62 | Byte i becomes the digit of its high nibble at 2i and of its low nibble at 2i + 1. |
| `Utilities.ToHexLowerCase` | test/Bit.Tests/UtilitiesTests.cs:45-50 | Every output character is one of "0123456789abcdef". |
| `Utilities.ToHexAppend` | test/Bit.Tests/UtilitiesTests.cs:51-56 | Encoding a concatenation concatenates the encodings. |
| `Utilities.ToHexVectors` | test/Bit.Tests/UtilitiesTests.cs:42-50 | The zero- and one-byte test vectors. |
| `Utilities.ToHexVectorsSeveralBytes` | test/Bit.Tests/UtilitiesTests.cs:51-54 | The two-byte test vectors. |
| `Utilities.ToHexVectorsLonger` | test/Bit.Tests/UtilitiesTests.cs:55-56 | The three- and four-byte test vectors. |
| `Utilities.FromHex` | test/Bit.Tests/UtilitiesTests.cs:87-92 | Odd-length input is rejected with `ArgumentException`, and only odd-length input is. A successful result has half as many bytes as the input has characters. |
| `Utilities.FromHexToHex` | test/Bit.Tests/UtilitiesTests.cs:64-85 | `FromHex(ToHex(b)) == Ok(b)` for every byte sequence. |
| `Utilities.ToHexFromHex` | test/Bit.Tests/UtilitiesTests.cs:64-85 | Whatever `FromHex` accepts, `ToHex` gives back in lower case. |
| `Utilities.FromHexVectors` | test/Bit.Tests/UtilitiesTests.cs:64-85 | Every `FromHex` test vector. |
| `Utilities.FromHexRejectsOddLength` | test/Bit.Tests/UtilitiesTests.cs:87-92 | "0" and "000" are rejected with `ArgumentException`. |

## Left out

- Node identity: a node's `Guid` is its index in the arena, and object references are indices. Aliasing between two lists cannot arise in the model, since each list owns its arena.
- Case-insensitive comparison (`InvariantCultureIgnoreCase`) folds ASCII letters only. The full Unicode case mapping of the invariant culture is not modelled.
- Case-sensitive comparison (`string.Compare(…, false, InvariantCulture)`) is modelled as ordinal equality. Linguistic equivalences of the invariant culture (ignorable characters, composed and decomposed forms) are not modelled.
- Names are sequences of Unicode scalar values. .NET names are UTF-16 strings, and a name holding an unpaired surrogate (legal on NTFS, and returned by `Directory.GetFiles`) is not modelled. The real writer encodes each such surrogate as U+FFFD, so for such a name the real save-and-load round trip does not give the name back, whereas `IndexFormat.IndexRoundTrip` and `Listings.FolderIndexRoundTrip` hold for every name the model can express.
- UTF-8: the reader rejects ill-formed UTF-8 with a format error. .NET's decoder replaces it with U+FFFD. The two agree on everything the writer produces.
- `DateTime` is its tick count. `SpecifyKind` is dropped. An out-of-range tick value fails as `ArgumentOutOfRange`, as the `DateTime` constructor throws.
- Streams and files: `Save` returns the bytes instead of writing a file. `FromRepositoryIndex` takes the index file's bytes, or `None` when `File.Exists` is false. `Path.GetFullPath` and the storage device are not part of this model.
- `FileLists.FileList.RecursiveWriteStream`: requires the whole index to stay below 2^31 bytes, the range in which the `(int)offset` cast of the back-patch seek is exact.
- `FileLists.FileList.AddChild`: `SubfolderCount` and `FileCount` are unbounded integers. Their 32-bit wrap-around after 2^31 children is not modelled. The written count is wrapped, as `WrapInt32` says.
- The directory walk: `Directory.GetDirectories`, `Directory.GetFiles` and `FileInfo` are replaced by a `Listing` value, given in the order the file system would return it.
- `Utilities`' implementation is not part of this model. For `FromHex` on non-hex characters, which the tests do not pin down, the model fails with `FormatException` and accepts upper-case digits.
- `Utilities.GenerateRandomHash`: its output is random.
- Symmetry of the diff between (A, B) and (B, A) is not stated. It does not hold of the code: a left directory against a right file recurses, while a left file against a right directory is flagged. Also, the second pass re-reports pairs.
- The command layer, logging, configuration, `BitRepository` and the storage device wrappers are not part of this model.

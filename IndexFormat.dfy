// The repository index file: a FileList tree in BinaryWriter format.
//
// A block is an int32 count followed by that many entries. An entry is the
// name (a 7-bit length-prefixed UTF-8 string), the directory flag (one
// byte), the length and the creation and last-write ticks (int64 each),
// and, for a directory only, the block of its children. The root itself is
// not written: the file is the block of the root's children.
//
// Writer and reader are each one chain of stages, one stage per group of
// fields, in the order RecursiveWriteStream writes them and
// RecursiveReadStream reads them.

module IndexFormat {
  import opened Wrappers
  import opened BinaryFormat
  import opened FileTree

  // ---------------------------------------------------------------------
  // Writing

  /** An entry the writer can emit: its name and, if a directory, its children fit int32 counts. */
  predicate Encodable(x: Item) decreases x {
    |Utf8(x.entry.name)| < TWO_31 &&
    (x.entry.isDirectory ==> |x.children| < TWO_31 && forall k :: 0 <= k < |x.children| ==> Encodable(x.children[k]))
  }

  predicate EncodableList(xs: seq<Item>) {
    |xs| < TWO_31 && forall k :: 0 <= k < |xs| ==> Encodable(xs[k])
  }

  /** One entry: the name, then the rest of its fields. */
  function EncodeEntry(x: Item): (r: seq<byte>)
    decreases x, 3
  {
    StringBytes(x.entry.name) + EncodeAttributes(x)
  }

  /** The directory flag and the length, then the timestamps. */
  function EncodeAttributes(x: Item): (r: seq<byte>)
    decreases x, 2
  {
    [BooleanByte(x.entry.isDirectory)] + Int64Bytes(x.entry.length) + EncodeTimes(x)
  }

  /** The creation and last-write ticks, then the body. */
  function EncodeTimes(x: Item): (r: seq<byte>)
    decreases x, 1
  {
    Int64Bytes(x.entry.creationTicks) + Int64Bytes(x.entry.lastWriteTicks) + EntryBody(x)
  }

  /** What follows the fixed fields: the children's block for a directory, nothing for a file. */
  function EntryBody(x: Item): (r: seq<byte>)
    decreases x, 0
  {
    if x.entry.isDirectory then EncodeBlock(x.children) else []
  }

  /** The count the writer back-patches (an int incremented once per child), then the children. */
  function EncodeBlock(xs: seq<Item>): (r: seq<byte>)
    decreases xs, 1
  {
    Int32Bytes(WrapInt32(|xs|)) + EncodeEntries(xs)
  }

  function EncodeEntries(xs: seq<Item>): (r: seq<byte>)
    decreases xs, 0
  {
    if xs == [] then []
    else EncodeEntries(xs[..|xs| - 1]) + EncodeEntry(xs[|xs| - 1])
  }

  /** Entries are written one after another: the first entry's bytes come first. */
  lemma {:induction false} EncodeEntriesFront(xs: seq<Item>)
    requires xs != []
    ensures EncodeEntries(xs) == EncodeEntry(xs[0]) + EncodeEntries(xs[1..])
    decreases |xs|
  {
    if |xs| == 1 {
      EncodeSingle(xs);
    } else {
      var init := xs[..|xs| - 1];
      EncodeEntriesFront(init);
      EncodeInitTail(xs);
      AppendAssoc(EncodeEntry(xs[0]), EncodeEntries(init[1..]), EncodeEntry(xs[|xs| - 1]));
    }
  }

  lemma EncodeSingle(xs: seq<Item>)
    requires |xs| == 1
    ensures EncodeEntries(xs) == EncodeEntry(xs[0]) + EncodeEntries(xs[1..])
  {
    assert xs[..0] == [] && xs[1..] == [];
  }

  lemma EncodeInitTail(xs: seq<Item>)
    requires 1 < |xs|
    ensures EncodeEntries(xs[1..]) == EncodeEntries(xs[..|xs| - 1][1..]) + EncodeEntry(xs[|xs| - 1])
    ensures xs[..|xs| - 1][0] == xs[0]
  {
    var tail := xs[1..];
    assert tail[..|tail| - 1] == xs[..|xs| - 1][1..];
  }

  lemma AppendAssoc<T>(a: seq<T>, b: seq<T>, c: seq<T>)
    ensures (a + b) + c == a + (b + c)
  {
  }

  /** The entries of xs[..k + 1] are those of xs[..k] and then entry k. */
  lemma EntriesSnoc(xs: seq<Item>, k: nat)
    requires k < |xs|
    ensures EncodeEntries(xs[..k + 1]) == EncodeEntries(xs[..k]) + EncodeEntry(xs[k])
  {
    assert xs[..k + 1][..k] == xs[..k];
  }

  /** A prefix of the entries takes no more bytes than all of them. */
  lemma {:induction false} EntriesPrefixLength(xs: seq<Item>, k: nat)
    requires k <= |xs|
    ensures |EncodeEntries(xs[..k])| <= |EncodeEntries(xs)|
  {
    if k < |xs| {
      var init := xs[..|xs| - 1];
      assert xs[..k] == init[..k];
      EntriesPrefixLength(init, k);
    } else {
      assert xs[..k] == xs;
    }
  }

  /** An entry's bytes, field by field in the order the writer emits them. */
  lemma EntryFields(x: Item)
    ensures EncodeEntry(x) ==
      StringBytes(x.entry.name) + [BooleanByte(x.entry.isDirectory)] + Int64Bytes(x.entry.length) +
      Int64Bytes(x.entry.creationTicks) + Int64Bytes(x.entry.lastWriteTicks) + EntryBody(x)
  {
    var n, b, l := StringBytes(x.entry.name), [BooleanByte(x.entry.isDirectory)], Int64Bytes(x.entry.length);
    var c, w, e := Int64Bytes(x.entry.creationTicks), Int64Bytes(x.entry.lastWriteTicks), EntryBody(x);
    assert EncodeTimes(x) == c + w + e;
    assert EncodeAttributes(x) == b + l + (c + w + e);
    assert EncodeEntry(x) == n + (b + l + (c + w + e));
    assert b + l + (c + w + e) == b + l + c + w + e;
    assert n + (b + l + c + w + e) == n + b + l + c + w + e;
  }

  // ---------------------------------------------------------------------
  // Reading

  /** One entry and, for a directory, its children: the fixed fields first. */
  function DecodeEntry(data: seq<byte>, pos: nat): (r: Result<(Item, nat), StreamError>)
    requires pos <= |data|
    ensures r.Ok? ==> pos < r.value.1 <= |data|
    decreases |data| - pos, 2
  {
    match DecodeFields(data, pos)
    case Err(e) => Err(e)
    case Ok((e, p)) => DecodeBody(data, p, e)
  }

  /**
   * The name, the directory flag, the length and the two timestamps, in
   * that order; a DateTime rejects ticks out of range as soon as it is
   * built, before the next field is read.
   */
  function DecodeFields(data: seq<byte>, pos: nat): (r: Result<(Entry, nat), StreamError>)
    requires pos <= |data|
    ensures r.Ok? ==> pos + 25 < r.value.1 <= |data|
  {
    match ParseString(data, pos)
    case Err(e) => Err(e)
    case Ok((name, p1)) =>
      match ParseBoolean(data, p1)
      case Err(e) => Err(e)
      case Ok((isDirectory, p2)) =>
        match ParseInt64(data, p2)
        case Err(e) => Err(e)
        case Ok((length, p3)) =>
          match ParseInt64(data, p3)
          case Err(e) => Err(e)
          case Ok((creation, p4)) =>
            if !(0 <= creation <= MAX_TICKS) then Err(ArgumentOutOfRange)
            else
              match ParseInt64(data, p4)
              case Err(e) => Err(e)
              case Ok((lastWrite, p5)) =>
                if !(0 <= lastWrite <= MAX_TICKS) then Err(ArgumentOutOfRange)
                else Ok((Entry(name, isDirectory, length, creation, lastWrite), p5))
  }

  /** A file's entry ends with its fixed fields; a directory's goes on with its children. */
  function DecodeBody(data: seq<byte>, pos: nat, e: Entry): (r: Result<(Item, nat), StreamError>)
    requires pos <= |data|
    ensures r.Ok? ==> pos <= r.value.1 <= |data|
    decreases |data| - pos, 1
  {
    if !e.isDirectory then Ok((Item(e, []), pos))
    else
      match DecodeBlock(data, pos)
      case Err(err) => Err(err)
      case Ok((children, q)) => Ok((Item(e, children), q))
  }

  /** An int32 count, then that many entries (none when the count is negative). */
  function DecodeBlock(data: seq<byte>, pos: nat): (r: Result<(seq<Item>, nat), StreamError>)
    requires pos <= |data|
    ensures r.Ok? ==> pos < r.value.1 <= |data|
    decreases |data| - pos, 0
  {
    match ParseInt32(data, pos)
    case Err(e) => Err(e)
    case Ok((count, p)) => DecodeEntries(data, p, count)
  }

  function DecodeEntries(data: seq<byte>, pos: nat, count: int): (r: Result<(seq<Item>, nat), StreamError>)
    requires pos <= |data|
    ensures r.Ok? ==> pos <= r.value.1 <= |data| && |r.value.0| == if count < 0 then 0 else count
    decreases |data| - pos, 3
  {
    if count <= 0 then Ok(([], pos))
    else
      match DecodeEntry(data, pos)
      case Err(e) => Err(e)
      case Ok((x, p)) =>
        match DecodeEntries(data, p, count - 1)
        case Err(e) => Err(e)
        case Ok((xs, q)) => Ok(([x] + xs, q))
  }

  // ---------------------------------------------------------------------
  // What the writer emits, the reader rebuilds
  //
  // Each proof step is split in three: a layout lemma finds where each
  // field of the written bytes starts, a decoding lemma runs the reader
  // over fields already known to read back, and the round-trip lemma
  // joins the two for one entry, one block or one list of entries.

  /** Files have no children: the shape every tree the reader builds has. */
  predicate FilesChildless(x: Item) decreases x {
    (!x.entry.isDirectory ==> x.children == []) &&
    forall k :: 0 <= k < |x.children| ==> FilesChildless(x.children[k])
  }

  /** Where the fields of a written entry start, and that each of the fixed ones reads back. */
  lemma EntryLayout(data: seq<byte>, pos: nat, x: Item) returns (p1: nat, p2: nat, p3: nat, p4: nat, p5: nat)
    requires |Utf8(x.entry.name)| < TWO_31
    requires HoldsAt(data, pos, EncodeEntry(x))
    ensures pos <= p1 <= p2 <= p3 <= p4 <= p5 <= |data|
    ensures ParseString(data, pos) == Ok((x.entry.name, p1))
    ensures ParseBoolean(data, p1) == Ok((x.entry.isDirectory, p2))
    ensures ParseInt64(data, p2) == Ok((x.entry.length, p3))
    ensures ParseInt64(data, p3) == Ok((x.entry.creationTicks as int64, p4))
    ensures ParseInt64(data, p4) == Ok((x.entry.lastWriteTicks as int64, p5))
    ensures HoldsAt(data, p5, EntryBody(x)) && p5 + |EntryBody(x)| == pos + |EncodeEntry(x)|
  {
    p1 := pos + |StringBytes(x.entry.name)|;
    HoldsAtSplit(data, pos, StringBytes(x.entry.name), EncodeAttributes(x), p1);
    StringReadsBack(data, pos, x.entry.name, p1);
    p2, p3, p4, p5 := AttributesLayout(data, p1, x);
  }

  lemma AttributesLayout(data: seq<byte>, pos: nat, x: Item) returns (p2: nat, p3: nat, p4: nat, p5: nat)
    requires HoldsAt(data, pos, EncodeAttributes(x))
    ensures pos <= p2 <= p3 <= p4 <= p5 <= |data|
    ensures ParseBoolean(data, pos) == Ok((x.entry.isDirectory, p2))
    ensures ParseInt64(data, p2) == Ok((x.entry.length, p3))
    ensures ParseInt64(data, p3) == Ok((x.entry.creationTicks as int64, p4))
    ensures ParseInt64(data, p4) == Ok((x.entry.lastWriteTicks as int64, p5))
    ensures HoldsAt(data, p5, EntryBody(x)) && p5 + |EntryBody(x)| == pos + |EncodeAttributes(x)|
  {
    var flag, length := [BooleanByte(x.entry.isDirectory)], Int64Bytes(x.entry.length);
    p2, p3 := pos + 1, pos + 9;
    HoldsAtSplit(data, pos, flag + length, EncodeTimes(x), p3);
    HoldsAtSplit(data, pos, flag, length, p2);
    BooleanReadsBack(data, pos, x.entry.isDirectory);
    Int64ReadsBack(data, p2, x.entry.length);
    p4, p5 := TimesLayout(data, p3, x);
  }

  lemma TimesLayout(data: seq<byte>, pos: nat, x: Item) returns (p4: nat, p5: nat)
    requires HoldsAt(data, pos, EncodeTimes(x))
    ensures pos <= p4 <= p5 <= |data|
    ensures ParseInt64(data, pos) == Ok((x.entry.creationTicks as int64, p4))
    ensures ParseInt64(data, p4) == Ok((x.entry.lastWriteTicks as int64, p5))
    ensures HoldsAt(data, p5, EntryBody(x)) && p5 + |EntryBody(x)| == pos + |EncodeTimes(x)|
  {
    var creation, lastWrite := Int64Bytes(x.entry.creationTicks), Int64Bytes(x.entry.lastWriteTicks);
    p4, p5 := pos + 8, pos + 16;
    HoldsAtSplit(data, pos, creation + lastWrite, EntryBody(x), p5);
    HoldsAtSplit(data, pos, creation, lastWrite, p4);
    Int64ReadsBack(data, pos, x.entry.creationTicks);
    Int64ReadsBack(data, p4, x.entry.lastWriteTicks);
  }

  /** The reader, given fixed fields that read back as x's, goes on with x's body. */
  lemma EntryFromFields(data: seq<byte>, pos: nat, x: Item, p1: nat, p2: nat, p3: nat, p4: nat, p5: nat, q: nat)
    requires pos <= p1 <= p2 <= p3 <= p4 <= p5 <= |data|
    requires ParseString(data, pos) == Ok((x.entry.name, p1))
    requires ParseBoolean(data, p1) == Ok((x.entry.isDirectory, p2))
    requires ParseInt64(data, p2) == Ok((x.entry.length, p3))
    requires ParseInt64(data, p3) == Ok((x.entry.creationTicks as int64, p4))
    requires ParseInt64(data, p4) == Ok((x.entry.lastWriteTicks as int64, p5))
    requires DecodeBody(data, p5, x.entry) == Ok((x, q))
    ensures DecodeEntry(data, pos) == Ok((x, q))
  {
    assert DecodeFields(data, pos) == Ok((x.entry, p5));
  }

  lemma {:induction false} EntryRoundTrip(data: seq<byte>, pos: nat, x: Item, end: nat)
    requires Encodable(x) && FilesChildless(x)
    requires HoldsAt(data, pos, EncodeEntry(x)) && end == pos + |EncodeEntry(x)|
    ensures DecodeEntry(data, pos) == Ok((x, end))
    decreases x, 1
  {
    var p1, p2, p3, p4, p5 := EntryLayout(data, pos, x);
    BodyRoundTrip(data, p5, x, end);
    EntryFromFields(data, pos, x, p1, p2, p3, p4, p5, end);
  }

  lemma {:induction false} BodyRoundTrip(data: seq<byte>, pos: nat, x: Item, end: nat)
    requires Encodable(x) && FilesChildless(x)
    requires HoldsAt(data, pos, EntryBody(x)) && end == pos + |EntryBody(x)|
    ensures DecodeBody(data, pos, x.entry) == Ok((x, end))
    decreases x, 0
  {
    if x.entry.isDirectory {
      BlockRoundTrip(data, pos, x.children, end);
    }
  }

  /** Where a written block's entries start, and that its count reads back. */
  lemma BlockLayout(data: seq<byte>, pos: nat, xs: seq<Item>) returns (p: nat)
    requires |xs| < TWO_31
    requires HoldsAt(data, pos, EncodeBlock(xs))
    ensures pos <= p <= |data|
    ensures ParseInt32(data, pos) == Ok((|xs| as int32, p))
    ensures HoldsAt(data, p, EncodeEntries(xs)) && p + |EncodeEntries(xs)| == pos + |EncodeBlock(xs)|
  {
    p := pos + 4;
    HoldsAtSplit(data, pos, Int32Bytes(WrapInt32(|xs|)), EncodeEntries(xs), p);
    Int32ReadsBack(data, pos, WrapInt32(|xs|));
  }

  lemma BlockFromCount(data: seq<byte>, pos: nat, xs: seq<Item>, p: nat, q: nat)
    requires pos <= p <= |data| && |xs| < TWO_31
    requires ParseInt32(data, pos) == Ok((|xs| as int32, p))
    requires DecodeEntries(data, p, |xs|) == Ok((xs, q))
    ensures DecodeBlock(data, pos) == Ok((xs, q))
  {
  }

  lemma {:induction false} BlockRoundTrip(data: seq<byte>, pos: nat, xs: seq<Item>, end: nat)
    requires EncodableList(xs) && forall k :: 0 <= k < |xs| ==> FilesChildless(xs[k])
    requires HoldsAt(data, pos, EncodeBlock(xs)) && end == pos + |EncodeBlock(xs)|
    ensures DecodeBlock(data, pos) == Ok((xs, end))
    decreases xs, 2
  {
    var p := BlockLayout(data, pos, xs);
    EntriesRoundTrip(data, p, xs, end);
    BlockFromCount(data, pos, xs, p, end);
  }

  lemma {:induction false} EntriesRoundTrip(data: seq<byte>, pos: nat, xs: seq<Item>, end: nat)
    requires forall k :: 0 <= k < |xs| ==> Encodable(xs[k]) && FilesChildless(xs[k])
    requires HoldsAt(data, pos, EncodeEntries(xs)) && end == pos + |EncodeEntries(xs)|
    ensures DecodeEntries(data, pos, |xs|) == Ok((xs, end))
    decreases xs, 1
  {
    if xs != [] {
      EntriesConsRoundTrip(data, pos, xs, xs[0], end);
    }
  }

  /** The step of EntriesRoundTrip, with the first entry passed by name. */
  lemma {:induction false} EntriesConsRoundTrip(data: seq<byte>, pos: nat, xs: seq<Item>, x: Item, end: nat)
    requires xs != [] && x == xs[0]
    requires forall k :: 0 <= k < |xs| ==> Encodable(xs[k]) && FilesChildless(xs[k])
    requires HoldsAt(data, pos, EncodeEntries(xs)) && end == pos + |EncodeEntries(xs)|
    ensures DecodeEntries(data, pos, |xs|) == Ok((xs, end))
    decreases xs, 0
  {
    var p := EntriesLayout(data, pos, xs, x);
    EntryRoundTrip(data, pos, x, p);
    EntriesRoundTrip(data, p, xs[1..], end);
    EntriesStep(data, pos, xs, x, p, end);
  }

  /** Where the entries after the first start. */
  lemma EntriesLayout(data: seq<byte>, pos: nat, xs: seq<Item>, x: Item) returns (p: nat)
    requires xs != [] && x == xs[0]
    requires HoldsAt(data, pos, EncodeEntries(xs))
    ensures HoldsAt(data, pos, EncodeEntry(x)) && p == pos + |EncodeEntry(x)|
    ensures HoldsAt(data, p, EncodeEntries(xs[1..])) && p + |EncodeEntries(xs[1..])| == pos + |EncodeEntries(xs)|
  {
    p := pos + |EncodeEntry(x)|;
    EncodeEntriesFront(xs);
    HoldsAtSplit(data, pos, EncodeEntry(x), EncodeEntries(xs[1..]), p);
  }

  lemma EntriesStep(data: seq<byte>, pos: nat, xs: seq<Item>, x: Item, p: nat, q: nat)
    requires pos <= |data| && xs != [] && x == xs[0]
    requires DecodeEntry(data, pos) == Ok((x, p))
    requires p <= |data| && DecodeEntries(data, p, |xs[1..]|) == Ok((xs[1..], q))
    ensures DecodeEntries(data, pos, |xs|) == Ok((xs, q))
  {
    assert [x] + xs[1..] == xs;
  }

  // ---------------------------------------------------------------------
  // Every tree the reader builds has childless files

  lemma {:induction false} DecodedEntryShape(data: seq<byte>, pos: nat)
    requires pos <= |data| && DecodeEntry(data, pos).Ok?
    ensures FilesChildless(DecodeEntry(data, pos).value.0)
    decreases |data| - pos, 2
  {
    var (e, p) := DecodeFields(data, pos).value;
    DecodedBodyShape(data, p, e);
  }

  lemma {:induction false} DecodedBodyShape(data: seq<byte>, pos: nat, e: Entry)
    requires pos <= |data| && DecodeBody(data, pos, e).Ok?
    ensures FilesChildless(DecodeBody(data, pos, e).value.0)
    decreases |data| - pos, 1
  {
    if e.isDirectory {
      DecodedBlockShape(data, pos);
    }
  }

  lemma {:induction false} DecodedBlockShape(data: seq<byte>, pos: nat)
    requires pos <= |data| && DecodeBlock(data, pos).Ok?
    ensures forall k :: 0 <= k < |DecodeBlock(data, pos).value.0| ==> FilesChildless(DecodeBlock(data, pos).value.0[k])
    decreases |data| - pos, 0
  {
    var (count, p) := ParseInt32(data, pos).value;
    DecodedEntriesShape(data, p, count);
  }

  lemma {:induction false} DecodedEntriesShape(data: seq<byte>, pos: nat, count: int)
    requires pos <= |data| && DecodeEntries(data, pos, count).Ok?
    ensures forall k :: 0 <= k < |DecodeEntries(data, pos, count).value.0| ==> FilesChildless(DecodeEntries(data, pos, count).value.0[k])
    decreases |data| - pos, 3
  {
    if count > 0 {
      var x, p := EntriesHead(data, pos, count);
      DecodedEntryShape(data, pos);
      DecodedEntriesShape(data, p, count - 1);
      ChildlessCons(x, DecodeEntries(data, p, count - 1).value.0, DecodeEntries(data, pos, count).value.0);
    }
  }

  /** A positive count reads the first entry and then the rest. */
  lemma EntriesHead(data: seq<byte>, pos: nat, count: int) returns (x: Item, p: nat)
    requires pos <= |data| && count > 0 && DecodeEntries(data, pos, count).Ok?
    ensures DecodeEntry(data, pos) == Ok((x, p)) && pos < p <= |data|
    ensures DecodeEntries(data, p, count - 1).Ok?
    ensures DecodeEntries(data, pos, count).value.0 == [x] + DecodeEntries(data, p, count - 1).value.0
  {
    x, p := DecodeEntry(data, pos).value.0, DecodeEntry(data, pos).value.1;
  }

  /** Putting a tree with childless files in front of a list of such trees keeps them all so. */
  lemma ChildlessCons(x: Item, xs: seq<Item>, ys: seq<Item>)
    requires ys == [x] + xs
    requires FilesChildless(x) && forall k :: 0 <= k < |xs| ==> FilesChildless(xs[k])
    ensures forall k :: 0 <= k < |ys| ==> FilesChildless(ys[k])
  {
    forall k | 0 <= k < |ys|
      ensures FilesChildless(ys[k])
    {
      if k > 0 {
        assert ys[k] == xs[k - 1];
      }
    }
  }

  // ---------------------------------------------------------------------
  // The whole index

  /** The bytes Save stores for a tree whose root has the given children. */
  function EncodeIndex(xs: seq<Item>): seq<byte>
  {
    EncodeBlock(xs)
  }

  /** The root's children FromRepositoryIndex rebuilds from the stored bytes; bytes after the tree are not read. */
  function DecodeIndex(data: seq<byte>): Result<seq<Item>, StreamError> {
    match DecodeBlock(data, 0)
    case Err(e) => Err(e)
    case Ok((xs, _)) => Ok(xs)
  }

  /** Loading what Save stored gives back the tree, even with bytes after it. */
  lemma IndexRoundTrip(xs: seq<Item>, trailing: seq<byte>)
    requires EncodableList(xs) && forall k :: 0 <= k < |xs| ==> FilesChildless(xs[k])
    ensures DecodeIndex(EncodeIndex(xs) + trailing) == Ok(xs)
  {
    var data := EncodeIndex(xs) + trailing;
    assert data[0..|EncodeIndex(xs)|] == EncodeIndex(xs);
    BlockRoundTrip(data, 0, xs, |EncodeIndex(xs)|);
  }
}

/** The image writer, the kernel's reader, and their round trip. */
module Initrd {
  import opened Words
  import opened InitrdImage

  datatype Option<+T> = None | Some(value: T)

  // ---------------------------------------------------------------------
  // The writer
  // ---------------------------------------------------------------------

  /** The files the arguments name, as far as they can be opened. */
  function Readable(paths: seq<Bytes>, disk: map<Bytes, Bytes>): (files: seq<File>)
    ensures |files| <= |paths|
  {
    if paths == [] || paths[0] !in disk then []
    else [File(paths[0], disk[paths[0]])] + Readable(paths[1..], disk)
  }

  /** Everything a caller of the tool must keep to: at most 64 paths, C strings, all sizes within 32 bits. */
  predicate Acceptable(paths: seq<Bytes>, disk: map<Bytes, Bytes>) {
    |paths| <= MAX_FILES && (forall i :: 0 <= i < |paths| ==> NoNul(paths[i])) &&
    DataStart(|paths|) + Total(Readable(paths, disk), |Readable(paths, disk)|) < TWO_32
  }

  lemma {:induction false} ReadableParts(paths: seq<Bytes>, disk: map<Bytes, Bytes>)
    ensures var files := Readable(paths, disk);
      (forall k :: 0 <= k < |files| ==> paths[k] in disk && files[k] == File(paths[k], disk[paths[k]])) &&
      (|files| < |paths| ==> paths[|files|] !in disk)
  {
    if paths != [] && paths[0] in disk {
      ReadableParts(paths[1..], disk);
      var rest := Readable(paths[1..], disk);
      forall k | 0 <= k < |rest| + 1
        ensures paths[k] in disk && ([File(paths[0], disk[paths[0]])] + rest)[k] == File(paths[k], disk[paths[k]])
      {
        if k > 0 {
          assert paths[1..][k - 1] == paths[k];
        }
      }
      assert |rest| < |paths[1..]| ==> paths[1..][|rest|] == paths[|rest| + 1];
    }
  }

  /** The lengths of the first n files were taken. */
  predicate Measured(paths: seq<Bytes>, disk: map<Bytes, Bytes>, lengths: seq<nat>, n: nat) {
    |lengths| == n <= |paths| && forall i :: 0 <= i < n ==> paths[i] in disk && lengths[i] == |disk[paths[i]]|
  }

  lemma NothingYet(files: seq<File>, start: nat)
    requires start < TWO_32
    ensures Total(files, 0) == 0 && Headers(files, start, 0) == []
  {
  }

  lemma OneMoreHeader(files: seq<File>, i: nat, start: nat)
    requires start + Total(files, |files|) < TWO_32 && i < |files|
    ensures Total(files, i) + |files[i].content| == Total(files, i + 1) <= Total(files, |files|)
    ensures Headers(files, start, i + 1) ==
      Headers(files, start, i) +
      HeaderBytes(BaseName(files[i].path), start + Total(files, i), |files[i].content|)
  {
    hide HeaderBytes, BaseName;
    TotalGrows(files, i, |files|);
  }

  /** First pass: one header per file, until a file cannot be opened. */
  method WriteHeaders(paths: seq<Bytes>, disk: map<Bytes, Bytes>) returns (ok: bool, headers: Bytes, lengths: seq<nat>)
    requires Acceptable(paths, disk)
    ensures ok <==> |Readable(paths, disk)| == |paths|
    ensures headers == Headers(Readable(paths, disk), DataStart(|paths|), |Readable(paths, disk)|)
    ensures ok ==> Measured(paths, disk, lengths, |paths|)
  {
    hide HeaderBytes, BaseName, Headers, Total, Readable, NoNul;
    ghost var files := Readable(paths, disk);
    ReadableParts(paths, disk);
    NothingYet(files, DataStart(|paths|));
    headers, lengths := [], [];
    var currentOffset := DataStart(|paths|);
    for i := 0 to |paths|
      invariant i <= |files| && Measured(paths, disk, lengths, i)
      invariant currentOffset == DataStart(|paths|) + Total(files, i) && Total(files, i) <= Total(files, |files|)
      invariant headers == Headers(files, DataStart(|paths|), i)
    {
      if paths[i] !in disk {
        assert i == |files|;
        ok := false;
        return;
      }
      var length := |disk[paths[i]]|;
      OneMoreHeader(files, i, DataStart(|paths|));
      headers := headers + HeaderBytes(BaseName(paths[i]), currentOffset, length);
      lengths := lengths + [length];
      currentOffset := currentOffset + length;
    }
    ok := true;
  }

  /** Second pass: the bytes of every file. */
  method WriteContents(paths: seq<Bytes>, disk: map<Bytes, Bytes>, lengths: seq<nat>) returns (data: Bytes)
    requires |Readable(paths, disk)| == |paths| && Measured(paths, disk, lengths, |paths|)
    ensures data == Contents(Readable(paths, disk), |paths|)
  {
    ghost var files := Readable(paths, disk);
    ReadableParts(paths, disk);
    data := [];
    for i := 0 to |paths|
      invariant data == Contents(files, i)
    {
      var buffer := disk[paths[i]];
      data := data + buffer[..lengths[i]];
    }
  }

  lemma AcceptableFits(paths: seq<Bytes>, disk: map<Bytes, Bytes>)
    requires Acceptable(paths, disk) && |Readable(paths, disk)| == |paths|
    ensures Fits(Readable(paths, disk))
  {
    hide Total, NoNul, DataStart;
    ReadableParts(paths, disk);
    var files := Readable(paths, disk);
    forall i | 0 <= i < |files|
      ensures NoNul(files[i].path)
    {
      assert files[i] == File(paths[i], disk[paths[i]]);
    }
  }

  /** make_initrd: exit status 0 with the whole image; 1 with nothing, or with what precedes the first missing file. */
  method MakeInitrd(paths: seq<Bytes>, disk: map<Bytes, Bytes>) returns (status: int, out: Bytes)
    requires Acceptable(paths, disk)
    ensures status == 0 <==> paths != [] && |Readable(paths, disk)| == |paths|
    ensures status == 0 ==> Fits(Readable(paths, disk)) && out == Image(Readable(paths, disk))
    ensures status == 0 || status == 1
    ensures status == 1 ==>
      out == if paths == [] then []
             else WordBytes(|paths|) + Headers(Readable(paths, disk), DataStart(|paths|), |Readable(paths, disk)|)
  {
    if |paths| < 1 {
      return 1, [];
    }
    hide Readable, Measured, WordBytes, Headers, Contents, Total, Fits, NoNul;
    var ok, headers, lengths := WriteHeaders(paths, disk);
    out := WordBytes(|paths|) + headers;
    if !ok {
      return 1, out;
    }
    var data := WriteContents(paths, disk, lengths);
    AcceptableFits(paths, disk);
    out := out + data;
    status := 0;
  }

  // ---------------------------------------------------------------------
  // The reader
  // ---------------------------------------------------------------------

  const DOT: Bytes := [46]
  const DOT_DOT: Bytes := [46, 46]

  datatype Node = Node(name: Bytes, length: u32, inode: nat)

  /** The root, a file by its index, or nothing. */
  datatype Found = Root | FileAt(index: nat) | Missing

  datatype Dirent = Dirent(name: Bytes, ino: nat)

  predicate Parsable(image: Bytes) {
    COUNT_SIZE <= |image| && DataStart(WordAt(image, 0)) <= |image|
  }

  function NodeOf(image: Bytes, i: nat): Node
    requires DataStart(i + 1) <= |image|
  {
    Node(CString(image, DataStart(i)), WordAt(image, DataStart(i) + 68), i)
  }

  function Parse(image: Bytes): (nodes: seq<Node>)
    requires Parsable(image)
    ensures |nodes| == WordAt(image, 0)
  {
    seq(WordAt(image, 0), i requires 0 <= i < WordAt(image, 0) => NodeOf(image, i))
  }

  /** The first node of that name at or after k. */
  function Lookup(nodes: seq<Node>, name: Bytes, k: nat): Found
    requires k <= |nodes|
    decreases |nodes| - k
  {
    if k == |nodes| then Missing else if nodes[k].name == name then FileAt(k) else Lookup(nodes, name, k + 1)
  }

  function Find(nodes: seq<Node>, name: Bytes): Found {
    if name == DOT || name == DOT_DOT then Root else Lookup(nodes, name, 0)
  }

  /** The size of a read after the two length tests, in 32-bit arithmetic. */
  function Clamped(length: u32, offset: u32, size: u32): u32 {
    if offset > length then 0 else if Wrap(offset + size) > length then length - offset else size
  }

  /** A read stays inside the file exactly when offset + size does not wrap, or the file is not reached at all. */
  lemma ClampedIff(length: u32, offset: u32, size: u32)
    ensures (offset <= length ==> offset + Clamped(length, offset, size) <= length) <==>
      offset > length || offset + size < TWO_32
    ensures offset > length ==> Clamped(length, offset, size) == 0
    ensures offset <= length && offset + size < TWO_32 ==>
      Clamped(length, offset, size) == if size <= length - offset then size else length - offset
  {
  }

  /** Directory entry number `index` of the root. */
  function Listed(nodes: seq<Node>, index: u32): Option<Dirent> {
    if index == 0 then Some(Dirent(DOT, 0))
    else if index == 1 then Some(Dirent(DOT_DOT, 0))
    else if index - 2 < |nodes| then Some(Dirent(nodes[index - 2].name, nodes[index - 2].inode))
    else None
  }

  /** What one read of file i delivers. */
  function ReadAt(image: Bytes, i: nat, offset: u32, size: u32): Bytes
    requires DataStart(i) + HEADER_SIZE <= |image|
  {
    var start, length := WordAt(image, DataStart(i) + 64), WordAt(image, DataStart(i) + 68);
    var count := Clamped(length, offset, size);
    if start + offset + count <= |image| then image[start + offset..start + offset + count] else []
  }

  class Reader {
    const image: Bytes
    var nodes: array<Node>

    constructor (image: Bytes)
      requires Parsable(image)
      ensures this.image == image && fresh(nodes) && nodes[..] == Parse(image)
    {
      this.image := image;
      var count := WordAt(image, 0);
      nodes := new Node[count](_ => Node([], 0, 0));
      new;
      for i := 0 to count
        invariant fresh(nodes) && nodes.Length == count
        invariant forall k :: 0 <= k < i ==> nodes[k] == NodeOf(image, k)
      {
        nodes[i] := Node(CString(image, DataStart(i)), WordAt(image, DataStart(i) + 68), i);
      }
    }

    /** initrd_finddir on the root. */
    method FindDir(name: Bytes) returns (found: Found)
      ensures found == Find(nodes[..], name)
    {
      if name == DOT {
        return Root;
      }
      if name == DOT_DOT {
        return Root;
      }
      for i := 0 to nodes.Length
        invariant Lookup(nodes[..], name, 0) == Lookup(nodes[..], name, i)
      {
        if nodes[i].name == name {
          return FileAt(i);
        }
      }
      found := Missing;
    }

    /** initrd_readdir on the root; index - 2 is taken in 32-bit arithmetic. */
    method ReadDir(index: u32) returns (entry: Option<Dirent>)
      ensures entry == Listed(nodes[..], index)
    {
      if index == 0 {
        return Some(Dirent(DOT, 0));
      }
      if index == 1 {
        return Some(Dirent(DOT_DOT, 0));
      }
      if Wrap(index - 2) < nodes.Length {
        return Some(Dirent(nodes[index - 2].name, nodes[index - 2].inode));
      }
      entry := None;
    }

    /** initrd_read: the clamped part of the file copied to the buffer's front. */
    method Read(inode: nat, offset: u32, size: u32, buffer: array<Byte>) returns (count: u32)
      requires Parsable(image) && inode < WordAt(image, 0)
      requires var length := WordAt(image, DataStart(inode) + 68);
        var start := WordAt(image, DataStart(inode) + 64);
        offset > length || (start + offset + Clamped(length, offset, size) <= |image| &&
                            Clamped(length, offset, size) <= buffer.Length)
      modifies buffer
      ensures count == Clamped(WordAt(image, DataStart(inode) + 68), offset, size) <= buffer.Length
      ensures buffer[..count] == ReadAt(image, inode, offset, size)
      ensures forall k :: count <= k < buffer.Length ==> buffer[k] == old(buffer[k])
    {
      var headerOffset := WordAt(image, DataStart(inode) + 64);
      var headerLength := WordAt(image, DataStart(inode) + 68);
      if offset > headerLength {
        return 0;
      }
      count := size;
      if Wrap(offset + size) > headerLength {
        count := headerLength - offset;
      }
      hide WordAt;
      for i := 0 to count
        invariant forall k :: 0 <= k < i ==> buffer[k] == image[headerOffset + offset + k]
        invariant forall k :: i <= k < buffer.Length ==> buffer[k] == old(buffer[k])
      {
        buffer[i] := image[headerOffset + offset + i];
      }
    }
  }

  // ---------------------------------------------------------------------
  // The round trip
  // ---------------------------------------------------------------------

  /** Every lookup: the root for the two dot names alone, else the first node of that name, or nothing. */
  lemma FindMeaning(nodes: seq<Node>, name: Bytes)
    ensures Find(nodes, name) == Root <==> name == ['.' as int] || name == ['.' as int, '.' as int]
    ensures Find(nodes, name) == Missing <==>
      name != ['.' as int] && name != ['.' as int, '.' as int] &&
      forall k :: 0 <= k < |nodes| ==> nodes[k].name != name
    ensures Find(nodes, name).FileAt? ==>
      var i := Find(nodes, name).index;
      i < |nodes| && nodes[i].name == name && forall k :: 0 <= k < i ==> nodes[k].name != name
  {
    LookupMeaning(nodes, name, 0);
  }

  lemma {:induction false} LookupMeaning(nodes: seq<Node>, name: Bytes, k: nat)
    requires k <= |nodes|
    ensures var found := Lookup(nodes, name, k);
      if found.FileAt?
      then k <= found.index < |nodes| && nodes[found.index].name == name &&
           forall j :: k <= j < found.index ==> nodes[j].name != name
      else found == Missing && forall j :: k <= j < |nodes| ==> nodes[j].name != name
    decreases |nodes| - k
  {
    if k < |nodes| && nodes[k].name != name {
      LookupMeaning(nodes, name, k + 1);
    }
  }

  /** The name the kernel knows file i by. */
  function NameOf(files: seq<File>, i: nat): Bytes
    requires i < |files|
  {
    Kept(BaseName(files[i].path))
  }

  function OffsetOf(files: seq<File>, i: nat): nat
    requires i <= |files|
  {
    DataStart(|files|) + Total(files, i)
  }

  /** Parsing the written image gives back every file's name, length and place. */
  lemma ParsedImage(files: seq<File>, i: nat)
    requires Fits(files) && i < |files|
    ensures Parsable(Image(files)) && |Parse(Image(files))| == |files|
    ensures OffsetOf(files, i) + |files[i].content| < TWO_32
    ensures Parse(Image(files))[i] == Node(NameOf(files, i), |files[i].content|, i)
    ensures DataStart(i) + HEADER_SIZE <= |Image(files)|
    ensures WordAt(Image(files), DataStart(i) + 64) == OffsetOf(files, i)
    ensures WordAt(Image(files), DataStart(i) + 68) == |files[i].content|
    ensures HasAt(Image(files), OffsetOf(files, i), files[i].content)
  {
    hide HasAt, HeaderBytes, BaseName, Image, WordBytes, WordAt, Total, CString, NoNul, Kept, Parsable, Parse;
    ImageParts(files, i);
    assert NoNul(files[i].path);
    HeaderFields(Image(files), DataStart(i), BaseName(files[i].path), OffsetOf(files, i), |files[i].content|);
    WordFound(Image(files), 0, |files|);
    ParsedNode(Image(files), |files|, i);
  }

  lemma ParsedNode(image: Bytes, n: nat, i: nat)
    requires i < n && DataStart(n) <= |image| && WordAt(image, 0) == n
    ensures Parsable(image) && |Parse(image)| == n
    ensures DataStart(i) + HEADER_SIZE <= |image|
    ensures Parse(image)[i] == Node(CString(image, DataStart(i)), WordAt(image, DataStart(i) + 68), i)
  {
  }

  lemma ParsedCount(files: seq<File>)
    requires Fits(files)
    ensures Parsable(Image(files)) && |Parse(Image(files))| == |files|
  {
    if files == [] {
      WordRoundTrip(0);
    } else {
      ParsedImage(files, 0);
    }
  }

  /** No earlier file is known by the basename of file i. */
  predicate FirstOfName(files: seq<File>, i: nat)
    requires i < |files|
  {
    forall j :: 0 <= j < i ==> NameOf(files, j) != BaseName(files[i].path)
  }

  /** Looking up a basename finds its file iff it was not cut short, is no dot entry, and is the first of its name. */
  lemma FindIff(files: seq<File>, i: nat)
    requires Fits(files) && i < |files|
    ensures Parsable(Image(files))
    ensures var base := BaseName(files[i].path);
      Find(Parse(Image(files)), base) == FileAt(i) <==>
        |base| <= 63 && base != DOT && base != DOT_DOT && FirstOfName(files, i)
  {
    hide BaseName, Image;
    ParsedImage(files, i);
    var base := BaseName(files[i].path);
    var nodes := Parse(Image(files));
    forall j | 0 <= j < i
      ensures nodes[j].name == NameOf(files, j)
    {
      ParsedImage(files, j);
    }
    LookupMeaning(nodes, base, 0);
  }

  lemma ReadAtIs(files: seq<File>, i: nat, offset: u32, size: u32)
    requires Fits(files) && i < |files| && offset <= |files[i].content| && offset + size < TWO_32
    ensures DataStart(i) + HEADER_SIZE <= |Image(files)|
    ensures var content := files[i].content;
      ReadAt(Image(files), i, offset, size) ==
        content[offset..if offset + size <= |content| then offset + size else |content|]
  {
    hide BaseName, Image, Fits, Total, HasAt, WordAt, OffsetOf, Parse;
    ParsedImage(files, i);
    var n := Clamped(|files[i].content|, offset, size);
    SubPart(Image(files), OffsetOf(files, i), files[i].content, offset, offset + n);
  }

  /** Consecutive reads from `offset` on, one for each size from number k on. */
  function ReadSeq(image: Bytes, i: nat, offset: nat, sizes: seq<u32>, k: nat): Bytes
    requires DataStart(i) + HEADER_SIZE <= |image| && k <= |sizes|
    decreases |sizes| - k
  {
    if k == |sizes| || offset >= TWO_32 then []
    else
      var part := ReadAt(image, i, offset, sizes[k]);
      part + ReadSeq(image, i, offset + |part|, sizes, k + 1)
  }

  function Sum(sizes: seq<u32>, k: nat): nat
    requires k <= |sizes|
    decreases |sizes| - k
  {
    if k == |sizes| then 0 else sizes[k] + Sum(sizes, k + 1)
  }

  function Upto(x: int, limit: int): int {
    if x <= limit then x else limit
  }

  /** No chunk's offset + size wraps, from chunk k at that offset on, each at the offset the one before it leads to. */
  predicate NoWrapFrom(offset: nat, sizes: seq<u32>, k: nat, length: nat)
    requires k <= |sizes|
    decreases |sizes| - k
  {
    k == |sizes| ||
    (offset + sizes[k] < TWO_32 && NoWrapFrom(Upto(offset + sizes[k], length), sizes, k + 1, length))
  }

  /** Chunks that stay inside the file never wrap. */
  lemma {:induction false} InRangeNeverWraps(offset: nat, sizes: seq<u32>, k: nat, length: nat)
    requires k <= |sizes| && offset + Sum(sizes, k) <= length < TWO_32
    ensures NoWrapFrom(offset, sizes, k, length)
    decreases |sizes| - k
  {
    if k < |sizes| {
      InRangeNeverWraps(offset + sizes[k], sizes, k + 1, length);
    }
  }

  /** Any chunk sizes whose reads do not wrap rebuild the file from the offset on, as far as they reach. */
  lemma {:induction false} ReadsRebuild(files: seq<File>, i: nat, offset: nat, sizes: seq<u32>, k: nat)
    requires Fits(files) && i < |files| && offset <= |files[i].content| && k <= |sizes|
    requires NoWrapFrom(offset, sizes, k, |files[i].content|)
    ensures DataStart(i) + HEADER_SIZE <= |Image(files)|
    ensures ReadSeq(Image(files), i, offset, sizes, k) ==
      files[i].content[offset..Upto(offset + Sum(sizes, k), |files[i].content|)]
    decreases |sizes| - k
  {
    hide BaseName, Image, ReadAt, Fits, Total, Parse, Parsable, HasAt, WordAt, OffsetOf, Kept;
    ParsedImage(files, i);
    var content := files[i].content;
    if k < |sizes| {
      ReadAtIs(files, i, offset, sizes[k]);
      var next := Upto(offset + sizes[k], |content|);
      ReadsRebuild(files, i, next, sizes, k + 1);
      var last := Upto(next + Sum(sizes, k + 1), |content|);
      assert content[offset..next] + content[next..last] == content[offset..last];
    }
  }

  /** Chunks that cover the file give back exactly its bytes. */
  lemma RoundTrip(files: seq<File>, i: nat, sizes: seq<u32>)
    requires Fits(files) && i < |files|
    requires |BaseName(files[i].path)| < NAME_SIZE
    requires BaseName(files[i].path) != DOT && BaseName(files[i].path) != DOT_DOT
    requires FirstOfName(files, i)
    requires NoWrapFrom(0, sizes, 0, |files[i].content|) && Sum(sizes, 0) >= |files[i].content|
    ensures Parsable(Image(files)) && DataStart(i) + HEADER_SIZE <= |Image(files)|
    ensures Find(Parse(Image(files)), BaseName(files[i].path)) == FileAt(i)
    ensures ReadSeq(Image(files), i, 0, sizes, 0) == files[i].content
  {
    hide BaseName, Image, Fits, ReadSeq, Find, Parse, Sum, FirstOfName;
    FindIff(files, i);
    ReadsRebuild(files, i, 0, sizes, 0);
    assert files[i].content[0..|files[i].content|] == files[i].content;
  }

  /** The directory lists the two dot entries and then every file once, in order, and nothing more. */
  lemma ListingIsComplete(files: seq<File>, index: u32)
    requires Fits(files)
    ensures Parsable(Image(files))
    ensures Listed(Parse(Image(files)), index) ==
      if index == 0 then Some(Dirent(DOT, 0))
      else if index == 1 then Some(Dirent(DOT_DOT, 0))
      else if index - 2 < |files| then Some(Dirent(NameOf(files, index - 2), index - 2))
      else None
  {
    hide Image, Fits, Total, HasAt, WordAt, OffsetOf, BaseName, Parsable, Kept;
    ParsedCount(files);
    if 2 <= index < |files| + 2 {
      ParsedImage(files, index - 2);
    }
  }

  /** Header i of the image names a place where the content lies. */
  predicate Stored(image: Bytes, i: nat, content: Bytes) {
    Parsable(image) && i < WordAt(image, 0) && DataStart(i) + HEADER_SIZE <= |image| &&
    WordAt(image, DataStart(i) + 68) == |content| && HasAt(image, WordAt(image, DataStart(i) + 64), content)
  }

  lemma WrittenIsStored(files: seq<File>, i: nat)
    requires Fits(files) && i < |files|
    ensures Stored(Image(files), i, files[i].content) && |files[i].content| < TWO_32
  {
    hide BaseName, Image, Fits, Total, WordAt, HasAt, OffsetOf, Kept;
    ParsedImage(files, i);
  }

  /** A read finds all its bytes in the image, and fits a buffer of the size asked for. */
  lemma ReadFits(image: Bytes, i: nat, content: Bytes, offset: u32, size: u32)
    requires Stored(image, i, content) && offset <= |content| < TWO_32 && offset + size < TWO_32
    ensures Parsable(image) && i < WordAt(image, 0) && DataStart(i) + HEADER_SIZE <= |image|
    ensures var count := Clamped(WordAt(image, DataStart(i) + 68), offset, size);
      count <= size && WordAt(image, DataStart(i) + 64) + offset + count <= |image| &&
      ReadAt(image, i, offset, size) == content[offset..Upto(offset + size, |content|)]
  {
    hide WordAt, HasAt;
    var n := Clamped(|content|, offset, size);
    SubPart(image, WordAt(image, DataStart(i) + 64), content, offset, offset + n);
  }

  /** One read through a buffer of the size asked for. */
  method OneRead(reader: Reader, i: nat, ghost content: Bytes, offset: u32, size: u32) returns (part: Bytes)
    requires Stored(reader.image, i, content) && offset <= |content| < TWO_32 && offset + size < TWO_32
    ensures part == content[offset..Upto(offset + size, |content|)]
  {
    ReadFits(reader.image, i, content, offset, size);
    hide Stored, ReadAt, Clamped, Parsable, WordAt;
    var buffer := new Byte[size](_ => 0);
    var count := reader.Read(i, offset, size, buffer);
    part := buffer[..count];
  }

  /** What one read adds to the part of the file read so far. */
  lemma NextPart(content: Bytes, offset: u32, sizes: seq<u32>, k: nat)
    requires offset <= |content| && k < |sizes| && NoWrapFrom(offset, sizes, k, |content|)
    ensures offset + sizes[k] < TWO_32
    ensures var next := Upto(offset + sizes[k], |content|);
      NoWrapFrom(next, sizes, k + 1, |content|) &&
      content[..offset] + content[offset..next] == content[..next] &&
      Upto(next + Sum(sizes, k + 1), |content|) == Upto(offset + Sum(sizes, k), |content|)
  {
  }

  /** A loop of reads, one for each size, each where the last one ended. */
  method ReadChunks(reader: Reader, i: nat, ghost content: Bytes, sizes: seq<u32>) returns (data: Bytes)
    requires Stored(reader.image, i, content) && |content| < TWO_32 && NoWrapFrom(0, sizes, 0, |content|)
    ensures data == content[..Upto(Sum(sizes, 0), |content|)]
  {
    hide Stored;
    data := [];
    for k := 0 to |sizes|
      invariant |data| <= |content| && data == content[..|data|] && NoWrapFrom(|data|, sizes, k, |content|)
      invariant Upto(|data| + Sum(sizes, k), |content|) == Upto(Sum(sizes, 0), |content|)
    {
      NextPart(content, |data|, sizes, k);
      var part := OneRead(reader, i, content, |data|, sizes[k]);
      data := data + part;
    }
  }

  /** Parser, lookup and reads over an image that has the file. */
  method LookUpAndRead(image: Bytes, name: Bytes, ghost i: nat, ghost content: Bytes, sizes: seq<u32>)
    returns (data: Bytes)
    requires Parsable(image) && Find(Parse(image), name) == FileAt(i) && Stored(image, i, content)
    requires |content| < TWO_32 && NoWrapFrom(0, sizes, 0, |content|) && Sum(sizes, 0) >= |content|
    ensures data == content
  {
    hide Find, Parse, Parsable, Stored, Sum, NoWrapFrom;
    var reader := new Reader(image);
    var found := reader.FindDir(name);
    data := ReadChunks(reader, found.index, content, sizes);
    assert content[..|content|] == content;
  }

  /** The image the writer leaves serves every file that can be told by its name. */
  lemma WrittenServes(files: seq<File>, i: nat)
    requires Fits(files) && i < |files| && |BaseName(files[i].path)| < NAME_SIZE
    requires BaseName(files[i].path) != DOT && BaseName(files[i].path) != DOT_DOT && FirstOfName(files, i)
    ensures Parsable(Image(files)) && Find(Parse(Image(files)), BaseName(files[i].path)) == FileAt(i)
    ensures Stored(Image(files), i, files[i].content) && |files[i].content| < TWO_32
  {
    hide BaseName, Image, Fits, Find, Parse, Stored, FirstOfName;
    FindIff(files, i);
    WrittenIsStored(files, i);
  }

  /** Writer, parser, lookup and reads in a row: the file comes back from the disk image, whatever the chunks. */
  method ReadBack(paths: seq<Bytes>, disk: map<Bytes, Bytes>, i: nat, sizes: seq<u32>) returns (data: Bytes)
    requires Acceptable(paths, disk) && |Readable(paths, disk)| == |paths| && i < |paths| && paths[i] in disk
    requires |BaseName(paths[i])| < NAME_SIZE && BaseName(paths[i]) != DOT && BaseName(paths[i]) != DOT_DOT
    requires FirstOfName(Readable(paths, disk), i)
    requires NoWrapFrom(0, sizes, 0, |disk[paths[i]]|) && Sum(sizes, 0) >= |disk[paths[i]]|
    ensures data == disk[paths[i]]
  {
    hide Readable, Acceptable, Fits, FirstOfName, BaseName, Image, Find, Parse, Parsable, Sum, Stored, NoWrapFrom;
    hide Headers, WordBytes;
    ReadableParts(paths, disk);
    ghost var files := Readable(paths, disk);
    assert files[i] == File(paths[i], disk[paths[i]]);
    AcceptableFits(paths, disk);
    WrittenServes(files, i);
    var status, image := MakeInitrd(paths, disk);
    data := LookUpAndRead(image, BaseName(paths[i]), i, disk[paths[i]], sizes);
  }
}

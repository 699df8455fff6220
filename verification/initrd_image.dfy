/** The initrd image format: a count, one 72-byte header per file, then the files' bytes. */
module InitrdImage {
  import opened Words

  type Bytes = seq<Byte>

  const COUNT_SIZE: int := 4
  const NAME_SIZE: int := 64
  const HEADER_SIZE: int := 72
  const MAX_FILES: int := 64
  const SLASH: Byte := 47

  // ---------------------------------------------------------------------
  // Parts of a byte sequence
  // ---------------------------------------------------------------------

  predicate HasAt(bs: Bytes, at: int, part: Bytes) {
    0 <= at && at + |part| <= |bs| && bs[at..at + |part|] == part
  }

  lemma HasLeft(a: Bytes, b: Bytes, at: int, part: Bytes)
    requires HasAt(a, at, part)
    ensures HasAt(a + b, at, part)
  {
  }

  lemma HasRight(a: Bytes, b: Bytes, at: int, part: Bytes)
    requires HasAt(b, at, part)
    ensures HasAt(a + b, |a| + at, part)
  {
  }

  lemma HasAll(a: Bytes)
    ensures HasAt(a, 0, a)
  {
  }

  lemma HasBoth(bs: Bytes, at: int, a: Bytes, b: Bytes)
    requires HasAt(bs, at, a + b)
    ensures HasAt(bs, at, a) && HasAt(bs, at + |a|, b)
  {
    var whole := bs[at..at + |a + b|];
    assert bs[at..at + |a|] == whole[..|a|] == a;
    assert bs[at + |a|..at + |a| + |b|] == whole[|a|..] == b;
  }

  lemma SubPart(bs: Bytes, at: int, part: Bytes, a: nat, b: nat)
    requires HasAt(bs, at, part) && a <= b <= |part|
    ensures 0 <= at && at + b <= |bs| && bs[at + a..at + b] == part[a..b]
  {
    var found := bs[at..at + |part|];
    forall k | a <= k < b
      ensures bs[at + k] == part[k]
    {
      assert bs[at + k] == found[k];
    }
    assert |bs[at + a..at + b]| == |part[a..b]|;
  }

  // ---------------------------------------------------------------------
  // Words and names as bytes
  // ---------------------------------------------------------------------

  /** Little-endian, as i386 and the host lay out a uint32_t. */
  function WordBytes(x: u32): (bs: Bytes)
    ensures |bs| == 4
  {
    [x % 256, x / 256 % 256, x / 65536 % 256, x / 16777216]
  }

  function WordAt(bs: Bytes, at: nat): u32
    requires at + 4 <= |bs|
  {
    var b0: int, b1: int, b2: int, b3: int := bs[at], bs[at + 1], bs[at + 2], bs[at + 3];
    b0 + 256 * b1 + 65536 * b2 + 16777216 * b3
  }

  /** The lowest byte comes first. */
  lemma LittleEndian(x: u32)
    ensures WordBytes(x)[0] == x % 256 && WordBytes(x)[1] == x / 0x100 % 256
    ensures WordBytes(x)[2] == x / 0x1_0000 % 256 && WordBytes(x)[3] == x / 0x100_0000 % 256
  {
  }

  lemma WordRoundTrip(x: u32)
    ensures WordAt(WordBytes(x), 0) == x
  {
    assert x == x / 256 * 256 + x % 256;
    assert x / 256 == x / 65536 * 256 + x / 256 % 256;
    assert x / 65536 == x / 16777216 * 256 + x / 65536 % 256;
  }

  lemma WordFound(bs: Bytes, at: nat, x: u32)
    requires HasAt(bs, at, WordBytes(x))
    ensures at + 4 <= |bs| && WordAt(bs, at) == x
  {
    WordRoundTrip(x);
    forall k | 0 <= k < 4
      ensures bs[at + k] == WordBytes(x)[k]
    {
      assert bs[at + k] == bs[at..at + 4][k];
    }
  }

  function Zeros(n: nat): (bs: Bytes)
    ensures |bs| == n
  {
    seq(n, _ => 0)
  }

  /** What strncpy of at most 63 characters keeps of a name. */
  function Kept(name: Bytes): (k: Bytes)
    ensures |k| <= NAME_SIZE - 1
  {
    if |name| < NAME_SIZE then name else name[..NAME_SIZE - 1]
  }

  function NameField(name: Bytes): (field: Bytes)
    ensures |field| == NAME_SIZE
  {
    Kept(name) + Zeros(NAME_SIZE - |Kept(name)|)
  }

  /** 64 bytes: at most the first 63 of the name, then NULs only. */
  lemma NamePadded(name: Bytes, k: nat)
    requires k < 64
    ensures |NameField(name)| == 64
    ensures NameField(name)[k] == if k < |name| && k < 63 then name[k] else 0
  {
  }

  predicate NoNul(bs: Bytes) {
    forall k :: 0 <= k < |bs| ==> bs[k] != 0
  }

  /** The C string that starts at `at`, read up to its NUL. */
  function CString(bs: Bytes, at: nat): Bytes
    requires at <= |bs|
    decreases |bs| - at
  {
    if at == |bs| || bs[at] == 0 then [] else [bs[at]] + CString(bs, at + 1)
  }

  lemma {:induction false} CStringIs(bs: Bytes, at: nat, name: Bytes)
    requires at + |name| < |bs| && bs[at..at + |name|] == name && NoNul(name) && bs[at + |name|] == 0
    ensures CString(bs, at) == name
    decreases |name|
  {
    if name != [] {
      assert bs[at] == bs[at..at + |name|][0] == name[0];
      assert bs[at + 1..at + |name|] == bs[at..at + |name|][1..] == name[1..];
      CStringIs(bs, at + 1, name[1..]);
    }
  }

  lemma NameRoundTrip(bs: Bytes, at: nat, name: Bytes)
    requires HasAt(bs, at, NameField(name)) && NoNul(name)
    ensures CString(bs, at) == Kept(name)
  {
    var k := Kept(name);
    var field := bs[at..at + NAME_SIZE];
    assert field[..|k|] == k;
    assert bs[at..at + |k|] == field[..|k|];
    assert bs[at + |k|] == field[|k|] == 0;
    CStringIs(bs, at, k);
  }

  /** What follows the last slash of a path, or all of it. */
  function BaseName(path: Bytes): (base: Bytes)
    ensures |base| <= |path| && base == path[|path| - |base|..]
    ensures NoNul(path) ==> NoNul(base)
  {
    if path == [] || path[|path| - 1] == SLASH then []
    else
      var before := BaseName(path[..|path| - 1]);
      before + [path[|path| - 1]]
  }

  lemma {:induction false} BaseNameMeaning(path: Bytes)
    ensures forall k :: 0 <= k < |BaseName(path)| ==> BaseName(path)[k] != '/' as int
    ensures |BaseName(path)| < |path| ==> path[|path| - |BaseName(path)| - 1] == '/' as int
  {
    if path != [] && path[|path| - 1] != SLASH {
      BaseNameMeaning(path[..|path| - 1]);
    }
  }

  // ---------------------------------------------------------------------
  // The image of a list of files
  // ---------------------------------------------------------------------

  datatype File = File(path: Bytes, content: Bytes)

  /** The bytes of the first n files together. */
  function Total(files: seq<File>, n: nat): nat
    requires n <= |files|
  {
    if n == 0 then 0 else Total(files, n - 1) + |files[n - 1].content|
  }

  function HeaderBytes(name: Bytes, offset: u32, length: u32): (bs: Bytes)
    ensures |bs| == HEADER_SIZE
  {
    NameField(name) + WordBytes(offset) + WordBytes(length)
  }

  /** The headers of the first n files, when the data begins at `start`. */
  function Headers(files: seq<File>, start: nat, n: nat): (bs: Bytes)
    requires n <= |files| && start + Total(files, n) < TWO_32
    ensures |bs| == HEADER_SIZE * n
  {
    if n == 0 then []
    else
      Headers(files, start, n - 1) +
      HeaderBytes(BaseName(files[n - 1].path), start + Total(files, n - 1), |files[n - 1].content|)
  }

  function Contents(files: seq<File>, n: nat): (bs: Bytes)
    requires n <= |files|
    ensures |bs| == Total(files, n)
  {
    if n == 0 then [] else Contents(files, n - 1) + files[n - 1].content
  }

  function DataStart(n: nat): nat {
    COUNT_SIZE + HEADER_SIZE * n
  }

  predicate Fits(files: seq<File>) {
    |files| <= MAX_FILES && DataStart(|files|) + Total(files, |files|) < TWO_32 &&
    forall i :: 0 <= i < |files| ==> NoNul(files[i].path)
  }

  function Image(files: seq<File>): Bytes
    requires Fits(files)
  {
    WordBytes(|files|) + Headers(files, DataStart(|files|), |files|) + Contents(files, |files|)
  }

  lemma {:induction false} TotalGrows(files: seq<File>, i: nat, n: nat)
    requires i < n <= |files|
    ensures Total(files, i) + |files[i].content| <= Total(files, n)
  {
    if i < n - 1 {
      TotalGrows(files, i, n - 1);
    }
  }

  /** Header i is found 72 bytes per file further. */
  lemma {:induction false} HeaderFound(files: seq<File>, start: nat, n: nat, i: nat)
    requires i < n <= |files| && start + Total(files, n) < TWO_32
    ensures Total(files, i) + |files[i].content| <= Total(files, n)
    ensures HasAt(Headers(files, start, n), HEADER_SIZE * i,
                  HeaderBytes(BaseName(files[i].path), start + Total(files, i), |files[i].content|))
  {
    hide HeaderBytes, BaseName, HasAt;
    TotalGrows(files, i, n);
    var before := Headers(files, start, n - 1);
    var last := HeaderBytes(BaseName(files[n - 1].path), start + Total(files, n - 1), |files[n - 1].content|);
    if i < n - 1 {
      HeaderFound(files, start, n - 1, i);
      HasLeft(before, last, HEADER_SIZE * i,
              HeaderBytes(BaseName(files[i].path), start + Total(files, i), |files[i].content|));
    } else {
      HasAll(last);
      HasRight(before, last, 0, last);
    }
  }

  /** The bytes of file i lie after those of the files before it. */
  lemma {:induction false} ContentFound(files: seq<File>, n: nat, i: nat)
    requires i < n <= |files|
    ensures HasAt(Contents(files, n), Total(files, i), files[i].content)
  {
    hide HasAt;
    if i < n - 1 {
      ContentFound(files, n - 1, i);
      HasLeft(Contents(files, n - 1), files[n - 1].content, Total(files, i), files[i].content);
    } else {
      HasAll(files[i].content);
      HasRight(Contents(files, n - 1), files[i].content, 0, files[i].content);
    }
  }

  /** Where the image keeps header i and the data of file i. */
  lemma ImageParts(files: seq<File>, i: nat)
    requires Fits(files) && i < |files|
    ensures |Image(files)| == DataStart(|files|) + Total(files, |files|)
    ensures HasAt(Image(files), 0, WordBytes(|files|))
    ensures Total(files, i) + |files[i].content| <= Total(files, |files|)
    ensures HasAt(Image(files), DataStart(i),
                  HeaderBytes(BaseName(files[i].path), DataStart(|files|) + Total(files, i), |files[i].content|))
    ensures HasAt(Image(files), DataStart(|files|) + Total(files, i), files[i].content)
  {
    hide WordBytes, Headers, Contents, HeaderBytes, Total, HasAt, NoNul, BaseName;
    var n := |files|;
    HeaderFound(files, DataStart(n), n, i);
    ContentFound(files, n, i);
    Joined(WordBytes(n), Headers(files, DataStart(n), n), Contents(files, n), HEADER_SIZE * i,
           HeaderBytes(BaseName(files[i].path), DataStart(n) + Total(files, i), |files[i].content|),
           Total(files, i), files[i].content);
  }

  /** Parts of three pieces, found in their concatenation. */
  lemma Joined(a: Bytes, b: Bytes, c: Bytes, i: int, x: Bytes, j: int, y: Bytes)
    requires HasAt(b, i, x) && HasAt(c, j, y)
    ensures HasAt(a + b + c, 0, a) && HasAt(a + b + c, |a| + i, x) && HasAt(a + b + c, |a| + |b| + j, y)
  {
    hide HasAt;
    HasAll(a);
    HasLeft(a, b, 0, a);
    HasLeft(a + b, c, 0, a);
    HasRight(a, b, i, x);
    HasLeft(a + b, c, |a| + i, x);
    HasRight(a + b, c, j, y);
  }

  /** The three fields of a header read back. */
  lemma HeaderFields(bs: Bytes, at: nat, name: Bytes, offset: u32, length: u32)
    requires HasAt(bs, at, HeaderBytes(name, offset, length)) && NoNul(name)
    ensures at + HEADER_SIZE <= |bs| && CString(bs, at) == Kept(name)
    ensures WordAt(bs, at + 64) == offset && WordAt(bs, at + 68) == length
  {
    assert at + HEADER_SIZE <= |bs|;
    hide HasAt, WordBytes, WordAt, NameField, CString;
    HasBoth(bs, at, NameField(name) + WordBytes(offset), WordBytes(length));
    HasBoth(bs, at, NameField(name), WordBytes(offset));
    NameRoundTrip(bs, at, name);
    WordFound(bs, at + 64, offset);
    WordFound(bs, at + 68, length);
  }
}

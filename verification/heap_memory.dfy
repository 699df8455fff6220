/** The block list as it lies in memory: a 16-byte header before every payload, linked by address. */
module HeapMemory {
  import opened Words
  import opened HeapBlocks

  type Words32 = map<int, u32>

  /** The `free` flag is one byte; the three bytes after it are padding and keep their value. */
  predicate FreeByte(word: u32) {
    word % 256 != 0
  }

  function WithByte(word: u32, free: bool): (word': u32)
    ensures word' % 256 == (if free then 1 else 0) && word' / 256 == word / 256
  {
    word / 256 * 256 + (if free then 1 else 0)
  }

  predicate Header(w: Words32, a: int, size: int, free: bool, next: int, prev: int) {
    a in w && a + 4 in w && a + 8 in w && a + 12 in w &&
    w[a] == size && FreeByte(w[a + 4]) == free && w[a + 8] == next && w[a + 12] == prev
  }

  /** The link fields hold neighbour addresses, with 0 at both ends. */
  function NextOf(bs: seq<Block>, i: int): int
    requires 0 <= i < |bs|
  {
    if i + 1 < |bs| then bs[i + 1].addr else 0
  }

  function PrevOf(bs: seq<Block>, i: int): int
    requires 0 <= i < |bs|
  {
    if i > 0 then bs[i - 1].addr else 0
  }

  predicate NodeAt(w: Words32, bs: seq<Block>, i: int)
    requires 0 <= i < |bs|
  {
    Header(w, bs[i].addr, bs[i].size, bs[i].free, NextOf(bs, i), PrevOf(bs, i))
  }

  ghost predicate ListIn(w: Words32, bs: seq<Block>) {
    forall i :: 0 <= i < |bs| ==> NodeAt(w, bs, i)
  }

  /** The readable words are exactly the aligned ones of [start, end). */
  ghost predicate SpansWords(w: Words32, start: int, end: int) {
    forall a :: a in w <==> start <= a < end && a % 4 == 0
  }

  /** All payload words of block b hold what they held. */
  ghost predicate PayloadKept(w: Words32, w': Words32, b: Block) {
    forall a :: b.addr + HEADER <= a < EndOf(b) && a in w ==> a in w' && w'[a] == w[a]
  }

  lemma PayloadThrough(w: Words32, w1: Words32, w2: Words32, b: Block)
    requires PayloadKept(w, w1, b) && PayloadKept(w1, w2, b)
    ensures PayloadKept(w, w2, b)
  {
  }

  /** Memory and list agree, over [start, end) of an 8-aligned, positive start. */
  ghost predicate Represents(w: Words32, bs: seq<Block>, start: int, end: int) {
    0 < start && start % 8 == 0 && bs != [] && Tiles(bs, start, end) && SpansWords(w, start, end) && ListIn(w, bs)
  }

  lemma HeaderCovered(w: Words32, bs: seq<Block>, start: int, end: int, i: int)
    requires 0 < start && start % 8 == 0 && Tiles(bs, start, end) && SpansWords(w, start, end) && 0 <= i < |bs|
    ensures bs[i].addr in w && bs[i].addr + 4 in w && bs[i].addr + 8 in w && bs[i].addr + 12 in w
    ensures bs[i].addr > 0
  {
    Placement(bs, start, end, i);
    assert Sized(bs[i]);
    HeaderAligned(bs[i].addr, start, end);
  }

  lemma HeaderAligned(a: int, start: int, end: int)
    requires 0 < start <= a && a + HEADER <= end && a % 8 == 0
    ensures start <= a < a + 12 < end
    ensures a % 4 == 0 && (a + 4) % 4 == 0 && (a + 8) % 4 == 0 && (a + 12) % 4 == 0
  {
    var q := 2 * (a / 8);
    assert a == 4 * q;
    Fourfold(q);
    Fourfold(q + 1);
    Fourfold(q + 2);
    Fourfold(q + 3);
  }

  lemma Fourfold(q: int)
    ensures 4 * q % 4 == 0
  {
  }

  lemma CoversSame(w: Words32, w': Words32, start: int, end: int)
    requires SpansWords(w, start, end) && w.Keys == w'.Keys
    ensures SpansWords(w', start, end)
  {
  }

  /** Headers at x and y share no word. */
  predicate Separate(x: int, y: int) {
    x + HEADER <= y || y + HEADER <= x
  }

  /** The header at x lies outside the payload of b. */
  predicate OutsidePayload(x: int, b: Block) {
    EndOf(b) <= x || x <= b.addr
  }

  lemma HeadersSeparate(bs: seq<Block>, start: int, end: int, i: int, j: int)
    requires Tiles(bs, start, end) && 0 <= i < |bs| && 0 <= j < |bs|
    ensures i != j ==> Separate(bs[i].addr, bs[j].addr)
    ensures OutsidePayload(bs[i].addr, bs[j])
  {
    assert Sized(bs[i]) && Sized(bs[j]);
    if i < j {
      Order(bs, start, end, i, j);
    } else if j < i {
      Order(bs, start, end, j, i);
    }
  }

  /** The stores of a whole header of a free block, in the order of the source. */
  function HeaderWords(w: Words32, a: u32, size: u32, next: u32, prev: u32): Words32
    requires a + 4 in w
  {
    w[a := size][a + 4 := WithByte(w[a + 4], true)][a + 8 := next][a + 12 := prev]
  }

  // ---------------------------------------------------------------------
  // Setting the flag
  // ---------------------------------------------------------------------

  function FlagWord(w: Words32, a: int, free: bool): Words32
    requires a + 4 in w
  {
    w[a + 4 := WithByte(w[a + 4], free)]
  }

  lemma FlagRepresents(w: Words32, bs: seq<Block>, start: int, end: int, i: int, free: bool)
    requires Represents(w, bs, start, end) && 0 <= i < |bs| && bs[i].addr + 4 in w
    ensures Represents(FlagWord(w, bs[i].addr, free), SetFree(bs, i, free), start, end)
    ensures forall j :: 0 <= j < |bs| ==> PayloadKept(w, FlagWord(w, bs[i].addr, free), bs[j])
  {
    var w', bs' := FlagWord(w, bs[i].addr, free), SetFree(bs, i, free);
    SetFreeTiles(bs, start, end, i, free);
    forall j | 0 <= j < |bs'|
      ensures NodeAt(w', bs', j) && PayloadKept(w, w', bs[j])
    {
      assert NodeAt(w, bs, j);
      HeadersSeparate(bs, start, end, i, j);
    }
  }

  // ---------------------------------------------------------------------
  // What a client writes
  // ---------------------------------------------------------------------

  function Weight(k: nat): nat
    requires k < 4
  {
    if k == 0 then 1 else if k == 1 then 256 else if k == 2 then 65536 else 16777216
  }

  /** Byte k of a word in memory, lowest first. */
  function ByteOf(word: u32, k: nat): Byte
    requires k < 4
  {
    word / Weight(k) % 256
  }

  function Join(b0: Byte, b1: Byte, b2: Byte, b3: Byte): u32 {
    b0 + 256 * b1 + 65536 * b2 + 16777216 * b3
  }

  lemma JoinedBytes(b0: Byte, b1: Byte, b2: Byte, b3: Byte)
    ensures var w := Join(b0, b1, b2, b3);
      ByteOf(w, 0) == b0 && ByteOf(w, 1) == b1 && ByteOf(w, 2) == b2 && ByteOf(w, 3) == b3
  {
    var w := Join(b0, b1, b2, b3);
    assert w == 256 * (b1 + 256 * b2 + 65536 * b3) + b0;
    assert w / 256 == 256 * (b2 + 256 * b3) + b1;
    assert w / 65536 == 256 * b3 + b2;
  }

  /** The word with byte k replaced. */
  function WithByteAt(word: u32, k: nat, value: Byte): u32
    requires k < 4
  {
    Join(if k == 0 then value else ByteOf(word, 0), if k == 1 then value else ByteOf(word, 1),
         if k == 2 then value else ByteOf(word, 2), if k == 3 then value else ByteOf(word, 3))
  }

  /** A byte store changes that byte of the word and no other. */
  lemma ByteAfter(word: u32, k: nat, value: Byte, j: nat)
    requires k < 4 && j < 4
    ensures ByteOf(WithByteAt(word, k, value), j) == if j == k then value else ByteOf(word, j)
  {
    hide ByteOf, Join;
    JoinedBytes(if k == 0 then value else ByteOf(word, 0), if k == 1 then value else ByteOf(word, 1),
                if k == 2 then value else ByteOf(word, 2), if k == 3 then value else ByteOf(word, 3));
  }

  /** A store inside a payload leaves every header, hence the list, as it was. */
  lemma PayloadStoreRepresents(w: Words32, bs: seq<Block>, start: int, end: int, i: int, a: int, value: u32)
    requires Represents(w, bs, start, end) && 0 <= i < |bs| && bs[i].addr + HEADER <= a < EndOf(bs[i]) && a in w
    requires a % 4 == 0
    ensures Represents(w[a := value], bs, start, end)
    ensures forall j :: 0 <= j < |bs| && j != i ==> PayloadKept(w, w[a := value], bs[j])
  {
    forall j | 0 <= j < |bs|
      ensures NodeAt(w[a := value], bs, j) && (j != i ==> PayloadKept(w, w[a := value], bs[j]))
    {
      assert NodeAt(w, bs, j);
      HeadersSeparate(bs, start, end, j, i);
      HeadersSeparate(bs, start, end, i, j);
      WordAfterHeader(bs[j].addr, a);
    }
  }

  lemma WordAfterHeader(x: int, a: int)
    ensures x + HEADER <= a || a < x ==> a !in {x, x + 4, x + 8, x + 12}
  {
  }

  // ---------------------------------------------------------------------
  // Absorbing the next block
  // ---------------------------------------------------------------------

  /** The stores of one merge: new size, next link past the absorbed block, and its successor's prev link. */
  function MergeWords(w: Words32, a: u32, size: u32, next: u32): Words32 {
    var w1 := w[a := size][a + 8 := next];
    if next != 0 then w1[next + 12 := a] else w1
  }

  /** One node of the merged list, from the addresses alone. */
  lemma MergeNode(w: Words32, bs: seq<Block>, i: int, j: int, size: u32, a: u32, next: u32)
    requires 0 <= i < |bs| - 1 && 0 <= j < |bs| && j != i + 1
    requires a == bs[i].addr && size == bs[i].size + HEADER + bs[i + 1].size && next == NextOf(bs, i + 1)
    requires NodeAt(w, bs, j)
    requires j != i ==> Separate(bs[i].addr, bs[j].addr)
    requires i + 2 < |bs| ==> next != 0 && Separate(a, next) && next + 12 in w
    requires i + 2 < |bs| && j != i + 2 ==> Separate(next, bs[j].addr)
    ensures NodeAt(MergeWords(w, a, size, next), Merge(bs, i), if j <= i then j else j - 1)
  {
  }

  lemma MergeRepresents(w: Words32, bs: seq<Block>, start: int, end: int, i: int, size: u32, a: u32, next: u32)
    requires Represents(w, bs, start, end) && 0 <= i < |bs| - 1
    requires a == bs[i].addr && size == bs[i].size + HEADER + bs[i + 1].size && next == NextOf(bs, i + 1)
    ensures Represents(MergeWords(w, a, size, next), Merge(bs, i), start, end)
  {
    var w', bs' := MergeWords(w, a, size, next), Merge(bs, i);
    MergeTiles(bs, start, end, i);
    HeaderCovered(w, bs, start, end, i);
    if i + 2 < |bs| {
      HeaderCovered(w, bs, start, end, i + 2);
      HeadersSeparate(bs, start, end, i, i + 2);
    }
    forall j' | 0 <= j' < |bs'|
      ensures NodeAt(w', bs', j')
    {
      var j := if j' <= i then j' else j' + 1;
      assert NodeAt(w, bs, j);
      HeadersSeparate(bs, start, end, i, j);
      if i + 2 < |bs| {
        HeadersSeparate(bs, start, end, i + 2, j);
      }
      MergeNode(w, bs, i, j, size, a, next);
    }
  }

  /** The header after the absorbed one, or the block's own when there is none. */
  function AfterNext(bs: seq<Block>, i: int): int
    requires 0 <= i < |bs| - 1
  {
    if i + 2 < |bs| then bs[i + 2].addr else bs[i].addr
  }

  /** The links a merge follows are all readable, and the joined size is a word. */
  lemma MergeReady(w: Words32, bs: seq<Block>, start: int, end: int, i: int)
    requires Represents(w, bs, start, end) && end < TWO_32 && 0 <= i < |bs| - 1
    ensures var a, next, after := bs[i].addr, bs[i + 1].addr, NextOf(bs, i + 1);
      a in w && a + 8 in w && w[a] == bs[i].size && w[a + 8] == next &&
      next in w && next + 8 in w && w[next] == bs[i + 1].size && w[next + 8] == after &&
      0 <= a && a + 8 < TWO_32 && next + 8 < TWO_32 && 0 <= after &&
      (after != 0 ==> after + 12 in w && after + 12 < TWO_32) &&
      0 < bs[i].size + HEADER + bs[i + 1].size < TWO_32
  {
    assert NodeAt(w, bs, i) && NodeAt(w, bs, i + 1) && Sized(bs[i]) && Sized(bs[i + 1]);
    Placement(bs, start, end, i);
    Placement(bs, start, end, i + 1);
    assert Adjoins(bs, i);
    if i + 2 < |bs| {
      assert NodeAt(w, bs, i + 2);
      Placement(bs, start, end, i + 2);
      assert Sized(bs[i + 2]);
    }
  }

  /** A link is 0 exactly at the end of the list it points out of. */
  lemma LinkZero(w: Words32, bs: seq<Block>, start: int, end: int, i: int)
    requires Represents(w, bs, start, end) && 0 <= i < |bs|
    ensures NextOf(bs, i) == 0 <==> i == |bs| - 1
    ensures PrevOf(bs, i) == 0 <==> i == 0
  {
    if i + 1 < |bs| {
      HeaderCovered(w, bs, start, end, i + 1);
    }
    if i > 0 {
      HeaderCovered(w, bs, start, end, i - 1);
    }
  }

  /** Every header written while block i is freed is a header of the list, outside all its payloads. */
  lemma FreeHeaders(bs: seq<Block>, start: int, end: int, i: int, j: int)
    requires Tiles(bs, start, end) && 0 <= i < |bs| && 0 <= j < |bs|
    ensures OutsidePayload(bs[i].addr, bs[j])
    ensures i + 1 < |bs| ==> OutsidePayload(AfterNext(SetFree(bs, i, true), i), bs[j])
    ensures i > 0 ==> OutsidePayload(bs[i - 1].addr, bs[j])
    ensures i > 0 ==> OutsidePayload(AfterNext(FreeForward(bs, i), i - 1), bs[j])
  {
    HeadersSeparate(bs, start, end, i, j);
    if i + 1 < |bs| {
      HeadersSeparate(bs, start, end, i + 1, j);
    }
    if i + 2 < |bs| {
      HeadersSeparate(bs, start, end, i + 2, j);
    }
    if i > 0 {
      HeadersSeparate(bs, start, end, i - 1, j);
    }
  }

  // ---------------------------------------------------------------------
  // Splitting
  // ---------------------------------------------------------------------

  /** The stores of one split of the block at a, whose rest starts at c. */
  function SplitWords(w: Words32, a: u32, n: u32, c: u32, rest: u32, next: u32): Words32
    requires c + 4 in w
  {
    var w1 := HeaderWords(w, c, rest, next, a);
    var w2 := if next != 0 then w1[next + 12 := c] else w1;
    w2[a + 8 := c][a := n]
  }

  /** The first half keeps its header, shortened; the rest has a header of its own. */
  lemma SplitOwnNodes(w: Words32, bs: seq<Block>, i: int, a: u32, n: u32, c: u32, rest: u32, next: u32)
    requires 0 <= i < |bs| && NodeAt(w, bs, i) && a == bs[i].addr && next == NextOf(bs, i)
    requires c == a + HEADER + n && rest == bs[i].size - n - HEADER && c + 4 in w && 0 <= n
    requires next != 0 ==> next >= c + HEADER
    ensures NodeAt(SplitWords(w, a, n, c, rest, next), Split(bs, i, n), i)
    ensures NodeAt(SplitWords(w, a, n, c, rest, next), Split(bs, i, n), i + 1)
  {
    var bs' := Split(bs, i, n);
    assert bs'[i].addr == a && bs'[i + 1].addr == c;
    assert NextOf(bs', i) == c && PrevOf(bs', i) == PrevOf(bs, i);
    assert NextOf(bs', i + 1) == next && PrevOf(bs', i + 1) == a;
  }

  lemma SplitOtherNode(w: Words32, bs: seq<Block>, i: int, a: u32, n: u32, c: u32, rest: u32, next: u32, j: int)
    requires 0 <= i < |bs| && 0 <= j < |bs| && j != i && NodeAt(w, bs, j) && a == bs[i].addr && next == NextOf(bs, i)
    requires c == a + HEADER + n && c + 4 in w
    requires Separate(a, bs[j].addr) && Separate(c, bs[j].addr)
    requires j == i + 1 ==> next != 0
    requires next != 0 && j != i + 1 ==> Separate(next, bs[j].addr)
    ensures NodeAt(SplitWords(w, a, n, c, rest, next), Split(bs, i, n), if j < i then j else j + 1)
  {
    var bs' := Split(bs, i, n);
    var j' := if j < i then j else j + 1;
    assert bs'[j'] == bs[j];
    assert NextOf(bs', j') == NextOf(bs, j);
    assert PrevOf(bs', j') == if j == i + 1 then c else PrevOf(bs, j);
  }

  lemma SplitKeys(w: Words32, a: u32, n: u32, c: u32, rest: u32, next: u32)
    requires a in w && a + 8 in w && c in w && c + 4 in w && c + 8 in w && c + 12 in w
    requires next != 0 ==> next + 12 in w
    ensures SplitWords(w, a, n, c, rest, next).Keys == w.Keys
  {
  }

  lemma SplitKeepsPayload(w: Words32, bs: seq<Block>, start: int, end: int, i: int,
                          a: u32, n: u32, c: u32, rest: u32, next: u32, j: int)
    requires Tiles(bs, start, end) && 0 <= i < |bs| && 0 <= j < |bs| && j != i
    requires a == bs[i].addr && next == NextOf(bs, i)
    requires n >= 0 && bs[i].size >= n + SPLIT_REST && c == a + HEADER + n && c + 4 in w
    ensures PayloadKept(w, SplitWords(w, a, n, c, rest, next), bs[j])
  {
    SplitApart(bs, start, end, i, n, j);
  }

  lemma AfterAligned(a: int, n: int)
    requires a % 8 == 0 && n % 8 == 0
    ensures (a + HEADER + n) % 8 == 0
  {
  }

  lemma SplitReady(w: Words32, bs: seq<Block>, start: int, end: int, i: int, n: int)
    requires Represents(w, bs, start, end) && 0 <= i < |bs|
    requires n >= 0 && n % 8 == 0 && bs[i].size >= n + SPLIT_REST
    ensures var c := bs[i].addr + HEADER + n; c in w && c + 4 in w && c + 8 in w && c + 12 in w
    ensures bs[i].addr in w && bs[i].addr + 8 in w
    ensures NextOf(bs, i) != 0 ==> NextOf(bs, i) + 12 in w
    ensures i + 1 < |bs| ==> NextOf(bs, i) != 0
    ensures NextOf(bs, i) != 0 ==> NextOf(bs, i) == EndOf(bs[i])
  {
    HeaderCovered(w, bs, start, end, i);
    Placement(bs, start, end, i);
    AfterAligned(bs[i].addr, n);
    HeaderAligned(bs[i].addr + HEADER + n, start, end);
    if i + 1 < |bs| {
      HeaderCovered(w, bs, start, end, i + 1);
      assert Adjoins(bs, i);
    }
  }

  lemma SplitNode(w: Words32, bs: seq<Block>, start: int, end: int, i: int,
                  a: u32, n: u32, c: u32, rest: u32, next: u32, j': int)
    requires Tiles(bs, start, end) && ListIn(w, bs) && 0 <= i < |bs| && a == bs[i].addr && next == NextOf(bs, i)
    requires n >= 0 && bs[i].size >= n + SPLIT_REST
    requires c == a + HEADER + n && rest == bs[i].size - n - HEADER && c + 4 in w
    requires i + 1 < |bs| ==> next != 0
    requires next != 0 ==> next == EndOf(bs[i])
    requires 0 <= j' <= |bs|
    ensures NodeAt(SplitWords(w, a, n, c, rest, next), Split(bs, i, n), j')
  {
    if j' == i || j' == i + 1 {
      assert NodeAt(w, bs, i);
      SplitOwnNodes(w, bs, i, a, n, c, rest, next);
    } else {
      var j := if j' < i then j' else j' - 1;
      assert NodeAt(w, bs, j);
      SplitApart(bs, start, end, i, n, j);
      SplitOtherNode(w, bs, i, a, n, c, rest, next, j);
    }
  }

  /** All addresses a split computes are words. */
  lemma SplitFits(w: Words32, bs: seq<Block>, start: int, end: int, i: int, n: int)
    requires Represents(w, bs, start, end) && end < TWO_32 - SPLIT_REST && 0 <= i < |bs|
    requires n >= 0 && n % 8 == 0 && bs[i].size >= n + SPLIT_REST
    ensures 0 < bs[i].addr && bs[i].addr + HEADER + n + SPLIT_REST < TWO_32
    ensures 0 <= NextOf(bs, i) && NextOf(bs, i) + 12 < TWO_32
    ensures bs[i].addr in w && w[bs[i].addr] == bs[i].size
    ensures bs[i].addr + 8 in w && w[bs[i].addr + 8] == NextOf(bs, i)
  {
    assert NodeAt(w, bs, i);
    Placement(bs, start, end, i);
    if i + 1 < |bs| {
      Placement(bs, start, end, i + 1);
      assert Sized(bs[i + 1]);
    }
  }

  /** The payload starts at a readable address. */
  lemma PayloadWord(w: Words32, bs: seq<Block>, start: int, end: int, i: int)
    requires Represents(w, bs, start, end) && 0 <= i < |bs|
    ensures 0 < bs[i].addr && bs[i].addr + HEADER <= end
  {
    Placement(bs, start, end, i);
    assert Sized(bs[i]);
  }

  lemma SplitRepresents(w: Words32, bs: seq<Block>, start: int, end: int, i: int,
                        a: u32, n: u32, c: u32, rest: u32, next: u32)
    requires Represents(w, bs, start, end) && 0 <= i < |bs| && a == bs[i].addr && next == NextOf(bs, i)
    requires n >= 0 && n % 8 == 0 && bs[i].size >= n + SPLIT_REST
    requires c == a + HEADER + n && rest == bs[i].size - n - HEADER && c + 4 in w
    ensures Represents(SplitWords(w, a, n, c, rest, next), Split(bs, i, n), start, end)
  {
    var w', bs' := SplitWords(w, a, n, c, rest, next), Split(bs, i, n);
    SplitTiles(bs, start, end, i, n);
    SplitReady(w, bs, start, end, i, n);
    SplitKeys(w, a, n, c, rest, next);
    CoversSame(w, w', start, end);
    forall j' | 0 <= j' < |bs'|
      ensures NodeAt(w', bs', j')
    {
      SplitNode(w, bs, start, end, i, a, n, c, rest, next, j');
    }
  }

  /** Headers and payloads of the other blocks lie clear of the split block and of its successor's header. */
  lemma SplitApart(bs: seq<Block>, start: int, end: int, i: int, n: int, j: int)
    requires Tiles(bs, start, end) && 0 <= i < |bs| && 0 <= j < |bs| && j != i
    requires n >= 0 && bs[i].size >= n + SPLIT_REST
    ensures Separate(bs[i].addr, bs[j].addr) && Separate(bs[i].addr + HEADER + n, bs[j].addr)
    ensures OutsidePayload(bs[i].addr, bs[j]) && OutsidePayload(bs[i].addr + HEADER + n, bs[j])
    ensures EndOf(bs[j]) <= bs[i].addr || EndOf(bs[i]) <= bs[j].addr
    ensures i + 1 < |bs| ==> OutsidePayload(bs[i + 1].addr, bs[j])
    ensures i + 1 < |bs| && j != i + 1 ==> Separate(bs[i + 1].addr, bs[j].addr)
  {
    assert Sized(bs[i]) && Sized(bs[j]);
    if i < j {
      Order(bs, start, end, i, j);
    } else {
      Order(bs, start, end, j, i);
    }
    if i + 1 < |bs| {
      HeadersSeparate(bs, start, end, i + 1, j);
    }
  }

  // ---------------------------------------------------------------------
  // Extending
  // ---------------------------------------------------------------------

  /** The stores that append a free block at e after the last block. */
  function ExtendWords(w: Words32, last: u32, e: u32, size: u32): Words32
    requires e + 4 in w
  {
    HeaderWords(w, e, size, 0, last)[last + 8 := e]
  }

  /** A list over the old range, in a memory that already reaches further. */
  ghost predicate RepresentsBelow(w: Words32, bs: seq<Block>, start: int, end: int, end': int) {
    0 < start && start % 8 == 0 && bs != [] && Tiles(bs, start, end) && end < end' &&
    SpansWords(w, start, end') && ListIn(w, bs)
  }

  lemma ExtendNode(w: Words32, bs: seq<Block>, last: u32, e: u32, size: u32, j: int)
    requires 0 <= j < |bs| && NodeAt(w, bs, j) && e + 4 in w && last == bs[|bs| - 1].addr
    requires j < |bs| - 1 ==> Separate(last, bs[j].addr)
    requires bs[j].addr + HEADER <= e
    ensures NodeAt(ExtendWords(w, last, e, size), bs + [Block(e, size, true)], j)
  {
  }

  lemma ExtendKeepsPayload(w: Words32, bs: seq<Block>, start: int, end: int, last: u32, e: u32, size: u32, j: int)
    requires Tiles(bs, start, end) && start % 8 == 0 && 0 <= j < |bs| && e + 4 in w
    requires last == bs[|bs| - 1].addr && e == end
    ensures PayloadKept(w, ExtendWords(w, last, e, size), bs[j])
  {
    Placement(bs, start, end, j);
    HeadersSeparate(bs, start, end, |bs| - 1, j);
  }

  lemma ExtendReady(w: Words32, bs: seq<Block>, start: int, end: int, size: int)
    requires RepresentsBelow(w, bs, start, end, end + HEADER + size) && size > 0
    ensures end in w && end + 4 in w && end + 8 in w && end + 12 in w
    ensures bs[|bs| - 1].addr + 8 in w
  {
    var i := |bs| - 1;
    Placement(bs, start, end, i);
    assert NodeAt(w, bs, i) && Sized(bs[i]);
    AfterAligned(bs[i].addr, bs[i].size);
    HeaderAligned(end, start, end + HEADER + size);
  }

  lemma ExtendRepresents(w: Words32, bs: seq<Block>, start: int, end: int, last: u32, e: u32, size: u32)
    requires RepresentsBelow(w, bs, start, end, end + HEADER + size)
    requires last == bs[|bs| - 1].addr && e == end && size > 0 && size % 8 == 0 && e + 4 in w
    ensures Represents(ExtendWords(w, last, e, size), bs + [Block(end, size, true)], start, end + HEADER + size)
  {
    hide PayloadKept, WithByte;
    var w', bs' := ExtendWords(w, last, e, size), bs + [Block(end, size, true)];
    AppendTiles(bs, start, end, Block(end, size, true));
    ExtendReady(w, bs, start, end, size);
    assert w'.Keys == w.Keys;
    CoversSame(w, w', start, end + HEADER + size);
    hide Tiles, SpansWords;
    forall j | 0 <= j < |bs|
      ensures NodeAt(w', bs', j)
    {
      assert NodeAt(w, bs, j) && Sized(bs[j]);
      Placement(bs, start, end, j);
      HeadersSeparate(bs, start, end, |bs| - 1, j);
      ExtendNode(w, bs, last, e, size, j);
    }
    Placement(bs, start, end, |bs| - 1);
    assert Sized(bs[|bs| - 1]);
    assert NodeAt(w', bs', |bs|);
  }

  /** The stores that make [start, end) one free block. */
  function FirstWords(w: Words32, start: u32, size: u32): Words32
    requires start + 4 in w
  {
    HeaderWords(w, start, size, 0, 0)
  }

  lemma FirstRepresents(w: Words32, start: u32, size: u32)
    requires 0 < start && start % 8 == 0 && size > 0 && size % 8 == 0
    requires SpansWords(w, start, start + HEADER + size) && start + 4 in w
    ensures Represents(FirstWords(w, start, size), [Block(start, size, true)], start, start + HEADER + size)
  {
    var bs := [Block(start, size, true)];
    HeaderAligned(start, start, start + HEADER + size);
    assert start in w && start + 4 in w && start + 8 in w && start + 12 in w;
    assert FirstWords(w, start, size).Keys == w.Keys;
    CoversSame(w, FirstWords(w, start, size), start, start + HEADER + size);
    assert NodeAt(FirstWords(w, start, size), bs, 0);
    assert Sized(bs[0]);
  }
}

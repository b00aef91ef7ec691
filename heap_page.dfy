/** Heap pages (HeapPage.java): a header bitmap saying which tuple slots are
    in use, the fixed-size slots themselves, and zero padding up to the page
    size. */
module HeapPages {
  import opened Wrappers
  import opened JavaInt
  import opened Ids
  import opened Schema

  /** Positive page sizes for which `pageSize * 8` is still a Java int. */
  type PageSize = n: nat | 0 < n < 0x1000_0000 witness 4096

  // ---------------------------------------------------------------------
  // Slot arithmetic

  /** getNumTuples: floor(pageSize * 8 / (tupleSize * 8 + 1)). */
  function NumSlots(pageSize: nat, tupleSize: nat): nat
  {
    var bits: nat := pageSize * 8;
    var perTuple: nat := tupleSize * 8 + 1;
    bits / perTuple
  }

  lemma DivBounds(x: nat, d: nat)
    requires d > 0
    ensures 0 <= x / d <= x
  {
    var q := x / d;
    assert q * d + x % d == x;
    MulMono(1, d, q);
  }

  /** getHeaderSize: ceiling(numSlots / 8) bytes. */
  function HeaderSize(numSlots: nat): nat
  {
    (numSlots + 7) / 8
  }

  /** NumSlots is the largest slot count whose bits and bytes fit the page. */
  lemma NumSlotsIsMaximal(pageSize: nat, tupleSize: nat)
    ensures NumSlots(pageSize, tupleSize) * (tupleSize * 8 + 1) <= pageSize * 8
    ensures (NumSlots(pageSize, tupleSize) + 1) * (tupleSize * 8 + 1) > pageSize * 8
  {
    var d := tupleSize * 8 + 1;
    var n := NumSlots(pageSize, tupleSize);
    assert pageSize * 8 == n * d + pageSize * 8 % d;
    assert (n + 1) * d == n * d + d;
  }

  /** The header holds one bit per slot, and no byte more than it needs. */
  lemma HeaderIsCeiling(numSlots: nat)
    ensures HeaderSize(numSlots) * 8 >= numSlots
    ensures HeaderSize(numSlots) * 8 < numSlots + 8
  {
  }

  /** Header plus slots never exceed the page, so the padding is never negative. */
  lemma LayoutFits(pageSize: nat, tupleSize: nat)
    ensures HeaderSize(NumSlots(pageSize, tupleSize)) + NumSlots(pageSize, tupleSize) * tupleSize <= pageSize
  {
    var n := NumSlots(pageSize, tupleSize);
    var m := n * tupleSize;
    NumSlotsIsMaximal(pageSize, tupleSize);
    assert n * (tupleSize * 8 + 1) == 8 * m + n;
    var q := HeaderSize(n);
    assert 8 * q <= n + 7;
    assert 8 * (q + m) <= 8 * pageSize + 7;
  }

  lemma MulSucc(k: nat, c: nat)
    ensures (k + 1) * c == k * c + c
  {
  }

  lemma MulMono(a: nat, b: nat, c: nat)
    requires a <= b
    ensures a * c <= b * c
  {
  }

  /** A page never has more slots than a Java int can number. */
  lemma SlotsAreInt32(pageSize: PageSize, tupleSize: nat)
    ensures NumSlots(pageSize, tupleSize) <= MaxValue
  {
    DivBounds(pageSize * 8, tupleSize * 8 + 1);
  }

  // ---------------------------------------------------------------------
  // The header bitmap

  /** Bit `pos` of a header byte, `b & (1 << pos)`; a bit position is a
      3-bit value, as `i % 8` always is. */
  function Bit(b: bv8, pos: bv3): bool
  {
    b & (1 << pos) != 0
  }

  /** The byte with bit `pos` set (`b | 1 << pos`) or cleared (`~(1 << pos) & b`). */
  function SetBit(b: bv8, pos: bv3, v: bool): (r: bv8)
    ensures Bit(r, pos) == v
    ensures forall j: bv3 :: j != pos ==> Bit(r, j) == Bit(b, j)
  {
    if v then b | (1 << pos) else !(1 << pos) & b
  }

  /** isSlotUsed(i) for i >= 0: false from numSlots on, otherwise bit i % 8 of
      header byte i / 8 (the byte index is in range whenever the header has
      HeaderSize(numSlots) bytes). */
  function IsSlotUsed(header: seq<bv8>, numSlots: nat, i: nat): bool
  {
    i < numSlots && i / 8 < |header| && Bit(header[i / 8], (i % 8) as bv3)
  }

  /** markSlotUsed(i, v) on the header bytes: only slot i's bit changes. */
  function SetSlot(header: seq<bv8>, numSlots: nat, i: nat, v: bool): (r: seq<bv8>)
    requires i < numSlots && |header| == HeaderSize(numSlots)
    ensures |r| == |header|
    ensures IsSlotUsed(r, numSlots, i) == v
    ensures forall j: nat :: j != i ==> IsSlotUsed(r, numSlots, j) == IsSlotUsed(header, numSlots, j)
  {
    var r := header[i / 8 := SetBit(header[i / 8], (i % 8) as bv3, v)];
    assert forall j: nat :: j / 8 == i / 8 && j != i ==> (j % 8) as bv3 != (i % 8) as bv3;
    r
  }

  /** The number of unused slots below k. */
  function EmptyCount(header: seq<bv8>, numSlots: nat, k: nat): (r: nat)
    ensures r <= k
  {
    if k == 0 then 0
    else EmptyCount(header, numSlots, k - 1) + (if IsSlotUsed(header, numSlots, k - 1) then 0 else 1)
  }

  /** A page is full exactly when no slot below numSlots is unused. */
  lemma {:induction false} EmptyCountZero(header: seq<bv8>, numSlots: nat, k: nat)
    ensures EmptyCount(header, numSlots, k) == 0 <==> forall j :: 0 <= j < k ==> IsSlotUsed(header, numSlots, j)
  {
    if k > 0 {
      EmptyCountZero(header, numSlots, k - 1);
    }
  }

  /** Changing one slot's bit moves the empty count by one in the matching direction. */
  lemma {:induction false} EmptyCountAfterSet(header: seq<bv8>, numSlots: nat, i: nat, v: bool, k: nat)
    requires i < numSlots && |header| == HeaderSize(numSlots)
    ensures var after := EmptyCount(SetSlot(header, numSlots, i, v), numSlots, k);
            var before := EmptyCount(header, numSlots, k);
            if i >= k then after == before
            else after == before + (if IsSlotUsed(header, numSlots, i) then 1 else 0) - (if v then 1 else 0)
  {
    EmptyCountOneChange(header, SetSlot(header, numSlots, i, v), numSlots, i, v, k);
  }

  lemma {:induction false} EmptyCountOneChange(header: seq<bv8>, after: seq<bv8>, numSlots: nat, i: nat, v: bool, k: nat)
    requires IsSlotUsed(after, numSlots, i) == v
    requires forall j: nat :: j != i ==> IsSlotUsed(after, numSlots, j) == IsSlotUsed(header, numSlots, j)
    ensures var a := EmptyCount(after, numSlots, k);
            var b := EmptyCount(header, numSlots, k);
            if i >= k then a == b
            else a == b + (if IsSlotUsed(header, numSlots, i) then 1 else 0) - (if v then 1 else 0)
  {
    if k > 0 {
      EmptyCountOneChange(header, after, numSlots, i, v, k - 1);
    }
  }

  // ---------------------------------------------------------------------
  // Page images and the serialised layout

  /** The parsed content of a page: its header and, per slot, the fields
      stored there (empty for an unused slot). */
  datatype PageImage = PageImage(header: seq<bv8>, rows: seq<seq<Field>>)

  predicate WellFormed(img: PageImage, numSlots: nat)
  {
    |img.header| == HeaderSize(numSlots) && |img.rows| == numSlots
  }

  /** Unused slots carry no fields, as in every image taken from a page. */
  predicate Normal(img: PageImage)
  {
    forall i :: 0 <= i < |img.rows| && !IsSlotUsed(img.header, |img.rows|, i) ==> img.rows[i] == []
  }

  /** What createEmptyPageData parses to: a zero header, no used slot. */
  function EmptyImage(numSlots: nat): (r: PageImage)
    ensures WellFormed(r, numSlots) && Normal(r)
    ensures forall i: nat :: !IsSlotUsed(r.header, numSlots, i)
  {
    PageImage(Zeros(HeaderSize(numSlots)), seq(numSlots, _ => []))
  }

  /** A byte string cut or zero-padded to exactly n bytes. */
  function Fit(bytes: seq<bv8>, n: nat): (r: seq<bv8>)
    ensures |r| == n
    ensures |bytes| == n ==> r == bytes
  {
    if |bytes| >= n then bytes[..n] else bytes + Zeros(n - |bytes|)
  }

  /** Where slot i starts after the header: i * tupleSize, written as a sum
      so that the layout proofs stay linear. */
  function Offset(i: nat, tupleSize: nat): nat
  {
    if i == 0 then 0 else Offset(i - 1, tupleSize) + tupleSize
  }

  lemma {:induction false} OffsetIsProduct(i: nat, tupleSize: nat)
    ensures Offset(i, tupleSize) == i * tupleSize
  {
    if i > 0 {
      OffsetIsProduct(i - 1, tupleSize);
      MulSucc(i - 1, tupleSize);
    }
  }

  lemma {:induction false} OffsetMono(i: nat, j: nat, tupleSize: nat)
    requires i <= j
    ensures Offset(i, tupleSize) <= Offset(j, tupleSize)
    decreases j
  {
    if i < j {
      OffsetMono(i, j - 1, tupleSize);
    }
  }

  /** Slot i's bytes: the row's fields when the slot is used, zeros otherwise. */
  function SlotData(img: PageImage, tupleSize: nat, i: nat): (r: seq<bv8>)
    requires i < |img.rows|
    ensures |r| == tupleSize
  {
    if IsSlotUsed(img.header, |img.rows|, i) then Fit(RowBytes(img.rows[i]), tupleSize) else Zeros(tupleSize)
  }

  /** Chunks laid end to end. */
  function Flatten<T>(chunks: seq<seq<T>>): seq<T>
  {
    if |chunks| == 0 then [] else Flatten(chunks[..|chunks| - 1]) + chunks[|chunks| - 1]
  }

  /** Chunks that all have width w fill Offset(|chunks|, w) elements, and
      chunk i sits at Offset(i, w) .. Offset(i + 1, w). */
  lemma {:induction false} FlattenChunk<T>(chunks: seq<seq<T>>, w: nat, i: nat)
    requires forall j :: 0 <= j < |chunks| ==> |chunks[j]| == w
    requires i < |chunks|
    ensures |Flatten(chunks)| == Offset(|chunks|, w)
    ensures Offset(i + 1, w) <= Offset(|chunks|, w)
    ensures Flatten(chunks)[Offset(i, w) .. Offset(i + 1, w)] == chunks[i]
  {
    var k := |chunks|;
    var prefix := Flatten(chunks[..k - 1]);
    var last := chunks[k - 1];
    var lo := Offset(i, w);
    var hi := Offset(i + 1, w);
    if i < k - 1 {
      FlattenChunk(chunks[..k - 1], w, i);
      SliceOfPrefix(prefix, last, lo, hi);
    } else {
      FlattenLength(chunks[..k - 1], w);
      SliceOfSuffix(prefix, last, lo, hi);
    }
  }

  lemma {:induction false} FlattenLength<T>(chunks: seq<seq<T>>, w: nat)
    requires forall j :: 0 <= j < |chunks| ==> |chunks[j]| == w
    ensures |Flatten(chunks)| == Offset(|chunks|, w)
  {
    if |chunks| > 0 {
      FlattenLength(chunks[..|chunks| - 1], w);
    }
  }

  lemma SliceOfPrefix<T>(p: seq<T>, q: seq<T>, lo: nat, hi: nat)
    requires lo <= hi <= |p|
    ensures (p + q)[lo..hi] == p[lo..hi]
  {
  }

  lemma SliceOfSuffix<T>(p: seq<T>, q: seq<T>, lo: nat, hi: nat)
    requires lo == |p| && hi == |p| + |q|
    ensures (p + q)[lo..hi] == q
  {
  }

  /** Every slot's bytes, in slot order. */
  function SlotChunks(img: PageImage, tupleSize: nat): (r: seq<seq<bv8>>)
    ensures |r| == |img.rows|
    ensures forall i :: 0 <= i < |r| ==> r[i] == SlotData(img, tupleSize, i) && |r[i]| == tupleSize
  {
    seq(|img.rows|, i requires 0 <= i < |img.rows| => SlotData(img, tupleSize, i))
  }

  /** The bytes of slots 0 .. k-1, one after the other. */
  function SlotsData(img: PageImage, tupleSize: nat, k: nat): (r: seq<bv8>)
    requires k <= |img.rows|
    ensures |r| == Offset(k, tupleSize)
  {
    if k == 0 then [] else SlotsData(img, tupleSize, k - 1) + SlotData(img, tupleSize, k - 1)
  }

  /** The slots' bytes are the slot chunks laid end to end. */
  lemma {:induction false} SlotsDataFlat(img: PageImage, tupleSize: nat, k: nat)
    requires k <= |img.rows|
    ensures SlotsData(img, tupleSize, k) == Flatten(SlotChunks(img, tupleSize)[..k])
  {
    if k > 0 {
      SlotsDataFlat(img, tupleSize, k - 1);
      assert SlotChunks(img, tupleSize)[..k][..k - 1] == SlotChunks(img, tupleSize)[..k - 1];
    }
  }

  /** getPageData's layout: header, then every slot, then zero padding. */
  function PageData(img: PageImage, tupleSize: nat, pageSize: nat): (r: seq<bv8>)
    requires |img.header| + Offset(|img.rows|, tupleSize) <= pageSize
    ensures |r| == pageSize
  {
    img.header + SlotsData(img, tupleSize, |img.rows|) + Zeros(pageSize - (|img.header| + Offset(|img.rows|, tupleSize)))
  }

  lemma SlotsDataSlot(img: PageImage, tupleSize: nat, i: nat)
    requires i < |img.rows|
    ensures Offset(i + 1, tupleSize) <= Offset(|img.rows|, tupleSize)
    ensures SlotsData(img, tupleSize, |img.rows|)[Offset(i, tupleSize) .. Offset(i + 1, tupleSize)] == SlotData(img, tupleSize, i)
  {
    var chunks := SlotChunks(img, tupleSize);
    SlotsDataFlat(img, tupleSize, |img.rows|);
    assert chunks[..|img.rows|] == chunks;
    FlattenChunk(chunks, tupleSize, i);
  }

  lemma SliceOfFront<T>(a: seq<T>, b: seq<T>, c: seq<T>)
    ensures (a + b + c)[..|a|] == a
  {
  }

  lemma SliceOfMiddle<T>(a: seq<T>, b: seq<T>, c: seq<T>, lo: nat, hi: nat)
    requires lo <= hi <= |b|
    ensures (a + b + c)[|a| + lo .. |a| + hi] == b[lo..hi]
  {
    assert a + b + c == a + (b + c);
  }

  lemma ZerosAppend(m: nat, n: nat)
    ensures Zeros(m) + Zeros(n) == Zeros(m + n)
  {
  }

  /** Where each part of a page lives in getPageData's bytes: the header
      first, slot i at |header| + i * tupleSize, zeros after the last slot. */
  lemma PageDataHeader(img: PageImage, tupleSize: nat, pageSize: nat)
    requires |img.header| + Offset(|img.rows|, tupleSize) <= pageSize
    ensures PageData(img, tupleSize, pageSize)[..|img.header|] == img.header
  {
    var slots := SlotsData(img, tupleSize, |img.rows|);
    var rest := Zeros(pageSize - (|img.header| + |slots|));
    SliceOfFront(img.header, slots, rest);
  }

  lemma PageDataSlot(img: PageImage, tupleSize: nat, pageSize: nat, i: nat)
    requires |img.header| + Offset(|img.rows|, tupleSize) <= pageSize
    requires i < |img.rows|
    ensures |img.header| + Offset(i + 1, tupleSize) <= pageSize
    ensures PageData(img, tupleSize, pageSize)[|img.header| + Offset(i, tupleSize) .. |img.header| + Offset(i + 1, tupleSize)]
            == SlotData(img, tupleSize, i)
  {
    var slots := SlotsData(img, tupleSize, |img.rows|);
    var rest := Zeros(pageSize - (|img.header| + |slots|));
    SlotsDataSlot(img, tupleSize, i);
    SliceOfMiddle(img.header, slots, rest, Offset(i, tupleSize), Offset(i + 1, tupleSize));
  }

  lemma PageDataPadding(img: PageImage, tupleSize: nat, pageSize: nat)
    requires |img.header| + Offset(|img.rows|, tupleSize) <= pageSize
    ensures forall j :: |img.header| + Offset(|img.rows|, tupleSize) <= j < pageSize ==> PageData(img, tupleSize, pageSize)[j] == 0
  {
  }

  /** The bytes of a well-formed image of a page with these sizes. */
  function PageBytes(img: PageImage, tupleSize: nat, pageSize: nat): (r: seq<bv8>)
    requires WellFormed(img, NumSlots(pageSize, tupleSize))
    ensures |r| == pageSize
  {
    LayoutFits(pageSize, tupleSize);
    OffsetIsProduct(NumSlots(pageSize, tupleSize), tupleSize);
    PageData(img, tupleSize, pageSize)
  }

  /** Chunks that are all zero bytes flatten to zero bytes. */
  lemma {:induction false} FlattenZeros(chunks: seq<seq<bv8>>, w: nat)
    requires forall j :: 0 <= j < |chunks| ==> chunks[j] == Zeros(w)
    ensures Flatten(chunks) == Zeros(Offset(|chunks|, w))
  {
    if |chunks| > 0 {
      FlattenZeros(chunks[..|chunks| - 1], w);
      ZerosAppend(Offset(|chunks| - 1, w), w);
    }
  }

  lemma EmptySlotsData(numSlots: nat, tupleSize: nat)
    ensures SlotsData(EmptyImage(numSlots), tupleSize, numSlots) == Zeros(Offset(numSlots, tupleSize))
  {
    var chunks := SlotChunks(EmptyImage(numSlots), tupleSize);
    SlotsDataFlat(EmptyImage(numSlots), tupleSize, numSlots);
    assert chunks[..numSlots] == chunks;
    FlattenZeros(chunks, tupleSize);
  }

  /** createEmptyPageData's all-zero bytes are exactly the layout of a page
      with no used slot. */
  lemma EmptyPageData(pageSize: nat, tupleSize: nat)
    ensures var n := NumSlots(pageSize, tupleSize);
            HeaderSize(n) + Offset(n, tupleSize) <= pageSize &&
            PageData(EmptyImage(n), tupleSize, pageSize) == Zeros(pageSize)
  {
    var n := NumSlots(pageSize, tupleSize);
    LayoutFits(pageSize, tupleSize);
    OffsetIsProduct(n, tupleSize);
    EmptySlotsData(n, tupleSize);
  }

  // ---------------------------------------------------------------------
  // From images to slot arrays and back

  /** The tuples the constructor reads: a used slot i holds a tuple of the
      table's schema with record id (pid, i); an unused slot holds null. */
  function DecodeSlots(pid: HeapPageId, td: TupleDesc, img: PageImage): (r: seq<Option<Tuple>>)
    requires |img.rows| <= MaxValue
    ensures |r| == |img.rows|
    ensures forall i :: 0 <= i < |r| ==> (r[i].Some? <==> IsSlotUsed(img.header, |img.rows|, i))
  {
    seq(|img.rows|, i requires 0 <= i < |img.rows| =>
      if IsSlotUsed(img.header, |img.rows|, i) then Some(Tuple(td, img.rows[i], Some(RecordId(pid, i)))) else None)
  }

  /** The image of a page's header and slots (what writePage stores). */
  function ImageOf(header: seq<bv8>, tuples: seq<Option<Tuple>>): (r: PageImage)
    ensures r.header == header && |r.rows| == |tuples|
  {
    PageImage(header, seq(|tuples|, i requires 0 <= i < |tuples| => if tuples[i].Some? then tuples[i].value.fields else []))
  }

  /** The page invariant: a slot holds a tuple exactly when its bit is set,
      and that tuple has the page's schema and points back at its slot. */
  predicate Consistent(pid: HeapPageId, td: TupleDesc, header: seq<bv8>, tuples: seq<Option<Tuple>>)
  {
    |tuples| <= MaxValue && |header| == HeaderSize(|tuples|) &&
    forall i :: 0 <= i < |tuples| ==>
      (tuples[i].Some? <==> IsSlotUsed(header, |tuples|, i)) &&
      (tuples[i].Some? ==> tuples[i].value.desc == td && tuples[i].value.recordId == Some(RecordId(pid, i)))
  }

  /** Reading back what was written gives the same slots (the constructor
      inverts getPageData). */
  lemma DecodeImageOf(pid: HeapPageId, td: TupleDesc, header: seq<bv8>, tuples: seq<Option<Tuple>>)
    requires Consistent(pid, td, header, tuples) && |tuples| <= MaxValue
    ensures DecodeSlots(pid, td, ImageOf(header, tuples)) == tuples
    ensures Normal(ImageOf(header, tuples))
  {
    var img := ImageOf(header, tuples);
    var r := DecodeSlots(pid, td, img);
    forall i | 0 <= i < |tuples|
      ensures r[i] == tuples[i]
    {
      if tuples[i].Some? {
        assert img.rows[i] == tuples[i].value.fields;
      }
    }
  }

  /** And writing what was read gives the same image. */
  lemma ImageOfDecode(pid: HeapPageId, td: TupleDesc, img: PageImage)
    requires WellFormed(img, |img.rows|) && Normal(img) && |img.rows| <= MaxValue
    ensures ImageOf(img.header, DecodeSlots(pid, td, img)) == img
  {
    var r := ImageOf(img.header, DecodeSlots(pid, td, img));
    assert r.rows == img.rows;
  }

  /** Whatever image is read, the page built from it keeps the page invariant. */
  lemma DecodeConsistent(pid: HeapPageId, td: TupleDesc, img: PageImage)
    requires WellFormed(img, |img.rows|) && |img.rows| <= MaxValue
    ensures Consistent(pid, td, img.header, DecodeSlots(pid, td, img))
  {
  }

  /** Setting one slot's bit together with its entry keeps the page invariant. */
  lemma ConsistentAfterSet(pid: HeapPageId, td: TupleDesc, header: seq<bv8>, tuples: seq<Option<Tuple>>,
                           slot: nat, entry: Option<Tuple>)
    requires Consistent(pid, td, header, tuples) && slot < |tuples|
    requires entry.Some? ==> entry.value.desc == td && entry.value.recordId == Some(RecordId(pid, slot))
    ensures Consistent(pid, td, SetSlot(header, |tuples|, slot, entry.Some?), tuples[slot := entry])
  {
    var h := SetSlot(header, |tuples|, slot, entry.Some?);
    var t := tuples[slot := entry];
    forall i | 0 <= i < |t|
      ensures (t[i].Some? <==> IsSlotUsed(h, |t|, i))
    {
      if i != slot {
        assert IsSlotUsed(h, |t|, i) == IsSlotUsed(header, |tuples|, i);
      }
    }
  }

  // ---------------------------------------------------------------------
  // The page object

  class HeapPage {
    const pid: HeapPageId
    const td: TupleDesc
    const pageSize: PageSize
    const numSlots: nat
    const header: array<bv8>
    const tuples: array<Option<Tuple>>
    /** The transaction that last dirtied the page; None when clean. */
    var dirtier: Option<TransactionId>
    /** oldData: the page as it was when last read or flushed, kept as the
        image its bytes encode (as the file keeps its pages). */
    ghost var beforeImage: PageImage

    /** Array sizes, which never change once the page exists. */
    ghost predicate Shape()
    {
      numSlots == NumSlots(pageSize, Size(td.columns)) &&
      header.Length == HeaderSize(numSlots) && tuples.Length == numSlots &&
      header as object != tuples as object &&
      HeaderSize(numSlots) + Offset(numSlots, Size(td.columns)) <= pageSize
    }

    /** What a scan of the slots needs: one header bit and one tuple per slot. */
    ghost predicate Scannable()
    {
      header.Length == HeaderSize(numSlots) && tuples.Length == numSlots
    }

    ghost predicate Valid()
      reads header, tuples
    {
      Shape() && Consistent(pid, td, header[..], tuples[..])
    }

    ghost function Image(): PageImage
      reads header, tuples
    {
      ImageOf(header[..], tuples[..])
    }

    /** getPageData: the page's bytes. */
    ghost function Data(): seq<bv8>
      requires Shape()
      reads header, tuples
    {
      PageData(Image(), Size(td.columns), pageSize)
    }

    /** The parsed form of getPageData's bytes, as writePage stores them. */
    method GetImage() returns (img: PageImage)
      ensures img == Image()
    {
      var h := header[..];
      var t := tuples[..];
      img := PageImage(h, seq(|t|, i requires 0 <= i < |t| => if t[i].Some? then t[i].value.fields else []));
    }

    /** HeapPage(id, data) on the image of `data`: copies the header and
        builds a tuple with record id (pid, i) for every used slot i. */
    constructor FromImage(id: HeapPageId, desc: TupleDesc, size: PageSize, img: PageImage)
      requires WellFormed(img, NumSlots(size, Size(desc.columns)))
      ensures Valid() && fresh(header) && fresh(tuples)
      ensures pid == id && td == desc && pageSize == size
      ensures header[..] == img.header
      ensures tuples[..] == DecodeSlots(id, desc, img)
      ensures dirtier == None
      ensures beforeImage == Image()
    {
      var ts := GetSize(desc);
      var n := size * 8 / (ts * 8 + 1);
      SlotsAreInt32(size, ts);
      var h := ReadHeader(img.header);
      var tps := ReadSlots(id, desc, img, h);
      pid := id;
      td := desc;
      pageSize := size;
      numSlots := n;
      header := h;
      tuples := tps;
      dirtier := None;
      new;
      LayoutFits(size, ts);
      OffsetIsProduct(n, ts);
      DecodeConsistent(id, desc, img);
      SetBeforeImage();
    }

    /** getNumEmptySlots: counts the unused slots in a loop. */
    method GetNumEmptySlots() returns (count: nat)
      requires Shape()
      ensures count == EmptyCount(header[..], numSlots, numSlots)
    {
      count := 0;
      for slot := 0 to numSlots
        invariant count == EmptyCount(header[..], numSlots, slot)
      {
        if !IsSlotUsed(header[..], numSlots, slot) {
          count := count + 1;
        }
      }
    }

    /** markSlotUsed: sets or clears the one bit of slot i. */
    method MarkSlotUsed(i: nat, v: bool)
      requires Shape() && i < numSlots
      modifies header
      ensures header[..] == SetSlot(old(header[..]), numSlots, i, v)
    {
      var index := i / 8;
      var pos := (i % 8) as bv3;
      header[index] := SetBit(header[index], pos, v);
    }

    /** insertTuple: refuses a tuple of another schema, then fills the
        lowest-numbered free slot and stamps the tuple with its record id;
        a page with no free slot is reported full. The tuple as stored (with
        its new record id) is returned, standing for the caller's object. */
    method InsertTuple(t: Tuple) returns (r: Result<Tuple>)
      requires Shape()
      modifies header, tuples
      ensures old(Valid()) ==> Valid()
      ensures t.desc != td ==> r == Err(Db("tuple desc not matched"))
      ensures r == Err(Db("The page is full")) <==>
                t.desc == td && forall j :: 0 <= j < numSlots ==> IsSlotUsed(old(header[..]), numSlots, j)
      ensures r.Err? ==> r.error in {Db("tuple desc not matched"), Db("The page is full")}
      ensures r.Err? ==> unchanged(header, tuples)
      ensures r.Ok? ==> r.value.recordId.Some?
      ensures r.Ok? && r.value.recordId.Some? ==>
                var slot := r.value.recordId.value.tupleNum;
                0 <= slot < numSlots && r.value == t.(recordId := Some(RecordId(pid, slot))) &&
                !IsSlotUsed(old(header[..]), numSlots, slot) &&
                (forall j :: 0 <= j < slot ==> IsSlotUsed(old(header[..]), numSlots, j)) &&
                header[..] == SetSlot(old(header[..]), numSlots, slot, true) &&
                tuples[..] == old(tuples[..])[slot := Some(r.value)] &&
                EmptyCount(header[..], numSlots, numSlots) == EmptyCount(old(header[..]), numSlots, numSlots) - 1
    {
      var same := Equals(td, t.desc);
      if !same {
        return Err(Db("tuple desc not matched"));
      }
      SlotsAreInt32(pageSize, Size(td.columns));
      for slot := 0 to numSlots
        invariant forall j :: 0 <= j < slot ==> IsSlotUsed(header[..], numSlots, j)
      {
        if IsSlotUsed(header[..], numSlots, slot) {
          continue;
        }
        ghost var before := header[..];
        MarkSlotUsed(slot, true);
        var stored := t.(recordId := Some(RecordId(pid, slot)));
        tuples[slot] := Some(stored);
        assert header[..] == SetSlot(before, numSlots, slot, true);
        if old(Valid()) {
          ConsistentAfterSet(pid, td, before, old(tuples[..]), slot, Some(stored));
        }
        EmptyCountAfterSet(before, numSlots, slot, true, numSlots);
        return Ok(stored);
      }
      return Err(Db("The page is full"));
    }

    /** deleteTuple: the tuple's record id must name this page and a used
        slot; that slot is then cleared. A missing record id is a null
        dereference. A negative tuple number is looked up the way Java's
        shifts and truncating division do: numbers below -7 index before the
        header; -7 .. -2 read bit 7 of header byte 0 through the
        sign-extended byte and, when it is set, pass as used and then index
        before the tuple array; -1 always reads as unused. */
    method DeleteTuple(t: Tuple) returns (r: Outcome)
      requires Shape()
      modifies header, tuples
      ensures old(Valid()) ==> Valid()
      ensures r == Fail(NullPointer) <==> t.recordId.None?
      ensures r == Fail(Db("Page id not match")) <==> t.recordId.Some? && t.recordId.value.pageId != pid
      ensures t.recordId.Some? && t.recordId.value.pageId == pid && t.recordId.value.tupleNum >= 0 ==>
                (r == Pass <==> IsSlotUsed(old(header[..]), numSlots, t.recordId.value.tupleNum))
      ensures r.Fail? ==> unchanged(header, tuples)
      ensures r.Fail? ==> r.error in {NullPointer, IndexOutOfBounds, Db("Page id not match"), Db("Slot is not used")}
      ensures r == Pass ==>
                var tn := t.recordId.value.tupleNum;
                0 <= tn < numSlots && IsSlotUsed(old(header[..]), numSlots, tn) &&
                header[..] == SetSlot(old(header[..]), numSlots, tn, false) &&
                tuples[..] == old(tuples[..])[tn := None] &&
                EmptyCount(header[..], numSlots, numSlots) == EmptyCount(old(header[..]), numSlots, numSlots) + 1
    {
      if t.recordId.None? {
        return Fail(NullPointer);
      }
      var pageId := t.recordId.value.pageId;
      var tn := t.recordId.value.tupleNum;
      if pageId != pid {
        return Fail(Db("Page id not match"));
      }
      if tn < 0 {
        if tn < -7 || header.Length == 0 {
          return Fail(IndexOutOfBounds);
        }
        if tn <= -2 && header[0] & 0x80 != 0 {
          return Fail(IndexOutOfBounds);
        }
        return Fail(Db("Slot is not used"));
      }
      if !IsSlotUsed(header[..], numSlots, tn) {
        return Fail(Db("Slot is not used"));
      }
      ghost var before := header[..];
      MarkSlotUsed(tn, false);
      tuples[tn] := None;
      assert header[..] == SetSlot(before, numSlots, tn, false);
      if old(Valid()) {
        ConsistentAfterSet(pid, td, before, old(tuples[..]), tn, None);
      }
      EmptyCountAfterSet(before, numSlots, tn, false, numSlots);
      r := Pass;
    }

    /** markDirty(dirty, tid): remembers tid when dirtying, null otherwise. */
    method MarkDirty(dirty: bool, tid: Option<TransactionId>)
      modifies this
      ensures dirtier == (if dirty then tid else None)
      ensures beforeImage == old(beforeImage)
    {
      if dirty {
        dirtier := tid;
      } else {
        dirtier := None;
      }
    }

    /** getPageData: writes the header bytes, then each slot (its fields
        when used, zeros when not), then the padding. */
    method GetPageData() returns (data: seq<bv8>)
      requires Shape()
      ensures data == PageData(Image(), Size(td.columns), pageSize)
    {
      var ts := GetSize(td);
      var head := HeaderBytes();
      var slots := AllSlotBytes(ts);
      var used := header.Length + ts * tuples.Length;
      assert used == header.Length + Offset(numSlots, ts) by {
        OffsetIsProduct(numSlots, ts);
      }
      var zerolen := pageSize - used;
      data := head + slots + Zeros(zerolen);
    }

    method HeaderBytes() returns (data: seq<bv8>)
      ensures data == header[..]
    {
      data := [];
      for i := 0 to header.Length
        invariant data == header[..i]
      {
        data := data + [header[i]];
      }
    }

    method AllSlotBytes(ts: nat) returns (data: seq<bv8>)
      requires Shape() && ts == Size(td.columns)
      ensures data == SlotsData(Image(), ts, numSlots)
    {
      ghost var img := Image();
      data := [];
      for i := 0 to tuples.Length
        invariant data == SlotsData(img, ts, i)
      {
        var slot := SlotBytes(i, ts);
        data := data + slot;
      }
    }

    /** One slot of getPageData: the fields of a used slot, zeros otherwise. */
    method SlotBytes(i: nat, ts: nat) returns (slot: seq<bv8>)
      requires Shape() && i < numSlots && ts == Size(td.columns)
      ensures slot == SlotData(Image(), ts, i)
    {
      ghost var img := Image();
      if !IsSlotUsed(header[..], numSlots, i) {
        slot := Zeros(ts);
      } else {
        var fields := if tuples[i].Some? then tuples[i].value.fields else [];
        assert fields == img.rows[i];
        var row := SerializeRow(fields);
        slot := Fit(row, ts);
      }
    }

    /** setBeforeImage: the before-image becomes the current page. */
    method SetBeforeImage()
      modifies this
      ensures beforeImage == Image()
      ensures dirtier == old(dirtier)
    {
      var img := GetImage();
      beforeImage := img;
    }
  }

  /** The constructor's header loop: one byte after the other. */
  method ReadHeader(bytes: seq<bv8>) returns (h: array<bv8>)
    ensures fresh(h) && h[..] == bytes
  {
    h := new bv8[|bytes|];
    for i := 0 to h.Length
      invariant h[..i] == bytes[..i]
    {
      h[i] := bytes[i];
    }
  }

  /** The constructor's slot loop (readNextTuple): a tuple with record id
      (pid, i) for a used slot i, null for an unused one. */
  method ReadSlots(pid: HeapPageId, td: TupleDesc, img: PageImage, h: array<bv8>) returns (tps: array<Option<Tuple>>)
    requires h[..] == img.header && |img.rows| <= MaxValue
    ensures fresh(tps) && tps[..] == DecodeSlots(pid, td, img)
  {
    ghost var slots := DecodeSlots(pid, td, img);
    var n := |img.rows|;
    tps := new Option<Tuple>[n];
    for i := 0 to n
      invariant tps[..i] == slots[..i]
    {
      if IsSlotUsed(h[..], n, i) {
        tps[i] := Some(Tuple(td, img.rows[i], Some(RecordId(pid, i))));
      } else {
        tps[i] := None;
      }
    }
  }

  /** The fields of a row serialised one after the other. */
  method SerializeRow(fields: seq<Field>) returns (row: seq<bv8>)
    ensures row == RowBytes(fields)
  {
    row := [];
    for j := 0 to |fields|
      invariant row == RowBytes(fields[..j])
    {
      assert fields[..j + 1][..j] == fields[..j];
      row := row + FieldBytes(fields[j]);
    }
    assert fields[..|fields|] == fields;
  }

  /** HeapPageIterator: walks the slots in order and yields only used ones. */
  class HeapPageIterator {
    const page: HeapPage
    var indexer: nat

    constructor (p: HeapPage)
      ensures page == p && indexer == 0
    {
      page := p;
      indexer := 0;
    }

    /** hasNext: skips unused slots and reports whether one is left. */
    method HasNext() returns (r: bool)
      requires page.Scannable()
      modifies this
      ensures indexer == NextUsed(page.header[..], page.numSlots, old(indexer))
      ensures r <==> indexer < page.numSlots
    {
      while indexer < page.numSlots && !IsSlotUsed(page.header[..], page.numSlots, indexer)
        invariant old(indexer) <= indexer
        invariant NextUsed(page.header[..], page.numSlots, indexer) == NextUsed(page.header[..], page.numSlots, old(indexer))
        decreases page.numSlots - indexer
      {
        indexer := indexer + 1;
      }
      r := indexer < page.numSlots;
    }

    /** next: the tuple in the current slot and a step forward, or null past the end. */
    method Next() returns (r: Option<Tuple>)
      requires page.Scannable()
      modifies this
      ensures old(indexer) >= page.numSlots ==> r.None? && indexer == old(indexer)
      ensures old(indexer) < page.numSlots ==> r == page.tuples[old(indexer)] && indexer == old(indexer) + 1
    {
      if indexer >= page.numSlots {
        return None;
      }
      r := page.tuples[indexer];
      indexer := indexer + 1;
    }
  }

  /** The first used slot at or after k (or k itself once k >= numSlots,
      or numSlots when none is left). */
  function NextUsed(header: seq<bv8>, numSlots: nat, k: nat): (r: nat)
    ensures k <= r
    ensures r < numSlots ==> IsSlotUsed(header, numSlots, r)
    ensures k < numSlots ==> r <= numSlots
    ensures forall j :: k <= j < r ==> !IsSlotUsed(header, numSlots, j)
    decreases numSlots - k
  {
    if k >= numSlots || IsSlotUsed(header, numSlots, k) then k else NextUsed(header, numSlots, k + 1)
  }
}

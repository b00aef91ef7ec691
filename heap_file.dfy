/** Heap files (HeapFile.java): a table stored as a sequence of pages of
    `pageSize` bytes, page n at byte offset n * pageSize. The file's content
    is kept as the image of each page written so far; the bytes are
    PageBytes of those images. */
module HeapFiles {
  import opened Wrappers
  import opened JavaInt
  import opened Ids
  import opened Schema
  import opened HeapPages

  class HeapFile {
    /** getId: an opaque table id, fixed for the file. */
    const tableId: Int32
    const td: TupleDesc
    const pageSize: PageSize
    /** file.length() */
    var length: nat
    /** The image last written at each page number. */
    var disk: map<int, PageImage>

    ghost predicate Valid()
      reads this
    {
      DiskValid(disk, Slots())
    }

    function Slots(): nat
      reads this
    {
      NumSlots(pageSize, Size(td.columns))
    }

    constructor (id: Int32, desc: TupleDesc, size: PageSize, initial: map<int, PageImage>, initialLength: nat)
      requires DiskValid(initial, NumSlots(size, Size(desc.columns)))
      ensures Valid()
      ensures tableId == id && td == desc && pageSize == size && disk == initial && length == initialLength
    {
      tableId := id;
      td := desc;
      pageSize := size;
      disk := initial;
      length := initialLength;
    }

    /** What reading page n finds: the image written there, or the zero
        bytes past the end of the file, which parse as an empty page. */
    function ImageAt(n: int): (img: PageImage)
      reads this
      ensures WellFormed(img, Slots())
    {
      ImageIn(disk, Slots(), n)
    }

    /** numPages: `(int) file.length() / pageSize`; the cast keeps the low
        32 bits of the length and the division truncates. */
    function NumPages(): Int32
      reads this
    {
      Div(Wrap(length), pageSize)
    }


    /** readPage: page n is built from the bytes at offset n * pageSize. A
        negative page number makes the read fail, which the source reports as
        IllegalArgumentException. */
    method ReadPage(pid: HeapPageId) returns (r: Result<HeapPage>)
      ensures r.Err? <==> pid.pageNum < 0
      ensures r.Err? ==> r.error == IllegalArgument
      ensures r.Ok? ==> fresh(r.value) && fresh(r.value.header) && fresh(r.value.tuples) && ReadFrom(this, r.value, pid)
    {
      if pid.pageNum < 0 {
        return Err(IllegalArgument);
      }
      var img := ImageIn(disk, NumSlots(pageSize, Size(td.columns)), pid.pageNum);
      var page := new HeapPage.FromImage(HeapPageId(pid.tableId, pid.pageNum), td, pageSize, img);
      r := Ok(page);
    }

    /** writePage: stores the page's bytes at offset pageNum * pageSize,
        growing the file when the page lies past its end. The writer
        swallows I/O errors, so a negative position writes nothing. */
    method WritePage(page: HeapPage)
      requires page.Shape()
      requires page.td == td && page.pageSize == pageSize
      modifies this
      ensures old(Valid()) ==> Valid()
      ensures var start := PageStartPosition(page.pid.pageNum, pageSize);
              if start < 0 then disk == old(disk) && length == old(length)
              else disk == old(disk)[page.pid.pageNum := page.Image()] &&
                   length == (if old(length) < start + pageSize then start + pageSize else old(length))
    {
      var start := PageStartPosition(page.pid.pageNum, pageSize);
      if start < 0 {
        return;
      }
      var img := page.GetImage();
      disk := disk[page.pid.pageNum := img];
      if length < start + pageSize {
        length := start + pageSize;
      }
    }

    /** The new-page branch of insertTuple: an empty page numbered
        numPages() is written at the end of the file, so a file that stays
        below 2 GiB grows by exactly one page. */
    method AppendEmptyPage() returns (pid: HeapPageId)
      modifies this
      ensures pid == HeapPageId(tableId, old(NumPages()))
      ensures old(Valid()) ==> Valid()
      ensures pid.pageNum >= 0 ==> disk == old(disk)[pid.pageNum as int := EmptyImage(Slots())]
      ensures pid.pageNum < 0 ==> disk == old(disk) && length == old(length)
      ensures old(length) + pageSize <= MaxValue ==> NumPages() == old(NumPages()) + 1
    {
      pid := HeapPageId(tableId, NumPages());
      var empty := EmptyImage(NumSlots(pageSize, Size(td.columns)));
      SlotsAreInt32(pageSize, Size(td.columns));
      var newPage := new HeapPage.FromImage(pid, td, pageSize, empty);
      ImageOfDecode(pid, td, empty);
      WritePage(newPage);
      if old(length) + pageSize <= MaxValue {
        AppendedLength(old(length), pageSize);
      }
    }
  }

  /** The page readPage builds for pid: the image stored at its page number
      (or an empty page past the end), decoded, and not dirty. */
  ghost predicate ReadFrom(f: HeapFile, page: HeapPage, pid: HeapPageId)
    reads f, page, page.header, page.tuples
  {
    page.Valid() && page.pid == pid && page.td == f.td && page.pageSize == f.pageSize &&
    page.header[..] == f.ImageAt(pid.pageNum).header &&
    page.tuples[..] == DecodeSlots(pid, f.td, f.ImageAt(pid.pageNum)) &&
    page.dirtier.None?
  }

  /** getPageStartPosition: page number times page size. */
  function PageStartPosition(pageNum: int, pageSize: nat): (r: int)
    ensures pageNum >= 0 ==> r >= 0
    ensures pageNum < 0 && pageSize > 0 ==> r < 0
  {
    pageNum * pageSize
  }

  /** The disk holds a well-formed image at each non-negative page number. */
  predicate DiskValid(disk: map<int, PageImage>, numSlots: nat)
  {
    forall n :: n in disk ==> n >= 0 && WellFormed(disk[n], numSlots)
  }

  /** What reading page n finds: the image written there, or the zero bytes
      past the end of the file, which parse as an empty page. Every image
      written is well-formed (DiskValid); the parse of the page's bytes
      always yields header and slots of the page's sizes, which the second
      branch stands for. */
  function ImageIn(disk: map<int, PageImage>, numSlots: nat, n: int): (img: PageImage)
    ensures WellFormed(img, numSlots)
    ensures n !in disk ==> img == EmptyImage(numSlots)
    ensures DiskValid(disk, numSlots) && n in disk ==> img == disk[n]
  {
    if n in disk && WellFormed(disk[n], numSlots) then disk[n] else EmptyImage(numSlots)
  }

  /** The file's bytes for its first k pages, page after page. */
  function FileBytes(disk: map<int, PageImage>, tupleSize: nat, pageSize: nat, k: nat): (r: seq<bv8>)
  {
    Flatten(seq(k, n requires 0 <= n < k => PageBytes(ImageIn(disk, NumSlots(pageSize, tupleSize), n), tupleSize, pageSize)))
  }

  /** Page n of the file occupies bytes Offset(n) .. Offset(n + 1), and
      Offset(n) is n * pageSize (OffsetIsProduct). */
  lemma PageAtOffset(disk: map<int, PageImage>, tupleSize: nat, pageSize: nat, k: nat, n: nat)
    requires n < k
    ensures |FileBytes(disk, tupleSize, pageSize, k)| == Offset(k, pageSize)
    ensures Offset(n + 1, pageSize) <= Offset(k, pageSize)
    ensures FileBytes(disk, tupleSize, pageSize, k)[Offset(n, pageSize) .. Offset(n + 1, pageSize)]
            == PageBytes(ImageIn(disk, NumSlots(pageSize, tupleSize), n), tupleSize, pageSize)
  {
    var pages := seq(k, j requires 0 <= j < k => PageBytes(ImageIn(disk, NumSlots(pageSize, tupleSize), j), tupleSize, pageSize));
    FlattenChunk(pages, pageSize, n);
  }

  /** For files shorter than 2 GiB, numPages is the length divided by the page size. */
  lemma NumPagesIsQuotient(length: nat, pageSize: PageSize)
    requires length <= MaxValue
    ensures Div(Wrap(length), pageSize) == length / pageSize
  {
    DivExactUnlessOverflow(length, pageSize);
  }

  /** Page numPages starts at or before the end of a file shorter than
      2 GiB and ends after it, so writing it makes numPages one larger. */
  lemma AppendedLength(length: nat, pageSize: PageSize)
    requires length + pageSize <= MaxValue
    ensures var start := PageStartPosition(Div(Wrap(length), pageSize), pageSize);
            0 <= start <= length < start + pageSize &&
            Div(Wrap(start + pageSize), pageSize) == Div(Wrap(length), pageSize) + 1
  {
    NumPagesIsQuotient(length, pageSize);
    var n := length / pageSize;
    DivBounds(length, pageSize);
    assert n * pageSize + length % pageSize == length;
    MulSucc(n, pageSize);
    DivOfMultiple(n + 1, pageSize);
    NumPagesIsQuotient(n * pageSize + pageSize, pageSize);
  }

  lemma MulSign(x: int, d: nat)
    ensures x >= 1 ==> x * d >= d
    ensures x <= -1 ==> x * d + d <= 0
  {
  }

  lemma DivOfMultiple(k: nat, d: nat)
    requires d > 0
    ensures (k * d) / d == k
  {
    var q := (k * d) / d;
    assert q * d + (k * d) % d == k * d;
    assert (k - q) * d == (k * d) % d;
    MulSign(k - q, d);
  }
}

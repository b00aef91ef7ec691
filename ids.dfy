/** Identities: transactions, heap page ids and record ids
    (HeapPageId.java, RecordId.java). */
module Ids {
  import opened JavaInt

  /** Opaque transaction identity, compared by equality
      (TransactionId.java is not part of this model). */
  datatype TransactionId = TransactionId(id: int)

  /** Lock modes requested from the buffer pool. */
  datatype Permissions = ReadOnly | ReadWrite

  /** A page of a table: (tableId, pageNum); the accessors getTableId and
      getPageNumber are the datatype's fields. */
  datatype HeapPageId = HeapPageId(tableId: Int32, pageNum: Int32)

  /** A tuple slot of a page; getPageId and getTupleNumber are the fields. */
  datatype RecordId = RecordId(pageId: HeapPageId, tupleNum: Int32)

  /** What `equals(Object o)` may be handed. */
  datatype JavaObject =
    | Null
    | PageIdObject(pageId: HeapPageId)
    | RecordIdObject(recordId: RecordId)
    | OtherObject

  /** HeapPageId.equals: only another HeapPageId with the same table and page
      number is equal. */
  function PageIdEquals(self: HeapPageId, o: JavaObject): (r: bool)
    ensures r <==> o == PageIdObject(self)
  {
    match o
    case PageIdObject(that) => self.tableId == that.tableId && self.pageNum == that.pageNum
    case _ => false
  }

  /** Objects.hash(a, b) as java.util.Arrays.hashCode computes it. */
  function Hash2(a: Int32, b: Int32): Int32 {
    Add(Wrap(31 * Add(31, a)), b)
  }

  /** HeapPageId.hashCode. */
  function PageIdHash(pid: HeapPageId): Int32 {
    Hash2(pid.tableId, pid.pageNum)
  }

  /** HeapPageId.serialize: the constructor's two arguments, in order. */
  function Serialize(pid: HeapPageId): (r: seq<Int32>)
    ensures |r| == 2 && HeapPageId(r[0], r[1]) == pid
  {
    [pid.tableId, pid.pageNum]
  }

  /** Equal page ids hash alike. */
  lemma PageIdHashConsistent(a: HeapPageId, b: HeapPageId)
    requires PageIdEquals(a, PageIdObject(b))
    ensures PageIdHash(a) == PageIdHash(b)
  {
  }

  /** Within one table, distinct page numbers never share a hash code. */
  lemma PageIdHashSeparatesPages(a: HeapPageId, b: HeapPageId)
    requires a.tableId == b.tableId && a.pageNum != b.pageNum
    ensures PageIdHash(a) != PageIdHash(b)
  {
    var w := Wrap(31 * Add(31, a.tableId));
    assert (w + a.pageNum - PageIdHash(a)) % Modulus == 0;
    assert (w + b.pageNum - PageIdHash(b)) % Modulus == 0;
    if PageIdHash(a) == PageIdHash(b) {
      var h := PageIdHash(a);
      ModDiff(w + a.pageNum - h, w + b.pageNum - h);
      assert false;
    }
  }

  lemma ModDiff(x: int, y: int)
    requires x % Modulus == 0 && y % Modulus == 0
    ensures (x - y) % Modulus == 0
  {
    var p := x / Modulus;
    var q := y / Modulus;
    assert x == p * Modulus;
    assert y == q * Modulus;
    assert x - y == (p - q) * Modulus;
  }

  /** RecordId.equals: another RecordId with the same tuple number and an
      equal page id. */
  function RecordIdEquals(self: RecordId, o: JavaObject): (r: bool)
    ensures r <==> o == RecordIdObject(self)
  {
    match o
    case RecordIdObject(that) =>
      self.tupleNum == that.tupleNum && PageIdEquals(self.pageId, PageIdObject(that.pageId))
    case _ => false
  }

  /** RecordId.hashCode: Objects.hash(pageId, tupleNum). */
  function RecordIdHash(rid: RecordId): Int32 {
    Hash2(PageIdHash(rid.pageId), rid.tupleNum)
  }

  /** Equal record ids hash alike. */
  lemma RecordIdHashConsistent(a: RecordId, b: RecordId)
    requires RecordIdEquals(a, RecordIdObject(b))
    ensures RecordIdHash(a) == RecordIdHash(b)
  {
  }
}

/** Tuple schemas (TupleDesc.java): an immutable list of (type, name) columns. */
module Schema {
  import opened Wrappers
  import opened JavaInt
  import opened Ids

  /** Field types and their fixed on-disk lengths (FieldType.java is not part
      of this model; 4 and 4 + 128 are SimpleDB's lengths, and the proofs only
      use that every length is positive). */
  datatype FieldType = IntType | StringType

  const StringLen: nat := 128

  function Len(t: FieldType): (n: nat)
    ensures n > 0
  {
    match t
    case IntType => 4
    case StringType => StringLen + 4
  }

  /** A column; its name may be null. */
  datatype ColumnMeta = ColumnMeta(fieldType: FieldType, fieldName: Option<string>)

  datatype TupleDesc = TupleDesc(columns: seq<ColumnMeta>)

  const AnonymousFieldName: string := "anonymous"

  function NumFields(td: TupleDesc): nat { |td.columns| }

  /** getFieldType(i): the i-th column's type; the list lookup throws for
      an index outside the columns. */
  function FieldTypeAt(td: TupleDesc, i: int): (r: Result<FieldType>)
    ensures r.Ok? <==> 0 <= i < NumFields(td)
    ensures r.Err? ==> r.error == IndexOutOfBounds
  {
    if 0 <= i < |td.columns| then Ok(td.columns[i].fieldType) else Err(IndexOutOfBounds)
  }

  /** getFieldName(i): the i-th column's (possibly null) name; the list
      lookup throws for an index outside the columns. */
  function FieldNameAt(td: TupleDesc, i: int): (r: Result<Option<string>>)
    ensures r.Ok? <==> 0 <= i < NumFields(td)
    ensures r.Err? ==> r.error == IndexOutOfBounds
  {
    if 0 <= i < |td.columns| then Ok(td.columns[i].fieldName) else Err(IndexOutOfBounds)
  }

  /** The tuple size in bytes: the sum of the column types' lengths. */
  function Size(cols: seq<ColumnMeta>): nat
  {
    if cols == [] then 0 else Size(cols[..|cols| - 1]) + Len(cols[|cols| - 1].fieldType)
  }

  /** TupleDesc(typeAr, fieldAr): one column per type, named by the name at the
      same index; a shorter name array makes the loop index past its end. */
  method NewNamed(typeAr: seq<FieldType>, fieldAr: seq<Option<string>>) returns (r: Result<TupleDesc>)
    ensures r.Ok? <==> |typeAr| <= |fieldAr|
    ensures r.Err? ==> r.error == IndexOutOfBounds
    ensures r.Ok? ==> |r.value.columns| == |typeAr|
    ensures r.Ok? ==> forall i :: 0 <= i < |typeAr| ==> r.value.columns[i] == ColumnMeta(typeAr[i], fieldAr[i])
  {
    var cols: seq<ColumnMeta> := [];
    var i := 0;
    while i < |typeAr|
      invariant 0 <= i <= |typeAr|
      invariant i <= |fieldAr|
      invariant |cols| == i
      invariant forall k :: 0 <= k < i ==> cols[k] == ColumnMeta(typeAr[k], fieldAr[k])
    {
      if i >= |fieldAr| {
        return Err(IndexOutOfBounds);
      }
      cols := cols + [ColumnMeta(typeAr[i], fieldAr[i])];
      i := i + 1;
    }
    r := Ok(TupleDesc(cols));
  }

  /** TupleDesc(typeAr): one column per type, every one named "anonymous". */
  method NewAnonymous(typeAr: seq<FieldType>) returns (td: TupleDesc)
    ensures NumFields(td) == |typeAr|
    ensures forall i :: 0 <= i < |typeAr| ==> td.columns[i] == ColumnMeta(typeAr[i], Some(AnonymousFieldName))
  {
    var cols: seq<ColumnMeta> := [];
    for i := 0 to |typeAr|
      invariant |cols| == i
      invariant forall k :: 0 <= k < i ==> cols[k] == ColumnMeta(typeAr[k], Some(AnonymousFieldName))
    {
      cols := cols + [ColumnMeta(typeAr[i], Some(AnonymousFieldName))];
    }
    td := TupleDesc(cols);
  }

  /** getSize: accumulates the column lengths in a loop. */
  method GetSize(td: TupleDesc) returns (size: nat)
    ensures size == Size(td.columns)
  {
    size := 0;
    for i := 0 to |td.columns|
      invariant size == Size(td.columns[..i])
    {
      assert td.columns[..i + 1][..i] == td.columns[..i];
      size := size + Len(td.columns[i].fieldType);
    }
    assert td.columns[..|td.columns|] == td.columns;
  }

  /** The size of a concatenation is the sum of the sizes. */
  lemma {:induction false} SizeAppend(a: seq<ColumnMeta>, b: seq<ColumnMeta>)
    ensures Size(a + b) == Size(a) + Size(b)
    decreases |b|
  {
    if b == [] {
      assert a + b == a;
    } else {
      var b' := b[..|b| - 1];
      assert (a + b)[..|a + b| - 1] == a + b';
      SizeAppend(a, b');
    }
  }

  /** fieldNameToIndex: the first column whose name equals `name`. A null
      column name met before a match makes `fieldName.equals` throw; no match
      at all raises NoSuchElementException. */
  method FieldNameToIndex(td: TupleDesc, name: Option<string>) returns (r: Result<nat>)
    ensures r.Ok? || r == Err(NullPointer) || r == Err(NoSuchElement)
    ensures r.Ok? ==> r.value < NumFields(td) && name.Some? && td.columns[r.value].fieldName == name
    ensures r.Ok? ==> forall j :: 0 <= j < r.value ==> td.columns[j].fieldName.Some? && td.columns[j].fieldName != name
    ensures r == Err(NullPointer) <==>
              exists k :: 0 <= k < NumFields(td) && td.columns[k].fieldName.None? &&
                          forall j :: 0 <= j < k ==> td.columns[j].fieldName != name
    ensures r == Err(NoSuchElement) <==>
              forall j :: 0 <= j < NumFields(td) ==> td.columns[j].fieldName.Some? && td.columns[j].fieldName != name
  {
    for i := 0 to |td.columns|
      invariant forall j :: 0 <= j < i ==> td.columns[j].fieldName.Some? && td.columns[j].fieldName != name
    {
      match td.columns[i].fieldName {
        case None =>
          return Err(NullPointer);
        case Some(s) =>
          if name == Some(s) {
            return Ok(i);
          }
      }
    }
    r := Err(NoSuchElement);
  }

  /** equals: same number of columns and pairwise equal (type, name). */
  method Equals(a: TupleDesc, b: TupleDesc) returns (r: bool)
    ensures r <==> a == b
  {
    if |b.columns| != |a.columns| {
      return false;
    }
    for i := 0 to |a.columns|
      invariant a.columns[..i] == b.columns[..i]
    {
      if a.columns[i] != b.columns[i] {
        assert a.columns != b.columns;
        return false;
      }
      assert a.columns[..i + 1] == a.columns[..i] + [a.columns[i]];
      assert b.columns[..i + 1] == b.columns[..i] + [b.columns[i]];
    }
    assert a.columns == a.columns[..|a.columns|];
    assert b.columns == b.columns[..|b.columns|];
    r := true;
  }

  /** renderMergeArray: copies this schema's columns into the two arrays from
      `beginIndex` on and returns the index after the last one written. */
  method RenderMergeArray(td: TupleDesc, fieldTypes: array<FieldType>, fieldNames: array<Option<string>>, beginIndex: nat)
    returns (index: nat)
    requires beginIndex + |td.columns| <= fieldTypes.Length == fieldNames.Length
    modifies fieldTypes, fieldNames
    ensures index == beginIndex + |td.columns|
    ensures forall k :: 0 <= k < |td.columns| ==>
              fieldTypes[beginIndex + k] == td.columns[k].fieldType && fieldNames[beginIndex + k] == td.columns[k].fieldName
    ensures forall k :: 0 <= k < fieldTypes.Length && !(beginIndex <= k < index) ==>
              fieldTypes[k] == old(fieldTypes[k]) && fieldNames[k] == old(fieldNames[k])
  {
    index := beginIndex;
    for i := 0 to |td.columns|
      invariant index == beginIndex + i
      invariant forall k :: 0 <= k < i ==>
                  fieldTypes[beginIndex + k] == td.columns[k].fieldType && fieldNames[beginIndex + k] == td.columns[k].fieldName
      invariant forall k :: 0 <= k < fieldTypes.Length && !(beginIndex <= k < index) ==>
                  fieldTypes[k] == old(fieldTypes[k]) && fieldNames[k] == old(fieldNames[k])
    {
      fieldTypes[index] := td.columns[i].fieldType;
      fieldNames[index] := td.columns[i].fieldName;
      index := index + 1;
    }
  }

  /** merge(td1, td2): td1's columns in order, then td2's. */
  method Merge(td1: TupleDesc, td2: TupleDesc) returns (r: TupleDesc)
    ensures r.columns == td1.columns + td2.columns
    ensures NumFields(r) == NumFields(td1) + NumFields(td2)
  {
    var totalSize := |td1.columns| + |td2.columns|;
    var fieldTypes := new FieldType[totalSize](_ => IntType);
    var fieldNames := new Option<string>[totalSize](_ => None);
    var index := RenderMergeArray(td1, fieldTypes, fieldNames, 0);
    index := RenderMergeArray(td2, fieldTypes, fieldNames, index);
    assert |fieldNames[..]| == |fieldTypes[..]|;
    var built := NewNamed(fieldTypes[..], fieldNames[..]);
    r := built.value;
    assert r.columns == td1.columns + td2.columns by {
      assert |r.columns| == |td1.columns + td2.columns|;
      forall k | 0 <= k < totalSize
        ensures r.columns[k] == (td1.columns + td2.columns)[k]
      {
        if k >= |td1.columns| {
          var m := k - |td1.columns|;
          assert fieldTypes[|td1.columns| + m] == td2.columns[m].fieldType;
        }
      }
    }
  }

  /** In a merged schema the first td1.numFields() columns answer
      getFieldType and getFieldName as td1 does, the rest as td2 does at
      the index shifted back by td1.numFields(); every other index throws. */
  lemma MergeFieldAt(td1: TupleDesc, td2: TupleDesc, r: TupleDesc, i: int)
    requires r.columns == td1.columns + td2.columns
    ensures i < NumFields(td1) ==> FieldTypeAt(r, i) == FieldTypeAt(td1, i) && FieldNameAt(r, i) == FieldNameAt(td1, i)
    ensures i >= NumFields(td1) ==>
              FieldTypeAt(r, i) == FieldTypeAt(td2, i - NumFields(td1)) &&
              FieldNameAt(r, i) == FieldNameAt(td2, i - NumFields(td1))
  {
  }

  /** The merged schema's tuples are as long as the two inputs' together. */
  lemma MergeSize(td1: TupleDesc, td2: TupleDesc, r: TupleDesc)
    requires r.columns == td1.columns + td2.columns
    ensures Size(r.columns) == Size(td1.columns) + Size(td2.columns)
  {
    SizeAppend(td1.columns, td2.columns);
  }

  /** Field values and tuples. Field.java and Tuple.java are not part of this
      model: a field is an int or a string, a tuple is its schema, its
      fields and the record id that says where it is stored (null until it
      is stored on a page). */
  datatype Field = IntField(intValue: Int32) | StringField(stringValue: string)

  datatype Tuple = Tuple(desc: TupleDesc, fields: seq<Field>, recordId: Option<RecordId>)

  function Zeros(n: nat): (r: seq<bv8>)
    ensures |r| == n && forall i :: 0 <= i < n ==> r[i] == 0
  {
    seq(n, _ => 0)
  }

  /** Four big-endian bytes of the two's-complement value. */
  function IntBytes(v: Int32): (r: seq<bv8>)
    ensures |r| == 4
  {
    var u := if v < 0 then v + Modulus else v;
    [(u / 0x100_0000) as bv8, (u / 0x1_0000 % 0x100) as bv8, (u / 0x100 % 0x100) as bv8, (u % 0x100) as bv8]
  }

  /** A string field: its length, then at most StringLen character bytes
      padded with zeros (a stand-in for StringField.serialize). */
  function StringBytes(s: string): (r: seq<bv8>)
    ensures |r| == Len(StringType)
  {
    var n := if |s| < StringLen then |s| else StringLen;
    IntBytes(n) + seq(StringLen, i requires 0 <= i < StringLen => if i < n then (s[i] as int % 0x100) as bv8 else 0)
  }

  function FieldBytes(f: Field): seq<bv8>
  {
    match f
    case IntField(v) => IntBytes(v)
    case StringField(s) => StringBytes(s)
  }

  /** The serialised fields of a row, one after the other. */
  function RowBytes(fields: seq<Field>): seq<bv8>
  {
    if fields == [] then [] else RowBytes(fields[..|fields| - 1]) + FieldBytes(fields[|fields| - 1])
  }
}

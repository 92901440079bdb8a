/**
 The record layout of a table: columns are kept in a linked list, sorted in place by natural boundary,
 and then given bit positions one after the other. Sorting is what makes every position a multiple of
 the column's boundary.
 */
module Tables {
  import opened Seqs
  import opened Arith
  import opened Superblocks

  // ----- datatypes of columns -----

  const INT1: nat := 0x01
  const INT2: nat := 0x02
  const INT4: nat := 0x03
  const INT8: nat := 0x04
  const INT16: nat := 0x05
  const INT32: nat := 0x06
  const INT64: nat := 0x07
  const INT128: nat := 0x08
  const CHAR: nat := 0x10
  const VARCHAR: nat := 0x11
  const FLOAT: nat := 0x20
  const DATA: nat := 0x30
  const SHAREDDATA: nat := 0x31
  const DATETIME: nat := 0x40
  const ENUMERATION: nat := 0x50

  /** Bits of one value and the boundary it wants, or Unknown. */
  datatype Shape = Shape(bits: nat, boundary: nat) | Unknown

  function ShapeOf(kind: nat): Shape {
    if kind == INT1 then Shape(1, 1)
    else if kind == INT2 then Shape(2, 2)
    else if kind == INT4 then Shape(4, 4)
    else if kind == INT8 then Shape(8, 8)
    else if kind == INT16 then Shape(16, 16)
    else if kind == INT32 then Shape(32, 32)
    else if kind == INT64 then Shape(64, 64)
    else if kind == INT128 then Shape(128, 128)
    else if kind == CHAR || kind == VARCHAR || kind == DATA || kind == ENUMERATION then Shape(32, 32)
    else if kind == FLOAT || kind == DATETIME then Shape(64, 64)
    else if kind == SHAREDDATA then Shape(32 + 64, 32)
    else Unknown
  }

  /** Bits a column of a known type takes up: `size` values (one for an enumeration) times `count`, the
      length words of a varchar, and padding to whole bytes above one byte. */
  function EncodedSize(kind: nat, bits: nat, size: nat, count: nat): nat {
    var each := if kind == ENUMERATION then bits * count else bits * size * count;
    var all := if kind == VARCHAR then each + count * 32 else each;
    if all > 8 then (all + 7) / 8 * 8 else all
  }

  /** A column in the list. */
  class Column {
    const kind: nat
    const size: nat
    const count: nat
    const encodedSize: nat
    const naturalBoundary: nat
    var offset: nat
    var shift: nat
    var next: Column?

    constructor (kind: nat, size: nat, count: nat, encodedSize: nat, naturalBoundary: nat, next: Column?)
      ensures this.kind == kind && this.size == size && this.count == count
      ensures this.encodedSize == encodedSize && this.naturalBoundary == naturalBoundary
      ensures this.next == next && offset == 0 && shift == 0
    {
      this.kind, this.size, this.count := kind, size, count;
      this.encodedSize, this.naturalBoundary := encodedSize, naturalBoundary;
      this.next, offset, shift := next, 0, 0;
    }
  }

  /** A column that was added successfully. */
  predicate Known(c: Column) {
    && ShapeOf(c.kind).Shape?
    && c.naturalBoundary == ShapeOf(c.kind).boundary
    && c.encodedSize == EncodedSize(c.kind, ShapeOf(c.kind).bits, c.size, c.count)
  }

  // ----- lists of columns -----

  ghost predicate Distinct(s: seq<Column>) {
    forall i, j :: 0 <= i < j < |s| ==> s[i] != s[j]
  }

  /** s is the list that starts at head. */
  ghost predicate Chain(head: Column?, s: seq<Column>)
    reads s
  {
    && Distinct(s)
    && head == (if s == [] then null else s[0])
    && (forall i :: 0 <= i < |s| - 1 ==> s[i].next == s[i + 1])
    && (s != [] ==> s[|s| - 1].next == null)
  }

  // ----- the order, as a function -----

  /** The first of the columns with the largest boundary. */
  function FirstMax(s: seq<Column>): (k: nat)
    requires s != []
    ensures k < |s|
    ensures forall i :: 0 <= i < |s| ==> s[i].naturalBoundary <= s[k].naturalBoundary
    ensures forall i :: 0 <= i < k ==> s[i].naturalBoundary < s[k].naturalBoundary
  {
    if |s| == 1 then 0
    else
      var k := FirstMax(s[..|s| - 1]);
      if s[|s| - 1].naturalBoundary > s[k].naturalBoundary then |s| - 1 else k
  }

  lemma FirstMaxStep(s: seq<Column>, i: nat)
    requires i < |s|
    ensures FirstMax(s[..i + 1]) ==
      if i > 0 && s[i].naturalBoundary <= s[FirstMax(s[..i])].naturalBoundary then FirstMax(s[..i]) else i
  {
    assert s[..i + 1][..i] == s[..i];
  }

  function Without(s: seq<Column>, k: nat): (r: seq<Column>)
    requires k < |s|
    ensures |r| == |s| - 1
    ensures forall i :: 0 <= i < |r| ==> r[i] == if i < k then s[i] else s[i + 1]
  {
    s[..k] + s[k + 1..]
  }

  /** Repeatedly the first of the largest. */
  function Ordered(s: seq<Column>): (r: seq<Column>)
    ensures |r| == |s|
  {
    if s == [] then [] else [s[FirstMax(s)]] + Ordered(Without(s, FirstMax(s)))
  }

  // ----- what the order is -----

  lemma WithoutMultiset(s: seq<Column>, k: nat)
    requires k < |s|
    ensures multiset(s) == multiset(Without(s, k)) + multiset{s[k]}
  {
    assert s == s[..k] + [s[k]] + s[k + 1..];
  }

  /** No column is lost or duplicated. */
  lemma {:induction false} OrderedPermutes(s: seq<Column>)
    ensures multiset(Ordered(s)) == multiset(s)
    decreases |s|
  {
    if s != [] {
      WithoutMultiset(s, FirstMax(s));
      OrderedPermutes(Without(s, FirstMax(s)));
    }
  }

  ghost predicate NonIncreasing(s: seq<Column>) {
    forall i, j :: 0 <= i < j < |s| ==> s[i].naturalBoundary >= s[j].naturalBoundary
  }

  lemma OrderedIn(s: seq<Column>, c: Column)
    requires c in Ordered(s)
    ensures c in s
  {
    OrderedPermutes(s);
    assert c in multiset(Ordered(s));
  }

  lemma {:induction false} OrderedIsSorted(s: seq<Column>)
    ensures NonIncreasing(Ordered(s))
    decreases |s|
  {
    if s != [] {
      var k := FirstMax(s);
      var rest := Ordered(Without(s, k));
      OrderedIsSorted(Without(s, k));
      forall j | 0 <= j < |rest|
        ensures rest[j].naturalBoundary <= s[k].naturalBoundary
      {
        OrderedIn(Without(s, k), rest[j]);
      }
    }
  }

  /** The columns with boundary v, in order. */
  function OfBoundary(s: seq<Column>, v: nat): seq<Column> {
    if s == [] then []
    else (if s[0].naturalBoundary == v then [s[0]] else []) + OfBoundary(s[1..], v)
  }

  lemma {:induction false} OfBoundarySplits(s: seq<Column>, t: seq<Column>, v: nat)
    ensures OfBoundary(s + t, v) == OfBoundary(s, v) + OfBoundary(t, v)
    decreases |s|
  {
    if s == [] {
      assert s + t == t;
    } else {
      assert (s + t)[1..] == s[1..] + t;
      OfBoundarySplits(s[1..], t, v);
      Assoc(if s[0].naturalBoundary == v then [s[0]] else [], OfBoundary(s[1..], v), OfBoundary(t, v));
    }
  }

  lemma {:induction false} OfBoundaryNone(s: seq<Column>, v: nat)
    requires forall i :: 0 <= i < |s| ==> s[i].naturalBoundary != v
    ensures OfBoundary(s, v) == []
  {
    if s != [] {
      OfBoundaryNone(s[1..], v);
    }
  }

  /** A column moves past columns with other boundaries only. */
  lemma MovedToFront(s: seq<Column>, k: nat, v: nat)
    requires k < |s| && forall i :: 0 <= i < k ==> s[i].naturalBoundary != s[k].naturalBoundary
    ensures OfBoundary([s[k]] + Without(s, k), v) == OfBoundary(s, v)
  {
    hide OfBoundary;
    var a, c, b := s[..k], [s[k]], s[k + 1..];
    assert s == a + (c + b);
    OfBoundarySplits(c, a + b, v);
    OfBoundarySplits(a, b, v);
    OfBoundarySplits(a, c + b, v);
    OfBoundarySplits(c, b, v);
    OneOrNone(s, k, v);
  }

  lemma OneOrNone(s: seq<Column>, k: nat, v: nat)
    requires k < |s| && forall i :: 0 <= i < k ==> s[i].naturalBoundary != s[k].naturalBoundary
    ensures OfBoundary(s[..k], v) == [] || OfBoundary([s[k]], v) == []
  {
    if s[k].naturalBoundary == v {
      OfBoundaryNone(s[..k], v);
    } else {
      OfBoundaryNone([s[k]], v);
    }
  }

  /** The order is stable: columns with the same boundary keep their order. With OrderedPermutes and
      OrderedIsSorted this determines it. */
  lemma {:induction false} OrderedIsStable(s: seq<Column>, v: nat)
    ensures OfBoundary(Ordered(s), v) == OfBoundary(s, v)
    decreases |s|
  {
    if s != [] {
      hide OfBoundary;
      var k := FirstMax(s);
      var rest := Without(s, k);
      OrderedIsStable(rest, v);
      OfBoundarySplits([s[k]], Ordered(rest), v);
      OfBoundarySplits([s[k]], rest, v);
      MovedToFront(s, k, v);
    }
  }

  // ----- the table -----

  class Table {
    var cols: Column?
    var recordSize: nat
    var columnCount: nat

    constructor ()
      ensures cols == null && recordSize == 0 && columnCount == 0
    {
      cols, recordSize, columnCount := null, 0, 0;
    }
  }

  /** add_column: the new column goes to the front of the list. A column of an unknown type is reported,
      but it is in the list all the same, with whatever sizes its memory held. */
  method AddColumn(table: Table, kind: nat, size: nat, count: nat, junkSize: nat, junkBoundary: nat,
                   ghost s: seq<Column>) returns (result: int, ghost c: Column)
    requires Chain(table.cols, s)
    modifies table`cols
    ensures fresh(c) && Chain(table.cols, [c] + s)
    ensures c.kind == kind && c.size == size && c.count == count
    ensures result == 0 || result == -1
    ensures result == 0 <==>
      1 <= kind <= 8 || kind == 0x10 || kind == 0x11 || kind == 0x20 || kind == 0x30 || kind == 0x31 || kind == 0x40
      || kind == 0x50
    ensures result == -1 ==> c.encodedSize == junkSize && c.naturalBoundary == junkBoundary
    ensures result == 0 ==> Known(c)
    ensures result == 0 ==>
      var bits := if kind == 0x11 then 32 * size * count + 32 * count
                  else if kind == 0x50 then 32 * count
                  else if kind == 0x01 then size * count
                  else if kind == 0x02 then 2 * size * count
                  else if kind == 0x03 then 4 * size * count
                  else if kind == 0x04 then 8 * size * count
                  else if kind == 0x05 then 16 * size * count
                  else if kind == 0x06 || kind == 0x10 || kind == 0x30 then 32 * size * count
                  else if kind == 0x07 || kind == 0x20 || kind == 0x40 then 64 * size * count
                  else if kind == 0x08 then 128 * size * count
                  else 96 * size * count;
      if bits <= 8 then c.encodedSize == bits else c.encodedSize % 8 == 0 && bits <= c.encodedSize < bits + 8
    ensures result == 0 ==>
      c.naturalBoundary ==
      if kind == 0x01 then 1 else if kind == 0x02 then 2 else if kind == 0x03 then 4 else if kind == 0x04 then 8
      else if kind == 0x05 then 16 else if kind == 0x07 || kind == 0x20 || kind == 0x40 then 64
      else if kind == 0x08 then 128 else 32
  {
    var encodedSize, boundary := junkSize, junkBoundary;
    result := -1;
    match ShapeOf(kind) {
      case Shape(bits, natural) =>
        encodedSize, boundary := EncodedSize(kind, bits, size, count), natural;
        result := 0;
      case Unknown =>
    }
    var column := new Column(kind, size, count, encodedSize, boundary, table.cols);
    c := column;
    table.cols := column;
    if result == 0 {
      SizeIsPadded(kind, size, count);
    }
  }

  /** What a column of a known type takes up is padded to the least multiple of 8 above 8 bits. */
  lemma SizeIsPadded(kind: nat, size: nat, count: nat)
    requires ShapeOf(kind).Shape?
    ensures var bits := ShapeOf(kind).bits;
      var all := if kind == 0x50 then bits * count
                 else if kind == 0x11 then bits * size * count + 32 * count else bits * size * count;
      var padded := EncodedSize(kind, bits, size, count);
      if all <= 8 then padded == all else padded % 8 == 0 && all <= padded < all + 8
  {
    var bits := ShapeOf(kind).bits;
    var each := if kind == ENUMERATION then bits * count else bits * size * count;
    PaddingIsLeast(if kind == VARCHAR then each + count * 32 else each);
  }

  /** Padding goes up to the next whole byte. */
  lemma PaddingIsLeast(x: nat)
    ensures (x + 7) / 8 * 8 % 8 == 0 && x <= (x + 7) / 8 * 8 < x + 8
  {}

  // ----- reorder_columns_by_size -----

  /** The scan for the first column with the largest boundary, and the one before it. */
  method FindLargest(unsorted: Column, ghost s: seq<Column>) returns (largest: Column, before: Column?, ghost k: nat)
    requires Chain(unsorted, s) && s != []
    ensures k == FirstMax(s) && largest == s[k]
    ensures k > 0 ==> before == s[k - 1]
    ensures k == 0 ==> before == null
  {
    hide Chain, FirstMax;
    StartOfChain(unsorted, s);
    var search: Column? := unsorted;
    var previous: Column? := null;
    ghost var i := 0;
    largest, before, k := unsorted, null, 0;
    while search != null
      invariant 0 <= i <= |s| && search == (if i < |s| then s[i] else null)
      invariant i > 0 ==> previous == s[i - 1]
      invariant k < |s| && largest == s[k] && (i > 0 ==> k == FirstMax(s[..i]))
      invariant i == 0 ==> k == 0
      invariant if k > 0 then before == s[k - 1] else before == null
      decreases |s| - i
    {
      FirstMaxStep(s, i);
      NextInChain(unsorted, s, i);
      if search.naturalBoundary > largest.naturalBoundary {
        before := previous;
        largest := search;
        k := i;
      }
      previous := search;
      search := search.next;
      i := i + 1;
    }
    assert s[..i] == s;
  }

  /** Takes the largest column out of the unsorted list. */
  method Unlink(unsorted: Column, largest: Column, before: Column?, ghost s: seq<Column>, ghost k: nat)
    returns (rest: Column?)
    requires Chain(unsorted, s) && k < |s| && largest == s[k]
    requires if k > 0 then before == s[k - 1] else before == null
    modifies if before == null then {} else {before}
    ensures forall c :: c in s && c != before ==> c.next == old(c.next)
    ensures before != null ==> before.offset == old(before.offset) && before.shift == old(before.shift)
    ensures Chain(rest, Without(s, k))
    ensures largest.next == old(largest.next)
  {
    if largest == unsorted {
      return unsorted.next;
    }
    before.next := largest.next;
    return unsorted;
  }

  /** Appends a column that was taken out of the unsorted list to the sorted one. */
  method Append(sorted: Column?, lastSorted: Column?, largest: Column, ghost done: seq<Column>) returns (head: Column)
    requires Chain(sorted, done) && largest !in done
    requires done != [] ==> lastSorted == done[|done| - 1]
    modifies done, largest
    ensures Chain(head, done + [largest])
  {
    if sorted == null {
      head := largest;
    } else {
      lastSorted.next := largest;
      head := sorted;
    }
    largest.next := null;
  }

  lemma TakenOut(s: seq<Column>, k: nat)
    requires Distinct(s) && k < |s|
    ensures s[k] !in Without(s, k)
    ensures forall c :: c in Without(s, k) ==> c in s
    ensures k > 0 ==> s[k - 1] in Without(s, k)
  {
    if k > 0 {
      assert Without(s, k)[k - 1] == s[k - 1];
    }
  }

  lemma RestApart(s: seq<Column>, k: nat, done: seq<Column>)
    requires Distinct(s) && k < |s| && forall c :: c in done ==> c !in s
    ensures forall i :: 0 <= i < |s| - 1 ==> Without(s, k)[i] !in done && Without(s, k)[i] != s[k]
    ensures forall i :: 0 <= i < |done| ==> done[i] !in s
  {
    forall i | 0 <= i < |s| - 1
      ensures Without(s, k)[i] !in done && Without(s, k)[i] != s[k]
    {
      assert Without(s, k)[i] in s;
    }
    forall i | 0 <= i < |done|
      ensures done[i] !in s
    {
      assert done[i] in done;
    }
  }

  /** One turn: the largest unsorted column moves to the end of the sorted list. */
  method MoveLargest(unsorted: Column, sorted: Column?, lastSorted: Column?, ghost done: seq<Column>,
                     ghost rest: seq<Column>)
    returns (left: Column?, head: Column, largest: Column, ghost k: nat)
    requires Chain(unsorted, rest) && Chain(sorted, done) && rest != []
    requires done != [] ==> lastSorted == done[|done| - 1]
    requires forall c :: c in done ==> c !in rest
    modifies done, rest
    ensures k == FirstMax(rest) && largest == rest[k]
    ensures Chain(left, Without(rest, k)) && Chain(head, done + [largest])
  {
    hide FirstMax;
    var before;
    largest, before, k := FindLargest(unsorted, rest);
    TakenOut(rest, k);
    left := Unlink(unsorted, largest, before, rest, k);
    RestApart(rest, k, done);
    head := Append(sorted, lastSorted, largest, done);
  }

  /** reorder_columns_by_size: relinks the same columns in place, largest boundary first. */
  method ReorderColumns(table: Table, ghost s: seq<Column>)
    requires Chain(table.cols, s)
    modifies table`cols, s
    ensures Chain(table.cols, Ordered(s))
  {
    hide Chain, Ordered, FirstMax;
    var unsorted := table.cols;
    var sorted: Column? := null;
    var lastSorted: Column? := null;
    StartOfList();
    ghost var done, rest: seq<Column> := [], s;
    assert [] + Ordered(s) == Ordered(s);
    while unsorted != null
      invariant Chain(unsorted, rest) && Chain(sorted, done)
      invariant done != [] ==> lastSorted == done[|done| - 1]
      invariant forall c :: c in done ==> c in s
      invariant forall c :: c in rest ==> c in s
      invariant forall c :: c in done ==> c !in rest
      invariant done + Ordered(rest) == Ordered(s)
      decreases |rest|
    {
      NotEmpty(unsorted, rest);
      assert forall i :: 0 <= i < |done| ==> done[i] in done && done[i] in s;
      assert forall i :: 0 <= i < |rest| ==> rest[i] in rest && rest[i] in s;
      var largest;
      ghost var k;
      unsorted, sorted, largest, k := MoveLargest(unsorted, sorted, lastSorted, done, rest);
      lastSorted := largest;
      TakenOut(rest, k);
      OrderedStep(done, rest);
      done, rest := done + [largest], Without(rest, k);
    }
    EmptyChain(rest);
    assert done + [] == done;
    table.cols := sorted;
  }

  lemma StartOfList()
    ensures Chain(null, [])
  {}

  lemma EmptyChain(s: seq<Column>)
    requires Chain(null, s)
    ensures s == [] && Ordered(s) == []
  {}

  lemma OrderedStep(done: seq<Column>, rest: seq<Column>)
    requires rest != []
    ensures var k := FirstMax(rest);
      done + Ordered(rest) == (done + [rest[k]]) + Ordered(Without(rest, k))
  {
    hide FirstMax;
    var k := FirstMax(rest);
    var left := Ordered(Without(rest, k));
    assert Ordered(rest) == [rest[k]] + left;
    assert done + ([rest[k]] + left) == (done + [rest[k]]) + left;
  }

  lemma NotEmpty(head: Column, s: seq<Column>)
    requires Chain(head, s)
    ensures s != [] && Distinct(s)
  {}

  // ----- generate_table_definition -----

  /** Bits taken up by the columns of s. */
  function Bits(s: seq<Column>): nat {
    if s == [] then 0 else Bits(s[..|s| - 1]) + s[|s| - 1].encodedSize
  }

  /** (x + A - 1) & -A, for A = 1 << alignment. */
  function AlignUp(x: nat, alignment: nat): nat {
    (x + Pow2(alignment) - 1) / Pow2(alignment) * Pow2(alignment)
  }

  function RecordSize(bits: nat, alignment: nat): nat {
    var bytes := AlignUp((bits + 7) / 8, alignment);
    if bytes < 4 then 4 else bytes
  }

  /** Column i of s is at the bit where the columns before it end. */
  ghost predicate Placed(s: seq<Column>, i: nat)
    requires i < |s|
    reads s
  {
    s[i].offset == Bits(s[..i]) / 8 && s[i].shift == Bits(s[..i]) % 8
  }

  /** Gives column i its place. */
  method PlaceColumn(table: Table, column: Column, ghost t: seq<Column>, ghost i: nat)
    requires Chain(table.cols, t) && i < |t| && column == t[i]
    requires table.recordSize == Bits(t[..i])
    requires forall j :: 0 <= j < i ==> Placed(t, j)
    modifies table`columnCount, table`recordSize, column`offset, column`shift
    ensures Chain(table.cols, t)
    ensures table.columnCount == old(table.columnCount) + 1
    ensures table.recordSize == Bits(t[..i + 1])
    ensures forall j :: 0 <= j <= i ==> Placed(t, j)
  {
    table.columnCount := table.columnCount + 1;
    column.offset := table.recordSize / 8;
    column.shift := table.recordSize % 8;
    table.recordSize := table.recordSize + column.encodedSize;
    assert t[..i + 1][..i] == t[..i];
    forall j | 0 <= j <= i
      ensures Placed(t, j)
    {
      assert j < i ==> t[j] != t[i] && old(Placed(t, j));
    }
  }

  lemma StartOfChain(head: Column?, s: seq<Column>)
    requires Chain(head, s)
    ensures head == if s == [] then null else s[0]
    ensures Bits(s[..0]) == 0
  {}

  lemma NextInChain(head: Column?, s: seq<Column>, i: nat)
    requires Chain(head, s) && i < |s|
    ensures s[i].next == if i + 1 < |s| then s[i + 1] else null
  {}

  /** Sorts the columns and lays them out. */
  method LayOut(table: Table, alignment: nat, ghost s: seq<Column>)
    requires Chain(table.cols, s) && table.recordSize == 0 && table.columnCount == 0
    modifies table, s
    ensures Chain(table.cols, Ordered(s))
    ensures forall i :: 0 <= i < |s| ==> Placed(Ordered(s), i)
    ensures table.columnCount == |s|
    ensures table.recordSize == RecordSize(Bits(Ordered(s)), alignment)
  {
    hide Chain, Bits, Ordered, Placed, AlignUp;
    ReorderColumns(table, s);
    ghost var t := Ordered(s);
    StartOfChain(table.cols, t);
    forall c | c in t
      ensures c in s
    {
      OrderedIn(s, c);
    }
    var column := table.cols;
    ghost var i := 0;
    while column != null
      invariant 0 <= i <= |t| && column == (if i < |t| then t[i] else null)
      invariant Chain(table.cols, t)
      invariant table.recordSize == Bits(t[..i]) && table.columnCount == i
      invariant forall j :: 0 <= j < i ==> Placed(t, j)
      decreases |t| - i
    {
      assert t[i] in t && t[i] in s;
      PlaceColumn(table, column, t, i);
      NextInChain(table.cols, t, i);
      column := column.next;
      i := i + 1;
    }
    assert t[..i] == t;
    table.recordSize := (table.recordSize + 7) / 8;
    table.recordSize := AlignUp(table.recordSize, alignment);
    if table.recordSize < 4 {
      table.recordSize := 4;
    }
  }

  // ----- natural alignment -----

  /** b is a multiple of a. */
  predicate Divides(a: nat, b: nat) {
    a > 0 && b % a == 0
  }

  lemma DividesSum(a: nat, x: nat, y: nat)
    requires Divides(a, x) && Divides(a, y)
    ensures Divides(a, x + y)
  {
    var q, r := DivModSplit(x, a);
    var t, u := DivModSplit(y, a);
    assert x + y == (q + t) * a;
    DivModIs(x + y, a, q + t, 0);
  }

  lemma DividesTimes(a: nat, x: nat, k: nat)
    requires Divides(a, x)
    ensures Divides(a, x * k)
  {
    var q, r := DivModSplit(x, a);
    assert x * k == (q * k) * a;
    DivModIs(x * k, a, q * k, 0);
  }

  lemma DividesTrans(a: nat, b: nat, x: nat)
    requires Divides(a, b) && Divides(b, x)
    ensures Divides(a, x)
  {
    var q, r := DivModSplit(x, b);
    DividesTimes(a, b, q);
    assert x == b * q;
  }

  /** Boundaries are powers of two, so the larger is a multiple of the smaller. */
  lemma BoundariesDivide(c: Column, d: Column)
    requires Known(c) && Known(d) && c.naturalBoundary <= d.naturalBoundary
    ensures Divides(c.naturalBoundary, d.naturalBoundary)
  {}

  /** A column's size is a multiple of its boundary, padding included. */
  lemma SizeInBoundaries(c: Column)
    requires Known(c)
    ensures Divides(c.naturalBoundary, c.encodedSize)
  {
    var bits, b := ShapeOf(c.kind).bits, c.naturalBoundary;
    assert Divides(b, bits);
    DividesTimes(b, bits, c.count);
    DividesTimes(b, bits, c.size);
    DividesTimes(b, bits * c.size, c.count);
    var each := if c.kind == ENUMERATION then bits * c.count else bits * c.size * c.count;
    var all := if c.kind == VARCHAR then each + c.count * 32 else each;
    if c.kind == VARCHAR {
      DividesTimes(32, 32, c.count);
      assert 32 * c.count == c.count * 32;
      DividesSum(32, each, c.count * 32);
    }
    assert Divides(b, all);
    if all > 8 {
      PaddingKeepsMultiple(b, all);
    }
  }

  /** Padding to whole bytes keeps a multiple of a power of two up to 128 one. */
  lemma PaddingKeepsMultiple(b: nat, x: nat)
    requires b in {1, 2, 4, 8, 16, 32, 64, 128} && Divides(b, x)
    ensures Divides(b, (x + 7) / 8 * 8)
  {
    if b <= 8 {
      DividesTimes(b, 8, (x + 7) / 8);
      assert 8 * ((x + 7) / 8) == (x + 7) / 8 * 8;
    } else {
      DividesTrans(8, b, x);
      WholeBytes(x);
    }
  }

  lemma WholeBytes(x: nat)
    requires Divides(8, x)
    ensures (x + 7) / 8 * 8 == x
  {
    DivModIs(x + 7, 8, x / 8, 7);
  }

  lemma {:induction false} BitsInBoundaries(s: seq<Column>, i: nat, c: Column)
    requires forall d :: d in s ==> Known(d)
    requires i <= |s| && Known(c) && forall j :: 0 <= j < i ==> s[j].naturalBoundary >= c.naturalBoundary
    ensures Divides(c.naturalBoundary, Bits(s[..i]))
  {
    if i > 0 {
      BitsInBoundaries(s, i - 1, c);
      assert s[..i][..i - 1] == s[..i - 1];
      SizeInBoundaries(s[i - 1]);
      BoundariesDivide(c, s[i - 1]);
      DividesTrans(c.naturalBoundary, s[i - 1].naturalBoundary, s[i - 1].encodedSize);
      DividesSum(c.naturalBoundary, Bits(s[..i - 1]), s[i - 1].encodedSize);
    }
  }

  lemma {:induction false} BitsMono(s: seq<Column>, i: nat, j: nat)
    requires i <= j <= |s|
    ensures Bits(s[..i]) <= Bits(s[..j])
  {
    if i < j {
      BitsMono(s, i, j - 1);
      assert s[..j][..j - 1] == s[..j - 1];
    }
  }

  lemma RecordSizeFits(bits: nat, alignment: nat)
    ensures bits <= 8 * RecordSize(bits, alignment)
    ensures Divides(Pow2(alignment), RecordSize(bits, alignment)) || RecordSize(bits, alignment) == 4
  {
    var a, x := Pow2(alignment), (bits + 7) / 8;
    var q, r := DivModSplit(x + a - 1, a);
    DividesTimes(a, a, q);
    assert a * q == q * a;
  }

  lemma NextStarts(t: seq<Column>, i: nat, j: nat)
    requires i < j <= |t|
    ensures Bits(t[..i]) + t[i].encodedSize <= Bits(t[..j])
  {
    assert t[..i + 1][..i] == t[..i];
    BitsMono(t, i + 1, j);
  }

  lemma OrderedKnown(s: seq<Column>)
    requires forall c :: c in s ==> Known(c)
    ensures forall c :: c in Ordered(s) ==> Known(c)
  {
    forall c | c in Ordered(s)
      ensures Known(c)
    {
      OrderedIn(s, c);
    }
  }

  /** The layout of a table whose columns were all added successfully: every column starts at a bit that
      is a multiple of its natural boundary, no two columns overlap, and all lie in the record. */
  lemma LayoutIsAligned(s: seq<Column>, alignment: nat)
    requires forall c :: c in s ==> Known(c)
    ensures var t := Ordered(s);
      && (forall i :: 0 <= i < |t| ==> Divides(t[i].naturalBoundary, Bits(t[..i])))
      && (forall i, j :: 0 <= i < j < |t| ==> Bits(t[..i]) + t[i].encodedSize <= Bits(t[..j]))
      && (forall i :: 0 <= i < |t| ==> Bits(t[..i]) + t[i].encodedSize <= 8 * RecordSize(Bits(t), alignment))
  {
    hide Bits, RecordSize, Known, Ordered, Divides;
    var t := Ordered(s);
    OrderedIsSorted(s);
    OrderedKnown(s);
    RecordSizeFits(Bits(t), alignment);
    assert t[..|t|] == t;
    forall i | 0 <= i < |t|
      ensures Divides(t[i].naturalBoundary, Bits(t[..i]))
      ensures Bits(t[..i]) + t[i].encodedSize <= 8 * RecordSize(Bits(t), alignment)
    {
      assert t[i] in t;
      BitsInBoundaries(t, i, t[i]);
      NextStarts(t, i, |t|);
    }
    forall i, j | 0 <= i < j < |t|
      ensures Bits(t[..i]) + t[i].encodedSize <= Bits(t[..j])
    {
      NextStarts(t, i, j);
    }
  }

  /** Without the sort it fails: a one-bit column in front of a 32-bit one puts that at bit 1. */
  lemma UnsortedIsMisaligned(c: Column, d: Column)
    requires Known(c) && c.kind == INT1 && c.size == 1 && c.count == 1
    requires Known(d) && d.kind == INT32
    ensures !Divides(d.naturalBoundary, Bits([c, d][..1]))
  {
    assert [c, d][..1] == [c] && [c][..0] == [];
    assert Bits([c]) == Bits([c][..0]) + c.encodedSize;
  }

  // ----- generate_table_definition -----

  /** The bit a column starts at, from its fields. */
  lemma PlacedAt(t: seq<Column>, i: nat)
    requires i < |t| && Placed(t, i)
    ensures 8 * t[i].offset + t[i].shift == Bits(t[..i]) && t[i].shift < 8
  {}

  lemma BitsStep(t: seq<Column>, i: nat)
    requires i < |t|
    ensures Bits(t[..i + 1]) == Bits(t[..i]) + t[i].encodedSize && Bits(t[..0]) == 0 && t[..|t|] == t
  {
    assert t[..i + 1][..i] == t[..i];
  }

  /** Columns that are placed follow each other without a gap, from bit 0 on. */
  lemma PlacedInARow(t: seq<Column>, i: nat)
    requires i < |t| && forall j :: 0 <= j < |t| ==> Placed(t, j)
    ensures t[i].shift < 8 && (i == 0 ==> t[i].offset == 0 && t[i].shift == 0)
    ensures i + 1 < |t| ==>
      8 * t[i + 1].offset + t[i + 1].shift == 8 * t[i].offset + t[i].shift + t[i].encodedSize
    ensures i + 1 == |t| ==> 8 * t[i].offset + t[i].shift + t[i].encodedSize == Bits(t)
  {
    hide Bits, Placed;
    PlacedAt(t, i);
    BitsStep(t, i);
    if i + 1 < |t| {
      PlacedAt(t, i + 1);
    }
  }

  /** The least multiple of 1 << alignment that holds the bits. */
  lemma RecordSizeIs(bits: nat, alignment: nat) returns (m: nat)
    ensures m % Pow2(alignment) == 0 && bits <= 8 * m < bits + 8 * Pow2(alignment)
    ensures RecordSize(bits, alignment) == if m < 4 then 4 else m
  {
    hide Pow2;
    var a, x := Pow2(alignment), (bits + 7) / 8;
    var q, r := DivModSplit(x + a - 1, a);
    m := q * a;
    DivModIs(m, a, q, 0);
  }

  lemma StartsAligned(s: seq<Column>, t: seq<Column>, alignment: nat)
    requires t == Ordered(s) && (forall c :: c in s ==> Known(c)) && forall j :: 0 <= j < |t| ==> Placed(t, j)
    ensures forall i: nat :: i < |t| ==>
      t[i].naturalBoundary > 0 && (8 * t[i].offset + t[i].shift) % t[i].naturalBoundary == 0
  {
    hide Bits, Ordered, Placed, RecordSize, Known;
    LayoutIsAligned(s, alignment);
    forall i: nat | i < |t|
      ensures t[i].naturalBoundary > 0 && (8 * t[i].offset + t[i].shift) % t[i].naturalBoundary == 0
    {
      PlacedAt(t, i);
    }
  }

  /** generate_table_definition: the columns of the sorted list follow each other without a gap, and the record
      is the least multiple of 1 << alignment that holds them, m, or 4. Writing the definition to the table's
      file is not part of this model. */
  method GenerateTableDefinition(table: Table, alignment: nat, ghost s: seq<Column>) returns (ghost m: nat)
    requires Chain(table.cols, s) && table.recordSize == 0 && table.columnCount == 0
    modifies table, s
    ensures Chain(table.cols, Ordered(s)) && table.columnCount == |s|
    ensures s != [] ==> Ordered(s)[0].offset == 0 && Ordered(s)[0].shift == 0
    ensures forall i: nat :: i < |s| ==> Ordered(s)[i].shift < 8
    ensures var t := Ordered(s);
      forall i: nat :: i + 1 < |t| ==>
        8 * t[i + 1].offset + t[i + 1].shift == 8 * t[i].offset + t[i].shift + t[i].encodedSize
    ensures var t := Ordered(s);
      var end := if t == [] then 0 else 8 * t[|t| - 1].offset + t[|t| - 1].shift + t[|t| - 1].encodedSize;
      end <= 8 * m < end + 8 * Pow2(alignment)
    ensures m % Pow2(alignment) == 0 && table.recordSize == if m < 4 then 4 else m
    ensures (forall c :: c in s ==> Known(c)) ==>
      var t := Ordered(s);
      forall i: nat :: i < |t| ==>
        t[i].naturalBoundary > 0 && (8 * t[i].offset + t[i].shift) % t[i].naturalBoundary == 0
  {
    hide Chain, Bits, Ordered, Placed, RecordSize, Pow2, Known;
    LayOut(table, alignment, s);
    ghost var t := Ordered(s);
    forall i: nat | i < |t|
      ensures t[i].shift < 8 && (i == 0 ==> t[i].offset == 0 && t[i].shift == 0)
      ensures i + 1 < |t| ==>
        8 * t[i + 1].offset + t[i + 1].shift == 8 * t[i].offset + t[i].shift + t[i].encodedSize
      ensures i + 1 == |t| ==> 8 * t[i].offset + t[i].shift + t[i].encodedSize == Bits(t)
    {
      PlacedInARow(t, i);
    }
    NoBits();
    m := RecordSizeIs(Bits(t), alignment);
    if forall c :: c in s ==> Known(c) {
      StartsAligned(s, t, alignment);
    }
  }

  lemma NoBits()
    ensures Bits([]) == 0
  {}
}

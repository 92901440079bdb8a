/**
 How a file's tree is kept on the device between close and open.

 Closing writes every index block as a block of ids and then the inode record; opening reads them
 back. `Flush` and `Load` are those two traversals on values, in the order the library does them.
 The main results: a closed file is on the device word for word, whatever the tree; and loading what
 was stored gives back the tree, except that an empty direct slot comes back as a block with id 0.
 */
module OnDisk {
  import opened Arith
  import opened Bitmap
  import opened Bytes
  import opened Layouts
  import opened FileSpec

  // ----- positions below others -----

  function Level(s: Pos): (l: nat)
    ensures l <= 3
  {
    match s
    case Leaf(_) => 0
    case Ind(_) => 1
    case Bind(_) => 2
    case Tind => 3
  }

  /** t is s or hangs below it. */
  predicate Under(p: Fanout, s: Pos, t: Pos)
    decreases 3 - Level(t)
  {
    t == s || (!IsRoot(t) && Under(p, s, Parent(p, t)))
  }

  /** The child of s on the way down to t. */
  function Toward(p: Fanout, s: Pos, t: Pos): (c: Pos)
    requires Under(p, s, t) && t != s
    ensures !IsRoot(c)
    decreases 3 - Level(t)
  {
    if Parent(p, t) == s then t else Toward(p, s, Parent(p, t))
  }

  lemma {:induction false} TowardIsChild(p: Fanout, lay: Layout, s: Pos, t: Pos)
    requires Closed(p, lay) && t in lay && Under(p, s, t) && t != s
    ensures var c := Toward(p, s, t);
      && c in lay && Under(p, c, t) && !IsRoot(c) && Parent(p, c) == s
      && !s.Leaf? && SlotOf(p, c) < p && Child(p, s, SlotOf(p, c)) == c
      && s in lay && Level(t) <= Level(c) < Level(s)
    decreases 3 - Level(t)
  {
    var up := Parent(p, t);
    if up == s {
      ParentInverse(p, t);
    } else {
      TowardIsChild(p, lay, s, up);
    }
  }

  /** The root position above t. */
  function TopOf(p: Fanout, t: Pos): (s: Pos)
    ensures IsRoot(s) && Under(p, s, t)
    decreases 3 - Level(t)
  {
    if IsRoot(t) then t else
      var s := TopOf(p, Parent(p, t));
      s
  }

  lemma {:induction false} TopIsThere(p: Fanout, lay: Layout, t: Pos)
    requires Closed(p, lay) && t in lay
    ensures TopOf(p, t) in lay
    decreases 3 - Level(t)
  {
    if !IsRoot(t) {
      TopIsThere(p, lay, Parent(p, t));
    }
  }

  // ----- words in blocks -----

  /** Device address of slot k of the index block with this id. */
  function SlotAddress(g: Geo, id: nat, k: nat): nat {
    id * g.bs + 8 * k
  }

  predicate WordIs(dev: seq<byte>, off: nat, x: nat) {
    off + 8 <= |dev| && Word(dev, off) == x
  }

  /** Stores a word, unless it does not fit on the device. */
  function Put(dev: seq<byte>, off: nat, x: nat): seq<byte> {
    Store(dev, off, Encode64(x))
  }

  lemma PutGives(dev: seq<byte>, off: nat, x: nat)
    requires off + 8 <= |dev| && x < WORD_LIMIT
    ensures WordIs(Put(dev, off, x), off, x)
  {
    WordWritten(dev, off, x);
  }

  lemma PutElsewhere(dev: seq<byte>, off: nat, x: nat, at: nat, y: nat)
    requires WordIs(dev, at, y) && (at + 8 <= off || off + 8 <= at)
    ensures WordIs(Put(dev, off, x), at, y)
  {
    WordUntouched(dev, Put(dev, off, x), at);
  }

  lemma SlotInBlock(g: Geo, id: nat, k: nat)
    requires k < g.p && g.bs == 8 * g.p
    ensures id * g.bs <= SlotAddress(g, id, k) && SlotAddress(g, id, k) + 8 <= id * g.bs + g.bs
  {}

  lemma SlotsApart(g: Geo, x: nat, k: nat, y: nat, l: nat)
    requires k < g.p && l < g.p && g.bs == 8 * g.p && (x != y || k != l)
    ensures SlotAddress(g, x, k) + 8 <= SlotAddress(g, y, l) || SlotAddress(g, y, l) + 8 <= SlotAddress(g, x, k)
  {
    if x < y {
      BlockEnd(x, y, g.bs);
    } else if y < x {
      BlockEnd(y, x, g.bs);
    }
  }

  // ----- closing -----

  /** The first i slots of index block s written out, each after the index block it points at:
      udbfslib_unload_ind_block, _bind_block and _tind_block. */
  function Flush(g: Geo, dev: seq<byte>, lay: Layout, s: Pos, i: nat): (r: seq<byte>)
    requires !s.Leaf?
    ensures |r| == |dev|
    decreases Level(s), i
  {
    if i == 0 then dev
    else
      var d := Flush(g, dev, lay, s, i - 1);
      Put(FlushChild(g, d, lay, s, i - 1), SlotAddress(g, Id(lay, s), i - 1), Id(lay, Child(g.p, s, i - 1)))
  }

  function FlushChild(g: Geo, dev: seq<byte>, lay: Layout, s: Pos, i: nat): (r: seq<byte>)
    requires !s.Leaf?
    ensures |r| == |dev|
    decreases Level(s), i, 0
  {
    var c := Child(g.p, s, i);
    if c in lay && !c.Leaf? then Flush(g, dev, lay, c, g.p) else dev
  }

  lemma FlushNothing(g: Geo, dev: seq<byte>, lay: Layout, s: Pos)
    requires !s.Leaf?
    ensures Flush(g, dev, lay, s, 0) == dev
  {}

  /** The slot written last. */
  lemma FlushStep(g: Geo, dev: seq<byte>, lay: Layout, s: Pos, i: nat, off: nat)
    requires !s.Leaf? && off == SlotAddress(g, Id(lay, s), i)
    ensures Flush(g, dev, lay, s, i + 1) ==
            Put(FlushChild(g, Flush(g, dev, lay, s, i), lay, s, i), off, Id(lay, Child(g.p, s, i)))
    ensures s.Ind? ==> FlushChild(g, Flush(g, dev, lay, s, i), lay, s, i) == Flush(g, dev, lay, s, i)
  {}

  function FlushRoot(g: Geo, dev: seq<byte>, lay: Layout, s: Pos): (r: seq<byte>)
    requires !s.Leaf?
    ensures |r| == |dev|
  {
    if s in lay then Flush(g, dev, lay, s, g.p) else dev
  }

  function FlushTree(g: Geo, dev: seq<byte>, lay: Layout): (r: seq<byte>)
    ensures |r| == |dev|
  {
    FlushRoot(g, FlushRoot(g, FlushRoot(g, dev, lay, Ind(0)), lay, Bind(0)), lay, Tind)
  }

  const RECORD_SIZE: nat := 64

  /** The inode record: the size, four direct ids and the ids of the three index blocks. */
  function Record(lay: Layout, size: nat): (s: seq<byte>)
    ensures |s| == RECORD_SIZE
  {
    Words([size] + seq(7, j requires 0 <= j < 7 => Id(lay, Root(j))))
  }

  /** What udbfs_close_inode leaves on the device. */
  function Close(g: Geo, dev: seq<byte>, lay: Layout, rec: nat, size: nat): (r: seq<byte>)
    ensures |r| == |dev|
  {
    Store(FlushTree(g, dev, lay), rec, Record(lay, size))
  }

  // ----- what is on the device afterwards -----

  /** Slot k of index block s is on the device. */
  predicate SlotStored(g: Geo, dev: seq<byte>, lay: Layout, s: Pos, k: nat)
    requires !s.Leaf?
  {
    WordIs(dev, SlotAddress(g, Id(lay, s), k), Id(lay, Child(g.p, s, k)))
  }

  /** All index blocks are on the device. */
  ghost predicate TreeStored(g: Geo, dev: seq<byte>, lay: Layout) {
    forall s, k: nat :: s in lay && !s.Leaf? && k < g.p ==> SlotStored(g, dev, lay, s, k)
  }

  ghost predicate RecordStored(dev: seq<byte>, lay: Layout, rec: nat, size: nat) {
    && WordIs(dev, rec, size)
    && forall j: nat :: j < 7 ==> WordIs(dev, rec + 8 + 8 * j, Id(lay, Root(j)))
  }

  /** The closed file is on the device. */
  ghost predicate Stored(g: Geo, dev: seq<byte>, lay: Layout, rec: nat, size: nat) {
    TreeStored(g, dev, lay) && RecordStored(dev, lay, rec, size)
  }

  /** Index blocks have a block each, on the device, away from the record; ids and size fit in a word. */
  ghost predicate Storable(g: Geo, lay: Layout, rec: nat, size: nat, room: nat) {
    && g.bs == 8 * g.p
    && Closed(g.p, lay)
    && (forall s :: s in lay ==> lay[s] < WORD_LIMIT)
    && (forall s :: s in lay && !s.Leaf? ==> lay[s] * g.bs + g.bs <= room)
    && (forall s, t :: s in lay && t in lay && !s.Leaf? && !t.Leaf? && lay[s] == lay[t] ==> s == t)
    && size < WORD_LIMIT && rec + RECORD_SIZE <= room
    && (forall s :: s in lay && !s.Leaf? ==> rec + RECORD_SIZE <= lay[s] * g.bs || lay[s] * g.bs + g.bs <= rec)
  }

  /** A word that is right stays right: whatever closing writes is the truth about some slot, and
      different slots have different addresses. */
  lemma PutKeeps(g: Geo, dev: seq<byte>, lay: Layout, rec: nat, size: nat, s: Pos, i: nat, t: Pos, k: nat)
    requires Storable(g, lay, rec, size, |dev|)
    requires s in lay && !s.Leaf? && i < g.p && t in lay && !t.Leaf? && k < g.p
    requires SlotStored(g, dev, lay, t, k)
    ensures SlotStored(g, Put(dev, SlotAddress(g, Id(lay, s), i), Id(lay, Child(g.p, s, i))), lay, t, k)
  {
    var off, x := SlotAddress(g, Id(lay, s), i), Id(lay, Child(g.p, s, i));
    if s == t && i == k {
      SlotInBlock(g, lay[s], i);
      PutGives(dev, off, x);
    } else {
      SlotsApart(g, lay[s], i, lay[t], k);
      PutElsewhere(dev, off, x, SlotAddress(g, lay[t], k), Id(lay, Child(g.p, t, k)));
    }
  }

  lemma {:induction false} FlushKeeps(g: Geo, dev: seq<byte>, lay: Layout, rec: nat, size: nat,
                                      s: Pos, i: nat, t: Pos, k: nat)
    requires Storable(g, lay, rec, size, |dev|)
    requires s in lay && !s.Leaf? && i <= g.p && t in lay && !t.Leaf? && k < g.p
    requires SlotStored(g, dev, lay, t, k)
    ensures SlotStored(g, Flush(g, dev, lay, s, i), lay, t, k)
    decreases Level(s), i
  {
    hide Storable, SlotStored, SlotAddress, Put;
    StorableIsClosed(g, lay, rec, size, |dev|);
    if i > 0 {
      var d := Flush(g, dev, lay, s, i - 1);
      var c := Child(g.p, s, i - 1);
      FlushKeeps(g, dev, lay, rec, size, s, i - 1, t, k);
      if c in lay && !c.Leaf? {
        FlushKeeps(g, d, lay, rec, size, c, g.p, t, k);
      }
      PutKeeps(g, FlushChild(g, d, lay, s, i - 1), lay, rec, size, s, i - 1, t, k);
    }
  }

  lemma PutStores(g: Geo, dev: seq<byte>, lay: Layout, rec: nat, size: nat, s: Pos, k: nat)
    requires Storable(g, lay, rec, size, |dev|)
    requires s in lay && !s.Leaf? && k < g.p
    ensures SlotStored(g, Put(dev, SlotAddress(g, Id(lay, s), k), Id(lay, Child(g.p, s, k))), lay, s, k)
  {
    SlotInBlock(g, lay[s], k);
    PutGives(dev, SlotAddress(g, lay[s], k), Id(lay, Child(g.p, s, k)));
  }

  /** Flushing s writes slot k of s. */
  lemma {:induction false} FlushWrites(g: Geo, dev: seq<byte>, lay: Layout, rec: nat, size: nat, s: Pos, i: nat, k: nat)
    requires Storable(g, lay, rec, size, |dev|)
    requires s in lay && !s.Leaf? && k < i <= g.p
    ensures SlotStored(g, Flush(g, dev, lay, s, i), lay, s, k)
    decreases i
  {
    hide SlotAddress, Put, FlushChild, WordIs;
    if k == i - 1 {
      PutStores(g, FlushChild(g, Flush(g, dev, lay, s, k), lay, s, k), lay, rec, size, s, k);
    } else {
      FlushWrites(g, dev, lay, rec, size, s, i - 1, k);
      SlotKeeps(g, Flush(g, dev, lay, s, i - 1), lay, rec, size, s, i - 1, s, k);
    }
  }

  /** One more slot keeps what was there. */
  lemma SlotKeeps(g: Geo, dev: seq<byte>, lay: Layout, rec: nat, size: nat, s: Pos, i: nat, t: Pos, k: nat)
    requires Storable(g, lay, rec, size, |dev|)
    requires s in lay && !s.Leaf? && i < g.p && t in lay && !t.Leaf? && k < g.p
    requires SlotStored(g, dev, lay, t, k)
    ensures SlotStored(g, Put(FlushChild(g, dev, lay, s, i), SlotAddress(g, Id(lay, s), i), Id(lay, Child(g.p, s, i))),
                       lay, t, k)
  {
    var c := Child(g.p, s, i);
    if c in lay && !c.Leaf? {
      FlushKeeps(g, dev, lay, rec, size, c, g.p, t, k);
    }
    PutKeeps(g, FlushChild(g, dev, lay, s, i), lay, rec, size, s, i, t, k);
  }

  /** Flushing s reaches the index blocks below it. */
  lemma {:induction false} FlushReaches(g: Geo, dev: seq<byte>, lay: Layout, rec: nat, size: nat,
                                        s: Pos, i: nat, t: Pos, k: nat)
    requires Storable(g, lay, rec, size, |dev|)
    requires s in lay && !s.Leaf? && i <= g.p && t in lay && !t.Leaf? && k < g.p && Under(g.p, s, t)
    requires t != s && SlotOf(g.p, Toward(g.p, s, t)) < i
    ensures SlotStored(g, Flush(g, dev, lay, s, i), lay, t, k)
    decreases Level(s), i
  {
    hide Storable, SlotStored, Under, SlotOf, Closed, SlotAddress;
    var d := Flush(g, dev, lay, s, i - 1);
    var c := Toward(g.p, s, t);
    StorableIsClosed(g, lay, rec, size, |dev|);
    TowardIsChild(g.p, lay, s, t);
    if SlotOf(g.p, c) == i - 1 {
      FlushBelow(g, d, lay, rec, size, c, t, k);
      PutKeeps(g, FlushChild(g, d, lay, s, i - 1), lay, rec, size, s, i - 1, t, k);
    } else {
      FlushReaches(g, dev, lay, rec, size, s, i - 1, t, k);
      SlotKeeps(g, d, lay, rec, size, s, i - 1, t, k);
    }
  }

  lemma StorableIsClosed(g: Geo, lay: Layout, rec: nat, size: nat, room: nat)
    requires Storable(g, lay, rec, size, room)
    ensures Closed(g.p, lay)
  {}

  /** Flushing s completely writes every index block at or below it. */
  lemma {:induction false} FlushBelow(g: Geo, dev: seq<byte>, lay: Layout, rec: nat, size: nat, s: Pos, t: Pos, k: nat)
    requires Storable(g, lay, rec, size, |dev|)
    requires s in lay && !s.Leaf? && t in lay && !t.Leaf? && k < g.p && Under(g.p, s, t)
    ensures SlotStored(g, Flush(g, dev, lay, s, g.p), lay, t, k)
    decreases Level(s), g.p + 1
  {
    if t == s {
      FlushWrites(g, dev, lay, rec, size, s, g.p, k);
    } else {
      TowardIsChild(g.p, lay, s, t);
      FlushReaches(g, dev, lay, rec, size, s, g.p, t, k);
    }
  }

  lemma RootKeeps(g: Geo, dev: seq<byte>, lay: Layout, rec: nat, size: nat, s: Pos, t: Pos, k: nat)
    requires Storable(g, lay, rec, size, |dev|) && !s.Leaf?
    requires t in lay && !t.Leaf? && k < g.p && SlotStored(g, dev, lay, t, k)
    ensures SlotStored(g, FlushRoot(g, dev, lay, s), lay, t, k)
  {
    if s in lay {
      FlushKeeps(g, dev, lay, rec, size, s, g.p, t, k);
    }
  }

  lemma RootReaches(g: Geo, dev: seq<byte>, lay: Layout, rec: nat, size: nat, t: Pos, k: nat)
    requires Storable(g, lay, rec, size, |dev|) && t in lay && !t.Leaf? && k < g.p
    ensures !TopOf(g.p, t).Leaf? && SlotStored(g, FlushRoot(g, dev, lay, TopOf(g.p, t)), lay, t, k)
  {
    var s := TopOf(g.p, t);
    TopIsThere(g.p, lay, t);
    if s != t { TowardIsChild(g.p, lay, s, t); }
    FlushBelow(g, dev, lay, rec, size, s, t, k);
  }

  lemma FlushTreeSlot(g: Geo, dev: seq<byte>, lay: Layout, rec: nat, size: nat, t: Pos, k: nat)
    requires Storable(g, lay, rec, size, |dev|) && t in lay && !t.Leaf? && k < g.p
    ensures SlotStored(g, FlushTree(g, dev, lay), lay, t, k)
  {
    hide Storable, SlotStored, FlushRoot;
    var d1 := FlushRoot(g, dev, lay, Ind(0));
    var d2 := FlushRoot(g, d1, lay, Bind(0));
    var s := TopOf(g.p, t);
    if s == Ind(0) {
      RootReaches(g, dev, lay, rec, size, t, k);
      RootKeeps(g, d1, lay, rec, size, Bind(0), t, k);
      RootKeeps(g, d2, lay, rec, size, Tind, t, k);
    } else if s == Bind(0) {
      RootReaches(g, d1, lay, rec, size, t, k);
      RootKeeps(g, d2, lay, rec, size, Tind, t, k);
    } else {
      RootReaches(g, d2, lay, rec, size, t, k);
      assert s == Tind;
    }
  }

  // The record.

  lemma RecordWord(lay: Layout, size: nat, j: nat)
    requires j < 8
    ensures Record(lay, size)[8 * j..8 * j + 8] == Encode64(if j == 0 then size else Id(lay, Root(j - 1)))
  {
    WordsAt([size] + seq(7, i requires 0 <= i < 7 => Id(lay, Root(i))), j);
  }

  lemma RecordWordStored(dev: seq<byte>, lay: Layout, rec: nat, size: nat, j: nat, x: nat)
    requires j < 8 && rec + RECORD_SIZE <= |dev|
    requires x == (if j == 0 then size else Id(lay, Root(j - 1))) && x < WORD_LIMIT
    ensures WordIs(Store(dev, rec, Record(lay, size)), rec + 8 * j, x)
  {
    var s := Record(lay, size);
    var d := Store(dev, rec, s);
    RecordWord(lay, size, j);
    assert d[rec + 8 * j..rec + 8 * j + 8] == s[8 * j..8 * j + 8];
    Word64RoundTrip(x);
  }

  lemma RecordIsStored(dev: seq<byte>, lay: Layout, rec: nat, size: nat)
    requires rec + RECORD_SIZE <= |dev| && size < WORD_LIMIT
    requires forall s :: s in lay ==> lay[s] < WORD_LIMIT
    ensures RecordStored(Store(dev, rec, Record(lay, size)), lay, rec, size)
  {
    RecordWordStored(dev, lay, rec, size, 0, size);
    forall j: nat | j < 7
      ensures WordIs(Store(dev, rec, Record(lay, size)), rec + 8 + 8 * j, Id(lay, Root(j)))
    {
      RecordWordStored(dev, lay, rec, size, j + 1, Id(lay, Root(j)));
      assert rec + 8 * (j + 1) == rec + 8 + 8 * j;
    }
  }

  /** The record lies apart from the index blocks. */
  lemma RecordKeepsSlot(g: Geo, dev: seq<byte>, lay: Layout, rec: nat, size: nat, t: Pos, k: nat)
    requires Storable(g, lay, rec, size, |dev|) && t in lay && !t.Leaf? && k < g.p
    requires SlotStored(g, dev, lay, t, k)
    ensures SlotStored(g, Store(dev, rec, Record(lay, size)), lay, t, k)
  {
    SlotInBlock(g, lay[t], k);
    WordUntouched(dev, Store(dev, rec, Record(lay, size)), SlotAddress(g, lay[t], k));
  }

  /** Closing stores the file: every slot of every index block, at whatever depth, and the record. */
  lemma CloseStores(g: Geo, dev: seq<byte>, lay: Layout, rec: nat, size: nat)
    requires Storable(g, lay, rec, size, |dev|)
    ensures Stored(g, Close(g, dev, lay, rec, size), lay, rec, size)
  {
    var d := FlushTree(g, dev, lay);
    forall s, k: nat | s in lay && !s.Leaf? && k < g.p
      ensures SlotStored(g, Close(g, dev, lay, rec, size), lay, s, k)
    {
      FlushTreeSlot(g, dev, lay, rec, size, s, k);
      RecordKeepsSlot(g, d, lay, rec, size, s, k);
    }
    RecordIsStored(d, lay, rec, size);
  }

  // ----- what closing leaves alone -----

  /** Byte a belongs to no index block of the tree. */
  ghost predicate OutsideIndex(g: Geo, lay: Layout, a: nat) {
    forall s :: s in lay && !s.Leaf? ==> !InBlock(g, lay[s], a)
  }

  lemma {:induction false} FlushTouches(g: Geo, dev: seq<byte>, lay: Layout, s: Pos, i: nat, a: nat)
    requires g.bs == 8 * g.p && s in lay && !s.Leaf? && i <= g.p
    requires OutsideIndex(g, lay, a) && a < |dev|
    ensures Flush(g, dev, lay, s, i)[a] == dev[a]
    decreases Level(s), i
  {
    if i > 0 {
      FlushTouches(g, dev, lay, s, i - 1, a);
      var c := Child(g.p, s, i - 1);
      if c in lay && !c.Leaf? {
        FlushTouches(g, Flush(g, dev, lay, s, i - 1), lay, c, g.p, a);
      }
      SlotInBlock(g, lay[s], i - 1);
    }
  }

  /** Closing changes bytes only in the file's own index blocks and in its record. */
  lemma CloseTouches(g: Geo, dev: seq<byte>, lay: Layout, rec: nat, size: nat, a: nat)
    requires g.bs == 8 * g.p && OutsideIndex(g, lay, a) && a < |dev|
    requires !(rec <= a < rec + RECORD_SIZE)
    ensures Close(g, dev, lay, rec, size)[a] == dev[a]
  {
    var d1 := FlushRoot(g, dev, lay, Ind(0));
    var d2 := FlushRoot(g, d1, lay, Bind(0));
    if Ind(0) in lay { FlushTouches(g, dev, lay, Ind(0), g.p, a); }
    if Bind(0) in lay { FlushTouches(g, d1, lay, Bind(0), g.p, a); }
    if Tind in lay { FlushTouches(g, d2, lay, Tind, g.p, a); }
  }

  // ----- opening -----

  datatype Loaded = Loaded(ok: bool, lay: Layout)

  /** Loads position s, whose parent says it has this id. A data block is always taken over; an index
      block with id 0 is not there; one that cannot be read ends the load. */
  function LoadAt(g: Geo, dev: seq<byte>, s: Pos, id: nat, acc: Layout): Loaded
    requires g.bs == 8 * g.p
    decreases Level(s), g.p + 1
  {
    if s.Leaf? then Loaded(true, acc[s := id])
    else if id == 0 then Loaded(true, acc)
    else if id * g.bs + g.bs > |dev| then Loaded(false, acc)
    else LoadSlots(g, dev, s, id, 0, acc[s := id])
  }

  /** The slots from i on of the index block at s; empty slots are skipped. */
  function LoadSlots(g: Geo, dev: seq<byte>, s: Pos, id: nat, i: nat, acc: Layout): Loaded
    requires !s.Leaf? && id * g.bs + g.bs <= |dev| && g.bs == 8 * g.p
    decreases Level(s), g.p - i
  {
    if i >= g.p then Loaded(true, acc)
    else
      var x := Word(dev, SlotAddress(g, id, i));
      var r := if x == 0 then Loaded(true, acc) else LoadAt(g, dev, Child(g.p, s, i), x, acc);
      if !r.ok then r else LoadSlots(g, dev, s, id, i + 1, r.lay)
  }

  /** The seven ids of the record, up to the first that fails. */
  function LoadRoots(g: Geo, dev: seq<byte>, rec: nat, j: nat, acc: Layout): Loaded
    requires g.bs == 8 * g.p && rec + RECORD_SIZE <= |dev| && j <= 7
    decreases 7 - j
  {
    if j == 7 then Loaded(true, acc)
    else
      var r := LoadAt(g, dev, Root(j), Word(dev, rec + 8 + 8 * j), acc);
      if !r.ok then r else LoadRoots(g, dev, rec, j + 1, r.lay)
  }

  /** The tree after udbfs_open_inode. */
  function Load(g: Geo, dev: seq<byte>, rec: nat): Loaded
    requires g.bs == 8 * g.p && rec + RECORD_SIZE <= |dev|
  {
    LoadRoots(g, dev, rec, 0, map[])
  }

  lemma ChildLower(p: Fanout, s: Pos, i: nat)
    requires !s.Leaf?
    ensures Level(Child(p, s, i)) < Level(s)
  {}

  // Loading one slot after the other.

  /** The slots of s from i on lead nowhere yet. */
  ghost predicate EmptyFrom(p: Fanout, lay: Layout, s: Pos, i: nat)
    requires !s.Leaf?
  {
    forall j: nat :: i <= j < p ==> Child(p, s, j) !in lay
  }

  lemma NewIsEmpty(p: Fanout, lay: Layout, s: Pos, id: nat)
    requires Closed(p, lay) && s !in lay && !s.Leaf?
    ensures EmptyFrom(p, lay[s := id], s, 0)
  {
    forall j: nat | j < p
      ensures Child(p, s, j) !in lay
    {
      ChildInverse(p, s, j);
    }
  }

  /** Loading adds s itself and positions of lower levels. */
  lemma {:induction false} LoadAtAdds(g: Geo, dev: seq<byte>, s: Pos, id: nat, acc: Layout, t: Pos)
    requires g.bs == 8 * g.p && t in LoadAt(g, dev, s, id, acc).lay && t !in acc
    ensures t == s || Level(t) < Level(s)
    decreases Level(s), g.p + 1
  {
    if !s.Leaf? && id != 0 && id * g.bs + g.bs <= |dev| && t != s {
      LoadSlotsAdds(g, dev, s, id, 0, acc[s := id], t);
    }
  }

  lemma {:induction false} LoadSlotsAdds(g: Geo, dev: seq<byte>, s: Pos, id: nat, i: nat, acc: Layout, t: Pos)
    requires !s.Leaf? && id * g.bs + g.bs <= |dev| && g.bs == 8 * g.p
    requires t in LoadSlots(g, dev, s, id, i, acc).lay && t !in acc
    ensures Level(t) < Level(s)
    decreases Level(s), g.p - i
  {
    if i < g.p {
      ChildLower(g.p, s, i);
      var x := Word(dev, SlotAddress(g, id, i));
      var r := if x == 0 then Loaded(true, acc) else LoadAt(g, dev, Child(g.p, s, i), x, acc);
      if t in r.lay {
        LoadAtAdds(g, dev, Child(g.p, s, i), x, acc, t);
      } else {
        LoadSlotsAdds(g, dev, s, id, i + 1, r.lay, t);
      }
    }
  }

  lemma SiblingsDiffer(p: Fanout, s: Pos, i: nat, j: nat)
    requires !s.Leaf? && i < p && j < p && i != j
    ensures Child(p, s, i) != Child(p, s, j) && Level(Child(p, s, i)) == Level(Child(p, s, j))
  {
    ChildInverse(p, s, i);
    ChildInverse(p, s, j);
  }

  /** Slot i, whose word is x, and the slots after it. */
  lemma LoadStep(g: Geo, dev: seq<byte>, s: Pos, id: nat, i: nat, acc: Layout, x: nat, r: Loaded)
    requires !s.Leaf? && id * g.bs + g.bs <= |dev| && g.bs == 8 * g.p && i < g.p
    requires x == Word(dev, SlotAddress(g, id, i))
    requires r == if x == 0 then Loaded(true, acc) else LoadAt(g, dev, Child(g.p, s, i), x, acc)
    ensures LoadSlots(g, dev, s, id, i, acc) == if !r.ok then r else LoadSlots(g, dev, s, id, i + 1, r.lay)
    ensures EmptyFrom(g.p, acc, s, i) ==> EmptyFrom(g.p, r.lay, s, i + 1)
  {
    if EmptyFrom(g.p, acc, s, i) && x != 0 {
      forall j: nat | i < j < g.p
        ensures Child(g.p, s, j) !in r.lay
      {
        SiblingsDiffer(g.p, s, i, j);
        if Child(g.p, s, j) in r.lay {
          LoadAtAdds(g, dev, Child(g.p, s, i), x, acc, Child(g.p, s, j));
        }
      }
    }
  }

  lemma LoadEnds(g: Geo, dev: seq<byte>, s: Pos, id: nat, acc: Layout)
    requires !s.Leaf? && id * g.bs + g.bs <= |dev| && g.bs == 8 * g.p
    ensures LoadSlots(g, dev, s, id, g.p, acc) == Loaded(true, acc)
  {}

  // ----- what was stored is loaded -----

  ghost predicate Sub(lay: Layout, full: Layout) {
    forall s :: s in lay ==> s in full && full[s] == lay[s]
  }

  /** A tree that is on the device, without ids that mean "nothing here". */
  ghost predicate OnDevice(g: Geo, dev: seq<byte>, full: Layout) {
    && g.bs == 8 * g.p
    && Closed(g.p, full)
    && TreeStored(g, dev, full)
    && (forall s :: s in full && !(IsRoot(s) && s.Leaf?) ==> full[s] != 0)
    && (forall s :: s in full && !s.Leaf? ==> full[s] * g.bs + g.bs <= |dev|)
  }

  ghost predicate LoadsWell(r: Loaded, acc: Layout, full: Layout) {
    r.ok && Sub(r.lay, full) && Sub(acc, r.lay)
  }

  /** A stored slot that is not zero names a position of the tree. */
  lemma SlotNames(g: Geo, dev: seq<byte>, full: Layout, s: Pos, i: nat)
    requires OnDevice(g, dev, full) && s in full && !s.Leaf? && i < g.p
    ensures SlotAddress(g, full[s], i) + 8 <= |dev|
    ensures var x, c := Word(dev, SlotAddress(g, full[s], i)), Child(g.p, s, i);
      if x == 0 then c !in full else c in full && full[c] == x
  {
    ChildInverse(g.p, s, i);
    assert SlotStored(g, dev, full, s, i);
  }

  lemma TowardSlot(p: Fanout, full: Layout, s: Pos, i: nat, t: Pos)
    requires Closed(p, full) && t in full && Under(p, s, t) && t != s && !s.Leaf? && i < p
    requires SlotOf(p, Toward(p, s, t)) == i
    ensures Child(p, s, i) in full && Under(p, Child(p, s, i), t)
  {
    TowardIsChild(p, full, s, t);
  }

  lemma {:induction false} LoadSlotsGives(g: Geo, dev: seq<byte>, full: Layout, s: Pos, i: nat, acc: Layout, t: Pos)
    requires OnDevice(g, dev, full) && s in full && !s.Leaf? && i <= g.p && Sub(acc, full)
    ensures LoadsWell(LoadSlots(g, dev, s, full[s], i, acc), acc, full)
    ensures t in full && Under(g.p, s, t) && t != s && SlotOf(g.p, Toward(g.p, s, t)) >= i ==>
      t in LoadSlots(g, dev, s, full[s], i, acc).lay
    decreases Level(s), g.p - i
  {
    if i < g.p {
      hide OnDevice, TreeStored, SlotAddress, Child, Under, Toward, SlotOf, Parent, Closed;
      var c := Child(g.p, s, i);
      SlotNames(g, dev, full, s, i);
      OnDeviceIsClosed(g, dev, full);
      var x := Word(dev, SlotAddress(g, full[s], i));
      var r := if x == 0 then Loaded(true, acc) else LoadAt(g, dev, c, x, acc);
      if x != 0 {
        ChildLower(g.p, s, i);
        LoadAtGives(g, dev, full, c, acc, t);
      }
      LoadSlotsGives(g, dev, full, s, i + 1, r.lay, t);
      if t in full && Under(g.p, s, t) && t != s && SlotOf(g.p, Toward(g.p, s, t)) == i {
        TowardSlot(g.p, full, s, i, t);
      }
    } else if t in full && Under(g.p, s, t) && t != s {
      TowardIsChild(g.p, full, s, t);
    }
  }

  lemma OnDeviceIsClosed(g: Geo, dev: seq<byte>, full: Layout)
    requires OnDevice(g, dev, full)
    ensures g.bs == 8 * g.p && Closed(g.p, full)
    ensures forall s :: s in full && !s.Leaf? ==> full[s] != 0 && full[s] * g.bs + g.bs <= |dev|
  {}

  lemma {:induction false} LoadAtGives(g: Geo, dev: seq<byte>, full: Layout, s: Pos, acc: Layout, t: Pos)
    requires OnDevice(g, dev, full) && s in full && Sub(acc, full)
    ensures LoadsWell(LoadAt(g, dev, s, full[s], acc), acc, full)
    ensures t in full && Under(g.p, s, t) ==> t in LoadAt(g, dev, s, full[s], acc).lay
    decreases Level(s), g.p + 1
  {
    if t in full && Under(g.p, s, t) && t != s {
      TowardIsChild(g.p, full, s, t);
    }
    if !s.Leaf? {
      LoadSlotsGives(g, dev, full, s, 0, acc[s := full[s]], t);
    }
  }

  /** The tree the record and the index blocks describe: the stored one, with the direct slots taken
      over even where they are empty. */
  function Pad(lay: Layout): Layout {
    map s | s in lay.Keys + {Leaf(0), Leaf(1), Leaf(2), Leaf(3)} :: Id(lay, s)
  }

  lemma PadStored(g: Geo, dev: seq<byte>, lay: Layout, rec: nat, size: nat)
    requires Storable(g, lay, rec, size, |dev|) && Stored(g, dev, lay, rec, size)
    requires forall s :: s in lay ==> lay[s] != 0
    ensures OnDevice(g, dev, Pad(lay)) && RecordStored(dev, Pad(lay), rec, size)
  {
    var full := Pad(lay);
    assert forall s :: Id(full, s) == Id(lay, s);
    assert TreeStored(g, dev, full) by {
      forall s, k: nat | s in full && !s.Leaf? && k < g.p
        ensures SlotStored(g, dev, full, s, k)
      {
        assert SlotStored(g, dev, lay, s, k);
      }
    }
    forall s | s in full && !IsRoot(s)
      ensures Parent(g.p, s) in full && (s.Bind? ==> s.b <= g.p)
    {
      assert s in lay;
    }
  }

  lemma {:induction false} LoadRootsGives(g: Geo, dev: seq<byte>, full: Layout, rec: nat, size: nat,
                                          j: nat, acc: Layout, t: Pos)
    requires OnDevice(g, dev, full) && RecordStored(dev, full, rec, size) && rec + RECORD_SIZE <= |dev|
    requires forall i: nat :: i < 4 ==> Root(i) in full
    requires j <= 7 && Sub(acc, full)
    ensures LoadsWell(LoadRoots(g, dev, rec, j, acc), acc, full)
    ensures t in full && RootIndex(TopOf(g.p, t)) >= j ==> t in LoadRoots(g, dev, rec, j, acc).lay
    decreases 7 - j
  {
    if j < 7 {
      hide OnDevice, TopOf, Under;
      OnDeviceIsClosed(g, dev, full);
      var s := Root(j);
      assert Word(dev, rec + 8 + 8 * j) == Id(full, s);
      if s in full {
        LoadAtGives(g, dev, full, s, acc, t);
      }
      var r := LoadAt(g, dev, s, Id(full, s), acc);
      LoadRootsGives(g, dev, full, rec, size, j + 1, r.lay, t);
      if t in full && RootIndex(TopOf(g.p, t)) == j {
        TopIsThere(g.p, full, t);
      }
    }
  }

  /** Opening a closed file gives back its size and its tree: the same positions with the same ids,
      and the direct slots that were empty as blocks with id 0. */
  lemma ReloadIsPad(g: Geo, dev: seq<byte>, lay: Layout, rec: nat, size: nat)
    requires Storable(g, lay, rec, size, |dev|) && Stored(g, dev, lay, rec, size)
    requires forall s :: s in lay ==> lay[s] != 0
    ensures Load(g, dev, rec) == Loaded(true, Pad(lay)) && Word(dev, rec) == size
  {
    hide OnDevice, Load, TopOf, Under, Storable, RecordStored, TreeStored;
    var full := Pad(lay);
    PadStored(g, dev, lay, rec, size);
    RecordFits(g, dev, lay, rec, size);
    LoadedIsFull(g, dev, full, rec, size);
  }

  lemma RecordFits(g: Geo, dev: seq<byte>, lay: Layout, rec: nat, size: nat)
    requires Storable(g, lay, rec, size, |dev|) && RecordStored(dev, lay, rec, size)
    ensures rec + RECORD_SIZE <= |dev| && g.bs == 8 * g.p && Word(dev, rec) == size
  {}

  lemma LoadedIsFull(g: Geo, dev: seq<byte>, full: Layout, rec: nat, size: nat)
    requires OnDevice(g, dev, full) && RecordStored(dev, full, rec, size) && rec + RECORD_SIZE <= |dev|
    requires g.bs == 8 * g.p && forall i: nat :: i < 4 ==> Root(i) in full
    ensures Load(g, dev, rec) == Loaded(true, full)
  {
    hide OnDevice, TopOf, Under, RecordStored;
    forall t | t in full
      ensures t in Load(g, dev, rec).lay
    {
      LoadRootsGives(g, dev, full, rec, size, 0, map[], t);
    }
    LoadRootsGives(g, dev, full, rec, size, 0, map[], Tind);
  }

  // ----- what a reopened file is -----

  lemma PadKeepsIds(lay: Layout)
    ensures forall s :: Id(Pad(lay), s) == Id(lay, s)
    ensures forall s :: s in Pad(lay) <==> s in lay || (s.Leaf? && s.k < 4)
  {}

  /** The reopened tree is dense, with four leaves at least; it is the tree that was closed exactly
      when that had its four direct blocks. */
  lemma PadIsDense(p: Fanout, lay: Layout, n: nat)
    requires Dense(p, lay, n)
    ensures Dense(p, Pad(lay), Max(n, 4))
    ensures Pad(lay) == lay <==> n >= 4
  {
    PadKeepsIds(lay);
    forall s
      ensures s in Pad(lay) <==> FirstLeaf(p, s) < Max(n, 4)
    {
      assert s in lay <==> FirstLeaf(p, s) < n;
    }
    if n >= 4 {
      assert Pad(lay).Keys == lay.Keys;
      assert forall s :: s in lay ==> Pad(lay)[s] == lay[s];
    } else {
      assert Leaf(3) in Pad(lay) && FirstLeaf(p, Leaf(3)) == 3;
    }
  }

  lemma PadContent(g: Geo, dev: seq<byte>, lay: Layout, size: nat)
    ensures Content(g, dev, Pad(lay), size) == Content(g, dev, lay, size)
  {
    PadKeepsIds(lay);
  }

  /** The blocks of the file lie apart from its record. */
  ghost predicate RecordApart(g: Geo, lay: Layout, rec: nat) {
    forall s :: s in lay ==> rec + RECORD_SIZE <= lay[s] * g.bs || lay[s] * g.bs + g.bs <= rec
  }

  lemma SameBlock(g: Geo, x: nat, y: nat, a: nat)
    requires InBlock(g, x, a) && InBlock(g, y, a)
    ensures x == y
  {
    SameBlockSameByte(g.bs, x, a - x * g.bs, y, a - y * g.bs);
  }

  /** A byte of the file is in the block of its leaf. */
  lemma AddressInBlock(g: Geo, lay: Layout, c: nat)
    ensures InBlock(g, Id(lay, LeafOf(g, c)), Address(g, lay, c))
  {}

  lemma CloseKeepsByte(g: Geo, dev: seq<byte>, al: Alloc, f: File, rec: nat, c: nat)
    requires WellPlaced(g, f) && Sound(f.lay, al) && RecordApart(g, f.lay, rec) && g.bs == 8 * g.p
    requires c < f.size
    ensures DeviceByte(Close(g, dev, f.lay, rec, f.size), Address(g, f.lay, c)) ==
            DeviceByte(dev, Address(g, f.lay, c))
  {
    var a := Address(g, f.lay, c);
    LeafOfByte(g, f, c);
    AddressInBlock(g, f.lay, c);
    if a < |dev| {
      forall s | s in f.lay && !s.Leaf?
        ensures !InBlock(g, f.lay[s], a)
      {
        if InBlock(g, f.lay[s], a) {
          SameBlock(g, f.lay[s], f.lay[LeafOf(g, c)], a);
        }
      }
      CloseTouches(g, dev, f.lay, rec, f.size, a);
    }
  }

  lemma CloseKeepsContent(g: Geo, dev: seq<byte>, al: Alloc, f: File, rec: nat)
    requires WellPlaced(g, f) && Sound(f.lay, al) && RecordApart(g, f.lay, rec) && g.bs == 8 * g.p
    ensures Content(g, Close(g, dev, f.lay, rec, f.size), f.lay, f.size) == Content(g, dev, f.lay, f.size)
  {
    forall c: nat | c < f.size
      ensures DeviceByte(Close(g, dev, f.lay, rec, f.size), Address(g, f.lay, c)) ==
              DeviceByte(dev, Address(g, f.lay, c))
    {
      CloseKeepsByte(g, dev, al, f, rec, c);
    }
  }

  /** A closed file comes back: opening its record gives a file of the same size, ready to be read
      from the start, with the same bytes. */
  lemma CloseThenOpen(g: Geo, dev: seq<byte>, al: Alloc, f: File, rec: nat)
    requires WellPlaced(g, f) && Sound(f.lay, al) && RecordApart(g, f.lay, rec)
    requires Storable(g, f.lay, rec, f.size, |dev|)
    ensures var dev' := Close(g, dev, f.lay, rec, f.size);
      var r, size := Load(g, dev', rec), Word(dev', rec);
      && r.ok && size == f.size
      && WellPlaced(g, File(r.lay, Max(f.n, 4), 0, size))
      && Content(g, dev', r.lay, size) == Content(g, dev, f.lay, f.size)
  {
    var dev' := Close(g, dev, f.lay, rec, f.size);
    CloseStores(g, dev, f.lay, rec, f.size);
    ReloadIsPad(g, dev', f.lay, rec, f.size);
    PadIsDense(g.p, f.lay, f.n);
    PadContent(g, dev', f.lay, f.size);
    CloseKeepsContent(g, dev, al, f, rec);
    MulMono(f.n, Max(f.n, 4), g.bs);
  }

  /** A reopened file has blocks of its own behind all its leaves exactly when four leaves or more
      were written before it was closed. */
  lemma ReopenedSoundIff(p: Fanout, lay: Layout, al: Alloc, n: nat)
    requires Dense(p, lay, n) && Sound(lay, al)
    ensures Sound(Pad(lay), al) <==> n >= 4
  {
    PadIsDense(p, lay, n);
    if n < 4 {
      assert FirstLeaf(p, Leaf(n)) == n && Leaf(n) !in lay;
      assert Leaf(n) in Pad(lay) && Pad(lay)[Leaf(n)] == 0;
    }
  }

  lemma {:induction false} PadFlush(g: Geo, dev: seq<byte>, lay: Layout, s: Pos, i: nat)
    requires !s.Leaf?
    ensures Flush(g, dev, Pad(lay), s, i) == Flush(g, dev, lay, s, i)
    decreases Level(s), i
  {
    PadKeepsIds(lay);
    if i > 0 {
      PadFlush(g, dev, lay, s, i - 1);
      var c := Child(g.p, s, i - 1);
      if c in lay && !c.Leaf? {
        PadFlush(g, Flush(g, dev, lay, s, i - 1), lay, c, g.p);
      }
    }
  }

  lemma PadRecord(lay: Layout, size: nat)
    ensures Record(Pad(lay), size) == Record(lay, size)
  {
    PadKeepsIds(lay);
    assert seq(7, j requires 0 <= j < 7 => Id(Pad(lay), Root(j))) == seq(7, j requires 0 <= j < 7 => Id(lay, Root(j)));
  }

  /** Closing a reopened file writes what closing the original wrote. */
  lemma PadClose(g: Geo, dev: seq<byte>, lay: Layout, rec: nat, size: nat)
    ensures Close(g, dev, Pad(lay), rec, size) == Close(g, dev, lay, rec, size)
  {
    hide Record, Store, Flush, Id;
    PadKeepsIds(lay);
    var d1 := FlushRoot(g, dev, lay, Ind(0));
    var d2 := FlushRoot(g, d1, lay, Bind(0));
    PadFlush(g, dev, lay, Ind(0), g.p);
    PadFlush(g, d1, lay, Bind(0), g.p);
    PadFlush(g, d2, lay, Tind, g.p);
    PadRecord(lay, size);
  }
}

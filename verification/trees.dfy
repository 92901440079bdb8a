/**
 Trees of linked nodes, seen from outside the heap.

 A `View` names every node of a block tree by its position, with the slots of the index blocks and
 the ids. `Linked` says that following slots from the roots visits the positions the layout
 describes. Hooking a new node into an empty slot keeps it, whatever the level.
 */
module Trees {
  import opened Arith
  import opened Bitmap
  import opened Layouts

  /** What a data block says: the bytes of the file it holds and its place on the device. */
  datatype Extent = Extent(start: nat, end: nat, device: nat)

  datatype View = View(roots: seq<object?>, nodes: map<Pos, object>, slots: map<Pos, seq<object?>>,
                       lay: Layout, extents: map<Pos, Extent>)

  ghost function At(v: View, s: Pos): object? {
    if s in v.nodes then v.nodes[s] else null
  }

  ghost function SlotsAt(v: View, s: Pos): seq<object?> {
    if s in v.slots then v.slots[s] else []
  }

  ghost function ExtentAt(v: View, s: Pos): Extent {
    if s in v.extents then v.extents[s] else Extent(0, 0, 0)
  }

  ghost predicate SlotsLinked(p: Fanout, v: View) {
    forall s :: s in v.slots ==>
      !s.Leaf? && |v.slots[s]| == p &&
      forall i: nat :: i < p ==> v.slots[s][i] == At(v, Child(p, s, i))
  }

  ghost predicate SameKeys(v: View) {
    && v.nodes.Keys == v.lay.Keys
    && (forall s :: s in v.slots <==> s in v.lay && !s.Leaf?)
  }

  ghost predicate SameNode(nodes: map<Pos, object>, s: Pos, t: Pos) {
    s in nodes && t in nodes && nodes[s] == nodes[t]
  }

  ghost predicate Separate(nodes: map<Pos, object>) {
    forall s, t {:trigger SameNode(nodes, s, t)} :: SameNode(nodes, s, t) ==> s == t
  }

  lemma SeparateInsert(nodes: map<Pos, object>, c: Pos, o: object)
    requires Separate(nodes) && forall t :: t in nodes ==> nodes[t] != o
    ensures Separate(nodes[c := o])
  {
    var more := nodes[c := o];
    forall s, t | SameNode(more, s, t)
      ensures s == t
    {
      assert s != c && t != c ==> SameNode(nodes, s, t);
    }
  }

  ghost predicate RootsLinked(v: View) {
    |v.roots| == 7 && forall j: nat :: j < 7 ==> v.roots[j] == At(v, Root(j))
  }

  ghost predicate Linked(p: Fanout, v: View) {
    RootsLinked(v) && SlotsLinked(p, v) && SameKeys(v) && Separate(v.nodes) && Closed(p, v.lay)
  }

  /** Node o at position s, with empty slots if it is an index block. */
  ghost function AddNode(p: Fanout, v: View, s: Pos, o: object, id: nat, e: Extent): View {
    View(if IsRoot(s) && |v.roots| == 7 then v.roots[RootIndex(s) := o] else v.roots,
         v.nodes[s := o],
         if s.Leaf? then v.slots else v.slots[s := seq(p, _ => null)],
         v.lay[s := id],
         if s.Leaf? then v.extents[s := e] else v.extents)
  }

  /** o put into slot i of index block s. */
  ghost function Hook(v: View, s: Pos, i: nat, o: object): View
    requires s in v.slots && i < |v.slots[s]|
  {
    v.(slots := v.slots[s := v.slots[s][i := o]])
  }

  lemma NothingBelow(p: Fanout, lay: Layout, c: Pos)
    requires Closed(p, lay) && c !in lay && !c.Leaf?
    ensures forall i: nat :: i < p ==> Child(p, c, i) !in lay
  {
    forall i: nat | i < p
      ensures Child(p, c, i) !in lay
    {
      ChildInverse(p, c, i);
    }
  }

  lemma SlotsStayLinked(p: Fanout, v: View, s: Pos, i: nat, o: object, id: nat, e: Extent)
    requires SlotsLinked(p, v) && SameKeys(v) && Closed(p, v.lay)
    requires s in v.slots && i < p && v.slots[s][i] == null
    ensures SlotsLinked(p, AddNode(p, Hook(v, s, i, o), Child(p, s, i), o, id, e))
  {
    var c := Child(p, s, i);
    var w := AddNode(p, Hook(v, s, i, o), c, o, id, e);
    ChildInverse(p, s, i);
    if !c.Leaf? { NothingBelow(p, v.lay, c); }
    forall t, j: nat | t in w.slots && j < p
      ensures !t.Leaf? && |w.slots[t]| == p && w.slots[t][j] == At(w, Child(p, t, j))
    {
      ChildInverse(p, t, j);
    }
  }

  /** Hooking a new node into an empty slot gives the tree with one more position. */
  lemma LinkChild(p: Fanout, v: View, s: Pos, i: nat, o: object, id: nat, e: Extent)
    requires Linked(p, v)
    requires s in v.slots && i < p && v.slots[s][i] == null
    requires forall t :: t in v.nodes ==> v.nodes[t] != o
    ensures Linked(p, AddNode(p, Hook(v, s, i, o), Child(p, s, i), o, id, e))
  {
    ChildInverse(p, s, i);
    SlotsStayLinked(p, v, s, i, o, id, e);
    SeparateInsert(v.nodes, Child(p, s, i), o);
    ClosedInsert(p, v.lay, Child(p, s, i), id);
  }

  /** The same for one of the seven root positions. */
  lemma LinkRoot(p: Fanout, v: View, j: nat, o: object, id: nat, e: Extent)
    requires Linked(p, v)
    requires j < 7 && |v.roots| == 7 && v.roots[j] == null
    requires forall t :: t in v.nodes ==> v.nodes[t] != o
    ensures Linked(p, AddNode(p, v, Root(j), o, id, e))
  {
    var c := Root(j);
    var w := AddNode(p, v, c, o, id, e);
    RootIndexOfRoot(j);
    SeparateInsert(v.nodes, c, o);
    forall k: nat | k < 7
      ensures w.roots[k] == At(w, Root(k))
    {
      RootIndexOfRoot(k);
    }
    if !c.Leaf? { NothingBelow(p, v.lay, c); }
    assert SlotsLinked(p, w) by {
      forall t, i: nat | t in w.slots && i < p
        ensures !t.Leaf? && |w.slots[t]| == p && w.slots[t][i] == At(w, Child(p, t, i))
      {
        ChildInverse(p, t, i);
      }
    }
    ClosedInsert(p, v.lay, c, id);
  }

  /** w is v with node o added at position c; the other positions are as before. */
  ghost predicate Added(p: Fanout, v: View, w: View, c: Pos, o: object, id: nat, e: Extent) {
    && w.nodes == v.nodes[c := o]
    && w.lay == v.lay[c := id]
    && ExtentAt(w, c) == (if c.Leaf? then e else ExtentAt(v, c))
    && (forall t :: t != c ==> ExtentAt(w, t) == ExtentAt(v, t))
    && c !in v.nodes && c !in v.lay
    && SlotsAt(w, c) == (if c.Leaf? then [] else seq(p, _ => null))
  }

  /** Adding an index block keeps the nodes and the extents of the leaves. */
  lemma AddedIndex(p: Fanout, v: View, w: View, c: Pos, o: object, id: nat, e: Extent)
    requires Added(p, v, w, c, o, id, e) && !c.Leaf?
    ensures w.lay == v.lay[c := id]
    ensures c in w.nodes && w.nodes[c] == o
    ensures Kept(v, w)
  {}

  /** What growing by leaf n amounts to, when the index blocks on the way are those of `lay`. */
  ghost predicate GrownTo(v: View, w: View, n: nat, b: object, lay: Layout, start: nat) {
    && w.lay == lay[Leaf(n) := 0]
    && Leaf(n) in w.nodes && w.nodes[Leaf(n)] == b
    && ExtentAt(w, Leaf(n)) == Extent(start, 0, 0)
    && (forall s :: s in v.nodes && s != Leaf(n) ==> s in w.nodes && w.nodes[s] == v.nodes[s])
    && (forall k: nat :: k != n ==> ExtentAt(w, Leaf(k)) == ExtentAt(v, Leaf(k)))
  }

  /** Growing by leaf n with the index blocks of `path` allocated where they were missing. */
  ghost predicate GrownBy(v: View, w: View, was: Alloc, now: Alloc, n: nat, b: object, start: nat, path: seq<Pos>) {
    var x := AddAll(Growth(v.lay, was), path);
    GrownTo(v, w, n, b, x.lay, start) && now == x.al
  }

  lemma GrownLeaf(p: Fanout, v: View, w: View, al: Alloc, n: nat, b: object, start: nat)
    requires Added(p, v, w, Leaf(n), b, 0, Extent(start, 0, 0))
    ensures GrownBy(v, w, al, al, n, b, start, [])
  {}

  /** The nodes of v are still in w, and the leaves are the same. */
  ghost predicate Kept(v: View, w: View) {
    && (forall s :: s in v.nodes ==> s in w.nodes && w.nodes[s] == v.nodes[s])
    && (forall k: nat :: ExtentAt(w, Leaf(k)) == ExtentAt(v, Leaf(k)))
  }

  /** First the index block c where it was missing, then the rest of the path. */
  lemma GrownAfterAdd(u: View, v: View, w: View, was: Alloc, mid: Alloc, now: Alloc,
                      c: Pos, n: nat, b: object, start: nat, path: seq<Pos>)
    requires Growth(v.lay, mid) == Add(Growth(u.lay, was), c) && Kept(u, v)
    requires path != [] && path[0] == c
    requires GrownBy(v, w, mid, now, n, b, start, path[1..])
    ensures GrownBy(u, w, was, now, n, b, start, path)
  {}

  lemma LinkChildView(p: Fanout, v: View, s: Pos, i: nat, c: Pos, o: object, id: nat, e: Extent)
    returns (w: View)
    requires Linked(p, v)
    requires s in v.slots && i < p && v.slots[s][i] == null && c == Child(p, s, i)
    requires forall t :: t in v.nodes ==> v.nodes[t] != o
    ensures Linked(p, w) && Added(p, v, w, c, o, id, e) && c != s && w.roots == v.roots
    ensures SlotsAt(w, s) == SlotsAt(v, s)[i := o]
    ensures forall t :: t != s && t != c ==> SlotsAt(w, t) == SlotsAt(v, t)
  {
    LinkChild(p, v, s, i, o, id, e);
    ChildInverse(p, s, i);
    w := AddNode(p, Hook(v, s, i, o), c, o, id, e);
  }

  lemma LinkRootView(p: Fanout, v: View, j: nat, c: Pos, o: object, id: nat, e: Extent)
    returns (w: View)
    requires Linked(p, v)
    requires j < 7 && |v.roots| == 7 && v.roots[j] == null && c == Root(j)
    requires forall t :: t in v.nodes ==> v.nodes[t] != o
    ensures Linked(p, w) && Added(p, v, w, c, o, id, e)
    ensures w.roots == v.roots[j := o]
    ensures forall t :: t != c ==> SlotsAt(w, t) == SlotsAt(v, t)
  {
    LinkRoot(p, v, j, o, id, e);
    w := AddNode(p, v, c, o, id, e);
  }

  /** Where a slot is empty nothing is stored at its position, and the other way round. */
  lemma SlotMeans(p: Fanout, v: View, s: Pos, i: nat)
    requires Linked(p, v) && s in v.slots && i < p
    ensures v.slots[s][i] != null <==> Child(p, s, i) in v.lay
    ensures v.slots[s][i] != null ==> v.slots[s][i] == v.nodes[Child(p, s, i)]
  {}

  /** A data block gets its id and extent. */
  ghost function Relabel(v: View, s: Pos, id: nat, e: Extent): View {
    v.(lay := v.lay[s := id], extents := v.extents[s := e])
  }

  lemma RelabelLinked(p: Fanout, v: View, s: Pos, id: nat, e: Extent)
    requires Linked(p, v) && s in v.lay
    ensures Linked(p, Relabel(v, s, id, e))
  {
    var w := Relabel(v, s, id, e);
    assert w.lay.Keys == v.lay.Keys;
    ClosedInsert(p, v.lay, s, id);
  }

  /** Every data block says what its position asks for. */
  ghost predicate ExtentsRight(v: View, bs: nat) {
    forall k: nat :: Leaf(k) in v.lay ==> ExtentAt(v, Leaf(k)) == ExtentFor(k, v.lay[Leaf(k)], bs)
  }

  ghost function ExtentFor(k: nat, id: nat, bs: nat): Extent {
    Extent(Mul(k, bs), Mul(k, bs) + bs, Mul(id, bs))
  }

  /** Growing by a leaf and numbering it keeps the extents right. */
  lemma GrownExtents(v: View, w: View, was: Alloc, now: Alloc, n: nat, b: object, path: seq<Pos>, id: nat, bs: nat)
    requires ExtentsRight(v, bs) && GrownBy(v, w, was, now, n, b, Mul(n, bs), path)
    requires forall s :: s in path ==> !s.Leaf?
    ensures ExtentsRight(Relabel(w, Leaf(n), id, ExtentFor(n, id, bs)), bs)
    ensures Relabel(w, Leaf(n), id, ExtentFor(n, id, bs)).lay == AddAll(Growth(v.lay, was), path).lay[Leaf(n) := id]
    ensures now == AddAll(Growth(v.lay, was), path).al
    ensures Leaf(n) in w.nodes && w.nodes[Leaf(n)] == b && ExtentAt(w, Leaf(n)).start == Mul(n, bs)
    ensures Leaf(n) in w.lay
  {
    AddAllKeys(Growth(v.lay, was), path);
  }
}

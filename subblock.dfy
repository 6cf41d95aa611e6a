/**
 * The lazily allocated block tree behind a memory (`Memory::SubBlock<N>`).
 *
 * A node covers `[address, address + len)` of the memory's own, region-
 * relative address space. It is either untouched, a leaf owning one buffer of
 * `len` bytes, or split into `FanOut` child slots, each covering a quarter of
 * the range and created on the first access that falls into it.
 *
 * The source hands out references to nodes and updates them in place; here
 * the tree is a value. `Access` returns the updated tree together with the
 * leaf it reached, and `PutLeaf` writes a leaf changed by `WriteSubBlocks`
 * back into the tree at its place.
 */
module SubBlocks {
  import opened Wrappers
  import opened Tlm

  /** The template parameter N: each split divides a block into 2^N parts. */
  const N: nat := 2
  const FanOut: nat := 4

  /** Configuration shared by every node of one tree. */
  datatype Geometry = Geometry(maxSize: nat, minSize: nat, filename: string)

  /**
   * What the host does when a block asks for storage. Every node attempts an
   * allocation at most once in its life, and a node is determined by its
   * address and length, so each outcome is a function of those two.
   * `fileByte` is the backing file's content, `heapByte` what fresh heap
   * memory happens to hold.
   */
  datatype Host = Host(
    fileOpens: (nat, nat) -> bool,
    mmapSucceeds: (nat, nat) -> bool,
    alignedAllocSucceeds: (nat, nat) -> bool,
    mallocSucceeds: (nat, nat) -> bool,
    fileByte: nat -> bv8,
    heapByte: nat -> bv8)

  datatype Node = Node(address: nat, len: nat, state: State)

  datatype State =
    | Unallocated
    | Leaf(buf: seq<bv8>)
    | Split(children: seq<Option<Node>>)

  /** Child `i` of `n` sits at `address + i * (len / FanOut)` and covers `len / FanOut` bytes. */
  predicate ChildAt(n: Node, i: nat, c: Node)
  {
    c.address == n.address + i * (n.len / FanOut) && c.len == n.len / FanOut
  }

  /**
   * The tree invariant: a leaf's buffer has the node's length and the node is
   * no longer than the maximum block size; a split node has exactly `FanOut`
   * slots, a length that is a positive multiple of `FanOut` and not below the
   * minimum block size, and every present child sits at its place.
   */
  ghost predicate Valid(g: Geometry, n: Node)
    decreases n
  {
    match n.state
    case Unallocated => true
    case Leaf(buf) => |buf| == n.len && n.len <= g.maxSize
    case Split(cs) =>
      && |cs| == FanOut && n.len > 0 && n.len % FanOut == 0 && n.len >= g.minSize
      && forall i :: 0 <= i < FanOut && cs[i].Some? ==>
           ChildAt(n, i, cs[i].value) && Valid(g, cs[i].value)
  }

  predicate Covers(n: Node, k: nat)
  {
    n.address <= k < n.address + n.len
  }

  /** The allocated leaf of `n` that holds address `k`, if any. */
  function LeafAt(n: Node, k: nat): (r: Option<Node>)
    ensures r.Some? ==> r.value.state.Leaf? && Covers(r.value, k)
    decreases n
  {
    if !Covers(n, k) then None
    else match n.state
      case Unallocated => None
      case Leaf(_) => Some(n)
      case Split(cs) =>
        var sub := n.len / FanOut;
        if sub == 0 then None
        else
          var i := (k - n.address) / sub;
          if i < |cs| && cs[i].Some? then LeafAt(cs[i].value, k) else None
  }

  /** The byte stored at address `k`, or `None` while no leaf holds `k`. */
  function Lookup(n: Node, k: nat): Option<bv8>
  {
    match LeafAt(n, k)
    case None => None
    case Some(l) =>
      if k - l.address < |l.state.buf| then Some(l.state.buf[k - l.address]) else None
  }

  lemma DivBounds(x: nat, sub: nat)
    requires sub > 0
    ensures (x / sub) * sub <= x < (x / sub) * sub + sub
  {
  }

  lemma DivUnique(x: nat, sub: nat, i: nat)
    requires sub > 0 && i * sub <= x < i * sub + sub
    ensures x / sub == i
  {
    DivBounds(x, sub);
    var q := x / sub;
    MulStrict(q, i + 1, sub);
    MulStrict(i, q + 1, sub);
  }

  /** The child index of an address inside a split node is below `FanOut`. */
  lemma ChildIndexBound(len: nat, off: nat)
    requires len > 0 && len % FanOut == 0 && off < len
    ensures len / FanOut > 0 && off / (len / FanOut) < FanOut
  {
    var sub := len / FanOut;
    assert len == FanOut * sub;
    DivUnique(off, sub, off / sub);
    MulStrict(off / sub, FanOut, sub);
  }

  lemma MulStrict(q: nat, m: nat, sub: nat)
    requires q * sub < m * sub
    ensures q < m
  {
    if m <= q {
      MulMono(m, q, sub);
    }
  }

  lemma MulMono(a: nat, b: nat, c: nat)
    requires a <= b
    ensures a * c <= b * c
  {
  }

  /** Every address of child `i` selects child `i`. */
  lemma {:induction false} ChildSelects(n: Node, i: nat, c: Node, k: nat)
    requires n.len / FanOut > 0 && ChildAt(n, i, c) && Covers(c, k)
    ensures n.address <= k && (k - n.address) / (n.len / FanOut) == i
  {
    DivUnique(k - n.address, n.len / FanOut, i);
  }

  /** A child slot lies inside its parent. */
  lemma {:induction false} ChildInside(n: Node, i: nat, c: Node)
    requires n.len % FanOut == 0 && i < FanOut && ChildAt(n, i, c)
    ensures n.address <= c.address && c.address + c.len <= n.address + n.len
  {
    var sub := n.len / FanOut;
    assert n.len == FanOut * sub;
    assert (i + 1) * sub <= FanOut * sub;
  }

  /**
   * The leaf that holds `k` lies inside `n`, is valid, and holds every
   * address of its own range: the whole range of a leaf resolves to it.
   */
  lemma {:induction false} LeafAtNested(g: Geometry, n: Node, k: nat)
    requires Valid(g, n) && LeafAt(n, k).Some?
    ensures var l := LeafAt(n, k).value;
      && n.address <= l.address && l.address + l.len <= n.address + n.len
      && Valid(g, l)
      && forall k': nat :: Covers(l, k') ==> LeafAt(n, k') == Some(l)
    decreases n
  {
    var l := LeafAt(n, k).value;
    match n.state
    case Leaf(_) =>
    case Split(cs) =>
      var sub := n.len / FanOut;
      var i := (k - n.address) / sub;
      ChildIndexBound(n.len, k - n.address);
      var c := cs[i].value;
      LeafAtNested(g, c, k);
      ChildInside(n, i, c);
      forall k' | Covers(l, k')
        ensures LeafAt(n, k') == Some(l)
      {
        ChildSelects(n, i, c, k');
      }
  }

  /** Inside a leaf's range, the tree and the leaf agree byte by byte. */
  lemma {:induction false} LookupInLeaf(g: Geometry, n: Node, a: nat, k: nat)
    requires Valid(g, n) && LeafAt(n, a).Some? && Covers(LeafAt(n, a).value, k)
    ensures Lookup(n, k) == Lookup(LeafAt(n, a).value, k)
  {
    LeafAtNested(g, n, a);
  }

  /**
   * The storage attempt of a block that may hold its own buffer: map the
   * backing file when one is configured (a file that does not open is
   * fatal), otherwise an aligned allocation and then a plain one. `None`
   * means every attempt failed and the block has to split.
   */
  function Allocate(g: Geometry, host: Host, address: nat, len: nat): (r: Result<Option<seq<bv8>>, Fatal>)
    ensures r.Err? <==> g.filename != "" && !host.fileOpens(address, len)
    ensures r.Err? ==> r.error == BackingFileMissing
    ensures r.Ok? ==> (r.value.Some? <==>
      if g.filename != "" then host.mmapSucceeds(address, len)
      else host.alignedAllocSucceeds(address, len) || host.mallocSucceeds(address, len))
    ensures r.Ok? && r.value.Some? ==> |r.value.value| == len
    ensures r.Ok? && r.value.Some? && g.filename != "" ==>
      forall j :: 0 <= j < len ==> r.value.value[j] == host.fileByte(address + j)
  {
    if g.filename != "" then
      if !host.fileOpens(address, len) then Err(BackingFileMissing)
      else if host.mmapSucceeds(address, len) then
        Ok(Some(seq(len, j requires 0 <= j => host.fileByte(address + j))))
      else Ok(None)
    else if host.alignedAllocSucceeds(address, len) || host.mallocSucceeds(address, len) then
      Ok(Some(seq(len, j requires 0 <= j => host.heapByte(address + j))))
    else Ok(None)
  }

  /** The result of an access: the updated tree and the leaf that holds the address. */
  datatype Accessed = Accessed(tree: Node, leaf: Node)

  /**
   * Whether an access reaching `m` has to go on into a child: `m` holds no
   * buffer and is already split, is longer than the maximum block size, or
   * found no storage when it tried to allocate.
   */
  predicate MustSplit(g: Geometry, host: Host, m: Node)
  {
    && !m.state.Leaf?
    && (m.state.Split? || m.len > g.maxSize || Allocate(g, host, m.address, m.len) == Ok(None))
  }

  /** The child slots of `n` an access starts from: its own, or empty ones for a node that splits now. */
  function Slots(n: Node): (cs: seq<Option<Node>>)
    requires !n.state.Leaf?
    ensures SlotsOf(n, cs)
  {
    if n.state.Split? then n.state.children else seq(FanOut, _ => None)
  }

  /** The child of slot `i` an access goes on into: the present one, or a fresh untouched node at its place. */
  function SlotChild(n: Node, cs: seq<Option<Node>>, i: nat): (c: Node)
    requires i < |cs|
  {
    if cs[i].Some? then cs[i].value else Node(n.address + i * (n.len / FanOut), n.len / FanOut, Unallocated)
  }

  /**
   * The node at which an access to `a` stops descending: the first node on
   * the way down from `n` that does not have to split, or that has to split
   * but cannot, being below the minimum block size or not a multiple of
   * `FanOut`. (In a valid tree the child it goes on into always holds `a`
   * and is shorter, see `SlotChildFacts`; the guard only makes the walk
   * total.)
   */
  ghost function StopsAt(g: Geometry, host: Host, n: Node, a: nat): Node
    requires Covers(n, a)
    decreases n.len
  {
    if MustSplit(g, host, n) && n.len >= g.minSize && n.len % FanOut == 0 then
      ChildIndexBound(n.len, a - n.address);
      var i := (a - n.address) / (n.len / FanOut);
      var cs := Slots(n);
      if i < |cs| && Covers(SlotChild(n, cs, i), a) && SlotChild(n, cs, i).len < n.len then
        StopsAt(g, host, SlotChild(n, cs, i), a)
      else n
    else n
  }

  /** The child an access to `a` goes on into is valid, holds `a` and is shorter than its parent. */
  lemma {:induction false} SlotChildFacts(g: Geometry, n: Node, a: nat)
    requires Valid(g, n) && Covers(n, a) && !n.state.Leaf? && n.len % FanOut == 0
    ensures n.len / FanOut > 0 && (a - n.address) / (n.len / FanOut) < FanOut == |Slots(n)|
    ensures var c := SlotChild(n, Slots(n), (a - n.address) / (n.len / FanOut));
      Valid(g, c) && Covers(c, a) && c.len < n.len
  {
    ChildIndexBound(n.len, a - n.address);
    ChildSelectsBack(n, (a - n.address) / (n.len / FanOut), a);
  }

  /**
   * `SubBlock::access`: find, creating and allocating on the way as needed,
   * the leaf that holds `a`.
   *
   * An allocated leaf is returned as it is. A node longer than the maximum
   * block size, or whose allocation failed, splits, provided it is not below
   * the minimum block size (out of memory) and is a multiple of `FanOut`;
   * the access then continues in the child slot of `a`, created if empty.
   */
  function Access(g: Geometry, host: Host, n: Node, a: nat): (r: Result<Accessed, Fatal>)
    requires Valid(g, n) && Covers(n, a)
    ensures r.Ok? ==>
      var t, l := r.value.tree, r.value.leaf;
      && Valid(g, t) && t.address == n.address && t.len == n.len
      && LeafAt(t, a) == Some(l)
      && (forall k: nat :: LeafAt(n, k).Some? ==> LeafAt(t, k) == LeafAt(n, k))
      && (forall k: nat :: LeafAt(t, k).Some? && LeafAt(n, k).None? ==> LeafAt(t, k) == Some(l))
      && (n.len > g.maxSize ==> t.state.Split?)
    ensures LeafAt(n, a).Some? ==> r == Ok(Accessed(n, LeafAt(n, a).value))
    ensures r.Err? ==> r.error == BackingFileMissing || r.error == OutOfMemory || r.error == UnevenSplit
    ensures n.state.Unallocated? && n.len <= g.maxSize && Allocate(g, host, n.address, n.len).Ok? &&
            Allocate(g, host, n.address, n.len).value.Some? ==>
      var l := Node(n.address, n.len, Leaf(Allocate(g, host, n.address, n.len).value.value));
      r == Ok(Accessed(l, l))
    decreases n.len
  {
    if n.state.Leaf? then Ok(Accessed(n, n))
    else
      var alloc := if n.state.Split? || n.len > g.maxSize then Ok(None)
                   else Allocate(g, host, n.address, n.len);
      if alloc.Err? then Err(alloc.error)
      else if alloc.value.Some? then
        var l := Node(n.address, n.len, Leaf(alloc.value.value));
        Ok(Accessed(l, l))
      else if n.len < g.minSize then Err(OutOfMemory)
      else if n.len % FanOut != 0 then Err(UnevenSplit)
      else
        var sub := n.len / FanOut;
        ChildIndexBound(n.len, a - n.address);
        var i := (a - n.address) / sub;
        var cs := Slots(n);
        var c := SlotChild(n, cs, i);
        ChildSelectsBack(n, i, a);
        var r := Access(g, host, c, a);
        if r.Err? then r
        else
          var t := Rebuilt(n, cs, i, r.value.tree);
          SplitAccessFacts(g, n, cs, i, c, r.value.tree, r.value.leaf, a);
          Ok(Accessed(t, r.value.leaf))
  }

  /**
   * What decides the outcome of an access: the node it stops at. The access
   * runs out of memory exactly when that node has to split but is below the
   * minimum block size, fails on an uneven split exactly when it has to split
   * but is not a multiple of `FanOut`, fails on the backing file exactly when
   * that node's file does not open, and otherwise returns that node's leaf:
   * the one it held, or the buffer it was just given.
   */
  lemma {:induction false} AccessOutcome(g: Geometry, host: Host, n: Node, a: nat)
    requires Valid(g, n) && Covers(n, a)
    ensures var r, m := Access(g, host, n, a), StopsAt(g, host, n, a);
      && (r == Err(OutOfMemory) <==> MustSplit(g, host, m) && m.len < g.minSize)
      && (r == Err(UnevenSplit) <==> MustSplit(g, host, m) && m.len >= g.minSize && m.len % FanOut != 0)
      && (r == Err(BackingFileMissing) <==>
            !MustSplit(g, host, m) && m.state.Unallocated? && Allocate(g, host, m.address, m.len).Err?)
      && (r.Ok? <==> !MustSplit(g, host, m) && (m.state.Leaf? || Allocate(g, host, m.address, m.len).Ok?))
      && (r.Ok? && m.state.Leaf? ==> r.value.leaf == m)
      && (r.Ok? && m.state.Unallocated? ==>
            r.value.leaf == Node(m.address, m.len, Leaf(Allocate(g, host, m.address, m.len).value.value)))
    decreases n.len
  {
    if MustSplit(g, host, n) && n.len >= g.minSize && n.len % FanOut == 0 {
      SlotChildFacts(g, n, a);
      ChildIndexBound(n.len, a - n.address);
      AccessOutcome(g, host, SlotChild(n, Slots(n), (a - n.address) / (n.len / FanOut)), a);
    }
  }

  /** The address `a` lies in the child slot its index selects. */
  lemma {:induction false} ChildSelectsBack(n: Node, i: nat, a: nat)
    requires Covers(n, a) && n.len / FanOut > 0 && i == (a - n.address) / (n.len / FanOut)
    ensures n.address + i * (n.len / FanOut) <= a < n.address + i * (n.len / FanOut) + n.len / FanOut
  {
    DivBounds(a - n.address, n.len / FanOut);
  }

  /** The split node `Access` rebuilds around the updated child of slot `i`. */
  function Rebuilt(n: Node, cs: seq<Option<Node>>, i: nat, c': Node): Node
    requires i < |cs|
  {
    Node(n.address, n.len, Split(cs[i := Some(c')]))
  }

  /** The slots `Access` starts from: the node's own, or empty ones for a node that splits now. */
  predicate SlotsOf(n: Node, cs: seq<Option<Node>>)
  {
    && (n.state.Split? ==> cs == n.state.children)
    && (n.state.Unallocated? ==> cs == seq(FanOut, _ => None))
  }

  /** Rebuilding around a valid child of the right place keeps the tree valid. */
  lemma {:induction false} RebuiltValid(g: Geometry, n: Node, cs: seq<Option<Node>>, i: nat, c': Node)
    requires !n.state.Leaf? && Valid(g, n) && SlotsOf(n, cs)
    requires n.len >= g.minSize && n.len > 0 && n.len % FanOut == 0 && i < FanOut
    requires ChildAt(n, i, c') && Valid(g, c')
    ensures Valid(g, Rebuilt(n, cs, i, c'))
  {
    var t := Rebuilt(n, cs, i, c');
    forall j | 0 <= j < FanOut && t.state.children[j].Some?
      ensures ChildAt(t, j, t.state.children[j].value) && Valid(g, t.state.children[j].value)
    {
      if j != i {
        assert n.state.Split?;
      }
    }
  }

  /**
   * Address by address, the rebuilt node resolves like the updated child
   * inside the child's range and like the old node elsewhere; inside the
   * child's range the old node resolved like the old child.
   */
  lemma {:induction false} RebuiltLeafAt(g: Geometry, n: Node, cs: seq<Option<Node>>, i: nat, c: Node, c': Node, k: nat)
    requires !n.state.Leaf? && Valid(g, n) && SlotsOf(n, cs)
    requires n.len > 0 && n.len % FanOut == 0 && i < FanOut
    requires c == if cs[i].Some? then cs[i].value else Node(n.address + i * (n.len / FanOut), n.len / FanOut, Unallocated)
    requires ChildAt(n, i, c) && c'.address == c.address && c'.len == c.len
    ensures LeafAt(Rebuilt(n, cs, i, c'), k) == if Covers(c, k) then LeafAt(c', k) else LeafAt(n, k)
    ensures Covers(c, k) ==> LeafAt(n, k) == LeafAt(c, k)
  {
    ChildInside(n, i, c);
    if Covers(c, k) {
      ChildSelects(n, i, c, k);
      InsideSlot(g, n, cs, i, c, c', k);
    } else if Covers(n, k) {
      ChildIndexBound(n.len, k - n.address);
      var j := (k - n.address) / (n.len / FanOut);
      if j == i {
        DivBounds(k - n.address, n.len / FanOut);
      }
      OutsideSlot(g, n, cs, i, c', k, j);
    }
  }

  lemma {:induction false} InsideSlot(g: Geometry, n: Node, cs: seq<Option<Node>>, i: nat, c: Node, c': Node, k: nat)
    requires !n.state.Leaf? && Valid(g, n) && SlotsOf(n, cs)
    requires n.len > 0 && n.len % FanOut == 0 && i < FanOut
    requires c == if cs[i].Some? then cs[i].value else Node(n.address + i * (n.len / FanOut), n.len / FanOut, Unallocated)
    requires Covers(c, k) && Covers(n, k) && n.len / FanOut > 0 && (k - n.address) / (n.len / FanOut) == i
    ensures LeafAt(Rebuilt(n, cs, i, c'), k) == LeafAt(c', k)
    ensures LeafAt(n, k) == LeafAt(c, k)
  {
    if !cs[i].Some? {
      assert LeafAt(c, k) == None;
    }
  }

  lemma {:induction false} OutsideSlot(g: Geometry, n: Node, cs: seq<Option<Node>>, i: nat, c': Node, k: nat, j: nat)
    requires !n.state.Leaf? && Valid(g, n) && SlotsOf(n, cs)
    requires n.len > 0 && n.len % FanOut == 0 && i < FanOut
    requires Covers(n, k) && n.len / FanOut > 0 && j == (k - n.address) / (n.len / FanOut)
    requires j != i && j < FanOut
    ensures LeafAt(Rebuilt(n, cs, i, c'), k) == LeafAt(n, k)
  {
  }

  /** The facts `Access` needs about the split node it rebuilds around the updated child. */
  lemma {:induction false} SplitAccessFacts(g: Geometry, n: Node, cs: seq<Option<Node>>, i: nat, c: Node,
                         c': Node, l: Node, a: nat)
    requires !n.state.Leaf? && Valid(g, n) && SlotsOf(n, cs)
    requires n.len >= g.minSize && n.len > 0 && n.len % FanOut == 0 && i < FanOut
    requires c == if cs[i].Some? then cs[i].value else Node(n.address + i * (n.len / FanOut), n.len / FanOut, Unallocated)
    requires ChildAt(n, i, c) && Covers(c, a)
    requires Valid(g, c') && c'.address == c.address && c'.len == c.len && LeafAt(c', a) == Some(l)
    requires forall k: nat :: LeafAt(c, k).Some? ==> LeafAt(c', k) == LeafAt(c, k)
    requires forall k: nat :: LeafAt(c', k).Some? && LeafAt(c, k).None? ==> LeafAt(c', k) == Some(l)
    requires LeafAt(c, a).Some? ==> c' == c
    ensures var t := Rebuilt(n, cs, i, c');
      && Valid(g, t) && LeafAt(t, a) == Some(l)
      && (forall k: nat :: LeafAt(n, k).Some? ==> LeafAt(t, k) == LeafAt(n, k))
      && (forall k: nat :: LeafAt(t, k).Some? && LeafAt(n, k).None? ==> LeafAt(t, k) == Some(l))
      && (LeafAt(n, a).Some? ==> t == n)
  {
    var t := Rebuilt(n, cs, i, c');
    RebuiltValid(g, n, cs, i, c');
    forall k: nat
      ensures LeafAt(t, k) == if Covers(c, k) then LeafAt(c', k) else LeafAt(n, k)
      ensures Covers(c, k) ==> LeafAt(n, k) == LeafAt(c, k)
    {
      RebuiltLeafAt(g, n, cs, i, c, c', k);
    }
    if LeafAt(n, a).Some? {
      assert n.state.Split? && cs[i] == Some(c);
      assert cs[i := Some(c)] == cs;
    }
  }

  /**
   * `read_sub_blocks`: copy out of leaf `leaf`, starting at `offset`, the part
   * of a `len`-byte request that fits in the leaf.
   */
  function ReadSubBlocks(leaf: Node, offset: nat, len: nat): (data: seq<bv8>)
    requires leaf.state.Leaf? && |leaf.state.buf| == leaf.len && Covers(leaf, offset)
    ensures |data| == Min(len, leaf.len - (offset - leaf.address))
    ensures len > 0 ==> |data| > 0
    ensures forall j :: 0 <= j < |data| ==> Lookup(leaf, offset + j) == Some(data[j])
  {
    var blocOffset := offset - leaf.address;
    var remain := Min(len, leaf.len - blocOffset);
    leaf.state.buf[blocOffset .. blocOffset + remain]
  }

  /**
   * `write_sub_blocks`: copy into leaf `leaf`, starting at `offset`, the part of
   * the `len` bytes of `data` that fits in the leaf; returns the updated leaf and
   * the number of bytes written.
   */
  function WriteSubBlocks(leaf: Node, data: seq<bv8>, offset: nat, len: nat): (r: (Node, nat))
    requires leaf.state.Leaf? && |leaf.state.buf| == leaf.len && Covers(leaf, offset)
    requires len <= |data|
    ensures r.1 == Min(len, leaf.len - (offset - leaf.address))
    ensures len > 0 ==> r.1 > 0
    ensures r.0.address == leaf.address && r.0.len == leaf.len
    ensures r.0.state.Leaf? && |r.0.state.buf| == leaf.len
    ensures forall k: nat :: Covers(leaf, k) ==>
      Lookup(r.0, k) == if offset <= k < offset + r.1 then Some(data[k - offset]) else Lookup(leaf, k)
  {
    var blocOffset := offset - leaf.address;
    var remain := Min(len, leaf.len - blocOffset);
    var buf := leaf.state.buf;
    var buf' := buf[.. blocOffset] + data[.. remain] + buf[blocOffset + remain ..];
    assert forall j :: 0 <= j < |buf'| ==>
      buf'[j] == if blocOffset <= j < blocOffset + remain then data[j - blocOffset] else buf[j];
    (Node(leaf.address, leaf.len, Leaf(buf')), remain)
  }

  /**
   * Put a leaf back at its place: `l` replaces the leaf of `n` that has the
   * same address and length. This stands for the in-place update the source
   * performs through the reference `access` returned.
   */
  function PutLeaf(g: Geometry, n: Node, l: Node): (r: Node)
    requires Valid(g, n) && l.state.Leaf? && |l.state.buf| == l.len
    requires LeafAt(n, l.address).Some?
    requires LeafAt(n, l.address).value.address == l.address
    requires LeafAt(n, l.address).value.len == l.len
    ensures Valid(g, r) && r.address == n.address && r.len == n.len
    ensures forall k: nat :: LeafAt(r, k) == if Covers(l, k) then Some(l) else LeafAt(n, k)
    decreases n
  {
    match n.state
    case Leaf(_) => l
    case Split(cs) =>
      var sub := n.len / FanOut;
      ChildIndexBound(n.len, l.address - n.address);
      var i := (l.address - n.address) / sub;
      var c := cs[i].value;
      LeafAtNested(g, n, l.address);
      LeafAtNested(g, c, l.address);
      var c' := PutLeaf(g, c, l);
      PutLeafFacts(g, n, i, c, c', l);
      Rebuilt(n, cs, i, c')
  }

  /** The facts `PutLeaf` needs about the split node it rebuilds. */
  lemma {:induction false} PutLeafFacts(g: Geometry, n: Node, i: nat, c: Node, c': Node, l: Node)
    requires Valid(g, n) && n.state.Split? && i < FanOut
    requires n.state.children[i] == Some(c)
    requires Valid(g, c') && c'.address == c.address && c'.len == c.len
    requires c.address <= l.address && l.address + l.len <= c.address + c.len
    requires forall k: nat :: LeafAt(c', k) == if Covers(l, k) then Some(l) else LeafAt(c, k)
    ensures var r := Rebuilt(n, n.state.children, i, c');
      && Valid(g, r)
      && forall k: nat :: LeafAt(r, k) == if Covers(l, k) then Some(l) else LeafAt(n, k)
  {
    var cs := n.state.children;
    assert ChildAt(n, i, c);
    RebuiltValid(g, n, cs, i, c');
    forall k: nat
      ensures LeafAt(Rebuilt(n, cs, i, c'), k) == if Covers(l, k) then Some(l) else LeafAt(n, k)
    {
      RebuiltLeafAt(g, n, cs, i, c, c', k);
    }
  }

  /** Bytes already stored before an access keep their value after it. */
  lemma {:induction false} AccessKeepsBytes(g: Geometry, host: Host, n: Node, a: nat, k: nat)
    requires Valid(g, n) && Covers(n, a) && Access(g, host, n, a).Ok? && Lookup(n, k).Some?
    ensures Lookup(Access(g, host, n, a).value.tree, k) == Lookup(n, k)
  {
  }

  /**
   * Writing a changed leaf back into the tree changes the bytes of that leaf's
   * range to the leaf's new bytes and no others.
   */
  lemma {:induction false} PutLeafLookup(g: Geometry, t: Node, a: nat, l': Node, k: nat)
    requires Valid(g, t) && LeafAt(t, a).Some? && l'.state.Leaf? && |l'.state.buf| == l'.len
    requires l'.address == LeafAt(t, a).value.address && l'.len == LeafAt(t, a).value.len
    ensures LeafAt(t, l'.address) == LeafAt(t, a)
    ensures Lookup(PutLeaf(g, t, l'), k) == if Covers(l', k) then Lookup(l', k) else Lookup(t, k)
  {
    LeafAtNested(g, t, a);
  }
}

/** Stepping through a flattened device tree: headers, properties and children lie one after the other. */
module DeviceTree {
  import opened Bits

  /** `raw` is the size field; its top bit marks a replacement and is not part of the size. */
  datatype Property = Property(name: Bytes, raw: nat, data: Bytes)

  datatype Node = Node(props: seq<Property>, children: seq<Node>)

  function SizeRaw(raw: nat): nat {
    raw % 0x8000_0000
  }

  // (size_raw() + 3) & ~3
  function Padded(raw: nat): nat {
    (SizeRaw(raw) + 3) / 4 * 4
  }

  /** The data is as long as the size field says without its top bit, and filled up to a multiple of 4. */
  predicate PropertyOk(p: Property) {
    && |p.name| == 32 && p.raw < TWO_TO_32
    && |p.data| % 4 == 0
    && And(p.raw, 0x7FFF_FFFF) <= |p.data| < And(p.raw, 0x7FFF_FFFF) + 4
  }

  /** The arithmetic of the size field is that of its masks, and rounds up to the next multiple of 4. */
  lemma PaddedExact(raw: nat)
    requires raw < TWO_TO_32
    ensures SizeRaw(raw) == And(raw, 0x7FFF_FFFF)
    ensures Padded(raw) == And(SizeRaw(raw) + 3, 0xFFFF_FFFC)
    ensures Padded(raw) % 4 == 0 && SizeRaw(raw) <= Padded(raw) < SizeRaw(raw) + 4
  {
    hide And, Pow2;
    KnownPowers();
    AndMask(raw, 31);
    var q, r := DivMod(SizeRaw(raw) + 3, 4);
    AndHigh(SizeRaw(raw) + 3, 32, 2, q, r);
  }

  predicate NodeOk(n: Node) {
    && |n.props| < TWO_TO_32 && |n.children| < TWO_TO_32 && |PropertiesBytes(n.props)| < TWO_TO_32
    && (forall i | 0 <= i < |n.props| :: PropertyOk(n.props[i]))
    && forall i | 0 <= i < |n.children| :: NodeOk(n.children[i])
  }

  // Serialisation

  function U32(n: nat): (b: Bytes)
    ensures |b| == 4
  {
    [n % 0x100, n / 0x100 % 0x100, n / 0x1_0000 % 0x100, n / 0x100_0000 % 0x100]
  }

  function PropertyBytes(p: Property): Bytes {
    p.name + U32(p.raw) + p.data
  }

  function PropertiesBytes(ps: seq<Property>): Bytes {
    if ps == [] then [] else PropertyBytes(ps[0]) + PropertiesBytes(ps[1..])
  }

  /** A node without its children. */
  function Head(n: Node): Bytes {
    U32(|n.props|) + U32(|n.children|) + PropertiesBytes(n.props)
  }

  function Serialized(n: Node): Bytes
    decreases n, 0
  {
    Head(n) + SerializedAll(n.children)
  }

  function SerializedAll(ns: seq<Node>): Bytes
    decreases ns
  {
    if ns == [] then [] else Serialized(ns[0]) + SerializedAll(ns[1..])
  }

  /** Fields are little-endian. */
  lemma U32IsLittleEndian(n: nat)
    requires n < TWO_TO_32
    ensures var u := U32(n);
      (u[0] as int) + 0x100 * (u[1] as int) + 0x1_0000 * (u[2] as int) + 0x100_0000 * (u[3] as int) == n
  {
    U32Digits(n);
  }

  lemma ExampleFields()
    ensures U32(0) == [0, 0, 0, 0] && U32(1) == [1, 0, 0, 0] && U32(0x8000_0005) == [5, 0, 0, 0x80]
  {
  }

  /** A node with a single property and no children, field by field. */
  lemma SingleProperty(p: Property)
    requires PropertyOk(p)
    ensures Serialized(Node([p], [])) == (U32(1) + U32(0)) + (p.name + U32(p.raw) + p.data)
    ensures |PropertiesBytes([p])| == 36 + |p.data|
  {
    hide U32, And;
    OneProperty(p);
    NoChildren(Node([p], []));
  }

  /** A node with one property of 5 bytes, marked as a replacement, byte by byte. */
  lemma ExampleBytes(name: Bytes, raw: nat, data: Bytes)
    requires |name| == 32 && raw == 0x8000_0005 && data == [1, 2, 3, 4, 5, 0, 0, 0]
    ensures var n := Node([Property(name, raw, data)], []);
      && NodeOk(n)
      && Serialized(n) == ([1, 0, 0, 0] + [0, 0, 0, 0]) + (name + [5, 0, 0, 0x80] + [1, 2, 3, 4, 5, 0, 0, 0])
  {
    var p := Property(name, raw, data);
    hide U32, And, Serialized, PropertiesBytes;
    assert PropertyOk(p) by {
      PaddedExact(raw);
    }
    SingleProperty(p);
    ExampleFields();
  }

  lemma OneProperty(p: Property)
    ensures PropertiesBytes([p]) == PropertyBytes(p)
  {
    hide PropertyBytes;
    assert [p][1..] == [] && PropertyBytes(p) + [] == PropertyBytes(p);
  }

  lemma NoChildren(n: Node)
    requires n.children == []
    ensures Serialized(n) == Head(n)
  {
    hide Head;
    assert Head(n) + [] == Head(n);
  }

  // Depth-first order

  function Preorder(ns: seq<Node>): seq<Node>
    decreases ns
  {
    if ns == [] then [] else [ns[0]] + Preorder(ns[0].children) + Preorder(ns[1..])
  }

  function Heads(ns: seq<Node>): Bytes {
    if ns == [] then [] else Head(ns[0]) + Heads(ns[1..])
  }

  lemma Associate(a: Bytes, b: Bytes, c: Bytes)
    ensures (a + b) + c == a + (b + c)
  {
  }

  lemma {:induction false} HeadsAppend(xs: seq<Node>, ys: seq<Node>)
    ensures Heads(xs + ys) == Heads(xs) + Heads(ys)
  {
    hide Head;
    if xs == [] {
      assert xs + ys == ys;
    } else {
      HeadsAppend(xs[1..], ys);
      assert (xs + ys)[1..] == xs[1..] + ys && (xs + ys)[0] == xs[0];
      Associate(Head(xs[0]), Heads(xs[1..]), Heads(ys));
    }
  }

  lemma HeadsOne(n: Node)
    ensures Heads([n]) == Head(n)
  {
    hide Head;
    assert [n][1..] == [];
    assert Head(n) + [] == Head(n);
  }

  /** The serialised trees are the heads of all their nodes in depth-first order. */
  lemma {:induction false} SerializedIsHeads(ns: seq<Node>)
    ensures SerializedAll(ns) == Heads(Preorder(ns))
    decreases ns
  {
    if ns != [] {
      var n := ns[0];
      SerializedIsHeads(n.children);
      SerializedIsHeads(ns[1..]);
      HeadsAppend([n] + Preorder(n.children), Preorder(ns[1..]));
      HeadsAppend([n], Preorder(n.children));
      HeadsOne(n);
    }
  }

  // Reading memory. Reads outside memory give 0; no theorem below depends on one.

  function U32At(mem: Bytes, off: nat): nat {
    if off + 4 > |mem| then 0
    else
      var b0: int, b1: int, b2: int, b3: int := mem[off], mem[off + 1], mem[off + 2], mem[off + 3];
      b0 + 0x100 * b1 + 0x1_0000 * b2 + 0x100_0000 * b3
  }

  /** Memory holds the bytes at `off`. */
  ghost predicate Holds(mem: Bytes, off: nat, bytes: Bytes) {
    off + |bytes| <= |mem| && mem[off..off + |bytes|] == bytes
  }

  lemma HoldsParts(mem: Bytes, off: nat, a: Bytes, b: Bytes)
    requires Holds(mem, off, a + b)
    ensures Holds(mem, off, a) && Holds(mem, off + |a|, b)
  {
    var whole := mem[off..off + |a + b|];
    assert whole[..|a|] == a && whole[|a|..] == b;
    assert mem[off..off + |a|] == whole[..|a|];
    assert mem[off + |a|..off + |a| + |b|] == whole[|a|..];
  }

  lemma U32Digits(n: nat)
    requires n < TWO_TO_32
    ensures n == n % 0x100 + 0x100 * (n / 0x100 % 0x100) + 0x1_0000 * (n / 0x1_0000 % 0x100)
              + 0x100_0000 * (n / 0x100_0000 % 0x100)
  {
    var q1 := n / 0x100;
    var q2 := q1 / 0x100;
    var q3 := q2 / 0x100;
    assert n / 0x1_0000 == q2 && n / 0x100_0000 == q3;
  }

  lemma U32RoundTrip(mem: Bytes, off: nat, n: nat)
    requires n < TWO_TO_32 && Holds(mem, off, U32(n))
    ensures U32At(mem, off) == n
  {
    var b := mem[off..off + 4];
    assert b[0] == mem[off] && b[1] == mem[off + 1] && b[2] == mem[off + 2] && b[3] == mem[off + 3];
    U32Digits(n);
  }

  /** sizeof(DTProp) + size_padded() of the property at ptr. */
  function PropertySize(mem: Bytes, ptr: nat): nat {
    36 + Padded(U32At(mem, ptr + 32))
  }

  function PropertiesSize(mem: Bytes, ptr: nat, n: nat): nat
    decreases n
  {
    if n == 0 then 0
    else PropertySize(mem, ptr) + PropertiesSize(mem, ptr + PropertySize(mem, ptr), n - 1)
  }

  // The iterators; a null pointer is address 0.

  datatype Cursor = Cursor(ptr: nat, sz: nat)

  const END: Cursor := Cursor(0, 0)

  /** sizeof(DTNode) + properties_sizeof() of the node at ptr. */
  function HeadSize(mem: Bytes, ptr: nat): nat {
    8 + PropertiesSize(mem, ptr + 8, U32At(mem, ptr)) % TWO_TO_32
  }

  function NodeStep(mem: Bytes, c: Cursor): Cursor
    requires c.sz >= 1
  {
    if c.sz == 1 then END else Cursor(c.ptr + HeadSize(mem, c.ptr), c.sz - 1)
  }

  class PropIterator {
    const mem: Bytes
    var mPtr: nat
    var mSz: nat

    function State(): Cursor
      reads this
    {
      Cursor(mPtr, mSz)
    }

    constructor (mem: Bytes, ptr: nat, sz: nat)
      ensures this.mem == mem && State() == if sz == 0 then END else Cursor(ptr, sz)
    {
      this.mem := mem;
      mPtr, mSz := if sz == 0 then 0 else ptr, sz;
    }

    method Next()
      requires mSz >= 1
      modifies this
      ensures State()
           == if old(mSz) == 1 then END
              else Cursor(old(mPtr) + PropertySize(mem, old(mPtr)), old(mSz) - 1)
    {
      mPtr := mPtr + 36 + Padded(U32At(mem, mPtr + 32));
      mSz := mSz - 1;
      if mSz == 0 {
        mPtr := 0;
      }
    }
  }

  // The sum is kept in 32 bits.
  method PropertiesSizeof(mem: Bytes, node: nat) returns (accum: nat)
    ensures accum == PropertiesSize(mem, node + 8, U32At(mem, node)) % TWO_TO_32
  {
    hide U32At, Padded;
    ghost var total := PropertiesSize(mem, node + 8, U32At(mem, node));
    var it := new PropIterator(mem, node + 8, U32At(mem, node));
    accum := 0;
    while it.mPtr != 0
      invariant fresh(it) && it.mem == mem && (it.mPtr == 0 <==> it.mSz == 0)
      invariant accum < TWO_TO_32
      invariant total % TWO_TO_32 == (accum + PropertiesSize(mem, it.mPtr, it.mSz)) % TWO_TO_32
      decreases it.mSz
    {
      ghost var ptr, sz := it.mPtr, it.mSz;
      var size := 36 + Padded(U32At(mem, it.mPtr + 32));
      it.Next();
      assert PropertiesSize(mem, ptr, sz) == size + PropertiesSize(mem, it.mPtr, it.mSz) by {
        NextSize(mem, ptr, sz);
      }
      ModAdd(accum + size, PropertiesSize(mem, it.mPtr, it.mSz), TWO_TO_32);
      accum := (accum + size) % TWO_TO_32;
    }
    ModUnique(accum, TWO_TO_32, 0, accum);
  }

  lemma NextSize(mem: Bytes, ptr: nat, sz: nat)
    requires sz >= 1
    ensures PropertiesSize(mem, ptr, sz)
         == PropertySize(mem, ptr) + if sz == 1 then 0 else PropertiesSize(mem, ptr + PropertySize(mem, ptr), sz - 1)
  {
  }

  class NodeIterator {
    const mem: Bytes
    var mPtr: nat
    var mSz: nat

    function State(): Cursor
      reads this
    {
      Cursor(mPtr, mSz)
    }

    constructor (mem: Bytes, ptr: nat, sz: nat)
      ensures this.mem == mem && State() == if sz == 0 then END else Cursor(ptr, sz)
    {
      this.mem := mem;
      mPtr, mSz := if sz == 0 then 0 else ptr, sz;
    }

    method Next()
      requires mSz >= 1
      modifies this
      ensures State() == NodeStep(mem, old(State()))
    {
      var props := PropertiesSizeof(mem, mPtr);
      mPtr := mPtr + 8 + props;
      mSz := mSz - 1;
      if mSz == 0 {
        mPtr := 0;
      }
    }
  }

  // children_cbegin()
  function ChildrenBegin(mem: Bytes, node: nat): Cursor {
    var n := U32At(mem, node + 4);
    if n == 0 then END else Cursor(node + HeadSize(mem, node), n)
  }

  // What the iterators find in a serialised tree

  /** There is one multiple of 4 in reach. */
  lemma PaddedLength(raw: nat, length: nat)
    requires raw < TWO_TO_32
    requires length % 4 == 0 && And(raw, 0x7FFF_FFFF) <= length < And(raw, 0x7FFF_FFFF) + 4
    ensures length == Padded(raw)
  {
    hide And, Padded, SizeRaw;
    PaddedExact(raw);
  }

  lemma PropertySizeExact(mem: Bytes, ptr: nat, p: Property)
    requires PropertyOk(p) && Holds(mem, ptr, PropertyBytes(p))
    ensures PropertySize(mem, ptr) == |PropertyBytes(p)|
  {
    hide And, Padded, SizeRaw, U32, U32At, Holds;
    PaddedExact(p.raw);
    PaddedLength(p.raw, |p.data|);
    HoldsParts(mem, ptr, p.name + U32(p.raw), p.data);
    HoldsParts(mem, ptr, p.name, U32(p.raw));
    U32RoundTrip(mem, ptr + 32, p.raw);
  }

  lemma {:induction false} PropertiesSizeExact(mem: Bytes, ptr: nat, ps: seq<Property>)
    requires forall i | 0 <= i < |ps| :: PropertyOk(ps[i])
    requires Holds(mem, ptr, PropertiesBytes(ps))
    ensures PropertiesSize(mem, ptr, |ps|) == |PropertiesBytes(ps)|
    decreases |ps|
  {
    hide PropertyBytes, PropertySize, Holds, PropertyOk;
    if ps != [] {
      HoldsParts(mem, ptr, PropertyBytes(ps[0]), PropertiesBytes(ps[1..]));
      PropertySizeExact(mem, ptr, ps[0]);
      PropertiesSizeExact(mem, ptr + PropertySize(mem, ptr), ps[1..]);
    }
  }

  lemma HeadRead(mem: Bytes, ptr: nat, n: Node)
    requires NodeOk(n) && Holds(mem, ptr, Head(n))
    ensures HeadSize(mem, ptr) == |Head(n)| && U32At(mem, ptr + 4) == |n.children|
  {
    hide Holds, U32, U32At;
    HoldsParts(mem, ptr, U32(|n.props|) + U32(|n.children|), PropertiesBytes(n.props));
    HoldsParts(mem, ptr, U32(|n.props|), U32(|n.children|));
    U32RoundTrip(mem, ptr, |n.props|);
    U32RoundTrip(mem, ptr + 4, |n.children|);
    PropertiesSizeExact(mem, ptr + 8, n.props);
    ModUnique(|PropertiesBytes(n.props)|, TWO_TO_32, 0, |PropertiesBytes(n.props)|);
  }

  predicate AllOk(ns: seq<Node>) {
    forall i | 0 <= i < |ns| :: NodeOk(ns[i])
  }

  lemma {:induction false} PreorderOk(ns: seq<Node>)
    requires AllOk(ns)
    ensures AllOk(Preorder(ns))
    ensures |Preorder(ns)| >= |ns|
    decreases ns
  {
    if ns != [] {
      PreorderOk(ns[0].children);
      PreorderOk(ns[1..]);
    }
  }

  /** Offset of the k-th of the nodes whose heads follow one another from `off` on. */
  function OffsetOf(off: nat, ds: seq<Node>, k: nat): nat
    requires k <= |ds|
  {
    off + |Heads(ds[..k])|
  }

  lemma HeadsFrom(ds: seq<Node>, k: nat)
    requires k < |ds|
    ensures Heads(ds[k..]) == Head(ds[k]) + Heads(ds[k + 1..])
  {
    hide Head;
    assert ds[k..][0] == ds[k] && ds[k..][1..] == ds[k + 1..];
  }

  lemma HeadsThrough(ds: seq<Node>, k: nat)
    requires k < |ds|
    ensures Heads(ds[..k + 1]) == Heads(ds[..k]) + Head(ds[k])
  {
    hide Head, Heads;
    assert ds[..k + 1] == ds[..k] + [ds[k]];
    HeadsAppend(ds[..k], [ds[k]]);
    HeadsOne(ds[k]);
  }

  lemma SplitHeads(ds: seq<Node>, k: nat)
    requires k < |ds|
    ensures Heads(ds) == Heads(ds[..k]) + (Head(ds[k]) + Heads(ds[k + 1..]))
  {
    hide Head, Heads;
    HeadsFrom(ds, k);
    assert ds == ds[..k] + ds[k..];
    HeadsAppend(ds[..k], ds[k..]);
  }

  lemma HeadAt(mem: Bytes, off: nat, ds: seq<Node>, k: nat)
    requires Holds(mem, off, Heads(ds)) && k < |ds|
    ensures Holds(mem, OffsetOf(off, ds, k), Head(ds[k]))
    ensures OffsetOf(off, ds, k + 1) == OffsetOf(off, ds, k) + |Head(ds[k])|
  {
    hide Holds, Head;
    SplitHeads(ds, k);
    HeadsThrough(ds, k);
    HoldsParts(mem, off, Heads(ds[..k]), Head(ds[k]) + Heads(ds[k + 1..]));
    HoldsParts(mem, OffsetOf(off, ds, k), Head(ds[k]), Heads(ds[k + 1..]));
  }

  function Iterate(mem: Bytes, c: Cursor, k: nat): Cursor
    requires k < c.sz || k == 0
    ensures k < c.sz ==> Iterate(mem, c, k).sz == c.sz - k
  {
    if k == 0 then c else NodeStep(mem, Iterate(mem, c, k - 1))
  }

  lemma {:induction false} IterateHeads(mem: Bytes, off: nat, ds: seq<Node>, sz: nat, k: nat)
    requires AllOk(ds) && Holds(mem, off, Heads(ds)) && k < sz <= |ds|
    ensures Iterate(mem, Cursor(off, sz), k) == Cursor(OffsetOf(off, ds, k), sz - k)
  {
    hide Holds, Head, HeadSize, NodeOk, U32At;
    if k == 0 {
      assert ds[..0] == [];
    } else {
      IterateHeads(mem, off, ds, sz, k - 1);
      HeadAt(mem, off, ds, k - 1);
      HeadRead(mem, OffsetOf(off, ds, k - 1), ds[k - 1]);
    }
  }

  /** k steps from the first child lead to the k-th descendant in depth-first order. */
  lemma ChildrenVisitPreorder(mem: Bytes, node: nat, n: Node, k: nat)
    requires NodeOk(n) && Holds(mem, node, Serialized(n)) && k < |n.children|
    ensures var begin, ds := ChildrenBegin(mem, node), Preorder(n.children);
      && begin.sz == |n.children| <= |ds|
      && Iterate(mem, begin, k) == Cursor(OffsetOf(node + |Head(n)|, ds, k), |n.children| - k)
      && Holds(mem, OffsetOf(node + |Head(n)|, ds, k), Head(ds[k]))
  {
    hide Head, Holds, HeadSize, U32At, Heads, SerializedAll, Preorder, Iterate, OffsetOf;
    HoldsParts(mem, node, Head(n), SerializedAll(n.children));
    HeadRead(mem, node, n);
    SerializedIsHeads(n.children);
    PreorderOk(n.children);
    IterateHeads(mem, node + |Head(n)|, Preorder(n.children), |n.children|, k);
    HeadAt(mem, node + |Head(n)|, Preorder(n.children), k);
  }

  /** Offset of the k-th child itself. */
  function ChildOffset(node: nat, n: Node, k: nat): nat
    requires k <= |n.children|
  {
    node + |Head(n)| + |SerializedAll(n.children[..k])|
  }

  /** Every child but the last is a leaf. */
  predicate OnlyLastHasChildren(ns: seq<Node>) {
    forall i | 0 <= i < |ns| - 1 :: ns[i].children == []
  }

  lemma SerializedNotEmpty(ns: seq<Node>)
    requires ns != []
    ensures |SerializedAll(ns)| >= 8
  {
  }

  lemma {:induction false} SerializedAppend(xs: seq<Node>, ys: seq<Node>)
    ensures SerializedAll(xs + ys) == SerializedAll(xs) + SerializedAll(ys)
  {
    hide Serialized;
    if xs == [] {
      assert xs + ys == ys;
    } else {
      SerializedAppend(xs[1..], ys);
      assert (xs + ys)[1..] == xs[1..] + ys && (xs + ys)[0] == xs[0];
      Associate(Serialized(xs[0]), SerializedAll(xs[1..]), SerializedAll(ys));
    }
  }

  /** Up to the first child with children of its own, depth-first order is the order of the children. */
  lemma {:induction false} LeavesFirst(ns: seq<Node>, k: nat)
    requires k <= |ns| && forall i | 0 <= i < k :: ns[i].children == []
    ensures |Preorder(ns)| >= k && Preorder(ns)[..k] == ns[..k]
    ensures k < |ns| ==> |Preorder(ns)| > k && Preorder(ns)[k] == ns[k]
    ensures SerializedAll(ns[..k]) == Heads(ns[..k])
  {
    hide Head;
    if k != 0 {
      LeavesFirst(ns[1..], k - 1);
      assert ns[..k][1..] == ns[1..][..k - 1];
      assert Preorder(ns) == [ns[0]] + Preorder(ns[1..]);
      assert Serialized(ns[0]) == Head(ns[0]) + [];
    }
  }

  /** Where the iterator is after k steps, and where the k-th child is, from the end of the parent's head. */
  ghost predicate VisitsChild(ns: seq<Node>, k: nat) {
    k <= |ns| && k <= |Preorder(ns)| && |Heads(Preorder(ns)[..k])| == |SerializedAll(ns[..k])|
  }

  lemma MissesSibling(ns: seq<Node>, i: nat)
    requires i < |ns| && ns[i].children != [] && forall j | 0 <= j < i :: ns[j].children == []
    ensures !VisitsChild(ns, i + 1)
  {
    hide Head;
    LeavesFirst(ns, i);
    var ds := Preorder(ns);
    assert ds[..i + 1] == ns[..i] + [ns[i]] && ns[..i + 1] == ns[..i] + [ns[i]];
    HeadsAppend(ns[..i], [ns[i]]);
    HeadsOne(ns[i]);
    SerializedAppend(ns[..i], [ns[i]]);
    assert [ns[i]][1..] == [];
    assert SerializedAll([ns[i]]) == Serialized(ns[i]) + [];
    SerializedNotEmpty(ns[i].children);
  }

  lemma VisitsLeaves(ns: seq<Node>, k: nat)
    requires OnlyLastHasChildren(ns) && k < |ns|
    ensures VisitsChild(ns, k)
  {
    LeavesFirst(ns, k);
  }

  lemma {:induction false} FirstParent(ns: seq<Node>) returns (i: nat)
    requires !OnlyLastHasChildren(ns)
    ensures i < |ns| - 1 && ns[i].children != [] && forall j | 0 <= j < i :: ns[j].children == []
  {
    if ns[0].children != [] {
      i := 0;
    } else {
      var j :| 0 <= j < |ns| - 1 && ns[j].children != [];
      assert ns[1..][j - 1] == ns[j];
      i := FirstParent(ns[1..]);
      i := i + 1;
      assert forall j | 1 <= j < i :: ns[j] == ns[1..][j - 1];
    }
  }

  /** `children()` runs over the children of a node exactly when no child but the last has children. */
  lemma ChildrenExactIff(mem: Bytes, node: nat, n: Node)
    requires NodeOk(n) && Holds(mem, node, Serialized(n))
    ensures ChildrenBegin(mem, node).sz == |n.children|
    ensures (forall k: nat | k < |n.children| ::
               Iterate(mem, ChildrenBegin(mem, node), k).ptr == ChildOffset(node, n, k))
       <==> OnlyLastHasChildren(n.children)
  {
    hide Holds, Serialized, Head, NodeOk, ChildrenBegin, Iterate, OnlyLastHasChildren;
    var ns := n.children;
    BeginSize(mem, node, n);
    forall k: nat | k < |ns|
      ensures Iterate(mem, ChildrenBegin(mem, node), k).ptr == ChildOffset(node, n, k) <==> VisitsChild(ns, k)
    {
      ChildrenVisitPreorder(mem, node, n, k);
    }
    if OnlyLastHasChildren(ns) {
      forall k: nat | k < |ns| ensures VisitsChild(ns, k) {
        VisitsLeaves(ns, k);
      }
    } else {
      var i := FirstParent(ns);
      MissesSibling(ns, i);
      assert Iterate(mem, ChildrenBegin(mem, node), i + 1).ptr != ChildOffset(node, n, i + 1);
    }
  }

  lemma BeginSize(mem: Bytes, node: nat, n: Node)
    requires NodeOk(n) && Holds(mem, node, Serialized(n))
    ensures ChildrenBegin(mem, node).sz == |n.children|
  {
    HoldsParts(mem, node, Head(n), SerializedAll(n.children));
    HeadRead(mem, node, n);
  }

  // node_sizeof()

  /** Every node of a list in depth-first order is followed by at least as many as it has children. */
  predicate Enough(ds: seq<Node>) {
    forall i | 0 <= i < |ds| :: i + |ds[i].children| < |ds|
  }

  lemma {:induction false} PreorderEnough(ns: seq<Node>)
    requires AllOk(ns)
    ensures Enough(Preorder(ns))
    decreases ns
  {
    if ns != [] {
      var below, rest := Preorder(ns[0].children), Preorder(ns[1..]);
      PreorderEnough(ns[0].children);
      PreorderEnough(ns[1..]);
      PreorderOk(ns[0].children);
      var ds := Preorder(ns);
      forall i | 0 <= i < |ds| ensures i + |ds[i].children| < |ds| {
        if 1 <= i <= |below| {
          assert ds[i] == below[i - 1];
        } else if i > |below| {
          assert ds[i] == rest[i - 1 - |below|];
        }
      }
    }
  }

  /** What `node_sizeof` returns at the i-th node, given what the child iterator visits. */
  function NodeSize(ds: seq<Node>, i: nat): nat
    requires Enough(ds) && i < |ds|
    decreases |ds| - i, 0
  {
    |Head(ds[i])| + SumSizes(ds, i + 1, |ds[i].children|)
  }

  function SumSizes(ds: seq<Node>, i: nat, n: nat): nat
    requires Enough(ds) && i + n <= |ds|
    decreases |ds| - i, 1
  {
    if n == 0 then 0 else NodeSize(ds, i) + SumSizes(ds, i + 1, n - 1)
  }

  /** The cursor of the child iterator of node i after j steps. */
  ghost predicate ChildCursor(mem: Bytes, off: nat, ds: seq<Node>, i: nat, j: nat, c: Cursor)
    requires Enough(ds) && i < |ds|
  {
    var n := |ds[i].children|;
    j <= n && c == if j == n then END else Cursor(OffsetOf(off, ds, i + 1 + j), n - j)
  }

  lemma CursorBegins(mem: Bytes, off: nat, ds: seq<Node>, i: nat)
    requires AllOk(ds) && Enough(ds) && Holds(mem, off, Heads(ds)) && i < |ds|
    ensures var node := OffsetOf(off, ds, i);
      8 + PropertiesSize(mem, node + 8, U32At(mem, node)) % TWO_TO_32 == HeadSize(mem, node) == |Head(ds[i])|
    ensures ChildCursor(mem, off, ds, i, 0, ChildrenBegin(mem, OffsetOf(off, ds, i)))
  {
    hide Holds, Head, NodeOk, U32At;
    HeadAt(mem, off, ds, i);
    HeadRead(mem, OffsetOf(off, ds, i), ds[i]);
  }

  lemma CursorSteps(mem: Bytes, off: nat, ds: seq<Node>, i: nat, j: nat, c: Cursor)
    requires AllOk(ds) && Enough(ds) && Holds(mem, off, Heads(ds)) && i < |ds|
    requires ChildCursor(mem, off, ds, i, j, c)
    ensures c.ptr != 0 <==> j < |ds[i].children|
    ensures c.sz == |ds[i].children| - j
    ensures j < |ds[i].children| ==> i + 1 + j < |ds| && c.ptr == OffsetOf(off, ds, i + 1 + j)
    ensures j < |ds[i].children| ==> ChildCursor(mem, off, ds, i, j + 1, NodeStep(mem, c))
  {
    hide Holds, NodeOk, HeadSize, U32At;
    if j < |ds[i].children| {
      HeadAt(mem, off, ds, i + j);
      HeadAt(mem, off, ds, i + 1 + j);
      HeadRead(mem, c.ptr, ds[i + 1 + j]);
    }
  }

  // The sums are kept in 32 bits.
  method NodeSizeof(mem: Bytes, node: nat, ghost off: nat, ghost ds: seq<Node>, ghost i: nat) returns (r: nat)
    requires AllOk(ds) && Enough(ds) && Holds(mem, off, Heads(ds)) && i < |ds| && node == OffsetOf(off, ds, i)
    ensures r == NodeSize(ds, i) % TWO_TO_32
    decreases |ds| - i
  {
    hide Holds, Head, NodeOk, Heads, NodeStep, ChildrenBegin, NodeSize, SumSizes;
    hide HeadSize, PropertiesSize, U32At, OffsetOf, ChildCursor;
    CursorBegins(mem, off, ds, i);
    SizeParts(ds, i);
    var props := PropertiesSizeof(mem, node);
    r := (8 + props) % TWO_TO_32;
    ModAdd(8 + props, SumSizes(ds, i + 1, |ds[i].children|), TWO_TO_32);
    var begin := ChildrenBegin(mem, node);
    var it := new NodeIterator(mem, begin.ptr, begin.sz);
    ghost var j := 0;
    CursorSteps(mem, off, ds, i, 0, begin);
    while it.mPtr != 0
      invariant fresh(it) && it.mem == mem && 0 <= j <= |ds[i].children|
      invariant ChildCursor(mem, off, ds, i, j, it.State())
      invariant it.mPtr != 0 <==> j < |ds[i].children|
      invariant r < TWO_TO_32
      invariant NodeSize(ds, i) % TWO_TO_32 == (r + SumSizes(ds, i + 1 + j, |ds[i].children| - j)) % TWO_TO_32
      decreases |ds[i].children| - j
    {
      CursorSteps(mem, off, ds, i, j, it.State());
      var child := NodeSizeof(mem, it.mPtr, off, ds, i + 1 + j);
      SumStep(ds, i + 1 + j, |ds[i].children| - j);
      AddReduced(r, NodeSize(ds, i + 1 + j), SumSizes(ds, i + 2 + j, |ds[i].children| - j - 1));
      r := (r + child) % TWO_TO_32;
      it.Next();
      j := j + 1;
      CursorSteps(mem, off, ds, i, j, it.State());
    }
    assert SumSizes(ds, i + 1 + j, 0) == 0 by {
      SumStep(ds, i + 1 + j, 0);
    }
    ModUnique(r, TWO_TO_32, 0, r);
  }

  lemma SizeParts(ds: seq<Node>, i: nat)
    requires Enough(ds) && i < |ds|
    ensures NodeSize(ds, i) == |Head(ds[i])| + SumSizes(ds, i + 1, |ds[i].children|)
  {
  }

  lemma SumStep(ds: seq<Node>, i: nat, n: nat)
    requires Enough(ds) && i + n <= |ds|
    ensures SumSizes(ds, i, n) == if n == 0 then 0 else NodeSize(ds, i) + SumSizes(ds, i + 1, n - 1)
  {
  }

  lemma AddReduced(r: nat, x: nat, y: nat)
    ensures ((r + x % TWO_TO_32) % TWO_TO_32 + y) % TWO_TO_32 == (r + (x + y)) % TWO_TO_32
  {
    ModAdd(r + x % TWO_TO_32, y, TWO_TO_32);
    ModAdd(x, r + y, TWO_TO_32);
  }

  /** Only last children have children, all the way down. */
  predicate Spine(ns: seq<Node>) {
    if ns == [] then true
    else if |ns| == 1 then Spine(ns[0].children)
    else ns[0].children == [] && Spine(ns[1..])
  }

  lemma {:induction false} SpineSizes(ds: seq<Node>, a: nat, ns: seq<Node>)
    requires Enough(ds) && Spine(ns) && a + |Preorder(ns)| <= |ds| && a + |ns| <= |ds|
    requires ds[a..a + |Preorder(ns)|] == Preorder(ns)
    ensures SumSizes(ds, a, |ns|) == |SerializedAll(ns)|
    decreases ns
  {
    hide Head;
    if ns != [] {
      var pre, below := Preorder(ns), Preorder(ns[0].children);
      assert ds[a] == pre[0] == ns[0];
      if |ns| == 1 {
        assert pre == [ns[0]] + below;
        assert ds[a + 1..a + 1 + |below|] == pre[1..];
        SpineSizes(ds, a + 1, ns[0].children);
      } else {
        assert pre == [ns[0]] + Preorder(ns[1..]);
        assert ds[a + 1..a + |pre|] == pre[1..];
        SpineSizes(ds, a + 1, ns[1..]);
        assert SumSizes(ds, a + 1, 0) == 0 && SerializedAll([]) == [];
      }
    }
  }

  /** On such trees `node_sizeof` is the length of the serialised node. */
  lemma NodeSizeExact(n: Node)
    requires NodeOk(n) && Spine([n])
    ensures Enough(Preorder([n])) && Preorder([n])[0] == n
    ensures NodeSize(Preorder([n]), 0) == |Serialized(n)|
  {
    hide Serialized;
    var ds := Preorder([n]);
    PreorderEnough([n]);
    PreorderOk([n]);
    assert ds[0..0 + |ds|] == ds;
    SpineSizes(ds, 0, [n]);
    assert [n][1..] == [];
  }

  /** The nodes, by position in depth-first order, whose heads `node_sizeof` adds up at node i. */
  function Visited(ds: seq<Node>, i: nat): seq<nat>
    requires Enough(ds) && i < |ds|
    decreases |ds| - i, 0
  {
    [i] + VisitedAll(ds, i + 1, |ds[i].children|)
  }

  function VisitedAll(ds: seq<Node>, i: nat, n: nat): seq<nat>
    requires Enough(ds) && i + n <= |ds|
    decreases |ds| - i, 1
  {
    if n == 0 then [] else Visited(ds, i) + VisitedAll(ds, i + 1, n - 1)
  }

  predicate Within(visits: seq<nat>, n: nat) {
    forall i | 0 <= i < |visits| :: visits[i] < n
  }

  function HeadsAt(ds: seq<Node>, visits: seq<nat>): nat
    requires Within(visits, |ds|)
  {
    if visits == [] then 0 else |Head(ds[visits[0]])| + HeadsAt(ds, visits[1..])
  }

  lemma {:induction false} HeadsAtAppend(ds: seq<Node>, xs: seq<nat>, ys: seq<nat>)
    requires Within(xs, |ds|) && Within(ys, |ds|)
    ensures Within(xs + ys, |ds|)
    ensures HeadsAt(ds, xs + ys) == HeadsAt(ds, xs) + HeadsAt(ds, ys)
  {
    hide Head;
    if xs == [] {
      assert xs + ys == ys;
    } else {
      HeadsAtAppend(ds, xs[1..], ys);
      assert (xs + ys)[1..] == xs[1..] + ys;
    }
  }

  lemma {:induction false} SizeIsVisits(ds: seq<Node>, i: nat, n: nat)
    requires Enough(ds) && i + n <= |ds|
    ensures Within(VisitedAll(ds, i, n), |ds|)
    ensures SumSizes(ds, i, n) == HeadsAt(ds, VisitedAll(ds, i, n))
    decreases |ds| - i, n
  {
    hide Head;
    if n != 0 {
      var below, rest := VisitedAll(ds, i + 1, |ds[i].children|), VisitedAll(ds, i + 1, n - 1);
      SizeIsVisits(ds, i + 1, |ds[i].children|);
      SizeIsVisits(ds, i + 1, n - 1);
      HeadsAtAppend(ds, [i], below);
      HeadsAtAppend(ds, [i] + below, rest);
      assert HeadsAt(ds, [i]) == |Head(ds[i])|;
    }
  }

  ghost predicate NoRepeats(visits: seq<nat>) {
    forall i, j | 0 <= i < j < |visits| :: visits[i] != visits[j]
  }

  function UpFrom(a: nat, n: nat): (s: seq<nat>)
    ensures |s| == n && forall i | 0 <= i < n :: s[i] == a + i
  {
    seq(n, i => a + i)
  }

  lemma NoRepeatsTail(a: nat, ys: seq<nat>)
    requires NoRepeats([a] + ys)
    ensures NoRepeats(ys)
  {
    assert forall j | 0 <= j < |ys| :: ([a] + ys)[1 + j] == ys[j];
  }

  lemma Repeated(xs: seq<nat>, ys: seq<nat>)
    requires |xs| >= 2 && ys != [] && xs[1] == ys[0]
    ensures !NoRepeats(xs + ys)
  {
    assert (xs + ys)[1] == (xs + ys)[|xs|];
  }

  lemma UpFromMore(a: nat, n: nat)
    ensures UpFrom(a, n + 1) == [a] + UpFrom(a + 1, n)
  {
  }

  /** The visits when only one of the first child's family and its siblings is not empty. */
  lemma VisitsInLine(ds: seq<Node>, a: nat, n: nat)
    requires Enough(ds) && 1 <= n && a + n <= |ds|
    ensures a + 1 + |ds[a].children| <= |ds|
    ensures n == 1 ==> VisitedAll(ds, a, n) == [a] + VisitedAll(ds, a + 1, |ds[a].children|)
    ensures ds[a].children == [] ==> VisitedAll(ds, a, n) == [a] + VisitedAll(ds, a + 1, n - 1)
  {
    assert VisitedAll(ds, a + 1, 0) == [];
  }

  lemma FirstVisited(ds: seq<Node>, i: nat, n: nat)
    requires Enough(ds) && 1 <= n && i + n <= |ds|
    ensures VisitedAll(ds, i, n) != [] && VisitedAll(ds, i, n)[0] == i
  {
    assert Visited(ds, i)[0] == i;
  }

  /** A first child's first child stands where the walk looks for the second child. */
  lemma VisitsTwice(ds: seq<Node>, a: nat, n: nat)
    requires Enough(ds) && 2 <= n && a + n <= |ds| && ds[a].children != []
    ensures !NoRepeats(VisitedAll(ds, a, n))
  {
    var first, rest := Visited(ds, a), VisitedAll(ds, a + 1, n - 1);
    FirstVisited(ds, a + 1, |ds[a].children|);
    FirstVisited(ds, a + 1, n - 1);
    Repeated(first, rest);
  }

  lemma {:induction false} VisitsOnceIff(ds: seq<Node>, a: nat, ns: seq<Node>)
    requires Enough(ds) && a + |Preorder(ns)| <= |ds| && a + |ns| <= |ds|
    requires ds[a..a + |Preorder(ns)|] == Preorder(ns)
    ensures NoRepeats(VisitedAll(ds, a, |ns|)) ==> Spine(ns)
    ensures Spine(ns) ==> VisitedAll(ds, a, |ns|) == UpFrom(a, |Preorder(ns)|)
    decreases ns
  {
    hide NoRepeats, VisitedAll, Visited, UpFrom;
    if ns == [] {
      NothingVisited(ds, a);
    } else {
      var pre := Preorder(ns);
      assert ds[a] == pre[0] == ns[0];
      var next := if |ns| == 1 then ns[0].children else ns[1..];
      if |ns| > 1 && ns[0].children != [] {
        VisitsTwice(ds, a, |ns|);
      } else {
        assert pre == [ns[0]] + Preorder(next);
        assert ds[a + 1..a + |pre|] == pre[1..];
        VisitsOnceIff(ds, a + 1, next);
        VisitsInLine(ds, a, |ns|);
        UpFromMore(a, |Preorder(next)|);
        if NoRepeats(VisitedAll(ds, a, |ns|)) {
          NoRepeatsTail(a, VisitedAll(ds, a + 1, |next|));
        }
      }
    }
  }

  lemma NothingVisited(ds: seq<Node>, a: nat)
    requires Enough(ds) && a <= |ds|
    ensures VisitedAll(ds, a, 0) == UpFrom(a, 0)
  {
  }

  /** `node_sizeof` adds up every node of the tree once, and none twice, exactly on such trees. */
  lemma NodeSizeVisitsOnceIff(n: Node)
    requires NodeOk(n)
    ensures Enough(Preorder([n]))
    ensures var ds := Preorder([n]);
      && |ds| >= 1
      && (NoRepeats(Visited(ds, 0)) <==> Spine([n]))
      && (Visited(ds, 0) == UpFrom(0, |ds|) <==> Spine([n]))
      && Within(Visited(ds, 0), |ds|)
      && NodeSize(ds, 0) == HeadsAt(ds, Visited(ds, 0))
  {
    hide Head, NodeOk, Spine, NoRepeats;
    var ds := Preorder([n]);
    PreorderEnough([n]);
    PreorderOk([n]);
    assert ds[0..0 + |ds|] == ds;
    VisitsOnceIff(ds, 0, [n]);
    UpFromOnce(|ds|);
    SizeIsVisits(ds, 0, 1);
    assert VisitedAll(ds, 0, 1) == Visited(ds, 0);
  }

  lemma UpFromOnce(n: nat)
    ensures NoRepeats(UpFrom(0, n))
  {
  }

  // The same tree with other properties

  /** The trees differ in their properties only. */
  predicate SameShapes(ms: seq<Node>, ns: seq<Node>)
    decreases ns
  {
    && |ms| == |ns|
    && (ns == [] || (SameShapes(ms[0].children, ns[0].children) && SameShapes(ms[1..], ns[1..])))
  }

  /** As many nodes, with as many children each. */
  ghost predicate SameCounts(ds: seq<Node>, es: seq<Node>) {
    |ds| == |es| && forall i | 0 <= i < |ds| :: |ds[i].children| == |es[i].children|
  }

  lemma CountsJoin(ds: seq<Node>, es: seq<Node>, ds': seq<Node>, es': seq<Node>)
    requires SameCounts(ds, es) && SameCounts(ds', es')
    ensures SameCounts(ds + ds', es + es')
  {
  }

  lemma {:induction false} ShapeCounts(ms: seq<Node>, ns: seq<Node>)
    requires SameShapes(ms, ns)
    ensures SameCounts(Preorder(ms), Preorder(ns)) && (Spine(ms) <==> Spine(ns))
    decreases ns
  {
    hide SameCounts;
    if ns == [] {
      assert SameCounts([], []) by {
        NoCounts();
      }
    } else {
      ShapeCounts(ms[0].children, ns[0].children);
      ShapeCounts(ms[1..], ns[1..]);
      assert SameCounts([ms[0]], [ns[0]]) by {
        OneCount(ms[0], ns[0]);
      }
      CountsJoin([ms[0]], [ns[0]], Preorder(ms[0].children), Preorder(ns[0].children));
      CountsJoin([ms[0]] + Preorder(ms[0].children), [ns[0]] + Preorder(ns[0].children),
                 Preorder(ms[1..]), Preorder(ns[1..]));
    }
  }

  lemma NoCounts()
    ensures SameCounts([], [])
  {
  }

  lemma OneCount(m: Node, n: Node)
    requires |m.children| == |n.children|
    ensures SameCounts([m], [n])
  {
  }

  /** The walk depends on the shape alone. */
  lemma {:induction false} SameVisits(ds: seq<Node>, es: seq<Node>, i: nat, n: nat)
    requires Enough(ds) && Enough(es) && SameCounts(ds, es) && i + n <= |ds|
    ensures VisitedAll(ds, i, n) == VisitedAll(es, i, n)
    decreases |ds| - i, n
  {
    if n != 0 {
      SameVisits(ds, es, i + 1, |ds[i].children|);
      SameVisits(ds, es, i + 1, n - 1);
    }
  }

  /** A property without data. */
  function Mark(): Property {
    Property(seq(32, _ => 0), 0, [])
  }

  /** The tree with no properties but one, on the v-th node in depth-first order. */
  function Marked(ns: seq<Node>, v: int): (ms: seq<Node>)
    ensures |ms| == |ns|
    decreases ns
  {
    if ns == [] then []
    else
      [Node(if v == 0 then [Mark()] else [], Marked(ns[0].children, v - 1))]
      + Marked(ns[1..], v - 1 - |Preorder(ns[0].children)|)
  }

  /** Node v of the list has the one property there is. */
  ghost predicate OnlyAt(ds: seq<Node>, v: int) {
    forall i | 0 <= i < |ds| :: ds[i].props == if i == v then [Mark()] else []
  }

  lemma {:induction false} MarkedShape(ns: seq<Node>, v: int)
    requires AllOk(ns)
    ensures AllOk(Marked(ns, v)) && SameShapes(Marked(ns, v), ns)
    decreases ns
  {
    hide NodeOk, Preorder, Mark;
    if ns != [] {
      ChildrenOk(ns[0]);
      var below := Marked(ns[0].children, v - 1);
      var rest := Marked(ns[1..], v - 1 - |Preorder(ns[0].children)|);
      MarkedShape(ns[0].children, v - 1);
      MarkedShape(ns[1..], v - 1 - |Preorder(ns[0].children)|);
      var m := Node(if v == 0 then [Mark()] else [], below);
      MarkedOk(m);
      assert Marked(ns, v) == [m] + rest && (([m] + rest)[1..]) == rest;
      assert forall i | 1 <= i < |ns| :: ([m] + rest)[i] == rest[i - 1];
    }
  }

  lemma ChildrenOk(n: Node)
    requires NodeOk(n)
    ensures AllOk(n.children) && |n.children| < TWO_TO_32
  {
  }

  lemma MarkedOk(m: Node)
    requires m.props == [Mark()] || m.props == []
    requires AllOk(m.children) && |m.children| < TWO_TO_32
    ensures NodeOk(m)
  {
    MarkOk();
  }

  lemma MarkOk()
    ensures PropertyOk(Mark()) && |PropertiesBytes([Mark()])| == 36
  {
    assert [Mark()][1..] == [];
    assert PropertiesBytes([Mark()]) == PropertyBytes(Mark()) + [];
  }

  lemma {:induction false} MarkedAt(ns: seq<Node>, v: int)
    requires AllOk(ns)
    ensures |Preorder(Marked(ns, v))| == |Preorder(ns)| && OnlyAt(Preorder(Marked(ns, v)), v)
    decreases ns
  {
    hide NodeOk, OnlyAt, Mark, Preorder;
    PreorderParts(ns);
    PreorderParts(Marked(ns, v));
    if ns == [] {
      NoneMarked(v);
    } else {
      ChildrenOk(ns[0]);
      var after := v - 1 - |Preorder(ns[0].children)|;
      MarkedAt(ns[0].children, v - 1);
      MarkedAt(ns[1..], after);
      var m := Node(if v == 0 then [Mark()] else [], Marked(ns[0].children, v - 1));
      assert Marked(ns, v) == [m] + Marked(ns[1..], after);
      assert ([m] + Marked(ns[1..], after))[1..] == Marked(ns[1..], after);
      OnlyAtJoin(m, Preorder(m.children), Preorder(Marked(ns[1..], after)), v);
    }
  }

  lemma PreorderParts(ns: seq<Node>)
    ensures ns == [] ==> Preorder(ns) == []
    ensures ns != [] ==> Preorder(ns) == [ns[0]] + Preorder(ns[0].children) + Preorder(ns[1..])
  {
  }

  lemma NoneMarked(v: int)
    ensures OnlyAt([], v)
  {
  }

  lemma OnlyAtJoin(m: Node, ds: seq<Node>, es: seq<Node>, v: int)
    requires m.props == if v == 0 then [Mark()] else []
    requires OnlyAt(ds, v - 1) && OnlyAt(es, v - 1 - |ds|)
    ensures OnlyAt([m] + ds + es, v)
  {
    var all := [m] + ds + es;
    forall i | 0 <= i < |all| ensures all[i].props == if i == v then [Mark()] else [] {
      if 1 <= i <= |ds| {
        assert all[i] == ds[i - 1];
      } else if i > |ds| {
        assert all[i] == es[i - 1 - |ds|];
      }
    }
  }

  lemma HeadLengths(n: Node)
    ensures n.props == [] ==> |Head(n)| == 8
    ensures n.props == [Mark()] ==> |Head(n)| == 44
  {
    assert [Mark()][1..] == [];
    assert PropertiesBytes([Mark()]) == PropertyBytes(Mark()) + [];
  }

  /** Eight bytes for each visit, and the property as often as its node is visited. */
  lemma {:induction false} HeadsAtMarked(ds: seq<Node>, visits: seq<nat>, v: nat)
    requires OnlyAt(ds, v) && Within(visits, |ds|)
    ensures HeadsAt(ds, visits) == 8 * |visits| + 36 * multiset(visits)[v]
  {
    hide Head;
    if visits != [] {
      HeadsAtMarked(ds, visits[1..], v);
      HeadLengths(ds[visits[0]]);
      assert visits == [visits[0]] + visits[1..];
    }
  }

  lemma {:induction false} HeadsLength(ds: seq<Node>, a: nat)
    requires a <= |ds|
    ensures |Heads(ds[a..])| == HeadsAt(ds, UpFrom(a, |ds| - a))
    decreases |ds| - a
  {
    hide Head;
    if a < |ds| {
      HeadsLength(ds, a + 1);
      HeadsFrom(ds, a);
      UpFromMore(a, |ds| - a - 1);
    }
  }

  lemma {:induction false} CountOnce(visits: seq<nat>, v: nat)
    requires NoRepeats(visits)
    ensures multiset(visits)[v] == if v in visits then 1 else 0
  {
    if visits != [] {
      assert visits == [visits[0]] + visits[1..];
      NoRepeatsTail(visits[0], visits[1..]);
      CountOnce(visits[1..], v);
      assert visits[0] !in visits[1..];
    }
  }

  lemma RepeatCounts(visits: seq<nat>, i: nat, j: nat)
    requires i < j < |visits| && visits[i] == visits[j]
    ensures multiset(visits)[visits[i]] >= 2
  {
    assert visits == visits[..i + 1] + visits[i + 1..];
    assert visits[i] == visits[..i + 1][i] && visits[j] == visits[i + 1..][j - i - 1];
    assert visits[i] in multiset(visits[..i + 1]) && visits[j] in multiset(visits[i + 1..]);
  }

  lemma LengthInHeads(m: Node)
    ensures |Serialized(m)| == |Heads(Preorder([m])[0..])|
  {
    SerializedIsHeads([m]);
    assert Preorder([m])[0..] == Preorder([m]);
    assert [m][1..] == [];
    assert SerializedAll([m]) == Serialized(m) + [];
  }

  /** The length of a tree with one property, on node v if there is one. */
  lemma MarkedLength(m: Node, v: nat)
    requires OnlyAt(Preorder([m]), v)
    ensures |Serialized(m)| == 8 * |Preorder([m])| + if v < |Preorder([m])| then 36 else 0
  {
    hide Head, OnlyAt, NoRepeats, Serialized;
    var ds := Preorder([m]);
    LengthInHeads(m);
    HeadsLength(ds, 0);
    HeadsAtMarked(ds, UpFrom(0, |ds|), v);
    UpFromOnce(|ds|);
    CountOnce(UpFrom(0, |ds|), v);
    assert v < |ds| ==> UpFrom(0, |ds|)[v] == v;
  }

  /** What `node_sizeof` makes of it, in visits of any tree of the same shape. */
  lemma MarkedVisits(ds: seq<Node>, es: seq<Node>, v: nat)
    requires Enough(ds) && Enough(es) && SameCounts(es, ds) && OnlyAt(es, v) && |ds| >= 1
    ensures NodeSize(es, 0) == 8 * |Visited(ds, 0)| + 36 * multiset(Visited(ds, 0))[v]
  {
    hide Head, OnlyAt, SameCounts, Enough, NodeSize;
    assert |es| == |ds| by {
      CountsLength(es, ds);
    }
    SizeIsVisits(es, 0, 1);
    SameVisits(es, ds, 0, 1);
    OneTree(ds);
    OneTree(es);
    HeadsAtMarked(es, Visited(es, 0), v);
  }

  lemma CountsLength(ds: seq<Node>, es: seq<Node>)
    requires SameCounts(ds, es)
    ensures |ds| == |es|
  {
  }

  lemma OneTree(ds: seq<Node>)
    requires Enough(ds) && |ds| >= 1
    ensures VisitedAll(ds, 0, 1) == Visited(ds, 0) && SumSizes(ds, 0, 1) == NodeSize(ds, 0)
  {
  }

  /** Some tree of the same shape has a single property, on node v, or none if there is no node v. */
  lemma MarkedSizes(n: Node, v: nat) returns (m: Node)
    requires NodeOk(n)
    ensures NodeOk(m) && SameShapes([m], [n])
    ensures Enough(Preorder([n])) && Enough(Preorder([m])) && |Preorder([n])| >= 1 && |Preorder([m])| >= 1
    ensures var ds := Preorder([n]);
      && NodeSize(Preorder([m]), 0) == 8 * |Visited(ds, 0)| + 36 * multiset(Visited(ds, 0))[v]
      && |Serialized(m)| == 8 * |ds| + if v < |ds| then 36 else 0
  {
    hide NodeOk, SameCounts, Serialized, OnlyAt, Preorder, Enough, Visited, NodeSize, SameShapes;
    var ms := Marked([n], v);
    m := ms[0];
    assert ms == [m];
    MarkedShape([n], v);
    MarkedAt([n], v);
    ShapeCounts(ms, [n]);
    PreorderEnough([n]);
    PreorderEnough(ms);
    PreorderOk([n]);
    MarkedVisits(Preorder([n]), Preorder(ms), v);
    MarkedLength(m, v);
  }

  /** Whatever the properties are, `node_sizeof` of a tree of this shape is its length. */
  ghost predicate ExactForShape(n: Node) {
    forall m | NodeOk(m) && SameShapes([m], [n]) && Enough(Preorder([m])) && |Preorder([m])| >= 1 ::
      NodeSize(Preorder([m]), 0) == |Serialized(m)|
  }

  /** `node_sizeof` is right for every tree of a shape exactly when only last children have children in it. */
  lemma NodeSizeExactIff(n: Node)
    requires NodeOk(n)
    ensures ExactForShape(n) <==> Spine([n])
  {
    hide NodeOk, SameCounts, Spine, Visited, Serialized;
    if Spine([n]) {
      forall m | NodeOk(m) && SameShapes([m], [n])
        ensures Enough(Preorder([m])) && |Preorder([m])| >= 1 && NodeSize(Preorder([m]), 0) == |Serialized(m)|
      {
        ShapeCounts([m], [n]);
        NodeSizeExact(m);
      }
    } else {
      NodeSizeVisitsOnceIff(n);
      var visits := Visited(Preorder([n]), 0);
      var i: nat, j: nat :| i < j < |visits| && visits[i] == visits[j];
      RepeatCounts(visits, i, j);
      var plain := MarkedSizes(n, |Preorder([n])|);
      var marked := MarkedSizes(n, visits[i]);
      assert multiset(visits)[|Preorder([n])|] == 0;
      assert NodeSize(Preorder([plain]), 0) != |Serialized(plain)|
          || NodeSize(Preorder([marked]), 0) != |Serialized(marked)|;
    }
  }

  /** A first child with a child of its own hides its sibling: the sum takes the grandchild in its place. */
  lemma NodeSizeCanBeWrong()
    ensures var prop := Property(seq(32, _ => 0), 0, []);
      var n := Node([], [Node([], [Node([], [])]), Node([prop], [])]);
      && NodeOk(n)
      && Enough(Preorder([n]))
      && NodeSize(Preorder([n]), 0) == 32
      && |Serialized(n)| == 68
  {
    var prop := Property(seq(32, _ => 0), 0, []);
    var grandchild, second := Node([], []), Node([prop], []);
    var first := Node([], [grandchild]);
    var n := Node([], [first, second]);
    var ds := [n, first, grandchild, second];
    assert Preorder([n]) == ds by {
      assert [n][1..] == [] && [first, second][1..] == [second] && [second][1..] == [] && [grandchild][1..] == [];
      assert Preorder([grandchild]) == [grandchild];
      assert Preorder([second]) == [second];
      assert Preorder([first, second]) == [first, grandchild, second];
    }
    assert |Head(second)| == 44 by {
      assert [prop][1..] == [];
      assert PropertiesBytes([prop]) == PropertyBytes(prop) + [];
    }
    assert SumSizes(ds, 3, 0) == 0 && SumSizes(ds, 4, 0) == 0;
    assert NodeSize(ds, 2) == 8;
    assert SumSizes(ds, 2, 1) == 8;
    assert NodeSize(ds, 1) == 16;
    assert SumSizes(ds, 1, 2) == 24;
    assert [grandchild][1..] == [] && [first, second][1..] == [second] && [second][1..] == [];
    assert |Serialized(grandchild)| == 8;
    assert SerializedAll([grandchild]) == Serialized(grandchild) + [];
    assert |Serialized(first)| == 16;
    assert SerializedAll([second]) == Serialized(second) + [];
  }
}

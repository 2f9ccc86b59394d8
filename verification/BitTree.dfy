/**
 * The tree of e_acsl_bittree.h: tracked blocks in a prefix tree over their base addresses.
 */
module BitTree {
  import opened CMemory
  import opened Words
  import opened Prefixes
  import opened Guards

  /** `drop` stands for the mask that drops so many low bits. */
  datatype Node =
    | Leaf(addr: Word, block: Block)
    | Inner(addr: Word, drop: Dropped, left: Node, right: Node)
  {
    /** Low bits that the mask of the node drops; the mask of a leaf is full. */
    function Bits(): Dropped { if Leaf? then 0 else drop }

    /** addr & mask. */
    function Key(): Word { Prefix(addr, Bits()) }

    /** The address p agrees with the node on the mask. */
    predicate Matches(p: Word) { Key() == Prefix(p, Bits()) }

    /** The node lies at or below p on its mask. */
    predicate UpTo(p: Word) { Key() <= Prefix(p, Bits()) }

    ghost function Blocks(): (s: set<Block>)
      ensures s != {}
    {
      if Leaf? then {block} else left.Blocks() + right.Blocks()
    }

    ghost function Size(): nat { if Leaf? then 1 else 1 + left.Size() + right.Size() }

    /** Below an inner node, the bit after its prefix is 0 on the left and 1 on the right. */
    ghost predicate Shaped() {
      match this
      case Leaf(addr, block) => addr == block.base
      case Inner(addr, d, l, r) =>
        && l.Shaped() && r.Shaped()
        && l.Bits() < d && r.Bits() < d
        && Shr(l.addr, d - 1) == 2 * Shr(addr, d)
        && Shr(r.addr, d - 1) == 2 * Shr(addr, d) + 1
    }
  }

  // ----- What the shape means -----

  /** All addresses of a node share its prefix. */
  lemma {:induction false} SharedPrefix(t: Node, b: Block, e: nat)
    requires t.Shaped() && b in t.Blocks() && t.Bits() <= e
    ensures b.base < LIMIT && Shr(b.base, e) == Shr(t.addr, e)
    decreases t
  {
    if t.Inner? {
      var c := if b in t.left.Blocks() then t.left else t.right;
      SharedPrefix(c, b, t.drop - 1);
      ShrMore(b.base, t.addr, t.drop, e);
    }
  }

  /** The tree is in the order of the addresses. */
  lemma Ordered(t: Node, b: Block, c: Block)
    requires t.Inner? && t.Shaped() && b in t.left.Blocks() && c in t.right.Blocks()
    ensures b.base < c.base
  {
    SharedPrefix(t.left, b, t.drop - 1);
    SharedPrefix(t.right, c, t.drop - 1);
    ShrOrder(b.base, c.base, t.drop - 1);
  }

  lemma {:induction false} DistinctBases(t: Node, b: Block, c: Block)
    requires t.Shaped() && b in t.Blocks() && c in t.Blocks() && b.base == c.base
    ensures b == c
    decreases t
  {
    if t.Inner? {
      if b in t.left.Blocks() && c in t.right.Blocks() { Ordered(t, b, c); }
      if c in t.left.Blocks() && b in t.right.Blocks() { Ordered(t, c, b); }
      if b in t.left.Blocks() && c in t.left.Blocks() { DistinctBases(t.left, b, c); }
      if b in t.right.Blocks() && c in t.right.Blocks() { DistinctBases(t.right, b, c); }
    }
  }

  // ----- bt_find -----

  /** All blocks of t start above p. */
  ghost predicate Above(t: Node, p: Word) { forall b :: b in t.Blocks() ==> p < b.base }

  /** All blocks of t start at or below p. */
  ghost predicate Below(t: Node, p: Word) { forall b :: b in t.Blocks() ==> b.base <= p }

  /** b is the block of s that starts closest below p, or at p. */
  ghost predicate Nearest(s: set<Block>, p: Word, b: Block) {
    b in s && b.base <= p && forall c :: c in s && c.base <= p ==> c.base <= b.base
  }

  /** A node that is not up to p lies above it. */
  lemma NotUpTo(t: Node, p: Word)
    requires t.Shaped() && !t.UpTo(p)
    ensures Above(t, p)
  {
    PrefixOrder(t.addr, p, t.Bits());
    forall b | b in t.Blocks() ensures p < b.base {
      SharedPrefix(t, b, t.Bits());
      ShrOrder(p, b.base, t.Bits());
    }
  }

  /** If a right child is up to p, its left sibling lies below p. */
  lemma RightUpTo(t: Node, p: Word)
    requires t.Inner? && t.Shaped() && t.right.UpTo(p)
    ensures Below(t.left, p)
  {
    PrefixOrder(t.right.addr, p, t.right.Bits());
    ShrMore(t.right.addr, p, t.right.Bits(), t.drop - 1);
    forall b | b in t.left.Blocks() ensures b.base <= p {
      SharedPrefix(t.left, b, t.drop - 1);
      ShrOrder(b.base, p, t.drop - 1);
    }
  }

  lemma LeafUpTo(t: Node, p: Word)
    requires t.Leaf?
    ensures t.UpTo(p) <==> t.addr <= p
  {
    PrefixOrder(t.addr, p, 0);
  }

  lemma {:induction false} NearestExists(t: Node, p: Word)
    requires t.Shaped() && !Above(t, p)
    ensures exists b :: Nearest(t.Blocks(), p, b)
    decreases t
  {
    if t.Leaf? {
      assert Nearest(t.Blocks(), p, t.block);
    } else {
      var c := if Above(t.right, p) then t.left else t.right;
      NearestExists(c, p);
      var b :| Nearest(c.Blocks(), p, b);
      forall a | a in t.Blocks() && a.base <= p ensures a.base <= b.base {
        if a !in c.Blocks() { Ordered(t, a, b); }
      }
      assert Nearest(t.Blocks(), p, b);
    }
  }

  /** The test at a leaf; the sum is taken modulo 2^64. */
  predicate Reaches(b: Block, p: Word) {
    p < (b.length + b.base) % LIMIT || (b.length == 0 && p == b.base)
  }

  /** Block b is below t, or else all of t is above p and b is below the other choice. */
  ghost predicate Pending(t: Node, other: Option<Node>, p: Word, b: Block) {
    b in t.Blocks() || (Above(t, p) && other.Some? && b in other.value.Blocks())
  }

  /** What the descent for p keeps in a tree with the blocks s. */
  ghost predicate Descent(s: set<Block>, t: Node, other: Option<Node>, p: Word) {
    && t.Shaped() && t.Blocks() <= s
    && (other.Some? ==> other.value.Shaped() && other.value.Blocks() <= s && Below(other.value, p))
    && (t.Leaf? && p < t.addr ==> other == None)
    && (forall b :: Nearest(s, p, b) ==> Pending(t, other, p, b))
  }

  /** Going right, with the left child remembered. */
  lemma GoRight(s: set<Block>, t: Node, other: Option<Node>, p: Word)
    requires Descent(s, t, other, p) && t.Inner? && t.right.UpTo(p)
    ensures Descent(s, t.right, Some(t.left), p)
  {
    RightUpTo(t, p);
    if t.right.Leaf? { LeafUpTo(t.right, p); }
    forall b | Nearest(s, p, b) ensures Pending(t.right, Some(t.left), p, b) {
      assert exists c :: c in t.left.Blocks();
      if b in t.left.Blocks() {
        forall c | c in t.right.Blocks() ensures p < c.base { Ordered(t, b, c); }
      }
    }
  }

  /** Going left, with the same other choice. */
  lemma GoLeft(s: set<Block>, t: Node, other: Option<Node>, p: Word)
    requires Descent(s, t, other, p) && t.Inner? && !t.right.UpTo(p) && t.left.UpTo(p)
    ensures Descent(s, t.left, other, p)
  {
    NotUpTo(t.right, p);
    if t.left.Leaf? { LeafUpTo(t.left, p); }
    forall b | Nearest(s, p, b) ensures Pending(t.left, other, p, b) {
      assert b in t.Blocks() ==> b in t.left.Blocks();
    }
  }

  /** Giving up a node: the answer is below the other choice, or there is none. */
  lemma GiveUp(s: set<Block>, t: Node, other: Option<Node>, p: Word)
    requires Descent(s, t, other, p) && t.Inner? && !t.right.UpTo(p) && !t.left.UpTo(p)
    ensures other == None ==> forall b :: !Nearest(s, p, b)
    ensures other.Some? ==> Descent(s, other.value, None, p)
  {
    NotUpTo(t.right, p);
    NotUpTo(t.left, p);
    assert Above(t, p);
    if other.Some? && other.value.Leaf? {
      assert other.value.block in other.value.Blocks();
    }
  }

  lemma AtLeaf(root: Node, t: Node, other: Option<Node>, p: Word)
    requires root.Shaped() && Descent(root.Blocks(), t, other, p) && t.Leaf?
    ensures t.addr == t.block.base
    ensures t.addr <= p ==> Nearest(root.Blocks(), p, t.block)
    ensures forall b :: Nearest(root.Blocks(), p, b) ==> t.addr <= p && b == t.block
  {
    if t.addr <= p {
      assert t.block in root.Blocks();
      NearestExists(root, p);
    }
  }

  /** The answer of bt_find on a tree. */
  ghost predicate Answer(root: Node, p: Word, r: Option<Block>) {
    match r
    case Some(b) => Nearest(root.Blocks(), p, b) && Reaches(b, p)
    case None => forall b :: Nearest(root.Blocks(), p, b) ==> !Reaches(b, p)
  }

  /** `bt_find` on a tree: the nearest block if it reaches p, and nothing otherwise. */
  method FindBelow(root: Node, p: Word) returns (r: Option<Block>)
    requires root.Shaped()
    ensures Answer(root, p, r)
  {
    var t, other: Option<Node> := root, None;
    ghost var s := root.Blocks();
    while true
      invariant Descent(s, t, other, p)
      decreases t.Size() + if other.Some? then other.value.Size() else 0
    {
      if t.Leaf? {
        AtLeaf(root, t, other, p);
        return if t.addr > p then None else if Reaches(t.block, p) then Some(t.block) else None;
      }
      if t.right.UpTo(p) {
        GoRight(s, t, other, p);
        t, other := t.right, Some(t.left);
      } else if t.left.UpTo(p) {
        GoLeft(s, t, other, p);
        t := t.left;
      } else {
        GiveUp(s, t, other, p);
        if other == None { return None; }
        t, other := other.value, None;
      }
    }
  }

  /** In a tree of tracked blocks, only the nearest block can hold p. */
  lemma NearestHolds(root: Node, t: seq<Block>, size: nat, p: Word, b: Block)
    requires root.Shaped() && Tracked(t, size) && (forall c :: c in t <==> c in root.Blocks())
    requires b in t && b.Holds(p)
    ensures Nearest(root.Blocks(), p, b)
  {
    forall c | c in root.Blocks() && c.base <= p ensures c.base <= b.base {
      if b.base < c.base {
        var i :| 0 <= i < |t| && t[i] == b;
        var j :| 0 <= j < |t| && t[j] == c;
        assert b.Holds(c.base) && c.Holds(c.base);
      }
    }
  }

  /** A block up to the very last address. */
  predicate AtTheTop(r: Option<Block>) { r.Some? && r.value.End() == LIMIT }

  /** In a table of tracked blocks the answer is the block that holds p, unless that ends at 2^64. */
  lemma FindAgrees(root: Node, t: seq<Block>, p: Word, r: Option<Block>)
    requires root.Shaped() && Tracked(t, LIMIT) && forall c :: c in t <==> c in root.Blocks()
    requires Answer(root, p, r)
    ensures r == Guards.Find(t, p) || r == None
    ensures r != Guards.Find(t, p) <==> AtTheTop(Guards.Find(t, p))
  {
    match r
    case Some(b) =>
      assert b.Holds(p) && b.End() != LIMIT;
      FindIs(t, LIMIT, p, b);
    case None =>
      if Guards.Find(t, p).Some? {
        var b := Guards.Find(t, p).value;
        NearestHolds(root, t, LIMIT, p, b);
        assert b.End() == LIMIT;
      }
  }

  /** The block of the very last address is not found: its end wraps to 0. */
  lemma LastAddressMissed(b: Block)
    requires b == Block(ONE, 1, false)
    ensures Tracked([b], LIMIT) && Guards.Find([b], ONE) == Some(b)
    ensures Leaf(ONE, b).Shaped() && Answer(Leaf(ONE, b), ONE, None)
  {
    assert [b][0] == b;
    FindIs([b], LIMIT, ONE, b);
    assert !Reaches(b, ONE);
  }

  // ----- bt_lookup and bt_get_leaf_from_block -----

  /** The bit after the prefix tells in which child a block is. */
  lemma TheRightSide(t: Node, b: Block)
    requires t.Inner? && t.Shaped() && b in t.Blocks()
    ensures b.base < LIMIT && t.Matches(b.base)
    ensures b in t.right.Blocks() <==> t.right.Matches(b.base)
    ensures b in t.left.Blocks() <==> t.left.Matches(b.base)
    ensures b in t.left.Blocks() <==> b !in t.right.Blocks()
  {
    SharedPrefix(t, b, t.drop);
    PrefixOrder(t.addr, b.base, t.drop);
    var c, o := t.left, t.right;
    if b in t.right.Blocks() { c, o := t.right, t.left; }
    SharedPrefix(c, b, c.Bits());
    PrefixOrder(c.addr, b.base, c.Bits());
    SharedPrefix(c, b, t.drop - 1);
    PrefixOrder(o.addr, b.base, o.Bits());
    ShrMore(o.addr, b.base, o.Bits(), t.drop - 1);
    if b in o.Blocks() { SharedPrefix(o, b, t.drop - 1); }
  }

  /** The child with the prefix of p. */
  function Toward(t: Node, p: Word): Node
    requires t.Inner?
  {
    if t.right.Matches(p) then t.right else t.left
  }

  /** `bt_get_leaf_from_block`: the prefixes lead to the leaf, and one child always agrees. */
  method GetLeaf(root: Node, b: Block) returns (r: Node)
    requires root.Shaped() && b in root.Blocks()
    ensures b.base < LIMIT && r == Leaf(b.base, b)
  {
    var t := root;
    SharedPrefix(t, b, t.Bits());
    while t.Inner?
      invariant t.Shaped() && b in t.Blocks()
      decreases t
    {
      TheRightSide(t, b);
      if t.right.Matches(b.base) {
        t := t.right;
      } else {
        assert t.left.Matches(b.base);
        t := t.left;
      }
    }
    r := t;
  }

  /** `bt_lookup` on a tree. */
  method LookupBelow(root: Node, p: Word) returns (r: Option<Block>)
    requires root.Shaped()
    ensures r.Some? ==> r.value in root.Blocks() && r.value.base == p
    ensures r.None? ==> forall b :: b in root.Blocks() ==> b.base != p
  {
    var t := root;
    while t.Inner?
      invariant t.Shaped() && t.Blocks() <= root.Blocks()
      invariant forall b :: b in root.Blocks() && b.base == p ==> b in t.Blocks()
      decreases t
    {
      forall b | b in t.Blocks() && b.base == p
        ensures t.Matches(p) && (t.right.Matches(p) || t.left.Matches(p))
        ensures b in Toward(t, p).Blocks()
      {
        TheRightSide(t, b);
      }
      if !t.Matches(p) {
        return None;
      }
      if t.right.Matches(p) {
        t := t.right;
      } else if t.left.Matches(p) {
        t := t.left;
      } else {
        return None;
      }
    }
    r := if t.block.base != p then None else Some(t.block);
  }

  // ----- bt_insert -----

  /** The mask of an inner node, computed anew from its children. */
  function Refresh(t: Node): Node {
    if t.Leaf? then t else t.(drop := Common(t.left.Key(), t.right.Key()))
  }

  function WithDrop(t: Node, d: Dropped): Node
    requires t.Inner?
  {
    t.(drop := d)
  }

  /** A new parent for the sibling and a leaf for b. */
  function Join(top: bool, sibling: Node, b: Block): (r: Node)
    requires b.base < LIMIT
    ensures r.Inner?
  {
    var leaf := Leaf(b.base, b);
    var addr := And64(sibling.addr, leaf.addr);
    var below := leaf.addr <= sibling.addr;
    var drop :=
      if top then Common(sibling.Key(), b.base)
      else if below then Common(leaf.Key(), sibling.Key())
      else Common(sibling.Key(), leaf.Key());
    if below then Inner(addr, drop, leaf, Refresh(sibling))
    else Inner(addr, drop, Refresh(sibling), leaf)
  }

  /** Down to the most similar node, which gets the new leaf as its sibling. */
  function Inserted(top: bool, t: Node, b: Block): (r: Node)
    requires b.base < LIMIT
    ensures r.Inner?
  {
    if t.Leaf? then Join(top, t, b)
    else
      var l, r := Mask(Common(t.left.Key(), b.base)), Mask(Common(t.right.Key(), b.base));
      if l > r then t.(left := Inserted(false, t.left, b))
      else if r > l then t.(right := Inserted(false, t.right, b))
      else Join(top, t, b)
  }

  /** The masks in a tree are those computed from the children: recomputing one changes nothing. */
  lemma RefreshKeeps(t: Node)
    requires t.Shaped()
    ensures Refresh(t) == t
  {
    if t.Inner? {
      PrefixShr(t.left.addr, t.left.Bits(), t.drop);
      PrefixShr(t.left.addr, t.left.Bits(), t.drop - 1);
      PrefixShr(t.right.addr, t.right.Bits(), t.drop);
      PrefixShr(t.right.addr, t.right.Bits(), t.drop - 1);
      CommonIs(t.left.Key(), t.right.Key(), t.drop);
    }
  }

  /** An address that differs from a node in its prefix. */
  lemma CommonWithNode(t: Node, p: Word, d: nat)
    requires Shr(t.addr, t.Bits()) != Shr(p, t.Bits()) && d == Common(t.addr, p)
    ensures t.Bits() < d == Common(t.Key(), p) == Common(p, t.Key())
    ensures Shr(t.addr, d) == Shr(p, d) && Shr(t.addr, d - 1) != Shr(p, d - 1)
  {
    CommonExact(t.addr, p, t.Bits());
    CommonExact(t.addr, p, d);
    CommonExact(t.addr, p, d - 1);
    PrefixShr(t.addr, t.Bits(), d);
    PrefixShr(t.addr, t.Bits(), d - 1);
    CommonIs(t.Key(), p, d);
    CommonIs(p, t.Key(), d);
  }

  lemma LeafKey(p: Word)
    ensures Prefix(p, 0) == p
  {
    PrefixShr(p, 0, 0);
  }

  /** A sibling that differs from b in its prefix gets a well-shaped parent. */
  lemma JoinShaped(top: bool, t: Node, b: Block)
    requires b.base < LIMIT && t.Shaped() && Shr(t.addr, t.Bits()) != Shr(b.base, t.Bits())
    ensures Join(top, t, b).Shaped()
    ensures Join(top, t, b).Bits() == Common(t.addr, b.base)
    ensures Shr(Join(top, t, b).addr, Common(t.addr, b.base)) == Shr(t.addr, Common(t.addr, b.base))
  {
    var d := Common(t.addr, b.base);
    RefreshKeeps(t);
    CommonWithNode(t, b.base, d);
    LeafKey(b.base);
    AndShr(t.addr, b.base, d);
    FirstDifference(b.base, t.addr, d);
  }

  /**
   * The mask given to the new parent is necessary: with the parent's address and children as they
   * are, no other mask keeps the shape.
   */
  lemma JoinMaskExact(top: bool, t: Node, b: Block, d: Dropped)
    requires b.base < LIMIT && t.Shaped() && Shr(t.addr, t.Bits()) != Shr(b.base, t.Bits())
    ensures WithDrop(Join(top, t, b), d).Shaped() <==> d == Common(t.addr, b.base)
  {
    JoinShaped(top, t, b);
    var r := WithDrop(Join(top, t, b), d);
    if r.Shaped() {
      RefreshKeeps(r);
      RefreshKeeps(Join(top, t, b));
    }
  }

  /**
   * An address with the prefix of an inner node is more similar to the child on its side, and any
   * other address is as similar to one child as to the other.
   */
  lemma MostSimilar(t: Node, p: Word)
    requires t.Inner? && t.Shaped()
    ensures var l, r := Mask(Common(t.left.Key(), p)), Mask(Common(t.right.Key(), p));
            && (l > r <==> Shr(p, t.drop - 1) == 2 * Shr(t.addr, t.drop))
            && (r > l <==> Shr(p, t.drop - 1) == 2 * Shr(t.addr, t.drop) + 1)
  {
    PrefixShr(t.left.addr, t.left.Bits(), t.drop - 1);
    PrefixShr(t.right.addr, t.right.Bits(), t.drop - 1);
    SideOf(t.left.Key(), t.right.Key(), p, t.drop, Shr(t.addr, t.drop));
  }

  /** The child on the side of p, by the bit after the prefix of the node. */
  ghost predicate OnRight(t: Node, p: Word)
    requires t.Inner? && t.drop > 0
  {
    Shr(p, t.drop - 1) % 2 == 1
  }

  /** An insertion goes down on the side of the new address, as long as that has the prefix. */
  lemma WayDown(top: bool, t: Node, b: Block)
    requires b.base < LIMIT && t.Inner? && t.Shaped()
    ensures Shr(b.base, t.drop) != Shr(t.addr, t.drop) ==> Inserted(top, t, b) == Join(top, t, b)
    ensures Shr(b.base, t.drop) == Shr(t.addr, t.drop) && OnRight(t, b.base) ==>
              && Inserted(top, t, b) == t.(right := Inserted(false, t.right, b))
              && Shr(b.base, t.drop - 1) == Shr(t.right.addr, t.drop - 1)
    ensures Shr(b.base, t.drop) == Shr(t.addr, t.drop) && !OnRight(t, b.base) ==>
              && Inserted(top, t, b) == t.(left := Inserted(false, t.left, b))
              && Shr(b.base, t.drop - 1) == Shr(t.left.addr, t.drop - 1)
  {
    MostSimilar(t, b.base);
  }

  lemma ChildReplaced(t: Node, c: Node, onRight: bool)
    requires t.Inner? && t.Shaped() && c.Shaped() && c.Bits() < t.drop
    requires Shr(c.addr, t.drop - 1) == Shr((if onRight then t.right else t.left).addr, t.drop - 1)
    ensures var u := if onRight then t.(right := c) else t.(left := c);
            u.Shaped() && Refresh(u) == u
  {
    RefreshKeeps(if onRight then t.(right := c) else t.(left := c));
  }

  /** r may take the place of t as far as the address p goes. */
  ghost predicate InPlace(t: Node, r: Node, p: Word) {
    forall e :: t.Bits() <= e && Shr(p, e) == Shr(t.addr, e)
            ==> r.Bits() <= e && Shr(r.addr, e) == Shr(t.addr, e)
  }

  lemma JoinInPlace(top: bool, t: Node, b: Block)
    requires b.base < LIMIT && t.Shaped() && Shr(t.addr, t.Bits()) != Shr(b.base, t.Bits())
    ensures Join(top, t, b).Shaped() && InPlace(t, Join(top, t, b), b.base)
  {
    JoinShaped(top, t, b);
    var r := Join(top, t, b);
    forall e: nat | t.Bits() <= e && Shr(b.base, e) == Shr(t.addr, e)
      ensures r.Bits() <= e && Shr(r.addr, e) == Shr(t.addr, e)
    {
      CommonExact(t.addr, b.base, e);
      ShrMore(r.addr, t.addr, r.Bits(), e);
    }
  }

  /** A new base address keeps the shape. */
  lemma {:induction false} InsertShaped(top: bool, t: Node, b: Block)
    requires b.base < LIMIT && t.Shaped() && forall c :: c in t.Blocks() ==> c.base != b.base
    ensures Inserted(top, t, b).Shaped() && InPlace(t, Inserted(top, t, b), b.base)
    decreases t
  {
    if t.Inner? { WayDown(top, t, b); }
    if t.Inner? && Shr(b.base, t.drop) == Shr(t.addr, t.drop) {
      var child := if OnRight(t, b.base) then t.right else t.left;
      InsertShaped(false, child, b);
      ChildReplaced(t, Inserted(false, child, b), OnRight(t, b.base));
    } else {
      JoinInPlace(top, t, b);
    }
  }

  /** A base address that is already there breaks the shape: two equal leaves get a full mask. */
  lemma {:induction false} DuplicateMisshapen(top: bool, t: Node, b: Block, c: Block)
    requires t.Shaped() && c in t.Blocks() && c.base == b.base < LIMIT
    ensures !Inserted(top, t, b).Shaped()
    decreases t
  {
    if t.Leaf? {
      LeafKey(b.base);
      CommonExact(b.base, b.base, 0);
      assert Join(top, t, b).drop == 0;
    } else {
      WayDown(top, t, b);
      SharedPrefix(t, c, t.drop);
      var child := if c in t.left.Blocks() then t.left else t.right;
      SharedPrefix(child, c, t.drop - 1);
      DuplicateMisshapen(false, child, b, c);
    }
  }

  /** `bt_insert` keeps the shape exactly for a base address that is not there yet. */
  lemma InsertExact(t: Node, b: Block)
    requires b.base < LIMIT && t.Shaped()
    ensures Inserted(true, t, b).Shaped() <==> forall c :: c in t.Blocks() ==> c.base != b.base
  {
    if c :| c in t.Blocks() && c.base == b.base {
      DuplicateMisshapen(true, t, b, c);
    } else {
      InsertShaped(true, t, b);
    }
  }

  lemma JoinBlocks(top: bool, t: Node, b: Block)
    requires b.base < LIMIT
    ensures Join(top, t, b).Blocks() == t.Blocks() + {b}
  {
    assert Refresh(t).Blocks() == t.Blocks();
  }

  /** `bt_insert` adds exactly the one block. */
  lemma {:induction false} InsertBlocks(top: bool, t: Node, b: Block)
    requires b.base < LIMIT
    ensures Inserted(top, t, b).Blocks() == t.Blocks() + {b}
    decreases t
  {
    JoinBlocks(top, t, b);
    if t.Inner? {
      InsertBlocks(false, t.left, b);
      InsertBlocks(false, t.right, b);
    }
  }

  // ----- bt_remove -----

  /** The sibling of the removed leaf takes the place of their parent; the mask above is refreshed. */
  function Removed(t: Node, p: Word): Node
    requires t.Inner?
  {
    var c := Toward(t, p);
    if c.Leaf? then
      if t.right.Matches(p) then t.left else t.right
    else
      var u := if t.right.Matches(p) then t.(right := Removed(c, p)) else t.(left := Removed(c, p));
      if Toward(c, p).Leaf? then Refresh(u) else u
  }

  /** `bt_remove` keeps the shape and the prefix. */
  lemma {:induction false} RemoveShaped(t: Node, b: Block)
    requires t.Inner? && t.Shaped() && b in t.Blocks()
    ensures b.base < LIMIT && Removed(t, b.base).Shaped() && Removed(t, b.base).Bits() <= t.drop
    ensures Shr(Removed(t, b.base).addr, t.drop) == Shr(t.addr, t.drop)
    decreases t
  {
    TheRightSide(t, b);
    var c := Toward(t, b.base);
    if c.Inner? {
      RemoveShaped(c, b);
      var r := Removed(c, b.base);
      ShrMore(r.addr, c.addr, c.drop, t.drop - 1);
      ChildReplaced(t, r, t.right.Matches(b.base));
    }
  }

  /** The removal without the recomputation of a mask. */
  function Unlinked(t: Node, p: Word): Node
    requires t.Inner?
  {
    var c := Toward(t, p);
    if c.Leaf? then
      if t.right.Matches(p) then t.left else t.right
    else
      if t.right.Matches(p) then t.(right := Unlinked(c, p)) else t.(left := Unlinked(c, p))
  }

  /** The recomputation of a mask in `bt_remove` is not necessary. */
  lemma {:induction false} RemoveWithoutRefresh(t: Node, b: Block)
    requires t.Inner? && t.Shaped() && b in t.Blocks()
    ensures b.base < LIMIT && Removed(t, b.base) == Unlinked(t, b.base)
    decreases t
  {
    TheRightSide(t, b);
    var c := Toward(t, b.base);
    if c.Inner? {
      RemoveWithoutRefresh(c, b);
      RemoveShaped(c, b);
      var r := Removed(c, b.base);
      ShrMore(r.addr, c.addr, c.drop, t.drop - 1);
      ChildReplaced(t, r, t.right.Matches(b.base));
    }
  }

  /** `bt_remove` takes away exactly the one block. */
  lemma {:induction false} RemoveBlocks(t: Node, b: Block)
    requires t.Inner? && t.Shaped() && b in t.Blocks()
    ensures b.base < LIMIT && Removed(t, b.base).Blocks() == t.Blocks() - {b}
    decreases t
  {
    TheRightSide(t, b);
    var c := Toward(t, b.base);
    if c.Inner? {
      RemoveBlocks(c, b);
    } else {
      assert c.Blocks() == {b};
    }
  }

  /** Removing a block that was just inserted gives back the same tree, masks included. */
  lemma {:induction false} RemoveUndoesInsert(top: bool, t: Node, b: Block)
    requires b.base < LIMIT && t.Shaped() && forall c :: c in t.Blocks() ==> c.base != b.base
    ensures Removed(Inserted(top, t, b), b.base) == t
    decreases t
  {
    var r := Inserted(top, t, b);
    InsertShaped(top, t, b);
    InsertBlocks(top, t, b);
    TheRightSide(r, b);
    RefreshKeeps(t);
    if t.Inner? {
      var l, m := Mask(Common(t.left.Key(), b.base)), Mask(Common(t.right.Key(), b.base));
      if l > m {
        InsertBlocks(false, t.left, b);
        RemoveUndoesInsert(false, t.left, b);
      } else if m > l {
        InsertBlocks(false, t.right, b);
        RemoveUndoesInsert(false, t.right, b);
      }
    }
  }

  /** The tree with b in the leaf of its base address. */
  function Swapped(t: Node, b: Block): (r: Node)
    requires b.base < LIMIT
    ensures r.addr == t.addr && r.Bits() == t.Bits()
  {
    if t.Leaf? then Leaf(t.addr, b)
    else if t.right.Matches(b.base) then t.(right := Swapped(t.right, b))
    else t.(left := Swapped(t.left, b))
  }

  lemma {:induction false} SwappedShaped(t: Node, b: Block, c: Block)
    requires t.Shaped() && c in t.Blocks() && c.base == b.base < LIMIT
    ensures Swapped(t, b).Shaped()
    ensures b == c ==> Swapped(t, b) == t
    decreases t
  {
    if t.Inner? {
      TheRightSide(t, c);
      SwappedShaped(Toward(t, b.base), b, c);
    }
  }

  lemma {:induction false} SwappedBlocks(t: Node, b: Block, c: Block)
    requires t.Shaped() && c in t.Blocks() && c.base == b.base < LIMIT
    ensures Swapped(t, b).Blocks() == t.Blocks() - {c} + {b}
    decreases t
  {
    if t.Inner? {
      TheRightSide(t, c);
      SwappedBlocks(Toward(t, b.base), b, c);
    }
  }

  lemma TwinLeaves(top: bool, t: Node, b: Block)
    requires t.Leaf? && t.addr == b.base
    ensures Inserted(top, t, b) == Inner(b.base, 0, Leaf(b.base, b), t)
  {
    CommonExact(b.base, b.base, 0);
    LeafKey(b.base);
    AndSelf(b.base);
  }

  /** A base address that is there leads down to its leaf. */
  lemma TowardDuplicate(top: bool, t: Node, b: Block, c: Block)
    requires t.Inner? && t.Shaped() && c in t.Blocks() && c.base == b.base < LIMIT
    ensures c in Toward(t, b.base).Blocks()
    ensures var child := Inserted(false, Toward(t, b.base), b);
            Inserted(top, t, b) == if t.right.Matches(b.base) then t.(right := child) else t.(left := child)
  {
    TheRightSide(t, c);
    WayDown(top, t, b);
    SharedPrefix(t, c, t.drop);
    SharedPrefix(Toward(t, b.base), c, t.drop - 1);
    assert OnRight(t, b.base) <==> t.right.Matches(b.base);
  }

  /** With two blocks of the same base address, removing the new one takes away the old one. */
  lemma {:induction false} DuplicateRemoved(top: bool, t: Node, b: Block, c: Block)
    requires t.Shaped() && c in t.Blocks() && c.base == b.base < LIMIT
    ensures Inserted(top, t, b).Matches(b.base)
    ensures Removed(Inserted(top, t, b), b.base) == Swapped(t, b)
    decreases t
  {
    if t.Leaf? {
      TwinLeaves(top, t, b);
    } else {
      TheRightSide(t, c);
      TowardDuplicate(top, t, b, c);
      DuplicateRemoved(false, Toward(t, b.base), b, c);
      SwappedShaped(t, b, c);
      RefreshKeeps(Swapped(t, b));
    }
  }

  /** Removing undoes inserting exactly when no other block has the base address. */
  lemma RemoveUndoesExact(t: Node, b: Block)
    requires b.base < LIMIT && t.Shaped()
    ensures Removed(Inserted(true, t, b), b.base) == t
       <==> forall c :: c in t.Blocks() && c.base == b.base ==> c == b
  {
    if c :| c in t.Blocks() && c.base == b.base {
      DuplicateRemoved(true, t, b, c);
      SwappedShaped(t, b, c);
      SwappedBlocks(t, b, c);
      if Swapped(t, b) == t {
        forall a | a in t.Blocks() && a.base == b.base ensures a == b { DistinctBases(t, a, b); }
      }
    } else {
      RemoveUndoesInsert(true, t, b);
    }
  }

  // ----- The tree of the runtime -----

  class BlockTree {
    var root: Option<Node>

    ghost predicate Valid()
      reads this
    {
      root.Some? ==> root.value.Shaped()
    }

    ghost function Contents(): set<Block>
      reads this
    {
      if root.Some? then root.value.Blocks() else {}
    }

    constructor ()
      ensures Valid() && Contents() == {}
    {
      root := None;
    }

    /** `bt_insert` */
    method Insert(b: Block)
      requires Valid() && b.base < LIMIT
      modifies this
      ensures Contents() == old(Contents()) + {b}
      ensures Valid() <==> forall c :: c in old(Contents()) ==> c.base != b.base
      ensures root.Some?
      ensures root.value == if old(root).Some? then Inserted(true, old(root).value, b) else Leaf(b.base, b)
    {
      if root.Some? {
        InsertExact(root.value, b);
        InsertBlocks(true, root.value, b);
        root := Some(Inserted(true, root.value, b));
      } else {
        root := Some(Leaf(b.base, b));
      }
    }

    /** `bt_remove` */
    method Remove(b: Block)
      requires Valid() && b in Contents()
      modifies this
      ensures Valid() && Contents() == old(Contents()) - {b} && b.base < LIMIT
      ensures root == if old(root).value.Leaf? then None else Some(Removed(old(root).value, b.base))
    {
      var leaf := GetLeaf(root.value, b);
      if root.value == leaf {
        root := None;
      } else {
        RemoveShaped(root.value, b);
        RemoveBlocks(root.value, b);
        root := Some(Removed(root.value, b.base));
      }
    }

    /** `bt_lookup` */
    method Lookup(p: Word) returns (r: Option<Block>)
      requires Valid() && root.Some?
      ensures r.Some? ==> r.value in Contents() && r.value.base == p
      ensures r.None? ==> forall b :: b in Contents() ==> b.base != p
    {
      r := LookupBelow(root.value, p);
    }

    /** `bt_find`: what a scan of the blocks finds, except in a block that ends at 2^64. */
    method Find(p: Word, ghost t: seq<Block>) returns (r: Option<Block>)
      requires Valid() && Tracked(t, LIMIT) && forall c :: c in t <==> c in Contents()
      ensures r == Guards.Find(t, p) || r == None
      ensures r != Guards.Find(t, p) <==> AtTheTop(Guards.Find(t, p))
    {
      if root == None || p == 0 {
        return None;
      }
      r := FindBelow(root.value, p);
      FindAgrees(root.value, t, p, r);
    }
  }
}

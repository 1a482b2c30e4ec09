/**
 * CIDR blocks over an address space of `bits` bits (32 for IPv4, 128 for IPv6),
 * and the collapse of a set of addresses into CIDR blocks that Python's
 * `ipaddress.collapse_addresses` documents: sorted, non-overlapping, aligned
 * blocks, each as large as possible, that together cover exactly the input.
 */
module Cidr {
  import opened Arith
  import opened Seqs

  /** A network `base/prefixLen`; `base` is the network address as a number. */
  datatype Block = Block(base: nat, prefixLen: nat)

  /** Number of addresses in a block. */
  function Size(b: Block, bits: nat): nat
    requires b.prefixLen <= bits
  {
    Pow2(bits - b.prefixLen)
  }

  /** A well-formed network: host bits of the base are zero and it lies in the address space. */
  predicate ValidBlock(b: Block, bits: nat)
  {
    b.prefixLen <= bits && b.base % Size(b, bits) == 0 && b.base + Size(b, bits) <= Pow2(bits)
  }

  predicate Covers(b: Block, bits: nat, a: nat)
  {
    b.prefixLen <= bits && b.base <= a < b.base + Size(b, bits)
  }

  /** Address `a` lies in one of the blocks of `r`. */
  predicate Covered(r: seq<Block>, bits: nat, a: nat)
  {
    exists i :: 0 <= i < |r| && Covers(r[i], bits, a)
  }

  /** Every address of [lo, lo + size) is in `s`. */
  predicate AllIn(s: set<nat>, lo: nat, size: nat)
  {
    forall a: nat | lo <= a < lo + size :: a in s
  }

  /** No address of [lo, lo + size) is in `s`. */
  predicate NoneIn(s: set<nat>, lo: nat, size: nat)
  {
    forall a | a in s :: !(lo <= a < lo + size)
  }

  /** The addresses of `s` in [lo, lo + size). */
  function Within(s: set<nat>, lo: nat, size: nat): set<nat>
  {
    set a | a in s && lo <= a < lo + size
  }

  /** The aligned block of twice the size that contains `b`. */
  function Parent(b: Block, bits: nat): Block
    requires 0 < b.prefixLen <= bits
  {
    Block(RoundDown(b.base, Pow2(bits - b.prefixLen + 1)), b.prefixLen - 1)
  }

  /** `b` cannot be merged with its sibling: its parent block is not wholly inside `s`. */
  predicate Maximal(s: set<nat>, b: Block, bits: nat)
    requires b.prefixLen <= bits
  {
    b.prefixLen == 0 || (var p := Parent(b, bits); !AllIn(s, p.base, Size(p, bits)))
  }

  /** Blocks in strictly ascending order, each ending before the next begins. */
  predicate Ordered(r: seq<Block>, bits: nat)
  {
    forall i, j | 0 <= i < j < |r| :: r[i].prefixLen <= bits && r[i].base + Size(r[i], bits) <= r[j].base
  }

  /** The node [base, base + 2^level) of the binary trie over the address space. */
  predicate Node(bits: nat, base: nat, level: nat)
  {
    level <= bits && base % Pow2(level) == 0 && base + Pow2(level) <= Pow2(bits)
  }

  /**
   * Collapse of the addresses of `s` inside one trie node: the node itself when
   * it is full, nothing when it holds no address, else the collapse of its two halves.
   */
  function Tree(s: set<nat>, bits: nat, base: nat, level: nat): seq<Block>
    requires level <= bits
    decreases level
  {
    if AllIn(s, base, Pow2(level)) then [Block(base, bits - level)]
    else if level == 0 || NoneIn(s, base, Pow2(level)) then []
    else Tree(s, bits, base, level - 1) + Tree(s, bits, base + Pow2(level - 1), level - 1)
  }

  lemma CoveredConcat(r1: seq<Block>, r2: seq<Block>, bits: nat, a: nat)
    ensures Covered(r1 + r2, bits, a) <==> Covered(r1, bits, a) || Covered(r2, bits, a)
  {
    var r := r1 + r2;
    if Covered(r, bits, a) {
      var i :| 0 <= i < |r| && Covers(r[i], bits, a);
      if i < |r1| {
        assert r1[i] == r[i];
      } else {
        assert r2[i - |r1|] == r[i];
      }
    }
    if Covered(r1, bits, a) {
      var i :| 0 <= i < |r1| && Covers(r1[i], bits, a);
      assert r[i] == r1[i];
    }
    if Covered(r2, bits, a) {
      var i :| 0 <= i < |r2| && Covers(r2[i], bits, a);
      assert r[|r1| + i] == r2[i];
    }
  }

  /** Every block of `r` is valid and lies inside [lo, lo + size), with at most `level` host bits. */
  predicate InsideNode(r: seq<Block>, bits: nat, lo: nat, size: nat, level: nat)
  {
    forall i | 0 <= i < |r| ::
      && ValidBlock(r[i], bits)
      && bits - r[i].prefixLen <= level
      && lo <= r[i].base
      && r[i].base + Size(r[i], bits) <= lo + size
  }

  /** Blocks of the left half followed by blocks of the right half stay inside the node and ordered. */
  lemma ShapeConcat(r1: seq<Block>, r2: seq<Block>, bits: nat, base: nat, h: nat, level: nat)
    requires level > 0
    requires InsideNode(r1, bits, base, h, level - 1) && Ordered(r1, bits)
    requires InsideNode(r2, bits, base + h, h, level - 1) && Ordered(r2, bits)
    ensures InsideNode(r1 + r2, bits, base, h + h, level) && Ordered(r1 + r2, bits)
  {
    var r := r1 + r2;
    forall i | 0 <= i < |r|
      ensures ValidBlock(r[i], bits) && bits - r[i].prefixLen <= level
      ensures base <= r[i].base && r[i].base + Size(r[i], bits) <= base + h + h
    {
      if i < |r1| { assert r[i] == r1[i]; } else { assert r[i] == r2[i - |r1|]; }
    }
    forall i, j | 0 <= i < j < |r|
      ensures r[i].prefixLen <= bits && r[i].base + Size(r[i], bits) <= r[j].base
    {
      if j < |r1| {
        assert r[i] == r1[i] && r[j] == r1[j];
      } else if i >= |r1| {
        assert r[i] == r2[i - |r1|] && r[j] == r2[j - |r1|];
      } else {
        assert r[i] == r1[i] && r[j] == r2[j - |r1|];
      }
    }
  }

  /** A trie node, as a single block, is valid and fills the node. */
  lemma NodeShape(bits: nat, base: nat, level: nat)
    requires Node(bits, base, level)
    ensures var r := [Block(base, bits - level)];
      Ordered(r, bits) && InsideNode(r, bits, base, Pow2(level), level)
  {
    var b := Block(base, bits - level);
    assert Size(b, bits) == Pow2(level);
    assert ValidBlock(b, bits);
  }

  /** The blocks of `r` are ordered and lie inside the trie node [base, base + 2^level). */
  predicate Shaped(r: seq<Block>, bits: nat, base: nat, level: nat)
  {
    Ordered(r, bits) && InsideNode(r, bits, base, Pow2(level), level)
  }

  /** Both halves of a trie node are trie nodes one level down. */
  lemma HalfNodes(bits: nat, base: nat, level: nat)
    requires Node(bits, base, level) && level > 0
    ensures Node(bits, base, level - 1) && Node(bits, base + Pow2(level - 1), level - 1)
    ensures Pow2(level) == Pow2(level - 1) + Pow2(level - 1)
  {
    Halves(base, level);
  }

  /** A node that is neither full nor empty is shaped when both its halves are. */
  lemma ShapeStep(s: set<nat>, bits: nat, base: nat, level: nat)
    requires Node(bits, base, level) && level > 0
    requires !AllIn(s, base, Pow2(level)) && !NoneIn(s, base, Pow2(level))
    requires Shaped(Tree(s, bits, base, level - 1), bits, base, level - 1)
    requires Shaped(Tree(s, bits, base + Pow2(level - 1), level - 1), bits, base + Pow2(level - 1), level - 1)
    ensures Shaped(Tree(s, bits, base, level), bits, base, level)
  {
    var h := Pow2(level - 1);
    HalfNodes(bits, base, level);
    ShapeConcat(Tree(s, bits, base, level - 1), Tree(s, bits, base + h, level - 1), bits, base, h, level);
  }

  /** Every block of a node's collapse is valid, lies inside the node, and the blocks are ordered. */
  lemma {:induction false} TreeShape(s: set<nat>, bits: nat, base: nat, level: nat)
    requires Node(bits, base, level)
    decreases level
    ensures Shaped(Tree(s, bits, base, level), bits, base, level)
  {
    if AllIn(s, base, Pow2(level)) {
      NodeShape(bits, base, level);
    } else if level == 0 || NoneIn(s, base, Pow2(level)) {
    } else {
      HalfNodes(bits, base, level);
      TreeShape(s, bits, base, level - 1);
      TreeShape(s, bits, base + Pow2(level - 1), level - 1);
      ShapeStep(s, bits, base, level);
    }
  }

  /** A node's collapse covers exactly the addresses of `s` inside the node. */
  lemma {:induction false} TreeCovers(s: set<nat>, bits: nat, base: nat, level: nat, a: nat)
    requires Node(bits, base, level)
    decreases level
    ensures Covered(Tree(s, bits, base, level), bits, a) <==> a in s && base <= a < base + Pow2(level)
  {
    var r := Tree(s, bits, base, level);
    if AllIn(s, base, Pow2(level)) {
      assert Size(r[0], bits) == Pow2(level);
      if base <= a < base + Pow2(level) {
        assert Covers(r[0], bits, a);
      }
    } else if level == 0 || NoneIn(s, base, Pow2(level)) {
      assert !Covered(r, bits, a);
      assert level == 0 ==> base !in s;
    } else {
      var h := Pow2(level - 1);
      Halves(base, level);
      TreeCovers(s, bits, base, level - 1, a);
      TreeCovers(s, bits, base + h, level - 1, a);
      CoveredConcat(Tree(s, bits, base, level - 1), Tree(s, bits, base + h, level - 1), bits, a);
    }
  }

  /** Both halves of a trie node have the node as their parent. */
  lemma ParentOfHalves(bits: nat, base: nat, level: nat)
    requires Node(bits, base, level) && level > 0
    ensures Parent(Block(base, bits - level + 1), bits) == Block(base, bits - level)
    ensures Parent(Block(base + Pow2(level - 1), bits - level + 1), bits) == Block(base, bits - level)
  {
    RoundHalves(base, level);
    assert bits - (bits - level + 1) + 1 == level;
  }

  /** A half of a trie node that is not wholly inside `s` cannot merge into a larger block. */
  lemma HalfMaximal(s: set<nat>, bits: nat, base: nat, level: nat, b: Block)
    requires Node(bits, base, level) && level > 0 && !AllIn(s, base, Pow2(level))
    requires b == Block(base, bits - level + 1) || b == Block(base + Pow2(level - 1), bits - level + 1)
    ensures 0 < b.prefixLen <= bits && Maximal(s, b, bits)
  {
    ParentOfHalves(bits, base, level);
    assert Size(Block(base, bits - level), bits) == Pow2(level);
  }

  /** The blocks of `r` below host level `level` cannot merge into their parents. */
  predicate MaximalBelow(s: set<nat>, r: seq<Block>, bits: nat, level: nat)
  {
    forall i | 0 <= i < |r| :: r[i].prefixLen <= bits &&
      (bits - r[i].prefixLen < level ==> 0 < r[i].prefixLen && Maximal(s, r[i], bits))
  }

  /** No block of a node's collapse, other than the node itself, could merge into its parent. */
  lemma {:induction false} TreeMaximal(s: set<nat>, bits: nat, base: nat, level: nat)
    requires Node(bits, base, level)
    decreases level, 1
    ensures MaximalBelow(s, Tree(s, bits, base, level), bits, level)
  {
    if AllIn(s, base, Pow2(level)) {
    } else if level == 0 || NoneIn(s, base, Pow2(level)) {
    } else {
      HalfTreeMaximal(s, bits, base, level, base);
      HalfTreeMaximal(s, bits, base, level, base + Pow2(level - 1));
      MaximalStep(s, bits, base, level);
    }
  }

  /** A node that is neither full nor empty keeps `MaximalBelow` when both its halves do. */
  lemma MaximalStep(s: set<nat>, bits: nat, base: nat, level: nat)
    requires Node(bits, base, level) && level > 0
    requires !AllIn(s, base, Pow2(level)) && !NoneIn(s, base, Pow2(level))
    requires MaximalBelow(s, Tree(s, bits, base, level - 1), bits, level)
    requires MaximalBelow(s, Tree(s, bits, base + Pow2(level - 1), level - 1), bits, level)
    ensures MaximalBelow(s, Tree(s, bits, base, level), bits, level)
  {
    var h := Pow2(level - 1);
    MaximalBelowConcat(s, Tree(s, bits, base, level - 1), Tree(s, bits, base + h, level - 1), bits, level);
  }

  /** The collapse of either half of a node that is not full keeps `MaximalBelow` one level up. */
  lemma {:induction false} HalfTreeMaximal(s: set<nat>, bits: nat, base: nat, level: nat, half: nat)
    requires Node(bits, base, level) && level > 0 && !AllIn(s, base, Pow2(level))
    requires half == base || half == base + Pow2(level - 1)
    decreases level, 0
    ensures MaximalBelow(s, Tree(s, bits, half, level - 1), bits, level)
  {
    var h := Pow2(level - 1);
    Halves(base, level);
    TreeMaximal(s, bits, half, level - 1);
    TreeShape(s, bits, half, level - 1);
    var r := Tree(s, bits, half, level - 1);
    forall i | 0 <= i < |r| && bits - r[i].prefixLen == level - 1
      ensures Maximal(s, r[i], bits)
    {
      var b := r[i];
      assert Size(b, bits) == h;
      assert b == Block(half, bits - level + 1);
      HalfMaximal(s, bits, base, level, b);
    }
  }

  lemma MaximalBelowConcat(s: set<nat>, r1: seq<Block>, r2: seq<Block>, bits: nat, level: nat)
    requires MaximalBelow(s, r1, bits, level) && MaximalBelow(s, r2, bits, level)
    ensures MaximalBelow(s, r1 + r2, bits, level)
  {
    var r := r1 + r2;
    forall i | 0 <= i < |r|
      ensures r[i].prefixLen <= bits &&
        (bits - r[i].prefixLen < level ==> 0 < r[i].prefixLen && Maximal(s, r[i], bits))
    {
      if i < |r1| { assert r[i] == r1[i]; } else { assert r[i] == r2[i - |r1|]; }
    }
  }

  /** A node's collapse has no more blocks than `s` has addresses in the node. */
  lemma {:induction false} TreeCount(s: set<nat>, bits: nat, base: nat, level: nat)
    requires Node(bits, base, level)
    decreases level
    ensures |Tree(s, bits, base, level)| <= |Within(s, base, Pow2(level))|
  {
    if AllIn(s, base, Pow2(level)) {
      assert base in Within(s, base, Pow2(level));
    } else if level == 0 || NoneIn(s, base, Pow2(level)) {
    } else {
      var h := Pow2(level - 1);
      Halves(base, level);
      TreeCount(s, bits, base, level - 1);
      TreeCount(s, bits, base + h, level - 1);
      var w, wl, wr := Within(s, base, Pow2(level)), Within(s, base, h), Within(s, base + h, h);
      assert w == wl + wr;
      assert wl * wr == {};
    }
  }

  /**
   * What `ipaddress.collapse_addresses` promises of its result `r` for the
   * addresses `s`: well-formed blocks that none can be merged into a larger
   * one, in ascending order, covering exactly the addresses of `s`.
   */
  ghost predicate IsCollapse(s: set<nat>, bits: nat, r: seq<Block>)
  {
    && (forall i | 0 <= i < |r| :: ValidBlock(r[i], bits) && Maximal(s, r[i], bits))
    && Ordered(r, bits)
    && (forall a: nat :: Covered(r, bits, a) <==> a in s)
  }

  /**
   * The collapse of a set of addresses of a `bits`-bit address space, as
   * `ipaddress.collapse_addresses` documents it: well-formed blocks in
   * ascending order, covering exactly the addresses of `s`, none of which can
   * be merged into a larger block, and no more blocks than addresses.
   */
  function Collapse(s: set<nat>, bits: nat): (r: seq<Block>)
    requires forall a | a in s :: a < Pow2(bits)
    ensures IsCollapse(s, bits, r)
    ensures |r| <= |s|
  {
    TreeShape(s, bits, 0, bits);
    TreeMaximal(s, bits, 0, bits);
    assert MaximalBelow(s, Tree(s, bits, 0, bits), bits, bits);
    TreeCount(s, bits, 0, bits);
    assert Within(s, 0, Pow2(bits)) == s;
    forall a: nat ensures Covered(Tree(s, bits, 0, bits), bits, a) <==> a in s {
      TreeCovers(s, bits, 0, bits, a);
    }
    Tree(s, bits, 0, bits)
  }

  /** The addresses the blocks of `r` cover. */
  function Expand(r: seq<Block>, bits: nat): set<nat>
  {
    set a: nat | a < Pow2(bits) && Covered(r, bits, a)
  }

  /** Expanding a collapse gives back its input, and collapsing that again changes nothing. */
  lemma CollapseRoundTrip(s: set<nat>, bits: nat)
    requires forall a | a in s :: a < Pow2(bits)
    ensures Expand(Collapse(s, bits), bits) == s
    ensures Collapse(Expand(Collapse(s, bits), bits), bits) == Collapse(s, bits)
  {
    assert Expand(Collapse(s, bits), bits) == s;
  }

  /** Two valid blocks that share an address are nested: the smaller lies inside the larger. */
  lemma BlocksNest(b: Block, c: Block, bits: nat, a: nat)
    requires ValidBlock(b, bits) && ValidBlock(c, bits) && c.prefixLen <= b.prefixLen
    requires Covers(b, bits, a) && Covers(c, bits, a)
    ensures c.base <= b.base && b.base + Size(b, bits) <= c.base + Size(c, bits)
  {
    Nested(b.base, bits - b.prefixLen, c.base, bits - c.prefixLen, a);
  }

  /** The parent of a valid block is a valid block that contains it. */
  lemma ParentContains(c: Block, bits: nat)
    requires ValidBlock(c, bits) && 0 < c.prefixLen
    ensures var p := Parent(c, bits);
      && ValidBlock(p, bits)
      && p.base <= c.base && c.base + Size(c, bits) <= p.base + Size(p, bits)
  {
    var p := Parent(c, bits);
    assert Size(p, bits) == Pow2(bits - c.prefixLen + 1);
    assert Covers(p, bits, c.base);
    var whole := Block(0, 0);
    assert ValidBlock(whole, bits) && Covers(whole, bits, c.base);
    Nested(p.base, bits - p.prefixLen, 0, bits, c.base);
    assert ValidBlock(p, bits);
    BlocksNest(c, p, bits, c.base);
  }

  /** A valid block inside `s` that cannot be merged into its parent. */
  predicate MaximalFull(s: set<nat>, b: Block, bits: nat)
  {
    ValidBlock(b, bits) && AllIn(s, b.base, Size(b, bits)) && Maximal(s, b, bits)
  }

  /** A block inside a valid block that lies wholly in `s` lies wholly in `s`. */
  lemma FullInside(s: set<nat>, outer: Block, inner: Block, bits: nat, a: nat)
    requires ValidBlock(outer, bits) && ValidBlock(inner, bits) && outer.prefixLen <= inner.prefixLen
    requires Covers(outer, bits, a) && Covers(inner, bits, a)
    requires AllIn(s, outer.base, Size(outer, bits))
    ensures AllIn(s, inner.base, Size(inner, bits))
  {
    BlocksNest(inner, outer, bits, a);
  }

  /**
   * A block that cannot merge into its parent is no smaller than any block
   * lying wholly in `s` that shares an address with it.
   */
  lemma FullNotFiner(s: set<nat>, x: Block, y: Block, bits: nat, a: nat)
    requires ValidBlock(x, bits) && ValidBlock(y, bits) && Covers(x, bits, a) && Covers(y, bits, a)
    requires Maximal(s, x, bits) && AllIn(s, y.base, Size(y, bits))
    ensures x.prefixLen <= y.prefixLen
  {
    if x.prefixLen > y.prefixLen {
      ParentContains(x, bits);
      FullInside(s, y, Parent(x, bits), bits, a);
      assert false;
    }
  }

  /** A result that meets the contract of a collapse holds exactly the maximal full blocks. */
  lemma CollapseBlocks(s: set<nat>, bits: nat, r: seq<Block>, b: Block)
    requires IsCollapse(s, bits, r)
    ensures b in r <==> MaximalFull(s, b, bits)
  {
    if b in r {
      var i :| 0 <= i < |r| && r[i] == b;
      forall a: nat | b.base <= a < b.base + Size(b, bits) ensures a in s {
        assert Covers(r[i], bits, a);
      }
    }
    if MaximalFull(s, b, bits) {
      assert b.base in s;
      var i :| 0 <= i < |r| && Covers(r[i], bits, b.base);
      var c := r[i];
      assert AllIn(s, c.base, Size(c, bits)) by {
        forall a: nat | c.base <= a < c.base + Size(c, bits) ensures a in s {
          assert Covers(r[i], bits, a);
        }
      }
      FullNotFiner(s, c, b, bits, b.base);
      FullNotFiner(s, b, c, bits, b.base);
      BlocksNest(b, c, bits, b.base);
      BlocksNest(c, b, bits, b.base);
      assert b == c;
    }
  }

  lemma OrderedTail(r: seq<Block>, bits: nat)
    requires Ordered(r, bits) && r != []
    ensures Ordered(r[1..], bits)
  {
    var t := r[1..];
    assert |t| == |r| - 1;
    forall i, j | 0 <= i < j < |t|
      ensures t[i].prefixLen <= bits && t[i].base + Size(t[i], bits) <= t[j].base
    {
      assert t[i] == r[i + 1] && t[j] == r[j + 1];
    }
  }

  /** In an ordered sequence the bases strictly increase. */
  lemma OrderedBases(r: seq<Block>, bits: nat)
    requires Ordered(r, bits)
    ensures forall i, j | 0 <= i < j < |r| :: r[i].base < r[j].base
  {
  }

  /** Two ordered, non-empty block sequences with the same members start with the same block. */
  lemma OrderedHead(r1: seq<Block>, r2: seq<Block>, bits: nat)
    requires Ordered(r1, bits) && Ordered(r2, bits) && r1 != [] && r2 != []
    requires forall b :: b in r1 <==> b in r2
    ensures r1[0] == r2[0]
  {
    OrderedBases(r1, bits);
    OrderedBases(r2, bits);
    assert r1[0] in r2 && r2[0] in r1;
    var k :| 0 <= k < |r2| && r2[k] == r1[0];
    var m :| 0 <= m < |r1| && r1[m] == r2[0];
    assert r1[0].base <= r1[m].base;
    assert r2[k].base <= r2[0].base;
    assert k == 0;
  }

  /** Dropping the first block of an ordered sequence removes exactly that block. */
  lemma OrderedRest(r: seq<Block>, bits: nat, b: Block)
    requires Ordered(r, bits) && r != []
    ensures b in r[1..] <==> b in r && b != r[0]
  {
    OrderedBases(r, bits);
    assert r == [r[0]] + r[1..];
    if b in r[1..] {
      var i :| 0 <= i < |r| - 1 && r[1..][i] == b;
      assert b == r[i + 1];
    }
  }

  /** Two ordered block sequences with the same members are equal. */
  lemma {:induction false} OrderedUnique(r1: seq<Block>, r2: seq<Block>, bits: nat)
    requires Ordered(r1, bits) && Ordered(r2, bits)
    requires forall b :: b in r1 <==> b in r2
    decreases |r1|
    ensures r1 == r2
  {
    HeadIn(r1);
    HeadIn(r2);
    if r1 != [] {
      OrderedHead(r1, r2, bits);
      forall b ensures b in r1[1..] <==> b in r2[1..] {
        OrderedRest(r1, bits, b);
        OrderedRest(r2, bits, b);
      }
      OrderedTail(r1, bits);
      OrderedTail(r2, bits);
      OrderedUnique(r1[1..], r2[1..], bits);
      assert r1 == [r1[0]] + r1[1..] && r2 == [r2[0]] + r2[1..];
    }
  }

  /**
   * The contract of a collapse determines its result: any block sequence that
   * meets it is the collapse computed here.
   */
  lemma CollapseUnique(s: set<nat>, bits: nat, r: seq<Block>)
    requires forall a | a in s :: a < Pow2(bits)
    requires IsCollapse(s, bits, r)
    ensures r == Collapse(s, bits)
  {
    var c := Collapse(s, bits);
    forall b ensures b in r <==> b in c {
      CollapseBlocks(s, bits, r, b);
      CollapseBlocks(s, bits, c, b);
    }
    OrderedUnique(r, c, bits);
  }
}

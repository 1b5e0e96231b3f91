/**
 * A worked example of the incremental search of src/lib.rs: the keys
 * `cat` (index 0), `car` (index 1) and `cats` (index 2), searched with no
 * lookalikes. It shows the pre-order in which candidates are reported and
 * the sticky rule for a character that leads nowhere.
 */
module SearchExample {
  import opened Wrappers
  import opened SearchTree
  import opened Searching

  /** The node of `cats`. */
  const CatsNode: Tree := Tree([], Some(2))
  /** The node of `cat`, with `s` below it. */
  const CatNode: Tree := Tree([('s', CatsNode)], Some(0))
  /** The node of `car`. */
  const CarNode: Tree := Tree([], Some(1))
  /** The node of `ca`, with `r` before `t`. */
  const CaNode: Tree := Tree([('r', CarNode), ('t', CatNode)], None)
  /** The node of `c`. */
  const CNode: Tree := Tree([('a', CaNode)], None)
  /** The root. */
  const Root: Tree := Tree([('c', CNode)], None)

  /** The pairs the trie is built from, in the order they are pushed. */
  const Pairs: seq<(nat, string)> := [(0, "cat"), (1, "car"), (2, "cats")]

  /** The lookalike policy that offers nothing beyond the typed character. */
  function NoLookalikes(c: char): (r: seq<char>)
    ensures r == []
  {
    []
  }

  /** Pushing below a node without children adds one child. */
  lemma PushIntoLeaf(end: Option<nat>, ch: char, rest: string, index: nat)
    ensures Push(Tree([], end), [ch] + rest, index) == Tree([(ch, Push(Empty, rest, index))], end)
  {
    assert ([ch] + rest)[0] == ch && ([ch] + rest)[1..] == rest;
  }

  /** Pushing through the only child of a node. */
  lemma PushIntoOnly(ch: char, child: Tree, end: Option<nat>, rest: string, index: nat)
    ensures Push(Tree([(ch, child)], end), [ch] + rest, index) == Tree([(ch, Push(child, rest, index))], end)
  {
    assert ([ch] + rest)[0] == ch && ([ch] + rest)[1..] == rest;
  }

  /** Pushing a character below the only child inserts a new child before it. */
  lemma PushBefore(ch: char, child: Tree, end: Option<nat>, c: char, rest: string, index: nat)
    requires c < ch
    ensures Push(Tree([(ch, child)], end), [c] + rest, index) == Tree([(c, Push(Empty, rest, index)), (ch, child)], end)
  {
    assert ([c] + rest)[0] == c && ([c] + rest)[1..] == rest;
  }

  /** Pushing through the second of two children. */
  lemma PushIntoSecond(c1: char, n1: Tree, c2: char, n2: Tree, end: Option<nat>, rest: string, index: nat)
    requires c1 < c2
    ensures Push(Tree([(c1, n1), (c2, n2)], end), [c2] + rest, index) == Tree([(c1, n1), (c2, Push(n2, rest, index))], end)
  {
    assert ([c2] + rest)[0] == c2 && ([c2] + rest)[1..] == rest;
  }

  /** The tree after pushing `cat`. */
  const AfterCat: Tree := Tree([('c', Tree([('a', Tree([('t', Tree([], Some(0)))], None))], None))], None)
  /** The tree after pushing `cat` and `car`. */
  const AfterCar: Tree := Tree([('c', Tree([('a', Tree([('r', CarNode), ('t', Tree([], Some(0)))], None))], None))], None)

  /** Pushing `cat` into the empty tree makes a chain of three nodes. */
  lemma PushCat()
    ensures Push(Empty, "cat", 0) == AfterCat
  {
    assert "cat" == ['c'] + "at" && "at" == ['a'] + "t" && "t" == ['t'] + [];
    PushIntoLeaf(None, 'c', "at", 0);
    PushIntoLeaf(None, 'a', "t", 0);
    PushIntoLeaf(None, 't', [], 0);
  }

  /** Pushing `car` shares `c` and `a` and inserts `r` before `t`. */
  lemma PushCar()
    ensures Push(AfterCat, "car", 1) == AfterCar
  {
    assert "car" == ['c'] + "ar" && "ar" == ['a'] + "r" && "r" == ['r'] + [];
    PushIntoOnly('c', Tree([('a', Tree([('t', Tree([], Some(0)))], None))], None), None, "ar", 1);
    PushIntoOnly('a', Tree([('t', Tree([], Some(0)))], None), None, "r", 1);
    PushBefore('t', Tree([], Some(0)), None, 'r', [], 1);
  }

  /** Pushing `cats` adds `s` below the node of `cat`. */
  lemma PushCats()
    ensures Push(AfterCar, "cats", 2) == Root
  {
    assert "cats" == ['c'] + "ats" && "ats" == ['a'] + "ts" && "ts" == ['t'] + "s" && "s" == ['s'] + [];
    PushIntoOnly('c', Tree([('a', Tree([('r', CarNode), ('t', Tree([], Some(0)))], None))], None), None, "ats", 2);
    PushIntoOnly('a', Tree([('r', CarNode), ('t', Tree([], Some(0)))], None), None, "ts", 2);
    PushIntoSecond('r', CarNode, 't', Tree([], Some(0)), None, "s", 2);
    PushIntoLeaf(Some(0), 's', [], 2);
  }

  /** Building from the three pairs yields the tree spelled out above, with `car` placed before `cat`. */
  lemma BuiltTree()
    ensures FromPairs(Pairs) == Root
  {
    assert Pairs[..2][..1] == Pairs[..1] && Pairs[..1][..0] == [];
    assert FromPairs(Pairs[..1]) == AfterCat by { PushCat(); }
    assert FromPairs(Pairs[..2]) == AfterCar by { PushCar(); }
    assert Pairs[..3] == Pairs;
    PushCats();
  }

  /** A frontier of one node whose child under `c` exists moves to that child. */
  lemma StepTo(n: Tree, c: char, child: Tree)
    requires Get(n, c) == Some(child)
    ensures Step([n], c, NoLookalikes) == [child]
  {
    assert [n][1..] == [];
  }

  /** A frontier of one node without a child under `c` stays. */
  lemma StepStays(n: Tree, c: char)
    requires Get(n, c) == None
    ensures Step([n], c, NoLookalikes) == [n]
  {
    assert [n][1..] == [];
  }

  /** The indices below the `ca` node, in pre-order. */
  lemma CaTerminals()
    ensures Terminals(CatNode) == [0, 2]
    ensures FrontierTerminals([CaNode]) == [1, 0, 2]
  {
    assert Terminals(CatsNode) == [2];
    assert ChildTerminals(CatNode, 1) == [];
    assert ChildTerminals(CatNode, 0) == [2];
    assert Terminals(CarNode) == [1];
    assert ChildTerminals(CaNode, 2) == [];
    assert ChildTerminals(CaNode, 1) == [0, 2];
    assert Terminals(CaNode) == [1, 0, 2];
    assert [CaNode][1..] == [];
  }

  /** `ca` leads to the `ca` node alone, which reports `car`, `cat`, `cats` in that order. */
  lemma TypedCa()
    ensures Replay([Root], "ca", NoLookalikes) == [CaNode]
    ensures FrontierTerminals(Replay([Root], "ca", NoLookalikes)) == [1, 0, 2]
  {
    assert "ca" == [] + ['c'] + ['a'];
    assert Get(Root, 'c') == Some(CNode);
    assert Get(CNode, 'a') == Some(CaNode);
    ReplaySnoc([Root], [], 'c', NoLookalikes);
    StepTo(Root, 'c', CNode);
    ReplaySnoc([Root], "c", 'a', NoLookalikes);
    StepTo(CNode, 'a', CaNode);
    CaTerminals();
  }

  /** `cat` leads to the `cat` node, which reports `cat` and then `cats`. */
  lemma TypedCat()
    ensures Replay([Root], "cat", NoLookalikes) == [CatNode]
    ensures FrontierTerminals(Replay([Root], "cat", NoLookalikes)) == [0, 2]
  {
    assert "cat" == "ca" + ['t'];
    TypedCa();
    ReplaySnoc([Root], "ca", 't', NoLookalikes);
    assert Get(CaNode, 't') == Some(CatNode);
    StepTo(CaNode, 't', CatNode);
    CaTerminals();
    assert [CatNode][1..] == [];
  }

  /** `z` leads nowhere from `ca`, so `caz` keeps the frontier of `ca` (the sticky rule). */
  lemma TypedCaz()
    ensures Replay([Root], "caz", NoLookalikes) == Replay([Root], "ca", NoLookalikes)
  {
    assert "caz" == "ca" + ['z'];
    TypedCa();
    ReplaySnoc([Root], "ca", 'z', NoLookalikes);
    assert Get(CaNode, 'z') == None;
    StepStays(CaNode, 'z');
  }
}

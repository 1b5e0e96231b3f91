/**
 * The character-keyed trie of src/lib.rs (`SearchTree`): every node holds its
 * children as `(char, subtree)` pairs kept in ascending character order, and
 * optionally the index of the key that ends exactly at it.
 */
module SearchTree {
  import opened Wrappers
  import opened Keyed
  import opened Enumeration

  datatype Tree = Tree(nodes: seq<(char, Tree)>, end: Option<nat>)

  /** `SearchTree::default()`: no children, no key ends here. */
  const Empty: Tree := Tree([], None)

  /** Every node's children strictly ascend by character, all the way down. */
  ghost predicate WellFormed(t: Tree) {
    StrictlySorted(t.nodes) &&
    forall k | 0 <= k < |t.nodes| :: WellFormed(t.nodes[k].1)
  }

  /**
   * `get`: the child reached by exactly `c`. A node without children, or one
   * whose last child's character is below `c`, answers `None` without
   * searching; otherwise the answer is the child stored under `c`, if any.
   */
  function Get(t: Tree, c: char): (r: Option<Tree>)
    ensures t.nodes == [] || c > t.nodes[|t.nodes| - 1].0 ==> r == None
    ensures r.Some? ==> (c, r.value) in t.nodes
    ensures StrictlySorted(t.nodes) ==> r == Assoc(t.nodes, c)
  {
    if t.nodes == [] || c > t.nodes[|t.nodes| - 1].0 then
      assert StrictlySorted(t.nodes) ==> !HasKey(t.nodes, c) by {
        if StrictlySorted(t.nodes) && t.nodes != [] {
          forall k | 0 <= k < |t.nodes| ensures t.nodes[k].0 != c {
            assert k < |t.nodes| - 1 ==> t.nodes[k].0 < t.nodes[|t.nodes| - 1].0;
          }
        }
      }
      None
    else
      match BinarySearch(t.nodes, c)
      case Found(i) =>
        assert StrictlySorted(t.nodes) ==> Assoc(t.nodes, c) == Some(t.nodes[i].1) by {
          if StrictlySorted(t.nodes) { AssocAt(t.nodes, i); }
        }
        Some(t.nodes[i].1)
      case Missing(_) => None
  }

  /**
   * `push`: adds `key` with `index`. Each character is looked up by binary
   * search among the current node's children; a missing child is inserted at
   * the search's insertion point. The node the key ends at records `index`,
   * replacing whatever it held.
   */
  function Push(t: Tree, key: string, index: nat): (r: Tree)
    ensures key != [] ==> r.end == t.end
    ensures |t.nodes| <= |r.nodes| <= |t.nodes| + 1
    decreases |key|
  {
    if key == [] then Tree(t.nodes, Some(index))
    else
      var ch := key[0];
      match BinarySearch(t.nodes, ch)
      case Found(i) => Tree(Replaced(t.nodes, i, Push(t.nodes[i].1, key[1..], index)), t.end)
      case Missing(i) => Tree(Inserted(t.nodes, i, ch, Push(Empty, key[1..], index)), t.end)
  }

  /** The node reached from `t` by following `get` along every character of `key`. */
  function Find(t: Tree, key: string): (r: Option<Tree>)
    ensures WellFormed(t) && r.Some? ==> WellFormed(r.value)
    decreases |key|
  {
    if key == [] then Some(t)
    else
      match Get(t, key[0])
      case None => None
      case Some(child) => Find(child, key[1..])
  }

  /** The index stored for exactly `key`, if any. */
  function Lookup(t: Tree, key: string): Option<nat> {
    match Find(t, key)
    case None => None
    case Some(n) => n.end
  }

  /** The child that `push` descends into for `c`: the existing one, or a fresh empty node. */
  function ChildOrEmpty(t: Tree, c: char): Tree {
    match Get(t, c)
    case Some(child) => child
    case None => Empty
  }

  /** The children of a well-formed node are well formed, and so is the empty node. */
  lemma ChildWellFormed(t: Tree, c: char)
    requires WellFormed(t)
    ensures WellFormed(ChildOrEmpty(t, c))
  {
    if Get(t, c).Some? {
      var k :| 0 <= k < |t.nodes| && t.nodes[k] == (c, ChildOrEmpty(t, c));
    }
  }

  /** What `push` does to the children of a well-formed node, seen through `get`. */
  lemma PushChildren(t: Tree, key: string, index: nat)
    requires WellFormed(t)
    requires key != []
    ensures StrictlySorted(Push(t, key, index).nodes)
    ensures Push(t, key, index).end == t.end
    ensures Get(Push(t, key, index), key[0]) == Some(Push(ChildOrEmpty(t, key[0]), key[1..], index))
    ensures forall c :: c != key[0] ==> Get(Push(t, key, index), c) == Get(t, c)
    ensures forall k :: 0 <= k < |Push(t, key, index).nodes| ==>
              Push(t, key, index).nodes[k].1 == Push(ChildOrEmpty(t, key[0]), key[1..], index) ||
              Push(t, key, index).nodes[k] in t.nodes
  {
    var child := Push(ChildOrEmpty(t, key[0]), key[1..], index);
    match BinarySearch(t.nodes, key[0])
    case Found(i) =>
      AssocAt(t.nodes, i);
      assert Push(t, key, index) == Tree(Replaced(t.nodes, i, child), t.end);
      UpdatedChildren(t.nodes, t.end, i, child);
    case Missing(i) =>
      assert Push(t, key, index) == Tree(Inserted(t.nodes, i, key[0], child), t.end);
      InsertedChildren(t.nodes, t.end, i, key[0], child);
  }

  /** The children with the subtree at position `i` replaced. */
  function Replaced(nodes: seq<(char, Tree)>, i: nat, child: Tree): seq<(char, Tree)>
    requires i < |nodes|
  {
    nodes[i := (nodes[i].0, child)]
  }

  /** The children with `(ch, child)` inserted at position `i`. */
  function Inserted(nodes: seq<(char, Tree)>, i: nat, ch: char, child: Tree): seq<(char, Tree)>
    requires i <= |nodes|
  {
    nodes[..i] + [(ch, child)] + nodes[i..]
  }

  /** Replacing the child at a found position: order kept, only that key's lookup changes. */
  lemma UpdatedChildren(nodes: seq<(char, Tree)>, end: Option<nat>, i: nat, child: Tree)
    requires StrictlySorted(nodes)
    requires i < |nodes|
    ensures StrictlySorted(Replaced(nodes, i, child))
    ensures Get(Tree(Replaced(nodes, i, child), end), nodes[i].0) == Some(child)
    ensures forall c :: c != nodes[i].0 ==> Get(Tree(Replaced(nodes, i, child), end), c) == Get(Tree(nodes, end), c)
    ensures forall k :: 0 <= k < |nodes| ==> Replaced(nodes, i, child)[k].1 == child || Replaced(nodes, i, child)[k] in nodes
  {
    var n' := Replaced(nodes, i, child);
    assert StrictlySorted(n');
    AssocAt(n', i);
    forall c | c != nodes[i].0 ensures Get(Tree(n', end), c) == Get(Tree(nodes, end), c) {
      AssocUpdateOther(nodes, i, child, c);
    }
    forall k | 0 <= k < |n'| ensures n'[k].1 == child || n'[k] in nodes {
      if k != i { assert n'[k] == nodes[k]; }
    }
  }

  /** Inserting a child at the insertion point: order kept, only that key's lookup changes. */
  lemma InsertedChildren(nodes: seq<(char, Tree)>, end: Option<nat>, i: nat, ch: char, child: Tree)
    requires StrictlySorted(nodes)
    requires i <= |nodes|
    requires forall k :: 0 <= k < i ==> nodes[k].0 < ch
    requires forall k :: i <= k < |nodes| ==> ch < nodes[k].0
    ensures StrictlySorted(Inserted(nodes, i, ch, child))
    ensures Get(Tree(Inserted(nodes, i, ch, child), end), ch) == Some(child)
    ensures Get(Tree(nodes, end), ch) == None
    ensures forall c :: c != ch ==> Get(Tree(Inserted(nodes, i, ch, child), end), c) == Get(Tree(nodes, end), c)
    ensures forall k :: 0 <= k < |nodes| + 1 ==>
              Inserted(nodes, i, ch, child)[k].1 == child || Inserted(nodes, i, ch, child)[k] in nodes
  {
    var n' := Inserted(nodes, i, ch, child);
    InsertKeepsOrder(nodes, i, ch, child);
    assert n'[i] == (ch, child);
    AssocAt(n', i);
    assert !HasKey(nodes, ch) by {
      forall k | 0 <= k < |nodes| ensures nodes[k].0 != ch {
        if k < i { assert nodes[k].0 < ch; } else { assert ch < nodes[k].0; }
      }
    }
    forall c | c != ch ensures Get(Tree(n', end), c) == Get(Tree(nodes, end), c) {
      AssocInsertOther(nodes, i, ch, child, c);
    }
    forall k | 0 <= k < |n'| ensures n'[k].1 == child || n'[k] in nodes {
      if k < i { assert n'[k] == nodes[k]; }
      else if k > i { assert n'[k] == nodes[k - 1]; }
    }
  }

  /** `push` keeps every node's children strictly ascending. */
  lemma {:induction false} PushWellFormed(t: Tree, key: string, index: nat)
    requires WellFormed(t)
    ensures WellFormed(Push(t, key, index))
    decreases |key|
  {
    if key != [] {
      var child0 := ChildOrEmpty(t, key[0]);
      ChildWellFormed(t, key[0]);
      PushWellFormed(child0, key[1..], index);
      PushChildren(t, key, index);
      var t' := Push(t, key, index);
      forall k | 0 <= k < |t'.nodes| ensures WellFormed(t'.nodes[k].1) {
        if t'.nodes[k] in t.nodes {
          var j :| 0 <= j < |t.nodes| && t.nodes[j] == t'.nodes[k];
        }
      }
    }
  }

  lemma LookupEmpty(key: string)
    ensures Lookup(Empty, key) == None
  {
  }

  /**
   * After `push(key, index)`, walking `get` along `key` reaches a node whose
   * `end` is `index` (an empty key sets the root's own `end`); every other
   * key keeps the index it had. Re-pushing a key therefore overwrites it:
   * the last write wins.
   */
  lemma {:induction false} LookupAfterPush(t: Tree, key: string, index: nat, probe: string)
    requires WellFormed(t)
    ensures Lookup(Push(t, key, index), probe) == if probe == key then Some(index) else Lookup(t, probe)
    decreases |key|, 1
  {
    if key == [] {
      if probe != [] {
        assert Get(Push(t, key, index), probe[0]) == Get(t, probe[0]);
      }
    } else if probe != [] && probe[0] == key[0] {
      LookupAfterPushBelow(t, key, index, probe);
    } else {
      PushChildren(t, key, index);
    }
  }

  /** The case of `LookupAfterPush` where `probe` leaves the root by the same child as `key`. */
  lemma {:induction false} LookupAfterPushBelow(t: Tree, key: string, index: nat, probe: string)
    requires WellFormed(t) && key != [] && probe != [] && probe[0] == key[0]
    ensures Lookup(Push(t, key, index), probe) == if probe == key then Some(index) else Lookup(t, probe)
    decreases |key|, 0
  {
    var child0 := ChildOrEmpty(t, key[0]);
    LookupThroughPush(t, key, index, probe);
    LookupThroughChild(t, probe);
    ChildWellFormed(t, key[0]);
    LookupAfterPush(child0, key[1..], index, probe[1..]);
    assert probe == key <==> probe[1..] == key[1..] by {
      if probe[1..] == key[1..] { assert probe == [probe[0]] + probe[1..] && key == [key[0]] + key[1..]; }
    }
  }

  /** Looking up a key in the pushed tree continues in the pushed child. */
  lemma LookupThroughPush(t: Tree, key: string, index: nat, probe: string)
    requires WellFormed(t) && key != [] && probe != [] && probe[0] == key[0]
    ensures Lookup(Push(t, key, index), probe) == Lookup(Push(ChildOrEmpty(t, key[0]), key[1..], index), probe[1..])
  {
    PushChildren(t, key, index);
  }

  /** Looking up a non-empty key continues in the child under its first character, a missing child acting as the empty node. */
  lemma LookupThroughChild(t: Tree, probe: string)
    requires probe != []
    ensures Lookup(t, probe) == Lookup(ChildOrEmpty(t, probe[0]), probe[1..])
  {
    if Get(t, probe[0]).None? {
      LookupEmpty(probe[1..]);
    }
  }

  /** `from_iter`: the tree built by pushing every `(index, key)` pair, in order. */
  function FromPairs(pairs: seq<(nat, string)>): (r: Tree)
    ensures WellFormed(r)
  {
    if pairs == [] then Empty
    else
      var last := pairs[|pairs| - 1];
      PushWellFormed(FromPairs(pairs[..|pairs| - 1]), last.1, last.0);
      Push(FromPairs(pairs[..|pairs| - 1]), last.1, last.0)
  }

  /** The index paired with the last occurrence of `key` in `pairs`. */
  function LastIndexOf(pairs: seq<(nat, string)>, key: string): (r: Option<nat>)
    ensures r.None? ==> forall j :: 0 <= j < |pairs| ==> pairs[j].1 != key
    ensures r.Some? ==> exists j :: 0 <= j < |pairs| && pairs[j] == (r.value, key) &&
                          forall j' :: j < j' < |pairs| ==> pairs[j'].1 != key
  {
    if pairs == [] then None
    else
      var n := |pairs| - 1;
      if pairs[n].1 == key then Some(pairs[n].0)
      else
        var r := LastIndexOf(pairs[..n], key);
        assert forall j :: 0 <= j < n ==> pairs[..n][j] == pairs[j];
        r
  }

  /**
   * Building from pairs yields a well-formed trie in which every key maps to
   * the index of its last occurrence, and keys never given map to nothing.
   */
  lemma {:induction false} FromPairsLookup(pairs: seq<(nat, string)>, key: string)
    ensures WellFormed(FromPairs(pairs))
    ensures Lookup(FromPairs(pairs), key) == LastIndexOf(pairs, key)
  {
    if pairs != [] {
      var n := |pairs| - 1;
      FromPairsLookup(pairs[..n], key);
      PushWellFormed(FromPairs(pairs[..n]), pairs[n].1, pairs[n].0);
      LookupAfterPush(FromPairs(pairs[..n]), pairs[n].1, pairs[n].0, key);
    }
  }

  /** `FromIterator::from_iter`: starts from the empty tree and pushes each pair in turn. */
  method FromIter(pairs: seq<(nat, string)>) returns (t: Tree)
    ensures t == FromPairs(pairs)
    ensures WellFormed(t)
    ensures forall key :: Lookup(t, key) == LastIndexOf(pairs, key)
  {
    t := Empty;
    var n := 0;
    while n < |pairs|
      invariant n <= |pairs|
      invariant t == FromPairs(pairs[..n])
    {
      assert pairs[..n + 1][..n] == pairs[..n];
      t := Push(t, pairs[n].1, pairs[n].0);
      n := n + 1;
    }
    assert pairs[..n] == pairs;
    forall key ensures Lookup(t, key) == LastIndexOf(pairs, key) {
      FromPairsLookup(pairs, key);
    }
    FromPairsLookup(pairs, []);
  }

  /**
   * The indices reachable from `t`, in the order `for_each_base` visits them:
   * the node's own `end` first, then each child's subtree in ascending
   * character order (pre-order).
   */
  function Terminals(t: Tree): seq<nat>
    decreases t, 1, 0
  {
    ToSeq(t.end) + ChildTerminals(t, 0)
  }

  /** The indices under the children of `t` from the `k`-th on. */
  function ChildTerminals(t: Tree, k: nat): seq<nat>
    requires k <= |t.nodes|
    decreases t, 0, |t.nodes| - k
  {
    if k == |t.nodes| then [] else Terminals(t.nodes[k].1) + ChildTerminals(t, k + 1)
  }

  /**
   * `for_each_base`: hands the node's own `end` to `f`, then walks each child
   * in turn, returning the first error `f` produces.
   */
  function ForEachBase<E>(t: Tree, f: Visitor<E>, seen: seq<nat>): Walk<E>
    decreases t, 1, 0
  {
    match t.end
    case None => ForEachChild(t, 0, f, seen)
    case Some(e) =>
      match f(seen, e)
      case Fail(err) => Stopped([e], err)
      case Pass => After([e], ForEachChild(t, 0, f, seen + [e]))
  }

  /** `try_for_each` over the children of `t` from the `k`-th on. */
  function ForEachChild<E>(t: Tree, k: nat, f: Visitor<E>, seen: seq<nat>): Walk<E>
    requires k <= |t.nodes|
    decreases t, 0, |t.nodes| - k
  {
    if k == |t.nodes| then Done([])
    else
      var w := ForEachBase(t.nodes[k].1, f, seen);
      if w.Stopped? then w else After(w.calls, ForEachChild(t, k + 1, f, seen + w.calls))
  }

  /** The traversal is exactly a fail-fast enumeration of `Terminals(t)`. */
  lemma {:induction false} ForEachBaseEnumerates<E>(t: Tree, f: Visitor<E>, seen: seq<nat>)
    ensures ForEachBase(t, f, seen) == TryEach(Terminals(t), f, seen)
    decreases t, 1, 0
  {
    ForEachChildEnumerates(t, 0, f, seen);
    match t.end
    case None =>
      assert Terminals(t) == ChildTerminals(t, 0);
    case Some(e) =>
      var s := Terminals(t);
      assert s[0] == e && s[1..] == ChildTerminals(t, 0);
      ForEachChildEnumerates(t, 0, f, seen + [e]);
  }

  lemma {:induction false} ForEachChildEnumerates<E>(t: Tree, k: nat, f: Visitor<E>, seen: seq<nat>)
    requires k <= |t.nodes|
    ensures ForEachChild(t, k, f, seen) == TryEach(ChildTerminals(t, k), f, seen)
    decreases t, 0, |t.nodes| - k
  {
    if k < |t.nodes| {
      var child := t.nodes[k].1;
      ForEachBaseEnumerates(child, f, seen);
      TryEachAppend(Terminals(child), ChildTerminals(t, k + 1), f, seen);
      var w := ForEachBase(child, f, seen);
      if w.Done? {
        ForEachChildEnumerates(t, k + 1, f, seen + w.calls);
      }
    }
  }

  /**
   * `for_each`: every index reachable from `t` is handed to `f` in pre-order;
   * the first error stops the walk and is returned, and nothing after it is
   * visited.
   */
  function ForEach<E>(t: Tree, f: Visitor<E>): (r: Walk<E>)
    ensures r == TryEach(Terminals(t), f, [])
  {
    ForEachBaseEnumerates(t, f, []);
    ForEachBase(t, f, [])
  }

  /** The children's indices contain the indices under each child. */
  lemma {:induction false} ChildTerminalsContain(t: Tree, k: nat, j: nat, i: nat)
    requires k <= j < |t.nodes|
    requires i in Terminals(t.nodes[j].1)
    ensures i in ChildTerminals(t, k)
    decreases j - k
  {
    if k < j {
      ChildTerminalsContain(t, k + 1, j, i);
    }
  }

  /** Every index stored in the trie is among the indices it enumerates. */
  lemma {:induction false} LookupInTerminals(t: Tree, key: string, i: nat)
    requires Lookup(t, key) == Some(i)
    ensures i in Terminals(t)
    decreases |key|
  {
    if key == [] {
      assert Terminals(t)[0] == i;
    } else {
      var child := Get(t, key[0]).value;
      var j :| 0 <= j < |t.nodes| && t.nodes[j] == (key[0], child);
      LookupInTerminals(child, key[1..], i);
      ChildTerminalsContain(t, 0, j, i);
    }
  }

  /** Everything enumerated below the node `key` leads to is enumerated from `t` too. */
  lemma {:induction false} FindTerminalsWithin(t: Tree, key: string, n: Tree, i: nat)
    requires Find(t, key) == Some(n)
    requires i in Terminals(n)
    ensures i in Terminals(t)
    decreases |key|
  {
    if key != [] {
      var child := Get(t, key[0]).value;
      var j :| 0 <= j < |t.nodes| && t.nodes[j] == (key[0], child);
      FindTerminalsWithin(child, key[1..], n, i);
      ChildTerminalsContain(t, 0, j, i);
    }
  }
}

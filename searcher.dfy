/**
 * The incremental searcher of src/lib.rs (`Searcher`): the typed input, the
 * frontier of trie nodes still consistent with it (`considered`), and a
 * scratch buffer the next frontier is built in (`new`).
 */
module Searching {
  import opened Wrappers
  import opened Enumeration
  import opened SearchTree

  /** Children of the frontier nodes under exactly `c`, in frontier order. */
  function Exact(frontier: seq<Tree>, c: char): (r: seq<Tree>)
    ensures |r| <= |frontier|
  {
    if frontier == [] then [] else ToSeq(Get(frontier[0], c)) + Exact(frontier[1..], c)
  }

  /** Children of `n` under each of `cs`, in the order of `cs`. */
  function Via(n: Tree, cs: seq<char>): (r: seq<Tree>)
    ensures |r| <= |cs|
  {
    if cs == [] then [] else ToSeq(Get(n, cs[0])) + Via(n, cs[1..])
  }

  /** For each frontier node in order, its children under each of `cs`. */
  function Lookalike(frontier: seq<Tree>, cs: seq<char>): (r: seq<Tree>)
    ensures |r| <= |frontier| * |cs|
  {
    if frontier == [] then []
    else
      assert |frontier| * |cs| == |cs| + |frontier[1..]| * |cs|;
      Via(frontier[0], cs) + Lookalike(frontier[1..], cs)
  }

  /**
   * The list `compute_considerations` builds: first the exact-`c` children
   * of every frontier node, then each frontier node's children under the
   * lookalikes of `c`; duplicates are kept.
   */
  function Candidates(frontier: seq<Tree>, c: char, lookalikes: char -> seq<char>): seq<Tree> {
    Exact(frontier, c) + Lookalike(frontier, lookalikes(c))
  }

  /** `x` is the child of some frontier node under one of the characters `cs`. */
  ghost predicate ChildUnder(frontier: seq<Tree>, cs: seq<char>, x: Tree) {
    exists i, j :: 0 <= i < |frontier| && 0 <= j < |cs| && Get(frontier[i], cs[j]) == Some(x)
  }

  lemma {:induction false} ExactMembers(frontier: seq<Tree>, c: char, x: Tree)
    ensures x in Exact(frontier, c) <==> ChildUnder(frontier, [c], x)
  {
    if frontier != [] {
      ExactMembers(frontier[1..], c, x);
      if x in ToSeq(Get(frontier[0], c)) {
        assert Get(frontier[0], [c][0]) == Some(x);
      }
      if ChildUnder(frontier[1..], [c], x) {
        var i, j :| 0 <= i < |frontier[1..]| && 0 <= j < 1 && Get(frontier[1..][i], [c][j]) == Some(x);
        assert Get(frontier[i + 1], [c][0]) == Some(x);
      }
      if ChildUnder(frontier, [c], x) {
        var i, j :| 0 <= i < |frontier| && 0 <= j < 1 && Get(frontier[i], [c][j]) == Some(x);
        if i > 0 {
          assert Get(frontier[1..][i - 1], [c][0]) == Some(x);
        } else {
          assert x in ToSeq(Get(frontier[0], c));
        }
      }
    }
  }

  lemma {:induction false} ViaMembers(n: Tree, cs: seq<char>, x: Tree)
    ensures x in Via(n, cs) <==> exists j :: 0 <= j < |cs| && Get(n, cs[j]) == Some(x)
  {
    if cs != [] {
      ViaMembers(n, cs[1..], x);
      if exists j :: 0 <= j < |cs| && Get(n, cs[j]) == Some(x) {
        var j :| 0 <= j < |cs| && Get(n, cs[j]) == Some(x);
        if j > 0 { assert cs[1..][j - 1] == cs[j]; }
      }
      if exists j :: 0 <= j < |cs[1..]| && Get(n, cs[1..][j]) == Some(x) {
        var j :| 0 <= j < |cs[1..]| && Get(n, cs[1..][j]) == Some(x);
        assert cs[j + 1] == cs[1..][j];
      }
    }
  }

  lemma {:induction false} LookalikeMembers(frontier: seq<Tree>, cs: seq<char>, x: Tree)
    ensures x in Lookalike(frontier, cs) <==> ChildUnder(frontier, cs, x)
  {
    if frontier != [] {
      LookalikeMembers(frontier[1..], cs, x);
      ViaMembers(frontier[0], cs, x);
      if ChildUnder(frontier[1..], cs, x) {
        var i, j :| 0 <= i < |frontier[1..]| && 0 <= j < |cs| && Get(frontier[1..][i], cs[j]) == Some(x);
        assert Get(frontier[i + 1], cs[j]) == Some(x);
      }
      if ChildUnder(frontier, cs, x) {
        var i, j :| 0 <= i < |frontier| && 0 <= j < |cs| && Get(frontier[i], cs[j]) == Some(x);
        if i > 0 {
          assert Get(frontier[1..][i - 1], cs[j]) == Some(x);
        }
      }
    }
  }

  /**
   * The candidate list holds exactly the children of frontier nodes under `c`
   * or one of its lookalikes (every such child, and nothing else), and is no
   * longer than the frontier times the number of tolerated characters.
   */
  lemma CandidatesSpec(frontier: seq<Tree>, c: char, lookalikes: char -> seq<char>)
    ensures forall x :: x in Candidates(frontier, c, lookalikes) <==> ChildUnder(frontier, [c] + lookalikes(c), x)
    ensures |Candidates(frontier, c, lookalikes)| <= |frontier| * (1 + |lookalikes(c)|)
  {
    forall x ensures x in Candidates(frontier, c, lookalikes) <==> ChildUnder(frontier, [c] + lookalikes(c), x) {
      CandidateMember(frontier, c, lookalikes(c), x);
    }
    assert |frontier| * (1 + |lookalikes(c)|) == |frontier| + |frontier| * |lookalikes(c)|;
  }

  /** A candidate is a child under `c` or a child under one of `others`. */
  lemma CandidateMember(frontier: seq<Tree>, c: char, others: seq<char>, x: Tree)
    ensures x in Exact(frontier, c) + Lookalike(frontier, others) <==> ChildUnder(frontier, [c] + others, x)
  {
    ExactMembers(frontier, c, x);
    LookalikeMembers(frontier, others, x);
    ChildUnderSplit(frontier, c, others, x);
  }

  /** A child under `c` or one of `others` is a child under `c` or a child under one of `others`. */
  lemma ChildUnderSplit(frontier: seq<Tree>, c: char, others: seq<char>, x: Tree)
    ensures ChildUnder(frontier, [c] + others, x) <==> ChildUnder(frontier, [c], x) || ChildUnder(frontier, others, x)
  {
    ReachesSplit(frontier, c, others, x, Get);
  }

  /**
   * `ChildUnder` with the tree type and `Get` abstracted away. Proving the
   * split below directly over `ChildUnder` puts `Get`'s contract and the tree
   * datatype in the solver's context, which makes that proof far costlier;
   * `ChildUnderSplit` instantiates this generic form with `Get`.
   */
  ghost predicate Reaches<T>(frontier: seq<T>, cs: seq<char>, x: T, get: (T, char) -> Option<T>) {
    exists i, j :: 0 <= i < |frontier| && 0 <= j < |cs| && get(frontier[i], cs[j]) == Some(x)
  }

  /** Reaching through `[c] + others` is reaching through `[c]` or through `others`. */
  lemma ReachesSplit<T>(frontier: seq<T>, c: char, others: seq<char>, x: T, get: (T, char) -> Option<T>)
    ensures Reaches(frontier, [c] + others, x, get) <==> Reaches(frontier, [c], x, get) || Reaches(frontier, others, x, get)
  {
    var cs := [c] + others;
    if Reaches(frontier, cs, x, get) {
      var i, j :| 0 <= i < |frontier| && 0 <= j < |cs| && get(frontier[i], cs[j]) == Some(x);
      if j == 0 {
        assert get(frontier[i], [c][0]) == Some(x);
      } else {
        assert get(frontier[i], others[j - 1]) == Some(x);
      }
    }
    if Reaches(frontier, [c], x, get) {
      var i, j :| 0 <= i < |frontier| && 0 <= j < 1 && get(frontier[i], [c][j]) == Some(x);
      assert get(frontier[i], cs[0]) == Some(x);
    }
    if Reaches(frontier, others, x, get) {
      var i, j :| 0 <= i < |frontier| && 0 <= j < |others| && get(frontier[i], others[j]) == Some(x);
      assert get(frontier[i], cs[j + 1]) == Some(x);
    }
  }

  /**
   * The frontier after one character: the candidate list, unless it is empty,
   * in which case the frontier is kept as it was (the sticky rule).
   */
  function Step(frontier: seq<Tree>, c: char, lookalikes: char -> seq<char>): seq<Tree> {
    var next := Candidates(frontier, c, lookalikes);
    if next == [] then frontier else next
  }

  /**
   * One step never empties a non-empty frontier; when some frontier node has
   * a child under `c` or a lookalike, the new frontier consists of such
   * children only, and otherwise the frontier is left unchanged.
   */
  lemma StepSpec(frontier: seq<Tree>, c: char, lookalikes: char -> seq<char>)
    ensures frontier != [] ==> Step(frontier, c, lookalikes) != []
    ensures (exists x :: ChildUnder(frontier, [c] + lookalikes(c), x)) ==>
              forall x :: x in Step(frontier, c, lookalikes) <==> ChildUnder(frontier, [c] + lookalikes(c), x)
    ensures (forall x :: !ChildUnder(frontier, [c] + lookalikes(c), x)) ==> Step(frontier, c, lookalikes) == frontier
  {
    CandidatesSpec(frontier, c, lookalikes);
    var next := Candidates(frontier, c, lookalikes);
    if next != [] {
      assert next[0] in next;
    }
  }

  /** The frontier reached from `frontier` by applying `Step` for each character of `input`, in order. */
  function Replay(frontier: seq<Tree>, input: string, lookalikes: char -> seq<char>): seq<Tree>
    decreases |input|
  {
    if input == [] then frontier
    else Step(Replay(frontier, input[..|input| - 1], lookalikes), input[|input| - 1], lookalikes)
  }

  /** Replaying never empties a non-empty frontier; in particular the searcher's frontier, which starts as the root, is never empty. */
  lemma {:induction false} ReplayNonEmpty(frontier: seq<Tree>, input: string, lookalikes: char -> seq<char>)
    requires frontier != []
    ensures Replay(frontier, input, lookalikes) != []
    decreases |input|
  {
    if input != [] {
      ReplayNonEmpty(frontier, input[..|input| - 1], lookalikes);
      StepSpec(Replay(frontier, input[..|input| - 1], lookalikes), input[|input| - 1], lookalikes);
    }
  }

  /** Replaying `s + t` is replaying `s` and then `t`: `extend` is repeated `push`. */
  lemma {:induction false} ReplayAppend(frontier: seq<Tree>, s: string, t: string, lookalikes: char -> seq<char>)
    ensures Replay(frontier, s + t, lookalikes) == Replay(Replay(frontier, s, lookalikes), t, lookalikes)
    decreases |t|
  {
    if t == [] {
      assert s + t == s;
    } else {
      var n := |t| - 1;
      assert (s + t)[..|s + t| - 1] == s + t[..n];
      assert (s + t)[|s + t| - 1] == t[n];
      ReplayAppend(frontier, s, t[..n], lookalikes);
    }
  }

  /** Replaying one more character is one more step. */
  lemma ReplaySnoc(frontier: seq<Tree>, s: string, c: char, lookalikes: char -> seq<char>)
    ensures Replay(frontier, s + [c], lookalikes) == Step(Replay(frontier, s, lookalikes), c, lookalikes)
  {
    assert (s + [c])[..|s|] == s;
  }

  /** Replaying `k + 1` characters of `input` is one more step after replaying `k` of them. */
  lemma ReplayPrefix(frontier: seq<Tree>, input: string, k: nat, lookalikes: char -> seq<char>)
    requires k < |input|
    ensures Replay(frontier, input[..k + 1], lookalikes) == Step(Replay(frontier, input[..k], lookalikes), input[k], lookalikes)
  {
    assert input[..k + 1][..k] == input[..k];
  }

  lemma PrefixSnoc<T>(a: seq<T>, s: seq<T>, k: nat)
    requires k < |s|
    ensures a + s[..k] + [s[k]] == a + s[..k + 1]
  {
    assert s[..k + 1] == s[..k] + [s[k]];
  }

  /**
   * Whatever the lookalike policy, the node an exactly typed prefix leads to
   * is in the frontier: exact children always make the candidate list
   * non-empty, so they are never lost to the sticky rule.
   */
  lemma {:induction false} FindInFrontier(root: Tree, input: string, lookalikes: char -> seq<char>, n: Tree)
    requires Find(root, input) == Some(n)
    ensures n in Replay([root], input, lookalikes)
    decreases |input|
  {
    if input != [] {
      var m := |input| - 1;
      var prefix := input[..m];
      FindSplit(root, prefix, input[m]);
      assert prefix + [input[m]] == input;
      var parent := Find(root, prefix).value;
      FindInFrontier(root, prefix, lookalikes, parent);
      var frontier := Replay([root], prefix, lookalikes);
      var i :| 0 <= i < |frontier| && frontier[i] == parent;
      assert Get(frontier[i], [input[m]][0]) == Some(n);
      ExactMembers(frontier, input[m], n);
    }
  }

  /** Following `get` along `s + [c]` is following it along `s`, then taking the child under `c`. */
  lemma {:induction false} FindSplit(t: Tree, s: string, c: char)
    ensures Find(t, s + [c]) == match Find(t, s) case None => None case Some(n) => Get(n, c)
    decreases |s|
  {
    if s == [] {
      assert [] + [c] == [c];
      assert [c][1..] == [];
    } else {
      assert (s + [c])[0] == s[0] && (s + [c])[1..] == s[1..] + [c];
      match Get(t, s[0])
      case None =>
      case Some(child) => FindSplit(child, s[1..], c);
    }
  }

  /** The indices the frontier enumerates: each node's `Terminals`, in frontier order. */
  function FrontierTerminals(frontier: seq<Tree>): seq<nat> {
    if frontier == [] then [] else Terminals(frontier[0]) + FrontierTerminals(frontier[1..])
  }

  /** `try_for_each` over the frontier, each node walked by `for_each_base`. */
  function ForEachFrontier<E>(frontier: seq<Tree>, f: Visitor<E>, seen: seq<nat>): Walk<E> {
    if frontier == [] then Done([])
    else
      var w := ForEachBase(frontier[0], f, seen);
      if w.Stopped? then w else After(w.calls, ForEachFrontier(frontier[1..], f, seen + w.calls))
  }

  /** Walking the frontier is a fail-fast enumeration of the concatenated terminals. */
  lemma {:induction false} ForEachFrontierEnumerates<E>(frontier: seq<Tree>, f: Visitor<E>, seen: seq<nat>)
    ensures ForEachFrontier(frontier, f, seen) == TryEach(FrontierTerminals(frontier), f, seen)
  {
    if frontier != [] {
      ForEachBaseEnumerates(frontier[0], f, seen);
      TryEachAppend(Terminals(frontier[0]), FrontierTerminals(frontier[1..]), f, seen);
      var w := ForEachBase(frontier[0], f, seen);
      if w.Done? {
        ForEachFrontierEnumerates(frontier[1..], f, seen + w.calls);
      }
    }
  }

  lemma {:induction false} FrontierTerminalsContain(frontier: seq<Tree>, n: Tree, i: nat)
    requires n in frontier
    requires i in Terminals(n)
    ensures i in FrontierTerminals(frontier)
  {
    if frontier[0] != n {
      FrontierTerminalsContain(frontier[1..], n, i);
    }
  }

  /**
   * Round-trip membership: once the input spells a stored key exactly, the
   * key's index is among the candidates, whatever the lookalike policy.
   */
  lemma TypedKeyIsCandidate(root: Tree, key: string, index: nat, lookalikes: char -> seq<char>)
    requires Lookup(root, key) == Some(index)
    ensures index in FrontierTerminals(Replay([root], key, lookalikes))
  {
    var n := Find(root, key).value;
    FindInFrontier(root, key, lookalikes, n);
    assert Lookup(n, []) == Some(index);
    LookupInTerminals(n, [], index);
    FrontierTerminalsContain(Replay([root], key, lookalikes), n, index);
  }

  class Searcher {
    /** The root of the trie searched; it is never changed. */
    const root: Tree
    /** The lookalike policy (`lookalikes::all`), fixed when the searcher is made. */
    const lookalikes: char -> seq<char>
    var input: string
    /** The frontier: nodes in consideration. */
    var considered: seq<Tree>
    /** Swapped with `considered` after every character. */
    var scratch: seq<Tree>

    /** The frontier is always the replay of the input from the root. */
    ghost predicate Valid()
      reads this
    {
      considered == Replay([root], input, lookalikes)
    }

    /** `Searcher::new`: empty input, the frontier is the root alone. */
    constructor (root: Tree, lookalikes: char -> seq<char>)
      ensures Valid()
      ensures this.root == root && this.lookalikes == lookalikes
      ensures input == [] && considered == [root] && scratch == []
    {
      this.root := root;
      this.lookalikes := lookalikes;
      input := [];
      considered := [root];
      scratch := [];
    }

    /** `input`: the characters typed so far. */
    function Input(): (r: string)
      reads this
      requires Valid()
      ensures Replay([root], r, lookalikes) == considered
    {
      input
    }

    /**
     * `compute_considerations`: builds the candidate list in the scratch
     * buffer and swaps it in if it is non-empty; otherwise the frontier
     * stays and the scratch buffer is left empty.
     */
    method ComputeConsiderations(c: char)
      modifies this`considered, this`scratch
      ensures considered == Step(old(considered), c, lookalikes)
      ensures Candidates(old(considered), c, lookalikes) != [] ==> scratch == old(considered)
      ensures Candidates(old(considered), c, lookalikes) == [] ==> scratch == []
    {
      scratch := Candidates(considered, c, lookalikes);
      if scratch != [] {
        considered, scratch := scratch, considered;
      }
    }

    /** `push`: appends `c` to the input and advances the frontier by one step. */
    method Push(c: char)
      requires Valid()
      modifies this`input, this`considered, this`scratch
      ensures Valid()
      ensures input == old(input) + [c]
      ensures considered == Step(old(considered), c, lookalikes)
      ensures considered != []
    {
      ReplaySnoc([root], input, c, lookalikes);
      input := input + [c];
      ComputeConsiderations(c);
      ReplayNonEmpty([root], input, lookalikes);
    }

    /**
     * `pop`: nothing happens on empty input; otherwise the last character is
     * dropped and the frontier is rebuilt from the root by replaying every
     * remaining character.
     */
    method Pop()
      requires Valid()
      modifies this`input, this`considered, this`scratch
      ensures Valid()
      ensures old(input) == [] ==> input == [] && considered == old(considered) && scratch == old(scratch)
      ensures old(input) != [] ==> input == old(input)[..|old(input)| - 1]
    {
      if input == [] {
        return;
      }
      input := input[..|input| - 1];
      considered := [root];
      for k := 0 to |input|
        invariant considered == Replay([root], input[..k], lookalikes)
        modifies this`considered, this`scratch
      {
        Replayed(k);
      }
      assert input[..|input|] == input;
    }

    /** One turn of the replay in `pop`: the frontier for `k` characters of the input becomes the one for `k + 1`. */
    method Replayed(k: nat)
      requires k < |input| && considered == Replay([root], input[..k], lookalikes)
      modifies this`considered, this`scratch
      ensures considered == Replay([root], input[..k + 1], lookalikes)
    {
      ReplayPrefix([root], input, k, lookalikes);
      ComputeConsiderations(input[k]);
    }

    /** `extend`: pushes every character in order. */
    method Extend(chars: string)
      requires Valid()
      modifies this`input, this`considered, this`scratch
      ensures Valid()
      ensures input == old(input) + chars
      ensures considered == Replay(old(considered), chars, lookalikes)
    {
      for k := 0 to |chars|
        invariant Valid()
        invariant input == old(input) + chars[..k]
      {
        PrefixSnoc(old(input), chars, k);
        Push(chars[k]);
      }
      assert chars[..|chars|] == chars;
      ReplayAppend([root], old(input), chars, lookalikes);
    }

    /**
     * `for_each_candidate`: each frontier node's indices in pre-order, the
     * nodes in frontier order, stopping at the first error of `f`.
     */
    function ForEachCandidate<E>(f: Visitor<E>): (r: Walk<E>)
      reads this
      ensures r == TryEach(FrontierTerminals(considered), f, [])
    {
      ForEachFrontierEnumerates(considered, f, []);
      ForEachFrontier(considered, f, [])
    }
  }

  /** Popping right after pushing restores both the input and the frontier. */
  method PopUndoesPush(s: Searcher, c: char)
    requires s.Valid()
    modifies s
    ensures s.Valid()
    ensures s.input == old(s.input) && s.considered == old(s.considered)
  {
    s.Push(c);
    s.Pop();
  }
}

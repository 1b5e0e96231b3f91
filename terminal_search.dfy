/**
 * The terminal front end of src/main.rs: its own three-row QWERTY misclick
 * table (letters and `; , . /` only), looked up by binary search on the
 * lower-case character, with the neighbours shifted for upper-case input;
 * and its own copy of the trie, whose `get` has no early exit and whose
 * `for_each_base` is a `for` loop.
 */
module TerminalSearch {
  import opened Wrappers
  import opened Grid
  import opened Keyed
  import opened Enumeration
  import Lookalikes
  import SearchTree

  /** The three letter rows of the keyboard (`LAYOUT`). */
  const KEYS: seq<string> := ["qwertyuiop", "asdfghjkl;", "zxcvbnm,./"]

  /** The number of keys, and of table entries. */
  const N_KEYS: nat := 30

  predicate IsAsciiUppercase(c: char) { 'A' <= c <= 'Z' }

  predicate IsAsciiLowercase(c: char) { 'a' <= c <= 'z' }

  predicate IsAsciiAlphanumeric(c: char) { '0' <= c <= '9' || IsAsciiUppercase(c) || IsAsciiLowercase(c) }

  /** `char::to_ascii_uppercase`: ASCII lower-case letters go up by 32 code points, everything else stays. */
  function ToAsciiUppercase(c: char): (r: char)
    ensures IsAsciiLowercase(c) ==> IsAsciiUppercase(r) && r as int == c as int - 32
    ensures !IsAsciiLowercase(c) ==> r == c
  {
    if IsAsciiLowercase(c) then (c as int - 32) as char else c
  }

  /** `char::to_ascii_lowercase`: ASCII upper-case letters go down by 32 code points, everything else stays. */
  function ToAsciiLowercase(c: char): (r: char)
    ensures IsAsciiUppercase(c) ==> IsAsciiLowercase(r) && r as int == c as int + 32
    ensures !IsAsciiUppercase(c) ==> r == c
    ensures !IsAsciiUppercase(r)
  {
    if IsAsciiUppercase(c) then (c as int + 32) as char else c
  }

  /** `shifted`: the character the same key gives with Shift held, for the keys of this layout. */
  function Shifted(c: char): (r: char)
    ensures c != '\0' ==> r != '\0'
  {
    if IsAsciiAlphanumeric(c) then ToAsciiUppercase(c)
    else match c
      case ';' => ':'
      case ',' => '<'
      case '.' => '>'
      case '/' => '?'
      case _ => c
  }

  /** Each character of `s` through `shifted`. */
  function ShiftAll(s: string): (r: string)
    ensures |r| == |s| && forall k :: 0 <= k < |s| ==> r[k] == Shifted(s[k])
  {
    seq(|s|, k requires 0 <= k < |s| => Shifted(s[k]))
  }

  /**
   * `shifted` agrees with the four-row layouts of src/lookalikes.rs: the
   * three rows here are its letter rows, and every key of them shifts to the
   * character on the same key of its shifted layout.
   */
  lemma ShiftedMatchesShiftedLayout()
    ensures forall r :: 0 <= r < 3 ==> KEYS[r] == Lookalikes.LAYOUT[r + 1]
    ensures forall r, c :: 0 <= r < 3 && 0 <= c < 10 ==> Shifted(KEYS[r][c]) == Lookalikes.SHIFTED_LAYOUT[r + 1][c]
  {
    forall r, c | 0 <= r < 3 && 0 <= c < 10 ensures Shifted(KEYS[r][c]) == Lookalikes.SHIFTED_LAYOUT[r + 1][c] {
      if r == 0 {} else if r == 1 {} else {}
    }
  }

  // The table

  lemma KeysRectangular()
    ensures Rectangular(KEYS) && |KEYS| == 3 && |KEYS[0]| == 10
  {
  }

  /** The key on row `row`, column `col`. */
  function KeyAt(row: nat, col: nat): char
    requires row < 3 && col < 10
  {
    KeysRectangular();
    KEYS[row][col]
  }

  /** The key that entry `k` of the table holds before sorting: row `k / 10`, column `k % 10`. */
  function Key(k: nat): char
    requires k < N_KEYS
  {
    KeyAt(k / 10, k % 10)
  }

  /** The table as the nested loops leave it, before the sort: each key with its eight neighbour slots. */
  function Unsorted(): (u: seq<(char, string)>)
    ensures |u| == N_KEYS
  {
    seq(N_KEYS, k requires 0 <= k < N_KEYS => (Key(k), Ring(KEYS, k / 10, k % 10)))
  }

  /** The position of `c` in the table before sorting, or -1 for a character on no key. */
  function Rank(c: char): int {
    match c
    case 'q' => 0 case 'w' => 1 case 'e' => 2 case 'r' => 3 case 't' => 4
    case 'y' => 5 case 'u' => 6 case 'i' => 7 case 'o' => 8 case 'p' => 9
    case 'a' => 10 case 's' => 11 case 'd' => 12 case 'f' => 13 case 'g' => 14
    case 'h' => 15 case 'j' => 16 case 'k' => 17 case 'l' => 18 case ';' => 19
    case 'z' => 20 case 'x' => 21 case 'c' => 22 case 'v' => 23 case 'b' => 24
    case 'n' => 25 case 'm' => 26 case ',' => 27 case '.' => 28 case '/' => 29
    case _ => -1
  }

  lemma RankOfKey(k: nat)
    requires k < N_KEYS
    ensures Rank(Key(k)) == k
  {
    var r, c := k / 10, k % 10;
    assert r == 0 || r == 1 || r == 2;
    assert c == 0 || c == 1 || c == 2 || c == 3 || c == 4 || c == 5 || c == 6 || c == 7 || c == 8 || c == 9;
  }

  /** No two keys are the same character. */
  lemma KeysDistinct()
    ensures DistinctKeys(Unsorted())
  {
    forall i, j | 0 <= i < j < N_KEYS ensures Unsorted()[i].0 != Unsorted()[j].0 {
      RankOfKey(i);
      RankOfKey(j);
    }
  }

  /** `MISCLICKS` after `const_quicksort`: the table sorted by key. */
  function Table(): seq<(char, string)> {
    SortByKey(Unsorted())
  }

  /** The sorted table holds exactly the entries built, in strictly ascending key order. */
  lemma TableSorted()
    ensures multiset(Table()) == multiset(Unsorted())
    ensures StrictlySorted(Table())
    ensures |Table()| == N_KEYS
  {
    KeysDistinct();
    assert |multiset(Table())| == |multiset(Unsorted())|;
  }

  /** Cell `(k, j)` of the table before sorting, column 0 being the key. */
  function UnsortedCell(k: nat, j: nat): char
    requires k < N_KEYS && j < 9
  {
    if j == 0 then Key(k) else Ring(KEYS, k / 10, k % 10)[j - 1]
  }

  /** The first `upto` entries of `res` are built, the others still NULs. */
  ghost predicate BuiltUpTo(res: array2<char>, upto: nat)
    requires res.Length0 == N_KEYS && res.Length1 == 9
    reads res
  {
    forall k, j :: 0 <= k < N_KEYS && 0 <= j < 9 ==> res[k, j] == if k < upto then UnsortedCell(k, j) else '\0'
  }

  /** The entries of `res`, each as its key and its eight neighbour slots. */
  function Entries(res: array2<char>): (r: seq<(char, string)>)
    requires res.Length0 == N_KEYS && res.Length1 == 9
    reads res
    ensures |r| == N_KEYS && forall k :: 0 <= k < N_KEYS ==> r[k] == (res[k, 0], Segment(res, k, 1, 8))
  {
    seq(N_KEYS, k requires 0 <= k < N_KEYS reads res => (res[k, 0], Segment(res, k, 1, 8)))
  }

  /**
   * The construction of `MISCLICKS`: for each key in row-major order, its
   * character and the eight neighbour slots of entry `row * 10 + col`, then
   * the sort by key. Each entry is stored as a row of nine characters,
   * column 0 being the key.
   */
  method BuildTable() returns (table: seq<(char, string)>)
    ensures table == Table()
  {
    var res := new char[N_KEYS, 9]((_, _) => '\0');
    var row := 0;
    while row < 3
      invariant row <= 3
      invariant BuiltUpTo(res, row * 10)
    {
      var col := 0;
      while col < 10
        invariant col <= 10
        invariant BuiltUpTo(res, row * 10 + col)
      {
        BuildEntry(res, row, col);
        col := col + 1;
      }
      row := row + 1;
    }
    BuiltEntries(res);
    table := SortByKey(Entries(res));
  }

  /** Entry `row * 10 + col`: its key, then its on-grid neighbours. */
  method BuildEntry(res: array2<char>, row: nat, col: nat)
    requires res.Length0 == N_KEYS && res.Length1 == 9 && row < 3 && col < 10
    requires BuiltUpTo(res, row * 10 + col)
    modifies res
    ensures BuiltUpTo(res, row * 10 + col + 1)
  {
    KeysRectangular();
    var k := row * 10 + col;
    assert k / 10 == row && k % 10 == col;
    assert Segment(res, k, 1, 8) == Nuls(8);
    res[k, 0] := KEYS[row][col];
    FillRing(res, k, 1, KEYS, row, col);
    forall j | 1 <= j < 9 ensures res[k, j] == UnsortedCell(k, j) {
      assert res[k, j] == Segment(res, k, 1, 8)[j - 1];
    }
  }

  lemma BuiltEntries(res: array2<char>)
    requires res.Length0 == N_KEYS && res.Length1 == 9 && BuiltUpTo(res, N_KEYS)
    ensures Entries(res) == Unsorted()
  {
    forall k | 0 <= k < N_KEYS ensures Entries(res)[k] == Unsorted()[k] {
      assert Segment(res, k, 1, 8) == Ring(KEYS, k / 10, k % 10);
    }
  }

  // The lookup

  /**
   * `qwerty_misclicks` of src/main.rs: the entry whose key is the lower-case
   * form of `ch`, found by binary search, its NUL slots dropped, and each
   * neighbour shifted when `ch` is an ASCII upper-case letter.
   */
  function QwertyMisclicks(ch: char): (r: string)
  {
    LookUp(Table(), ch)
  }

  /** The lookup chain over a table of `(key, slots)` entries. */
  function LookUp(table: seq<(char, string)>, ch: char): (r: string)
  {
    var slots := match BinarySearch(table, ToAsciiLowercase(ch))
      case Found(i) => table[i].1
      case Missing(_) => [];
    var kept := NonNul(slots);
    if IsAsciiUppercase(ch) then ShiftAll(kept) else kept
  }

  /** Over a table whose entries hold at most eight slots: at most eight characters, never a NUL. */
  lemma LookUpBounds(table: seq<(char, string)>, ch: char)
    requires forall i :: 0 <= i < |table| ==> |table[i].1| <= 8
    ensures |LookUp(table, ch)| <= 8 && '\0' !in LookUp(table, ch)
  {
    match BinarySearch(table, ToAsciiLowercase(ch))
    case Found(i) =>
      var kept := NonNul(table[i].1);
      assert forall k :: 0 <= k < |kept| ==> ShiftAll(kept)[k] != '\0';
    case Missing(_) =>
      assert NonNul([]) == [];
  }

  /**
   * What the lookup means without the table: the on-grid neighbours of the
   * key of `ch`'s lower-case form in ring order, shifted for upper-case
   * input; nothing when that character is on no key.
   */
  function Neighbours(ch: char): (r: string)
  {
    KeysRectangular();
    match Lookalikes.FirstCell(KEYS, ToAsciiLowercase(ch))
    case None => []
    case Some((row, col)) =>
      var kept := NonNul(Ring(KEYS, row, col));
      if IsAsciiUppercase(ch) then ShiftAll(kept) else kept
  }

  /** A character on no key has no entry in the sorted table. */
  lemma TableMissing(c: char)
    requires forall r, col :: 0 <= r < 3 && 0 <= col < 10 ==> KeyAt(r, col) != c
    ensures BinarySearch(Table(), c).Missing?
  {
    KeysDistinct();
    UnsortedLacks(c);
    SortedMisses(Unsorted(), c);
  }

  lemma UnsortedLacks(c: char)
    requires forall r, col :: 0 <= r < 3 && 0 <= col < 10 ==> KeyAt(r, col) != c
    ensures forall k :: 0 <= k < N_KEYS ==> Unsorted()[k].0 != c
  {
    forall k | 0 <= k < N_KEYS ensures Unsorted()[k].0 != c {
      assert k / 10 < 3 && k % 10 < 10;
    }
  }

  /** The key on `(row, col)` has an entry in the sorted table, holding that key's ring. */
  lemma TableFound(row: nat, col: nat)
    requires row < 3 && col < 10
    ensures BinarySearch(Table(), KeyAt(row, col)).Found?
    ensures Table()[BinarySearch(Table(), KeyAt(row, col)).index].1 == Ring(KEYS, row, col)
  {
    KeysDistinct();
    var k := row * 10 + col;
    assert k / 10 == row && k % 10 == col;
    assert Unsorted()[k] == (KeyAt(row, col), Ring(KEYS, row, col));
    SortedFinds(Unsorted(), KeyAt(row, col), Ring(KEYS, row, col));
  }

  /** The lookup through the sorted table yields exactly `Neighbours(ch)`. */
  lemma QwertyMisclicksMeaning(ch: char)
    ensures QwertyMisclicks(ch) == Neighbours(ch)
  {
    KeysRectangular();
    var c := ToAsciiLowercase(ch);
    Lookalikes.FirstCellSpec(KEYS, c);
    match Lookalikes.FirstCell(KEYS, c)
    case None =>
      TableMissing(c);
      assert NonNul([]) == [];
    case Some((row, col)) =>
      TableFound(row, col);
  }

  /** Every entry of the sorted table holds eight slots. */
  lemma TableSlots(i: nat)
    requires i < |Table()|
    ensures |Table()[i].1| == 8
  {
    forall k | 0 <= k < N_KEYS ensures |Unsorted()[k].1| == 8 {
    }
    SortedSlots(Unsorted(), i);
  }

  /** Sorting keeps the width of every entry. */
  lemma SortedSlots(s: seq<(char, string)>, i: nat)
    requires i < |SortByKey(s)|
    requires forall k :: 0 <= k < |s| ==> |s[k].1| == 8
    ensures |SortByKey(s)[i].1| == 8
  {
    SortedMember(s, i);
  }

  /** At most eight characters, never a NUL. */
  lemma QwertyMisclicksBounds(ch: char)
    ensures |QwertyMisclicks(ch)| <= 8
    ensures '\0' !in QwertyMisclicks(ch)
  {
    forall i | 0 <= i < |Table()| ensures |Table()[i].1| <= 8 {
      TableSlots(i);
    }
    LookUpBounds(Table(), ch);
  }

  /**
   * An upper-case letter selects the same entry as its lower-case form, and
   * yields that form's misclicks, each shifted.
   */
  lemma UppercaseShifts(ch: char)
    requires IsAsciiUppercase(ch)
    ensures QwertyMisclicks(ch) == ShiftAll(QwertyMisclicks(ToAsciiLowercase(ch)))
  {
    LookUpUppercase(Table(), ch);
  }

  lemma LookUpUppercase(table: seq<(char, string)>, ch: char)
    requires IsAsciiUppercase(ch)
    ensures LookUp(table, ch) == ShiftAll(LookUp(table, ToAsciiLowercase(ch)))
  {
    assert ToAsciiLowercase(ToAsciiLowercase(ch)) == ToAsciiLowercase(ch);
  }

  /** A character whose lower-case form is on no key yields nothing. */
  lemma OffLayoutEmpty(ch: char)
    requires forall r, c :: 0 <= r < 3 && 0 <= c < 10 ==> KeyAt(r, c) != ToAsciiLowercase(ch)
    ensures QwertyMisclicks(ch) == []
  {
    TableMissing(ToAsciiLowercase(ch));
    assert NonNul([]) == [];
  }

  /** A character `Rank` places on no key is on no key. */
  lemma Unranked(c: char)
    requires Rank(c) < 0
    ensures forall r, col :: 0 <= r < 3 && 0 <= col < 10 ==> KeyAt(r, col) != c
  {
    forall r, col | 0 <= r < 3 && 0 <= col < 10 ensures KeyAt(r, col) != c {
      var k := r * 10 + col;
      assert k / 10 == r && k % 10 == col;
      RankOfKey(k);
    }
  }

  /*
   * The examples below take the character as a parameter and go through
   * `Neighbours`: stated on a literal, the verifier would evaluate the whole
   * sort of the table.
   */

  /** `a` may be a slip for `q`, `w`, `s`, `z` or `x`. */
  lemma MisclicksOfLowerA(ch: char)
    requires ch == 'a'
    ensures QwertyMisclicks(ch) == "qwszx"
  {
    QwertyMisclicksMeaning(ch);
    NeighboursOfLowerA(ch);
  }

  lemma NeighboursOfLowerA(ch: char)
    requires ch == 'a'
    ensures Neighbours(ch) == "qwszx"
  {
    KeysRectangular();
    Lookalikes.FirstCellSpec(KEYS, ch);
    assert KEYS[1][0] == ch;
    RingOfLowerA();
  }

  /** The neighbours of row 1, column 0. */
  lemma RingOfLowerA()
    ensures NonNul(Ring(KEYS, 1, 0)) == "qwszx"
  {
    assert Ring(KEYS, 1, 0) == ['\0', 'q', 'w', '\0', 's', '\0', 'z', 'x'];
    Ring8Cleared('\0', 'q', 'w', '\0', 's', '\0', 'z', 'x');
  }

  /** `A` may be a slip for the same keys, shifted. */
  lemma MisclicksOfUpperA(ch: char)
    requires ch == 'A'
    ensures QwertyMisclicks(ch) == "QWSZX"
  {
    QwertyMisclicksMeaning(ch);
    NeighboursOfUpperA(ch);
  }

  lemma NeighboursOfUpperA(ch: char)
    requires ch == 'A'
    ensures Neighbours(ch) == "QWSZX"
  {
    var lower := ToAsciiLowercase(ch);
    NeighboursOfLowerA(lower);
    assert Neighbours(ch) == ShiftAll(Neighbours(lower));
    assert ShiftAll("qwszx") == "QWSZX";
  }

  /** A digit, or `:` (whose lower-case form is itself), is on no key of this layout. */
  lemma MisclicksOffLayout(ch: char)
    requires ch == '1' || ch == ':'
    ensures QwertyMisclicks(ch) == []
  {
    QwertyMisclicksMeaning(ch);
    NeighboursOffLayout(ch);
  }

  lemma NeighboursOffLayout(ch: char)
    requires ch == '1' || ch == ':'
    ensures Neighbours(ch) == []
  {
    KeysRectangular();
    Lookalikes.FirstCellSpec(KEYS, ch);
    Unranked(ch);
  }

  // The trie copy

  /** `get` of src/main.rs: the binary search alone, without the early exit of src/lib.rs. */
  function Get(t: SearchTree.Tree, c: char): (r: Option<SearchTree.Tree>)
    ensures r.Some? ==> (c, r.value) in t.nodes
    ensures StrictlySorted(t.nodes) ==> r == Assoc(t.nodes, c)
  {
    match BinarySearch(t.nodes, c)
    case Found(i) =>
      assert StrictlySorted(t.nodes) ==> Assoc(t.nodes, c) == Some(t.nodes[i].1) by {
        if StrictlySorted(t.nodes) { AssocAt(t.nodes, i); }
      }
      Some(t.nodes[i].1)
    case Missing(_) => None
  }

  /** On children in strict order, the early exit of src/lib.rs changes no answer. */
  lemma GetAgrees(t: SearchTree.Tree, c: char)
    requires StrictlySorted(t.nodes)
    ensures Get(t, c) == SearchTree.Get(t, c)
  {
  }

  /** The node reached by following this `get` along `key`. */
  function Find(t: SearchTree.Tree, key: string): Option<SearchTree.Tree>
    decreases |key|
  {
    if key == [] then Some(t)
    else
      match Get(t, key[0])
      case None => None
      case Some(child) => Find(child, key[1..])
  }

  lemma {:induction false} FindAgrees(t: SearchTree.Tree, key: string)
    requires SearchTree.WellFormed(t)
    ensures Find(t, key) == SearchTree.Find(t, key)
    decreases |key|
  {
    if key != [] {
      GetAgrees(t, key[0]);
      match Get(t, key[0])
      case None =>
      case Some(child) =>
        assert (key[0], child) in t.nodes;
        FindAgrees(child, key[1..]);
    }
  }

  /**
   * `push` of src/main.rs is the `push` of src/lib.rs: after `push(key, i)`
   * on a well-formed trie, walking this `get` along `key` reaches a node
   * whose `end` is `Some(i)`, and the trie stays well-formed.
   */
  lemma PushThenFind(t: SearchTree.Tree, key: string, index: nat)
    requires SearchTree.WellFormed(t)
    ensures SearchTree.WellFormed(SearchTree.Push(t, key, index))
    ensures Find(SearchTree.Push(t, key, index), key).Some?
    ensures Find(SearchTree.Push(t, key, index), key).value.end == Some(index)
  {
    SearchTree.PushWellFormed(t, key, index);
    SearchTree.LookupAfterPush(t, key, index, key);
    FindAgrees(SearchTree.Push(t, key, index), key);
  }

  /**
   * `for_each_base` of src/main.rs: the node's own `end` first, then a `for`
   * loop over the children, each walked recursively, returning at the first
   * error.
   */
  method ForEachBase<E>(t: SearchTree.Tree, f: Visitor<E>, seen: seq<nat>) returns (w: Walk<E>)
    ensures w == TryEach(SearchTree.Terminals(t), f, seen)
    decreases t
  {
    SearchTree.ForEachBaseEnumerates(t, f, seen);
    var calls: seq<nat> := [];
    if t.end.Some? {
      var e := t.end.value;
      match f(seen, e)
      case Fail(err) =>
        return Stopped([e], err);
      case Pass =>
        calls := [e];
    } else {
      AfterNothing(SearchTree.ForEachChild(t, 0, f, seen));
      assert seen + calls == seen;
    }
    for k := 0 to |t.nodes|
      invariant SearchTree.ForEachBase(t, f, seen) == After(calls, SearchTree.ForEachChild(t, k, f, seen + calls))
    {
      var sub := ForEachBase(t.nodes[k].1, f, seen + calls);
      SearchTree.ForEachBaseEnumerates(t.nodes[k].1, f, seen + calls);
      if sub.Stopped? {
        return After(calls, sub);
      }
      AfterAfter(calls, sub.calls, SearchTree.ForEachChild(t, k + 1, f, seen + calls + sub.calls));
      assert seen + calls + sub.calls == seen + (calls + sub.calls);
      calls := calls + sub.calls;
    }
    assert calls + [] == calls;
    return Done(calls);
  }

  /** `for_each` of src/main.rs: every index under `t` in pre-order, up to the first error. */
  method ForEach<E>(t: SearchTree.Tree, f: Visitor<E>) returns (w: Walk<E>)
    ensures w == TryEach(SearchTree.Terminals(t), f, [])
  {
    w := ForEachBase(t, f, []);
  }
}

/**
 * The QWERTY misclick table of src/lookalikes.rs: for every printable ASCII
 * character on the four-row layout or its shifted twin, the character on the
 * same key in the other layer, followed by the neighbouring keys in both
 * layers, with the empty (NUL) slots moved to the end.
 */
module Lookalikes {
  import opened Wrappers
  import opened Grid
  import opened Compaction

  const LAYOUT: seq<string> := ["1234567890", "qwertyuiop", "asdfghjkl;", "zxcvbnm,./"]
  const SHIFTED_LAYOUT: seq<string> := ["!@#$%^&*()", "QWERTYUIOP", "ASDFGHJKL:", "ZXCVBNM<>?"]

  /** Rows of the table: one per character from `' '` up to, but not including, `'~'`. */
  const N_TYPEABLES: nat := '~' as int - ' ' as int

  /** The most characters one entry can yield: the toggled key and sixteen neighbour slots. */
  const N_MISCLICKS: nat := 17

  lemma LayoutsRectangular()
    ensures Rectangular(LAYOUT) && Rectangular(SHIFTED_LAYOUT)
    ensures |LAYOUT| == |SHIFTED_LAYOUT| == 4 && |LAYOUT[0]| == |SHIFTED_LAYOUT[0]| == 10
  {
  }

  /** Every key of both layouts is a printable character between `'!'` and `'z'`. */
  lemma LayoutsPrintable()
    ensures forall r, c :: 0 <= r < 4 && 0 <= c < 10 ==> '!' <= LAYOUT[r][c] <= 'z'
    ensures forall r, c :: 0 <= r < 4 && 0 <= c < 10 ==> '!' <= SHIFTED_LAYOUT[r][c] <= 'z'
  {
    forall r, c | 0 <= r < 4 && 0 <= c < 10 ensures '!' <= LAYOUT[r][c] <= 'z' && '!' <= SHIFTED_LAYOUT[r][c] <= 'z' {
      if r == 0 {} else if r == 1 {} else if r == 2 {} else {}
    }
  }

  /** The first position at or after `(row, col)`, in row-major order, holding `ch`. */
  function FirstCellFrom(layout: seq<string>, ch: char, row: nat, col: nat): Option<(nat, nat)>
    requires Rectangular(layout) && row <= |layout| && col <= |layout[0]|
    decreases |layout| - row, |layout[0]| - col
  {
    if row == |layout| then None
    else if col == |layout[0]| then FirstCellFrom(layout, ch, row + 1, 0)
    else if layout[row][col] == ch then Some((row, col))
    else FirstCellFrom(layout, ch, row, col + 1)
  }

  /** The first position, in row-major order, holding `ch`. */
  function FirstCell(layout: seq<string>, ch: char): Option<(nat, nat)>
    requires Rectangular(layout)
  {
    FirstCellFrom(layout, ch, 0, 0)
  }

  /** Position `(r, c)` comes before `(row, col)` in row-major order. */
  predicate Before(r: nat, c: nat, row: nat, col: nat) {
    r < row || (r == row && c < col)
  }

  lemma {:induction false} FirstCellFromSpec(layout: seq<string>, ch: char, row: nat, col: nat)
    requires Rectangular(layout) && row <= |layout| && col <= |layout[0]|
    ensures var r := FirstCellFrom(layout, ch, row, col);
      r.None? ==> forall a, b :: 0 <= a < |layout| && 0 <= b < |layout[0]| && !Before(a, b, row, col) ==> layout[a][b] != ch
    ensures var r := FirstCellFrom(layout, ch, row, col);
      r.Some? ==> var (fr, fc) := r.value;
        fr < |layout| && fc < |layout[0]| && layout[fr][fc] == ch && !Before(fr, fc, row, col) &&
        forall a, b :: 0 <= a < |layout| && 0 <= b < |layout[0]| && !Before(a, b, row, col) && Before(a, b, fr, fc) ==> layout[a][b] != ch
    decreases |layout| - row, |layout[0]| - col
  {
    if row == |layout| {
    } else if col == |layout[0]| {
      FirstCellFromSpec(layout, ch, row + 1, 0);
    } else if layout[row][col] != ch {
      FirstCellFromSpec(layout, ch, row, col + 1);
    }
  }

  /**
   * `find_char`'s answer: the first `(row, col)` in row-major order whose
   * cell is `ch`, always within the grid; `None` exactly when no cell is `ch`.
   */
  lemma FirstCellSpec(layout: seq<string>, ch: char)
    requires Rectangular(layout)
    ensures FirstCell(layout, ch).None? <==> forall a, b :: 0 <= a < |layout| && 0 <= b < |layout[0]| ==> layout[a][b] != ch
    ensures var r := FirstCell(layout, ch);
      r.Some? ==> var (fr, fc) := r.value;
        fr < |layout| && fc < |layout[0]| && layout[fr][fc] == ch &&
        forall a, b :: 0 <= a < |layout| && 0 <= b < |layout[0]| && Before(a, b, fr, fc) ==> layout[a][b] != ch
  {
    FirstCellFromSpec(layout, ch, 0, 0);
    var r := FirstCell(layout, ch);
    if r.Some? {
      var (fr, fc) := r.value;
      assert layout[fr][fc] == ch;
    }
  }

  /** `find_char`: scans the rows in order, and each row's columns in order. */
  method FindChar(ch: char, layout: seq<string>) returns (r: Option<(nat, nat)>)
    requires Rectangular(layout)
    ensures r == FirstCell(layout, ch)
  {
    var nRows, nCols := |layout|, |layout[0]|;
    var row := 0;
    while row < nRows
      invariant row <= nRows
      invariant FirstCellFrom(layout, ch, row, 0) == FirstCell(layout, ch)
    {
      var col := 0;
      while col < nCols
        invariant col <= nCols
        invariant FirstCellFrom(layout, ch, row, col) == FirstCell(layout, ch)
      {
        if layout[row][col] == ch {
          return Some((row, col));
        }
        col := col + 1;
      }
      row := row + 1;
    }
    return None;
  }

  /** `ch` sits on key `(row, col)` of one layer and `toggled` on the same key of the other. */
  predicate OnKey(ch: char, row: nat, col: nat, toggled: char) {
    row < 4 && col < 10 &&
    ((LAYOUT[row][col] == ch && toggled == SHIFTED_LAYOUT[row][col]) ||
     (SHIFTED_LAYOUT[row][col] == ch && toggled == LAYOUT[row][col]))
  }

  /**
   * Where `ch` sits: its position on the unshifted layout, else on the
   * shifted one, with the character on the same key in the other layer.
   */
  function Locate(ch: char): (r: Option<(nat, nat, char)>)
    ensures r.Some? ==> OnKey(ch, r.value.0, r.value.1, r.value.2)
    ensures r.None? <==> forall row, col :: 0 <= row < 4 && 0 <= col < 10 ==> LAYOUT[row][col] != ch && SHIFTED_LAYOUT[row][col] != ch
  {
    LayoutsRectangular();
    FirstCellSpec(LAYOUT, ch);
    FirstCellSpec(SHIFTED_LAYOUT, ch);
    match FirstCell(LAYOUT, ch)
    case Some((row, col)) => Some((row, col, SHIFTED_LAYOUT[row][col]))
    case None =>
      match FirstCell(SHIFTED_LAYOUT, ch)
      case Some((row, col)) => Some((row, col, LAYOUT[row][col]))
      case None => None
  }

  /** Only printable characters from `'!'` to `'z'` sit on a key, and their counterparts too. */
  lemma OnKeyPrintable(ch: char, row: nat, col: nat, toggled: char)
    requires OnKey(ch, row, col, toggled)
    ensures '!' <= ch <= 'z' && '!' <= toggled <= 'z'
  {
    LayoutsPrintable();
  }

  /**
   * One row of the table: for a character on a layout, the toggled
   * character, then the sixteen neighbour slots (unshifted layer, then
   * shifted) with the NULs moved to the end; for any other character, NULs.
   */
  function Entry(ch: char): (r: string)
    ensures |r| == N_MISCLICKS
  {
    match Locate(ch)
    case None => Nuls(N_MISCLICKS)
    case Some((row, col, toggled)) => KeyEntry(row, col, toggled)
  }

  /** The neighbour slots of key `(row, col)`: the unshifted ring, then the shifted one. */
  function Rings(row: nat, col: nat): (r: string)
    ensures |r| == 16
  {
    Ring(LAYOUT, row, col) + Ring(SHIFTED_LAYOUT, row, col)
  }

  /** The table row of a character on key `(row, col)` whose counterpart is `toggled`. */
  function KeyEntry(row: nat, col: nat, toggled: char): (r: string)
    ensures |r| == N_MISCLICKS
  {
    [toggled] + MovedNulsToEnd(Rings(row, col))
  }

  /** The character whose row is `b` of the table. */
  function RowChar(b: nat): char
    requires b < N_TYPEABLES
  {
    (' ' as int + b) as char
  }

  /** `MISCLICKS`: the whole table, as its construction leaves it. */
  function Table(): (t: seq<string>)
    ensures |t| == N_TYPEABLES
    ensures forall b :: 0 <= b < N_TYPEABLES ==> |t[b]| == N_MISCLICKS
  {
    seq(N_TYPEABLES, b requires 0 <= b < N_TYPEABLES => Entry(RowChar(b)))
  }

  /**
   * Fills row `b`, all NULs so far, with the entry of the character on key
   * `(row, col)` whose counterpart on the other layer is `toggled`: the
   * toggled character, the two rings of neighbours, then the compaction.
   */
  method WriteEntry(res: array2<char>, b: nat, row: nat, col: nat, toggled: char)
    requires res.Length0 == N_TYPEABLES && res.Length1 == N_MISCLICKS && b < N_TYPEABLES
    requires row < 4 && col < 10
    requires forall j :: 0 <= j < N_MISCLICKS ==> res[b, j] == '\0'
    modifies res
    ensures forall j :: 0 <= j < N_MISCLICKS ==> res[b, j] == KeyEntry(row, col, toggled)[j]
    ensures forall a, j :: 0 <= a < res.Length0 && 0 <= j < res.Length1 && a != b ==> res[a, j] == old(res[a, j])
  {
    res[b, 0] := toggled;
    FillRings(res, b, row, col);
    MoveNulsToEnd(res, b, 1, 16);
    forall j | 1 <= j < N_MISCLICKS ensures res[b, j] == KeyEntry(row, col, toggled)[j] {
      assert res[b, j] == Segment(res, b, 1, 16)[j - 1];
    }
  }

  /** Slots 1 to 8 of row `b` get the unshifted ring, slots 9 to 16 the shifted one. */
  method FillRings(res: array2<char>, b: nat, row: nat, col: nat)
    requires res.Length0 == N_TYPEABLES && res.Length1 == N_MISCLICKS && b < N_TYPEABLES
    requires row < 4 && col < 10
    requires forall j :: 1 <= j < N_MISCLICKS ==> res[b, j] == '\0'
    modifies res
    ensures Segment(res, b, 1, 16) == Rings(row, col)
    ensures forall a, j :: 0 <= a < res.Length0 && 0 <= j < res.Length1 && !(a == b && 1 <= j) ==> res[a, j] == old(res[a, j])
  {
    LayoutsRectangular();
    assert Segment(res, b, 1, 8) == Nuls(8);
    assert Segment(res, b, 9, 8) == Nuls(8);
    FillRing(res, b, 1, LAYOUT, row, col);
    FillRing(res, b, 9, SHIFTED_LAYOUT, row, col);
    assert Segment(res, b, 1, 16) == Segment(res, b, 1, 8) + Segment(res, b, 9, 8);
  }

  /** Row `b` of `res` holds `t[b]` when `b < upto`, and NULs from `upto` on. */
  ghost predicate FilledUpTo(res: array2<char>, t: seq<string>, upto: nat)
    requires res.Length0 == N_TYPEABLES && res.Length1 == N_MISCLICKS && |t| == N_TYPEABLES
    requires forall b :: 0 <= b < N_TYPEABLES ==> |t[b]| == N_MISCLICKS
    reads res
  {
    forall b, j :: 0 <= b < N_TYPEABLES && 0 <= j < N_MISCLICKS ==>
      res[b, j] == if b < upto then t[b][j] else '\0'
  }

  /**
   * The construction of `MISCLICKS`: one pass over the bytes from `' '` to
   * `'~'`, skipping those on no key and filling the row of every other.
   */
  method BuildMisclicks() returns (res: array2<char>)
    ensures fresh(res) && res.Length0 == N_TYPEABLES && res.Length1 == N_MISCLICKS
    ensures forall b, j :: 0 <= b < N_TYPEABLES && 0 <= j < N_MISCLICKS ==> res[b, j] == Table()[b][j]
  {
    ghost var t := Table();
    res := new char[N_TYPEABLES, N_MISCLICKS]((_, _) => '\0');
    var nextByte: nat := ' ' as nat;
    while nextByte <= '~' as nat
      invariant ' ' as nat <= nextByte <= '~' as nat + 1
      invariant FilledUpTo(res, t, nextByte - ' ' as nat)
    {
      var ch := nextByte as char;
      var byte := nextByte;
      nextByte := nextByte + 1;
      var located := LocateKey(ch);
      if located.None? {
        SkipRow(res, t, byte);
        continue;
      }
      var (row, col, toggled) := located.value;
      OnKeyPrintable(ch, row, col, toggled);
      WriteEntry(res, byte - ' ' as nat, row, col, toggled);
      FilledRow(res, t, byte, row, col, toggled);
    }
  }

  /**
   * The key of `ch` and its counterpart, searched for first on the
   * unshifted layout, then on the shifted one.
   */
  method LocateKey(ch: char) returns (r: Option<(nat, nat, char)>)
    ensures r == Locate(ch)
  {
    LayoutsRectangular();
    var found := FindChar(ch, LAYOUT);
    if found.Some? {
      FirstCellSpec(LAYOUT, ch);
      var (row, col) := found.value;
      return Some((row, col, SHIFTED_LAYOUT[row][col]));
    }
    found := FindChar(ch, SHIFTED_LAYOUT);
    if found.Some? {
      FirstCellSpec(SHIFTED_LAYOUT, ch);
      var (row, col) := found.value;
      return Some((row, col, LAYOUT[row][col]));
    }
    return None;
  }

  /** Row `b` of the table is the entry of its character. */
  lemma TableRow(b: nat)
    requires b < N_TYPEABLES
    ensures Table()[b] == Entry(RowChar(b))
  {
  }

  /** A byte on no key leaves its row (if it has one) as the table wants it: all NULs. */
  lemma SkipRow(res: array2<char>, t: seq<string>, byte: nat)
    requires res.Length0 == N_TYPEABLES && res.Length1 == N_MISCLICKS && t == Table()
    requires ' ' as nat <= byte <= '~' as nat && FilledUpTo(res, t, byte - ' ' as nat)
    requires Locate(byte as char).None?
    ensures FilledUpTo(res, t, byte + 1 - ' ' as nat)
  {
    var b := byte - ' ' as nat;
    if b < N_TYPEABLES {
      assert RowChar(b) == byte as char;
      assert t[b] == Nuls(N_MISCLICKS);
    }
  }

  /** A byte on a key whose row now holds its entry moves the filled part on by one row. */
  lemma FilledRow(res: array2<char>, t: seq<string>, byte: nat, row: nat, col: nat, toggled: char)
    requires res.Length0 == N_TYPEABLES && res.Length1 == N_MISCLICKS && t == Table()
    requires ' ' as nat <= byte && byte - ' ' as nat < N_TYPEABLES
    requires Locate(byte as char) == Some((row, col, toggled))
    requires forall j :: 0 <= j < N_MISCLICKS ==> res[byte - ' ' as nat, j] == KeyEntry(row, col, toggled)[j]
    requires forall a, j :: 0 <= a < N_TYPEABLES && 0 <= j < N_MISCLICKS && a != byte - ' ' as nat ==>
               res[a, j] == if a < byte - ' ' as nat then t[a][j] else '\0'
    ensures FilledUpTo(res, t, byte + 1 - ' ' as nat)
  {
    var b := byte - ' ' as nat;
    TableRow(b);
    assert RowChar(b) == byte as char;
    forall a, j | 0 <= a < N_TYPEABLES && 0 <= j < N_MISCLICKS
      ensures res[a, j] == if a < b + 1 then t[a][j] else '\0'
    {
      if a == b {
        assert res[a, j] == KeyEntry(row, col, toggled)[j];
      }
    }
  }

  /**
   * The table row `ch` selects: `ch - ' '` when that is a row, else a row
   * of NULs (`checked_sub`, `get`, `unwrap_or`).
   */
  function RowOf(ch: char): (r: string)
    ensures |r| == N_MISCLICKS
  {
    if ch < ' ' || ch as int - ' ' as int >= N_TYPEABLES then Nuls(N_MISCLICKS)
    else Table()[ch as int - ' ' as int]
  }

  /** `qwerty_misclicks`: the selected row with its NUL padding filtered out. */
  function QwertyMisclicks(ch: char): (r: string)
  {
    NonNul(RowOf(ch))
  }

  /**
   * What `qwerty_misclicks` means, stated without the table: for a
   * character on a key, the character on the same key in the other layer,
   * then the neighbours of that key on the unshifted layer, then those on
   * the shifted layer, each in ring order; nothing for any other character.
   */
  function Misclicks(ch: char): (r: string)
  {
    match Locate(ch)
    case None => []
    case Some((row, col, toggled)) =>
      [toggled] + NonNul(Ring(LAYOUT, row, col)) + NonNul(Ring(SHIFTED_LAYOUT, row, col))
  }

  /** Each table row, once its NULs are dropped, is the misclick list of its character. */
  lemma EntryMisclicks(ch: char)
    ensures NonNul(Entry(ch)) == Misclicks(ch)
  {
    match Locate(ch)
    case None =>
      NonNulNuls(N_MISCLICKS);
    case Some((row, col, toggled)) =>
      OnKeyPrintable(ch, row, col, toggled);
      CompactedRowClears(toggled, Ring(LAYOUT, row, col), Ring(SHIFTED_LAYOUT, row, col));
  }

  /** A row made of a character and two compacted rings loses exactly the rings' NULs. */
  lemma CompactedRowClears(toggled: char, l: string, u: string)
    requires toggled != '\0'
    ensures NonNul([toggled] + MovedNulsToEnd(l + u)) == [toggled] + NonNul(l) + NonNul(u)
  {
    NonNulAppend([toggled], MovedNulsToEnd(l + u));
    assert NonNul([toggled]) == [toggled] by { assert [toggled][..0] == []; }
    NonNulMoved(l + u);
    NonNulAppend(l, u);
  }

  /**
   * `qwerty_misclicks` yields exactly `Misclicks(ch)`: the lookup through the
   * table, the compaction and the filter lose and add nothing, and a
   * character outside `' '..'}'` (where `checked_sub` or `get` fails) is on
   * no key.
   */
  lemma QwertyMisclicksMeaning(ch: char)
    ensures QwertyMisclicks(ch) == Misclicks(ch)
  {
    if ch < ' ' || ch as int - ' ' as int >= N_TYPEABLES {
      NonNulNuls(N_MISCLICKS);
      match Locate(ch)
      case None =>
      case Some((row, col, toggled)) =>
        OnKeyPrintable(ch, row, col, toggled);
    } else {
      assert RowChar(ch as int - ' ' as int) == ch;
      EntryMisclicks(ch);
    }
  }

  /**
   * At most seventeen characters, never a NUL, and the first of them is the
   * same key in the other layer; nothing at all for a character on no key.
   */
  lemma QwertyMisclicksShape(ch: char)
    ensures |QwertyMisclicks(ch)| <= N_MISCLICKS
    ensures '\0' !in QwertyMisclicks(ch)
    ensures QwertyMisclicks(ch) == [] <==> Locate(ch).None?
    ensures Locate(ch).Some? ==> QwertyMisclicks(ch)[0] == Locate(ch).value.2
  {
    QwertyMisclicksMeaning(ch);
  }

  /** The example of the documentation: `a` may be a slip for its shifted self or the keys around it. */
  lemma MisclicksOfA()
    ensures QwertyMisclicks('a') == "AqwszxQWSZX"
  {
    QwertyMisclicksMeaning('a');
    LocateA();
    RingsOfA();
  }

  /** `a` is on row 2, column 0, and shifts to `A`. */
  lemma LocateA()
    ensures Locate('a') == Some((2, 0, 'A'))
  {
    LayoutsRectangular();
    FirstCellSpec(LAYOUT, 'a');
    assert LAYOUT[2][0] == 'a';
    assert FirstCell(LAYOUT, 'a') == Some((2, 0));
  }

  /** The neighbours of row 2, column 0 on both layers. */
  lemma RingsOfA()
    ensures NonNul(Ring(LAYOUT, 2, 0)) == "qwszx"
    ensures NonNul(Ring(SHIFTED_LAYOUT, 2, 0)) == "QWSZX"
  {
    assert Ring(LAYOUT, 2, 0) == ['\0', 'q', 'w', '\0', 's', '\0', 'z', 'x'];
    assert Ring(SHIFTED_LAYOUT, 2, 0) == ['\0', 'Q', 'W', '\0', 'S', '\0', 'Z', 'X'];
    Ring8Cleared('\0', 'q', 'w', '\0', 's', '\0', 'z', 'x');
    Ring8Cleared('\0', 'Q', 'W', '\0', 'S', '\0', 'Z', 'X');
  }
}

/** The fixed emoji sets shared by both windows, and the 3x3 grid the nine
    buttons are laid out on.

    A set is named by a tag: the window code compares sets by identity
    (`is not emojis_setN`), not by content, so the state the handlers keep is
    which set is current. `GlyphsInjective` shows that nothing is lost by
    this: no two of the seven sets have the same content. */
module EmojiSets {

  /** The number of buttons, and the length of every set. */
  const SlotCount: nat := 9

  /** The number of columns of the button grid. */
  const Columns: nat := 3

  datatype SetTag = Set1 | Set2 | Set3 | Set4 | Set5 | Set6 | Set7

  /** The glyphs of one set, in button order. */
  function Glyphs(t: SetTag): (s: seq<string>)
    ensures |s| == SlotCount
    ensures forall i :: 0 <= i < |s| ==> s[i] != ""
  {
    match t
    case Set1 => ["👾", "🍕", "🔥", "😢", "😄", "⭐", "❤️", "👍", "🐙"]
    case Set2 => ["🚀", "🌈", "🎉", "😎", "🌸", "🐶", "🐱", "🍔", "☕"]
    case Set3 => ["🦊", "🐻", "🐯", "🐺", "🐑", "🐗", "🦄", "🦉", "🦌"]
    case Set4 => ["🚗", "🚲", "🚁", "🐍", "✈️", "🚀", "🚂", "🚢", "🚤"]
    case Set5 => ["🎮", "🕹️", "👾", "🎲", "🎯", "🎳", "🎰", "🃏", "🕶️"]
    case Set6 => ["🎶", "🎵", "🎷", "🎸", "🎤", "🎹", "🥁", "🎺", "🎻"]
    case Set7 => ["🍉", "🍇", "🍓", "🍍", "🍊", "🍋", "🥭", "🍎", "🍏"]
  }

  /** Two sets have the same glyphs exactly when they are the same set, so
      comparing tags is the same as comparing the lists by identity. */
  lemma GlyphsInjective(a: SetTag, b: SetTag)
    ensures Glyphs(a) == Glyphs(b) <==> a == b
  {
  }

  /** A grid position. */
  datatype Cell = Cell(row: nat, col: nat)

  /** Where button `i` goes: `row, col = divmod(i, 3)`. */
  function GridCell(i: nat): (c: Cell)
    requires i < SlotCount
    ensures c.row < Columns && c.col < Columns
    ensures c.row * Columns + c.col == i
  {
    Cell(i / Columns, i % Columns)
  }

  /** The nine buttons occupy nine distinct cells. */
  lemma GridCellInjective(i: nat, j: nat)
    requires i < SlotCount && j < SlotCount
    ensures GridCell(i) == GridCell(j) <==> i == j
  {
  }

  /** Every cell of the 3x3 grid is occupied by some button. */
  lemma GridCellOnto(c: Cell)
    requires c.row < Columns && c.col < Columns
    ensures GridCell(c.row * Columns + c.col) == c
  {
  }
}

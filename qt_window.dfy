/** The Qt window of emome.py (qemome.py is the same file): nine emoji
    buttons that keep copies of the current set's glyphs, the keyboard
    callbacks that switch the current set, and the click that copies a glyph
    and toggles the window.

    The system clipboard is the field `lastCopied` of the window; whether
    the window is shown is the boolean `visible`. */
module QtWindow {
  import opened Wrappers
  import opened EmojiSets
  import opened Selection

  class EmojiButton {
    /** The glyph this button copies when clicked. */
    var emojiSymbol: string
    /** The label Qt draws on the button. */
    var text: string
    /** The grid position the button was added at. */
    const cell: Cell

    constructor (symbol: string, cell: Cell)
      ensures emojiSymbol == symbol && text == symbol && this.cell == cell
    {
      emojiSymbol := symbol;
      text := symbol;
      this.cell := cell;
    }

    /** The button's `clicked` signal: copy its glyph, then toggle the
        window the button belongs to. */
    method CopyToClipboard(window: EmojiWindow)
      requires window.Valid() && this in window.buttons
      modifies window`lastCopied, window`visible
      ensures window.Valid()
      ensures window.lastCopied == Some(emojiSymbol)
      ensures window.visible == !old(window.visible)
    {
      window.lastCopied := Some(emojiSymbol);
      window.ToggleVisibility();
    }
  }

  class EmojiWindow {
    /** Which of the seven sets is current (`current_emojis`). */
    var current: SetTag
    /** The nine buttons, in grid order (`emoji_buttons`). */
    const buttons: seq<EmojiButton>
    var visible: bool
    var lastCopied: Option<string>

    /** Nine distinct buttons, button `i` at `divmod(i, 3)`. */
    ghost predicate WellFormed()
      reads this
    {
      && |buttons| == SlotCount
      && (forall i, j :: 0 <= i < j < |buttons| ==> buttons[i] != buttons[j])
      && (forall i :: 0 <= i < |buttons| ==> buttons[i].cell == GridCell(i))
    }

    /** Every button holds, and is labelled with, the glyph of set `t` at its position. */
    ghost predicate Shows(t: SetTag)
      requires WellFormed()
      reads this, buttons
    {
      forall i :: 0 <= i < SlotCount ==>
        buttons[i].emojiSymbol == Glyphs(t)[i] && buttons[i].text == Glyphs(t)[i]
    }

    /** The invariant every callback keeps: the buttons show the current set. */
    ghost predicate Valid()
      reads this, buttons
    {
      WellFormed() && Shows(current)
    }

    /** `EmojiWindow()` with its `initUI`: Set1 is current, and nine fresh
        buttons are created for it, button `i` at `divmod(i, 3)`. The window
        is not shown until the caller shows it. */
    constructor ()
      ensures Valid()
      ensures current == Set1
      ensures forall i :: 0 <= i < |buttons| ==> fresh(buttons[i])
      ensures !visible && lastCopied == None
    {
      var made: seq<EmojiButton> := [];
      var i := 0;
      while i < SlotCount
        invariant i <= SlotCount && |made| == i
        invariant forall j :: 0 <= j < i ==> fresh(made[j])
        invariant forall j, k :: 0 <= j < k < i ==> made[j] != made[k]
        invariant forall j :: 0 <= j < i ==> made[j].cell == GridCell(j)
        invariant forall j :: 0 <= j < i ==>
          made[j].emojiSymbol == Glyphs(Set1)[j] && made[j].text == Glyphs(Set1)[j]
      {
        var button := new EmojiButton(Glyphs(Set1)[i], GridCell(i));
        made := made + [button];
        i := i + 1;
      }
      current := Set1;
      buttons := made;
      visible := false;
      lastCopied := None;
    }

    /** `update_buttons`: copy the current set into the nine buttons. Every
        set has nine glyphs, so each index names an existing button. */
    method UpdateButtons()
      requires WellFormed()
      modifies buttons
      ensures Shows(current)
    {
      var shown := Glyphs(current);
      for i := 0 to |shown|
        invariant forall j :: 0 <= j < i ==>
          buttons[j].emojiSymbol == shown[j] && buttons[j].text == shown[j]
      {
        buttons[i].emojiSymbol := shown[i];
        buttons[i].text := shown[i];
      }
    }

    /** The guarded assignment every acting callback performs: switch to
        `t` and refresh the buttons, unless `t` is already current. */
    method Select(t: SetTag)
      requires Valid()
      modifies this`current, buttons
      ensures Valid() && current == t
      ensures old(current) == t ==> unchanged(buttons)
    {
      if current != t {
        current := t;
        UpdateButtons();
      }
    }

    method ShiftKeyPressed(e: KeyEvent)
      requires Valid()
      modifies this`current, buttons
      ensures Valid() && current == Next(old(current), Pressed(Shift, e))
      ensures current == old(current) ==> unchanged(buttons)
    {
      if !e.isKeypad {
        Select(Set2);
      }
    }

    method ShiftKeyReleased(e: KeyEvent)
      requires Valid()
      modifies this`current, buttons
      ensures Valid() && current == Next(old(current), Released(Shift, e))
      ensures current == old(current) ==> unchanged(buttons)
    {
      if !e.isKeypad {
        Select(Set1);
      }
    }

    method CtrlKeyPressed(e: KeyEvent)
      requires Valid()
      modifies this`current, buttons
      ensures Valid() && current == Next(old(current), Pressed(Ctrl, e))
      ensures current == old(current) ==> unchanged(buttons)
    {
      if !e.isKeypad {
        Select(Set3);
      }
    }

    method CtrlKeyReleased(e: KeyEvent)
      requires Valid()
      modifies this`current, buttons
      ensures Valid() && current == Next(old(current), Released(Ctrl, e))
      ensures current == old(current) ==> unchanged(buttons)
    {
      if !e.isKeypad {
        Select(Set1);
      }
    }

    method AltKeyPressed(e: KeyEvent)
      requires Valid()
      modifies this`current, buttons
      ensures Valid() && current == Next(old(current), Pressed(Alt, e))
      ensures current == old(current) ==> unchanged(buttons)
    {
      if !e.isKeypad {
        Select(Set4);
      }
    }

    method AltKeyReleased(e: KeyEvent)
      requires Valid()
      modifies this`current, buttons
      ensures Valid() && current == Next(old(current), Released(Alt, e))
      ensures current == old(current) ==> unchanged(buttons)
    {
      if !e.isKeypad {
        Select(Set1);
      }
    }

    method CtrlAltPressed()
      requires Valid()
      modifies this`current, buttons
      ensures Valid() && current == Next(old(current), Hotkey(CtrlAlt))
      ensures current == old(current) ==> unchanged(buttons)
    {
      Select(Set7);
    }

    method CtrlShiftPressed()
      requires Valid()
      modifies this`current, buttons
      ensures Valid() && current == Next(old(current), Hotkey(CtrlShift))
      ensures current == old(current) ==> unchanged(buttons)
    {
      Select(Set5);
    }

    method AltShiftPressed()
      requires Valid()
      modifies this`current, buttons
      ensures Valid() && current == Next(old(current), Hotkey(AltShift))
      ensures current == old(current) ==> unchanged(buttons)
    {
      Select(Set6);
    }

    /** `toggle_visibility` (also the Ctrl+Alt+E hotkey): hide a shown
        window, show a hidden one. */
    method ToggleVisibility()
      modifies this`visible
      ensures visible == !old(visible)
    {
      if visible {
        visible := false;
      } else {
        visible := true;
      }
    }
  }

  /** A caller's view: after the window is built, a Ctrl+Shift hotkey and a
      Shift release, Set1 is shown again, and clicking the third button
      copies its Set1 glyph and shows the window. */
  method ReleaseAfterComboScenario()
  {
    var w := new EmojiWindow();
    w.ShiftKeyPressed(KeyEvent(false));
    w.CtrlShiftPressed();
    assert w.current == Set5;
    w.ShiftKeyReleased(KeyEvent(false));
    assert w.current == Set1;
    var third := w.buttons[2];
    assert third.emojiSymbol == Glyphs(Set1)[2] == "🔥";
    third.CopyToClipboard(w);
    assert w.lastCopied == Some("🔥") && w.visible;
  }
}

/** The Tk variant of the window (tkemome.py): two sets only, one keyboard
    hook that looks at whether Shift is held, and buttons whose command
    copies their glyph and iconifies the window.

    The script's globals (`current_emojis`, `emoji_buttons`, `root`) are the
    fields of one `EmojiApp` object. `keyboard.is_pressed('shift')` is the
    parameter of the hook; the clipboard is the field `lastCopied`; the Tk
    window state is reduced to whether it is iconic. */
module TkWindow {
  import opened Wrappers
  import opened EmojiSets

  /** The set the hook selects for a Shift state. */
  function ShiftSelect(shiftHeld: bool): (t: SetTag)
    ensures t == Set2 <==> shiftHeld
    ensures t == Set1 <==> !shiftHeld
  {
    if shiftHeld then Set2 else Set1
  }

  /** The current set after the hook has fired once per Shift state in `helds`. */
  function HookRun(current: SetTag, helds: seq<bool>): SetTag
    decreases |helds|
  {
    if helds == [] then current else HookRun(ShiftSelect(helds[0]), helds[1..])
  }

  /** The result of a run of the hook depends only on the last Shift state
      it saw, not on the history before it. */
  lemma {:induction false} HookRunIsLast(current: SetTag, helds: seq<bool>)
    requires helds != []
    ensures HookRun(current, helds) == ShiftSelect(helds[|helds| - 1])
    decreases |helds|
  {
    if |helds| > 1 {
      HookRunIsLast(ShiftSelect(helds[0]), helds[1..]);
    }
  }

  /** Firing the hook again with the same Shift state changes nothing. */
  lemma HookIdempotent(current: SetTag, helds: seq<bool>, held: bool)
    ensures HookRun(current, helds + [held, held]) == HookRun(current, helds + [held])
  {
    HookRunIsLast(current, helds + [held, held]);
    HookRunIsLast(current, helds + [held]);
  }

  /** Starting from one of the two sets, the hook never leaves them. */
  lemma {:induction false} HookStaysInTwoSets(current: SetTag, helds: seq<bool>)
    requires current == Set1 || current == Set2
    ensures HookRun(current, helds) == Set1 || HookRun(current, helds) == Set2
    decreases |helds|
  {
    if helds != [] {
      HookStaysInTwoSets(ShiftSelect(helds[0]), helds[1..]);
    }
  }

  class TkButton {
    /** The label Tk draws on the button (`button['text']`). */
    var text: string
    /** The glyph bound into the button's command (`lambda e=emoji_symbol: ...`). */
    var commandEmoji: string
    /** The grid position (`button.grid(row=row, column=col)`). */
    const cell: Cell

    constructor (symbol: string, cell: Cell)
      ensures text == symbol && commandEmoji == symbol && this.cell == cell
    {
      text := symbol;
      commandEmoji := symbol;
      this.cell := cell;
    }
  }

  class EmojiApp {
    /** `current_emojis`: Set1 or Set2. */
    var current: SetTag
    /** `emoji_buttons`, in grid order. */
    const buttons: seq<TkButton>
    /** `root.state() == 'iconic'`. */
    var iconic: bool
    var lastCopied: Option<string>

    /** Nine distinct buttons, button `i` at `divmod(i, 3)`. */
    ghost predicate WellFormed()
      reads this
    {
      && |buttons| == SlotCount
      && (forall i, j :: 0 <= i < j < |buttons| ==> buttons[i] != buttons[j])
      && (forall i :: 0 <= i < |buttons| ==> buttons[i].cell == GridCell(i))
    }

    /** Every button is labelled with, and its command copies, the glyph of
        set `t` at its position. */
    ghost predicate Shows(t: SetTag)
      requires WellFormed()
      reads this, buttons
    {
      forall i :: 0 <= i < SlotCount ==>
        buttons[i].text == Glyphs(t)[i] && buttons[i].commandEmoji == Glyphs(t)[i]
    }

    /** The invariant the hook keeps: one of the two sets is current and the
        buttons show it. */
    ghost predicate Valid()
      reads this, buttons
    {
      WellFormed() && (current == Set1 || current == Set2) && Shows(current)
    }

    /** The script's start-up: Set1 is current and a fresh button is created
        for each of its glyphs; the window starts out not iconic. */
    constructor ()
      ensures Valid()
      ensures current == Set1
      ensures forall i :: 0 <= i < |buttons| ==> fresh(buttons[i])
      ensures !iconic && lastCopied == None
    {
      var made: seq<TkButton> := [];
      var i := 0;
      while i < SlotCount
        invariant i <= SlotCount && |made| == i
        invariant forall j :: 0 <= j < i ==> fresh(made[j])
        invariant forall j, k :: 0 <= j < k < i ==> made[j] != made[k]
        invariant forall j :: 0 <= j < i ==> made[j].cell == GridCell(j)
        invariant forall j :: 0 <= j < i ==>
          made[j].text == Glyphs(Set1)[j] && made[j].commandEmoji == Glyphs(Set1)[j]
      {
        var button := new TkButton(Glyphs(Set1)[i], GridCell(i));
        made := made + [button];
        i := i + 1;
      }
      current := Set1;
      buttons := made;
      iconic := false;
      lastCopied := None;
    }

    /** `update_buttons`: relabel every button and rebind its command to the
        current set's glyph at its position. */
    method UpdateButtons()
      requires WellFormed()
      modifies buttons
      ensures Shows(current)
    {
      var shown := Glyphs(current);
      for i := 0 to |shown|
        invariant forall j :: 0 <= j < i ==>
          buttons[j].text == shown[j] && buttons[j].commandEmoji == shown[j]
      {
        buttons[i].text := shown[i];
        buttons[i].commandEmoji := shown[i];
      }
    }

    /** `shift_key_handler`, run for every key event: Set2 while Shift is
        held, Set1 otherwise; the buttons are refreshed only on a change. */
    method ShiftKeyHandler(shiftHeld: bool)
      requires Valid()
      modifies this`current, buttons
      ensures Valid() && current == ShiftSelect(shiftHeld)
      ensures current == old(current) ==> unchanged(buttons)
    {
      if shiftHeld {
        if current != Set2 {
          current := Set2;
          UpdateButtons();
        }
      } else {
        if current != Set1 {
          current := Set1;
          UpdateButtons();
        }
      }
    }

    /** `copy_to_clipboard`. */
    method CopyToClipboard(emoji: string)
      modifies this`lastCopied
      ensures lastCopied == Some(emoji)
    {
      lastCopied := Some(emoji);
    }

    /** `toggle_visibility`: deiconify an iconic window, iconify any other. */
    method ToggleVisibility()
      modifies this`iconic
      ensures iconic == !old(iconic)
    {
      if iconic {
        iconic := false;
      } else {
        iconic := true;
      }
    }

    /** Tk runs the command of button `i`: copy the glyph bound into it and
        iconify the window, whatever state it was in. */
    method Click(i: nat)
      requires Valid() && i < |buttons|
      modifies this`lastCopied, this`iconic
      ensures Valid()
      ensures lastCopied == Some(Glyphs(current)[i]) && lastCopied == Some(buttons[i].text)
      ensures iconic
    {
      CopyToClipboard(buttons[i].commandEmoji);
      iconic := true;
    }
  }
}

# emome: the emoji-set selection state machine

emome shows a floating window of nine emoji buttons. Clicking a button copies
its emoji to the clipboard. Holding keyboard modifiers switches which of
several fixed emoji sets the buttons show. A Ctrl+Alt+E hotkey shows or hides
the window. There are two front ends:

- `emome.py`, built on Qt. `qemome.py` is a byte-for-byte copy of it, so one
  model (module `QtWindow`) serves both, and the rows below cite either file.
  It has seven sets and nine callbacks: a press and a release callback for
  each of Shift, Ctrl and Alt, and three combination hotkeys.
- `tkemome.py`, built on Tk. It has two sets and one hook that runs on every
  key event and looks only at whether Shift is held.

The project models what the callbacks do to the window's state. That state is:

- the current set;
- the nine buttons, each holding a glyph and a label, which `update_buttons`
  rewrites in place in a loop;
- whether the window is shown (Qt) or iconic (Tk);
- the last value copied to the clipboard.

Files:

- `emoji_sets.dfy` (module `EmojiSets`): the seven sets and the 3x3 button grid.
- `selection.dfy` (module `Selection`): the Qt callbacks' effect on the current
  set, as a pure transition function `Next`, and lemmas about histories of
  callbacks (`Run`).
- `qt_window.dfy` (module `QtWindow`): the Qt button and window classes. Each
  callback is a method. Each method is specified by `Next` and keeps the
  invariant `Valid()`, which says the buttons show the current set.
- `tk_window.dfy` (module `TkWindow`): the Tk script. Its globals become the
  fields of one `EmojiApp` object.
- `wrappers.dfy` (module `Wrappers`): an `Option` type for the clipboard.

The code compares sets by identity (`is not emojis_setN`). The model names
each set by a tag instead. `GlyphsInjective` shows that no two sets have the
same content, so comparing tags gives the same answer.

The model follows the code as written:

- Any non-keypad release of Shift, Ctrl or Alt selects Set1, even while another
  modifier is still held. For example, Shift, then Ctrl+Shift, then releasing
  Shift ends on Set1. A design that tracked the held modifiers would end on
  Set3 here. `ReleaseAfterAnyHistory` and `ShiftCtrlReleaseShift` state what
  the code does.
- There is no callback for Ctrl+Alt+Shift, so the model has none.

## Model

| member | source | states |
|---|---|---|
| EmojiSets.Glyphs | emome.py:21-27 | each of the seven sets has exactly nine non-empty glyphs, so every slot index below nine is in bounds |
| EmojiSets.GlyphsInjective | tkemome.py:29-30 | two sets are equal exactly when their tags are equal, so deciding "is this set already current?" by tag agrees with the identity test |
| EmojiSets.GridCell | emome.py:135 | button i goes to row i div 3 and column i mod 3, inside the 3x3 grid, and row * 3 + col gives back i |
| EmojiSets.GridCellInjective | tkemome.py:110-111 | two buttons share a grid cell exactly when they are the same button |
| EmojiSets.GridCellOnto | emome.py:134-135 | every cell of the 3x3 grid holds some button |
| Selection.NextCharacterized | emome.py:170-219 | a callback that acts selects its own fixed set (Shift, Ctrl and Alt presses give Set2, Set3 and Set4; any release gives Set1; Ctrl+Alt, Ctrl+Shift and Alt+Shift give Set7, Set5 and Set6) whatever was current; a keypad press or release changes nothing |
| Selection.EveryTargetReachable | emome.py:148-166 | each of the seven sets is selected by some registered callback |
| Selection.RunIsLastActing | qemome.py:170-219 | after any sequence of callbacks, the current set is the set of the last callback that acted, or the starting set if none acted |
| Selection.ReleaseAfterAnyHistory | emome.py:176-204 | a non-keypad release of any modifier, after any history, leaves Set1 current |
| Selection.KeypadHistoryChangesNothing | emome.py:171 | a sequence of keypad-only press and release events leaves the current set unchanged |
| Selection.RepeatIsNoOp | qemome.py:206-219 | delivering a callback twice in a row has the same result as delivering it once |
| Selection.ShiftCtrlReleaseShift | emome.py:176-180 | starting from Set1, Shift down, then the Ctrl+Shift hotkey, then Shift up, ends on Set1 rather than Set3 |
| QtWindow.EmojiButton.constructor | emome.py:45-48 | a new button holds and is labelled with the glyph it was created for, at its grid cell |
| QtWindow.EmojiButton.CopyToClipboard | emome.py:50-64 | a click puts the button's glyph on the clipboard and flips the window's visibility; the window invariant is kept |
| QtWindow.EmojiWindow.constructor | emome.py:104-146 | Set1 is current, and there are nine distinct fresh buttons; button i holds Set1's glyph i at cell divmod(i, 3) |
| QtWindow.EmojiWindow.UpdateButtons | emome.py:221-224 | afterwards every button i holds, and is labelled with, glyph i of the current set |
| QtWindow.EmojiWindow.Select | emome.py:172-174 | the requested set becomes current and the buttons show it; if it was already current, no button is touched |
| QtWindow.EmojiWindow.ShiftKeyPressed | emome.py:170-174 | the new current set is Next of the old one for a Shift press: Set2 unless it is a keypad event; the buttons show it; they are untouched when nothing changed |
| QtWindow.EmojiWindow.ShiftKeyReleased | emome.py:176-180 | the new current set is Set1 unless it is a keypad event; the buttons show it; they are untouched when nothing changed |
| QtWindow.EmojiWindow.CtrlKeyPressed | emome.py:182-186 | the new current set is Set3 unless it is a keypad event; the buttons show it; they are untouched when nothing changed |
| QtWindow.EmojiWindow.CtrlKeyReleased | emome.py:188-192 | the new current set is Set1 unless it is a keypad event; the buttons show it; they are untouched when nothing changed |
| QtWindow.EmojiWindow.AltKeyPressed | emome.py:194-198 | the new current set is Set4 unless it is a keypad event; the buttons show it; they are untouched when nothing changed |
| QtWindow.EmojiWindow.AltKeyReleased | emome.py:200-204 | the new current set is Set1 unless it is a keypad event; the buttons show it; they are untouched when nothing changed |
| QtWindow.EmojiWindow.CtrlAltPressed | emome.py:206-209 | Set7 becomes current with no keypad check; the buttons show it; they are untouched when it was already current |
| QtWindow.EmojiWindow.CtrlShiftPressed | emome.py:211-214 | Set5 becomes current with no keypad check; the buttons show it; they are untouched when it was already current |
| QtWindow.EmojiWindow.AltShiftPressed | emome.py:216-219 | Set6 becomes current with no keypad check; the buttons show it; they are untouched when it was already current |
| QtWindow.EmojiWindow.ToggleVisibility | emome.py:226-230 | visibility is negated, so two toggles restore it; nothing else changes |
| TkWindow.ShiftSelect | tkemome.py:90-97 | the hook selects Set2 exactly when Shift is held, and Set1 exactly when it is not |
| TkWindow.HookRunIsLast | tkemome.py:89-97 | after any non-empty run of the hook, the current set depends only on the last Shift state, not on the history |
| TkWindow.HookIdempotent | tkemome.py:91-97 | running the hook again with the same Shift state changes nothing |
| TkWindow.HookStaysInTwoSets | tkemome.py:29-32 | starting from Set1 or Set2, the hook only ever selects Set1 or Set2 |
| TkWindow.TkButton.constructor | tkemome.py:112-113 | a new button is labelled with its glyph, its command copies that glyph, and it sits at its grid cell |
| TkWindow.EmojiApp.constructor | tkemome.py:108-115 | Set1 is current, there are nine distinct fresh buttons, button i shows and copies Set1's glyph i at cell divmod(i, 3), and the window is not iconic |
| TkWindow.EmojiApp.UpdateButtons | tkemome.py:72-75 | afterwards every button i is labelled with glyph i of the current set and its command copies that glyph |
| TkWindow.EmojiApp.ShiftKeyHandler | tkemome.py:78-97 | the current set becomes Set2 when Shift is held and Set1 otherwise; the buttons show it; they are untouched when the set did not change |
| TkWindow.EmojiApp.CopyToClipboard | tkemome.py:35-45 | the clipboard holds the given glyph |
| TkWindow.EmojiApp.ToggleVisibility | tkemome.py:48-55 | an iconic window is deiconified and any other is iconified, so whether it is iconic flips |
| TkWindow.EmojiApp.Click | tkemome.py:74-75 | running button i's command copies the glyph button i shows, which is glyph i of the current set, and leaves the window iconic from any prior state |

## Left out

- Widget construction, fonts, sizes, style sheets, icons, palettes and the main loops: these are rendering. This includes `emoji_window.show()` in the Qt entry point, so the Qt constructor leaves the window hidden.
- The `keyboard` library: how it detects presses, releases and hotkeys, and its listener thread. Each registered callback is a method the caller invokes. When or in which order the library fires overlapping hotkey and per-key callbacks is concurrency in a foreign library and is not modelled.
- `keyboard.is_pressed('shift')` in the Tk hook is the parameter `shiftHeld`.
- `pyperclip.copy` is an OS call. It is modelled only as the field `lastCopied`.
- Qt's real `isVisible` and Tk window-manager states other than iconic and non-iconic are booleans (`visible`, `iconic`).
- Qt's `setText` is modelled as the button field `text`. Tk's `button['text']` is also the field `text`. Tk's command closure is the glyph it copies (`commandEmoji`); it always copies that glyph and iconifies the window (`EmojiApp.Click`).
- A Ctrl+Alt+Shift combination and a lookup of the full set of held modifiers: the code has neither, so the model has neither.

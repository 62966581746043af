/**
 * The editor's closed set of commands and the translation of key events
 * into them (the `document.onkeydown` and `document.onkeypress` handlers).
 */
module Keys {
  import opened Wrappers

  /** One constructor per `cmd*` function; `KeyPress` is the closure built per typed character. */
  datatype Command =
    | Backspace | Complete | Done
    | End | Home | Left | Right
    | HistoryPrev | HistoryNext
    | DeleteChar | KillToEOF | Yank
    | Redraw  // cmdRefresh
    | ReverseSearch | BackwardWord | ForwardWord
    | KeyPress(c: char)

  /** What a key event does: pass through, swallow without a command, or queue a command. */
  datatype KeyAction = Pass | Swallow | Run(cmd: Command)

  /** The first `switch` of the keydown handler: keys bound whatever the modifiers. */
  function SpecialKey(code: int): Option<Command> {
    match code
    case 8 => Some(Backspace)
    case 9 => Some(Complete)
    case 13 => Some(Done)
    case 35 => Some(End)
    case 36 => Some(Home)
    case 37 => Some(Left)
    case 38 => Some(HistoryPrev)
    case 39 => Some(Right)
    case 40 => Some(HistoryNext)
    case 46 => Some(DeleteChar)
    case _ => None
  }

  /** Keys the first `switch` catches with no command. Code 20 is not one of them. */
  predicate Swallowed(code: int) {
    code == 10 || code == 19 || code == 27 || code == 33 || code == 34 || code == 45
  }

  /** The Control-only table. */
  function CtrlKey(code: int): Option<Command> {
    match code
    case 65 => Some(Home)
    case 69 => Some(End)
    case 66 => Some(Left)
    case 70 => Some(Right)
    case 80 => Some(HistoryPrev)
    case 78 => Some(HistoryNext)
    case 75 => Some(KillToEOF)
    case 89 => Some(Yank)
    case 68 => Some(DeleteChar)
    case 76 => Some(Redraw)
    case 82 => Some(ReverseSearch)
    case _ => None
  }

  /** The Alt-only table. */
  function AltKey(code: int): Option<Command> {
    match code
    case 66 => Some(BackwardWord)
    case 70 => Some(ForwardWord)
    case _ => None
  }

  /**
   * The keydown handler's decision. The layers apply in order: the fixed
   * keys, the swallowed keys, then the Control-only table when exactly
   * Control is held, or the Alt-only table when exactly Alt is held.
   */
  function KeyDown(active: bool, code: int, ctrl: bool, shift: bool, alt: bool): (r: KeyAction)
    ensures !active ==> r == Pass
    ensures active && SpecialKey(code).Some? ==> r == Run(SpecialKey(code).value)
    ensures active && Swallowed(code) ==> r == Swallow
    ensures active && SpecialKey(code).None? && !Swallowed(code) && ctrl && !shift && !alt ==>
              r == (if CtrlKey(code).Some? then Run(CtrlKey(code).value) else Pass)
    ensures active && SpecialKey(code).None? && !Swallowed(code) && alt && !ctrl && !shift ==>
              r == (if AltKey(code).Some? then Run(AltKey(code).value) else Pass)
    ensures (ctrl == alt || shift) && SpecialKey(code).None? && !Swallowed(code) ==> r == Pass
    ensures r.Run? ==> !r.cmd.KeyPress?
  {
    if !active then
      Pass
    else if SpecialKey(code).Some? then
      Run(SpecialKey(code).value)
    else if Swallowed(code) then
      Swallow
    else if ctrl && !shift && !alt then
      match CtrlKey(code)
      case Some(cmd) => Run(cmd)
      case None => Pass
    else if alt && !ctrl && !shift then
      match AltKey(code)
      case Some(cmd) => Run(cmd)
      case None => Pass
    else
      Pass
  }

  /** The keypress handler: while active every typed character queues its insertion. */
  function KeyPressed(active: bool, c: char): (r: KeyAction)
    ensures active <==> r == Run(KeyPress(c))
    ensures !active <==> r == Pass
  {
    if active then Run(KeyPress(c)) else Pass
  }

  /** The fixed keys ignore the modifiers entirely. */
  lemma FixedKeysIgnoreModifiers(code: int, ctrl: bool, shift: bool, alt: bool)
    requires code in {8, 9, 13, 35, 36, 37, 38, 39, 40, 46}
    ensures KeyDown(true, code, ctrl, shift, alt) == KeyDown(true, code, false, false, false)
    ensures KeyDown(true, code, ctrl, shift, alt).Run?
  {
  }

  /** Only Tab requests a completion and only Enter submits the line. */
  lemma AsyncCommandsHaveOneKey(active: bool, code: int, ctrl: bool, shift: bool, alt: bool)
    ensures KeyDown(active, code, ctrl, shift, alt) == Run(Complete) <==> active && code == 9
    ensures KeyDown(active, code, ctrl, shift, alt) == Run(Done) <==> active && code == 13
  {
  }

  /** A key is swallowed without a command exactly on the six listed codes. */
  lemma SwallowedExactly(code: int, ctrl: bool, shift: bool, alt: bool)
    ensures KeyDown(true, code, ctrl, shift, alt) == Swallow <==> Swallowed(code)
  {
  }

  /** Code 20, named CAPS_LOCK in the key-name table, is not swallowed: it passes through. */
  lemma CapsLockPasses(ctrl: bool, shift: bool, alt: bool)
    ensures KeyDown(true, 20, ctrl, shift, alt) == Pass
  {
  }

  /** The emacs bindings, and that adding Shift disables them. */
  lemma EmacsBindings()
    ensures KeyDown(true, 65, true, false, false) == Run(Home)
    ensures KeyDown(true, 69, true, false, false) == Run(End)
    ensures KeyDown(true, 75, true, false, false) == Run(KillToEOF)
    ensures KeyDown(true, 89, true, false, false) == Run(Yank)
    ensures KeyDown(true, 65, true, true, false) == Pass
    ensures KeyDown(true, 66, false, false, true) == Run(BackwardWord)
    ensures KeyDown(true, 66, true, false, true) == Pass
  {
  }
}

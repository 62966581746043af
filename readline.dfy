/**
 * The `ReadLine` editor object: the closure's fields as the fields of a
 * class, each command as a method that updates them in place, and the
 * command queue as a sequence that `Queue` pushes onto and `Resume` drains.
 * Each command and queue method is proved to move the object exactly as the
 * EditorSpec function named in its `ensures` moves the value: `Snapshot()`
 * for a single command, `Model()` once the queue is involved. The setters,
 * `Suspend` and `AddText` state their change directly.
 */
module ReadLine {
  import opened Wrappers
  import opened Keys
  import opened HistoryRing
  import opened EditorSpec
  import StrUtil

  class Editor {
    var text: string
    var cursor: nat
    var killBuffer: string
    var completionActive: bool
    const history: History
    var suspended: bool
    var awaitingCompletion: nat
    var awaitingEnter: nat
    var active: bool
    var onCompletion: bool
    var onEnter: bool
    var onChange: bool
    var onKeydown: bool
    var notices: seq<Notice>
    var cmdQueue: seq<Command>

    /** The closure's fields as a value. */
    function Snapshot(): State
      reads this, history
    {
      State(text, cursor, killBuffer, completionActive, history.Model(), suspended,
            awaitingCompletion, awaitingEnter, active,
            Handlers(onCompletion, onEnter, onChange, onKeydown), notices)
    }

    /** The fields together with the command queue. */
    function Model(): Machine
      reads this, history
    {
      Machine(Snapshot(), cmdQueue)
    }

    predicate Valid()
      reads this, history
    {
      Model().Valid()
    }

    constructor ()
      ensures Valid() && Model() == INITIAL && fresh(history)
    {
      text, cursor, killBuffer, completionActive := "", 0, "", false;
      history := new History();
      suspended, awaitingCompletion, awaitingEnter := false, 0, 0;
      active := false;
      onCompletion, onEnter, onChange, onKeydown := false, false, false, false;
      notices, cmdQueue := [], [];
    }

    method Activate()
      modifies this
      ensures Model() == old(Model()).(st := old(Snapshot()).(active := true))
    {
      active := true;
    }

    method Deactivate()
      modifies this
      ensures Model() == old(Model()).(st := old(Snapshot()).(active := false))
    {
      active := false;
    }

    method OnCompletion(present: bool)
      modifies this
      ensures Model() == old(Model()).(st := old(Snapshot()).(handlers := old(Snapshot()).handlers.(completion := present)))
    {
      onCompletion := present;
    }

    method OnEnter(present: bool)
      modifies this
      ensures Model() == old(Model()).(st := old(Snapshot()).(handlers := old(Snapshot()).handlers.(enter := present)))
    {
      onEnter := present;
    }

    method OnChange(present: bool)
      modifies this
      ensures Model() == old(Model()).(st := old(Snapshot()).(handlers := old(Snapshot()).handlers.(change := present)))
    {
      onChange := present;
    }

    method OnKeydown(present: bool)
      modifies this
      ensures Model() == old(Model()).(st := old(Snapshot()).(handlers := old(Snapshot()).handlers.(keydown := present)))
    {
      onKeydown := present;
    }

    /** `getLine()`. */
    method GetLine() returns (line: Line)
      ensures line.text == text && line.cursor == cursor
    {
      line := Line(text, cursor);
    }

    method Refresh()
      modifies this
      ensures Snapshot() == EditorSpec.Refresh(old(Snapshot())) && cmdQueue == old(cmdQueue)
    {
      if completionActive {
        completionActive := false;
        if onCompletion {
          notices := notices + [CompletionEnded];
        }
      }
      if onChange {
        notices := notices + [Changed(Line(text, cursor))];
      }
    }

    method UpdateCursor(position: nat)
      modifies this
      ensures Snapshot() == EditorSpec.UpdateCursor(old(Snapshot()), position) && cmdQueue == old(cmdQueue)
    {
      cursor := position;
      Refresh();
    }

    method CmdBackspace()
      requires Snapshot().Valid()
      modifies this
      ensures Snapshot() == EditorSpec.CmdBackspace(old(Snapshot())) && cmdQueue == old(cmdQueue)
    {
      if cursor == 0 {
        return;
      }
      cursor := cursor - 1;
      text := StrUtil.Remove(text, cursor, cursor + 1);
      Refresh();
    }

    method CmdComplete()
      requires Snapshot().Valid()
      modifies this
      ensures Snapshot() == EditorSpec.CmdComplete(old(Snapshot())) && cmdQueue == old(cmdQueue)
    {
      if !onCompletion {
        return;
      }
      Suspend();
      notices := notices + [CompletionRequested(Line(text, cursor))];
      awaitingCompletion := awaitingCompletion + 1;
    }

    /** `suspend(asyncCall)`, less the call, which the two commands make themselves. */
    method Suspend()
      modifies this
      ensures Snapshot() == old(Snapshot()).(suspended := true) && cmdQueue == old(cmdQueue)
    {
      suspended := true;
    }

    method CmdDone()
      requires Snapshot().Valid()
      modifies this, history
      ensures Snapshot() == EditorSpec.CmdDone(old(Snapshot())) && cmdQueue == old(cmdQueue)
    {
      if text == "" {
        return;
      }
      var submitted := text;
      ghost var s0 := Snapshot();
      history.Accept(submitted);
      text := "";
      cursor := 0;
      ghost var s1 := Snapshot();
      assert s1 == Submitted(s0);
      if !onEnter {
        return;
      }
      Suspend();
      notices := notices + [EnterRequested(submitted, Line(text, cursor))];
      awaitingEnter := awaitingEnter + 1;
      assert Snapshot() == AwaitEnter(s1, submitted);
    }

    method CmdEnd()
      requires Snapshot().Valid()
      modifies this
      ensures Snapshot() == EditorSpec.CmdEnd(old(Snapshot())) && cmdQueue == old(cmdQueue)
    {
      UpdateCursor(|text|);
    }

    method CmdHome()
      requires Snapshot().Valid()
      modifies this
      ensures Snapshot() == EditorSpec.CmdHome(old(Snapshot())) && cmdQueue == old(cmdQueue)
    {
      UpdateCursor(0);
    }

    method CmdLeft()
      requires Snapshot().Valid()
      modifies this
      ensures Snapshot() == EditorSpec.CmdLeft(old(Snapshot())) && cmdQueue == old(cmdQueue)
    {
      if cursor == 0 {
        return;
      }
      UpdateCursor(cursor - 1);
    }

    method CmdRight()
      requires Snapshot().Valid()
      modifies this
      ensures Snapshot() == EditorSpec.CmdRight(old(Snapshot())) && cmdQueue == old(cmdQueue)
    {
      if cursor == |text| {
        return;
      }
      UpdateCursor(cursor + 1);
    }

    /** `getHistory(_history.prev)` when `back`, `getHistory(_history.next)` otherwise. */
    method GetHistory(back: bool)
      requires Snapshot().Valid()
      requires if back then history.Model().HasPrev() else history.Model().HasNext()
      modifies this, history
      ensures Snapshot() == EditorSpec.GetHistory(old(Snapshot()), back) && cmdQueue == old(cmdQueue)
    {
      history.Update(text);
      var entry;
      if back {
        entry := history.Prev();
      } else {
        entry := history.Next();
      }
      text := entry;
      UpdateCursor(|text|);
    }

    method CmdHistoryPrev()
      requires Snapshot().Valid()
      modifies this, history
      ensures Snapshot() == EditorSpec.CmdHistoryPrev(old(Snapshot())) && cmdQueue == old(cmdQueue)
    {
      var hasPrev := history.HasPrev();
      if !hasPrev {
        return;
      }
      GetHistory(true);
    }

    method CmdHistoryNext()
      requires Snapshot().Valid()
      modifies this, history
      ensures Snapshot() == EditorSpec.CmdHistoryNext(old(Snapshot())) && cmdQueue == old(cmdQueue)
    {
      var hasNext := history.HasNext();
      if !hasNext {
        return;
      }
      GetHistory(false);
    }

    method CmdDeleteChar()
      requires Snapshot().Valid()
      modifies this
      ensures Snapshot() == EditorSpec.CmdDeleteChar(old(Snapshot())) && cmdQueue == old(cmdQueue)
    {
      if cursor == |text| {
        return;
      }
      text := StrUtil.Remove(text, cursor, cursor + 1);
      Refresh();
    }

    method CmdKillToEOF()
      requires Snapshot().Valid()
      modifies this
      ensures Snapshot() == EditorSpec.CmdKillToEOF(old(Snapshot())) && cmdQueue == old(cmdQueue)
    {
      killBuffer := text[cursor..];
      text := text[..cursor];
      Refresh();
    }

    method CmdYank()
      requires Snapshot().Valid()
      modifies this
      ensures Snapshot() == EditorSpec.CmdYank(old(Snapshot())) && cmdQueue == old(cmdQueue)
    {
      text := StrUtil.Insert(text, cursor, killBuffer);
      UpdateCursor(cursor + |killBuffer|);
    }

    /** `addText(c)`. */
    method AddText(c: char)
      requires Snapshot().Valid()
      modifies this
      ensures Snapshot() == EditorSpec.Refresh(old(Snapshot()).(
                text := StrUtil.Insert(old(text), old(cursor), [c]), cursor := old(cursor) + 1))
      ensures cmdQueue == old(cmdQueue)
    {
      text := StrUtil.Insert(text, cursor, [c]);
      cursor := cursor + 1;
      Refresh();
    }

    /** The `cmdKeyPress` closure queued for a typed character. */
    method CmdKeyPress(c: char)
      requires Snapshot().Valid()
      modifies this
      ensures Snapshot() == EditorSpec.CmdKeyPress(old(Snapshot()), c) && cmdQueue == old(cmdQueue)
    {
      AddText(c);
      if onKeydown {
        notices := notices + [Keydown(c as int, true)];
      }
    }

    /** `call(cmd)`; the three reserved stubs do nothing. */
    method Call(cmd: Command)
      requires Snapshot().Valid()
      modifies this, history
      ensures Snapshot() == Step(old(Snapshot()), cmd) && cmdQueue == old(cmdQueue)
    {
      match cmd
      case Backspace => CmdBackspace();
      case Complete => CmdComplete();
      case Done => CmdDone();
      case End => CmdEnd();
      case Home => CmdHome();
      case Left => CmdLeft();
      case Right => CmdRight();
      case HistoryPrev => CmdHistoryPrev();
      case HistoryNext => CmdHistoryNext();
      case DeleteChar => CmdDeleteChar();
      case KillToEOF => CmdKillToEOF();
      case Yank => CmdYank();
      case Redraw => Refresh();
      case ReverseSearch =>
      case BackwardWord =>
      case ForwardWord =>
      case KeyPress(c) => CmdKeyPress(c);
    }

    /** `queue(cmd)`. */
    method Queue(cmd: Command)
      requires Valid()
      modifies this, history
      ensures Valid() && Model() == Enqueue(old(Model()), cmd)
    {
      cmdQueue := cmdQueue + [cmd];
      if suspended {
        return;
      }
      var next := cmdQueue[0];
      cmdQueue := cmdQueue[1..];
      Call(next);
    }

    /** `resume()`, its tail recursion written as a loop. */
    method Resume()
      requires Snapshot().Valid()
      modifies this, history
      ensures Valid() && Model() == Drain(old(Model()))
    {
      while cmdQueue != []
        invariant Snapshot().Valid()
        invariant Drain(Model()) == Drain(old(Model()))
        decreases |cmdQueue|
      {
        var next := cmdQueue[0];
        cmdQueue := cmdQueue[1..];
        Call(next);
      }
      suspended := false;
    }

    /** The body of the completion callback, up to its call of `resume`. */
    method ApplyCompletion(completion: Option<string>)
      requires Snapshot().Valid()
      modifies this
      ensures Snapshot() == CompletionApplied(old(Snapshot()), completion) && cmdQueue == old(cmdQueue)
    {
      if completion.Some? && completion.value != "" {
        text := StrUtil.Insert(text, cursor, completion.value);
        UpdateCursor(cursor + |completion.value|);
      }
      completionActive := true;
    }

    /** The callback handed to the completion handler, called with its reply. */
    method CompletionReply(completion: Option<string>)
      requires Valid() && awaitingCompletion > 0
      modifies this, history
      ensures Valid() && Model() == EditorSpec.CompletionReply(old(Model()), completion)
    {
      awaitingCompletion := awaitingCompletion - 1;
      ghost var reply := Snapshot();
      ApplyCompletion(completion);
      assert Model() == Machine(CompletionApplied(reply, completion), old(cmdQueue));
      Resume();
    }

    /** The callback handed to the enter handler. */
    method EnterReply()
      requires Valid() && awaitingEnter > 0
      modifies this, history
      ensures Valid() && Model() == EditorSpec.EnterReply(old(Model()))
    {
      awaitingEnter := awaitingEnter - 1;
      Resume();
    }

    /** `document.onkeydown`; `handled` is false exactly when the event is let through. */
    method HandleKeyDown(code: int, ctrl: bool, shift: bool, alt: bool) returns (handled: bool)
      requires Valid()
      modifies this, history
      ensures Valid() && Model() == OnKeyDown(old(Model()), code, ctrl, shift, alt)
      ensures handled <==> KeyDown(old(active), code, ctrl, shift, alt) != Pass
    {
      var action := KeyDown(active, code, ctrl, shift, alt);
      if action == Pass {
        return false;
      }
      if action.Run? {
        Queue(action.cmd);
      }
      if onKeydown {
        notices := notices + [Keydown(code, false)];
      }
      handled := true;
    }

    /** `document.onkeypress`. */
    method HandleKeyPress(c: char) returns (handled: bool)
      requires Valid()
      modifies this, history
      ensures Valid() && Model() == OnKeyPress(old(Model()), c)
      ensures handled == old(active)
    {
      if !active {
        return false;
      }
      Queue(KeyPress(c));
      handled := true;
    }
  }
}

/**
 * The navigation core of the game loop: the game state (the navigation stack
 * of interface pointers, the `running` flag and the prompt buffer), the
 * up/down moves on the top interface's selection, the visible window of the
 * command box, the per-event step of the main loop, the loop itself, and the
 * prompt line editor. Terminal output and the blocking event poll are left
 * out; events arrive as a sequence.
 */
module TermQuest {
  import opened Wrappers
  import opened Events
  import opened Interfaces
  import opened Layout
  import opened Prompt
  import opened CStrings

  /**
   * The selection invariant: the cursor row lies inside the command box, the
   * window start command - cursor is not negative, and the selected command
   * exists whenever the interface has any command.
   */
  predicate WellFormed(s: Selection, count: nat) {
    s.cursor < CommandBoxHeight && s.cursor <= s.command && (s.command < count || s.command == 0)
  }

  /** termquest_interface_move_up on the selection. */
  function MoveUp(s: Selection): (r: Selection)
    ensures s.command > 0 ==> r.command + 1 == s.command
    ensures s.command == 0 ==> r.command == 0
    ensures s.cursor > 0 ==> r.cursor + 1 == s.cursor
    ensures s.cursor == 0 ==> r.cursor == 0
  {
    Selection(if s.command > 0 then s.command - 1 else s.command,
              if s.cursor > 0 then s.cursor - 1 else s.cursor)
  }

  /** termquest_interface_move_down on the selection of an interface with `count` commands. */
  function MoveDown(s: Selection, count: nat): (r: Selection)
    ensures r == s || r.command == s.command + 1 < count
    ensures r.cursor == s.cursor || (r.cursor == s.cursor + 1 < CommandBoxHeight && r.command == s.command + 1)
    ensures s.command + 1 < count ==> r.command == s.command + 1 && (s.cursor + 1 < CommandBoxHeight ==> r.cursor == s.cursor + 1)
    ensures s.command + 1 >= count ==> r == s
  {
    if s.command + 1 < count then
      Selection(s.command + 1, if s.cursor + 1 < CommandBoxHeight then s.cursor + 1 else s.cursor)
    else
      s
  }

  /** The selection change one main-loop event makes. */
  function Apply(s: Selection, count: nat, e: Event): (r: Selection)
    ensures !IsKey(e, ArrowUp) && !IsKey(e, ArrowDown) ==> r == s
    ensures r == s || r == MoveUp(s) || r == MoveDown(s, count)
  {
    if IsKey(e, ArrowUp) then MoveUp(s)
    else if IsKey(e, ArrowDown) then MoveDown(s, count)
    else s
  }

  /** The selection after a run of main-loop events. */
  function Replay(s: Selection, count: nat, events: seq<Event>): (r: Selection)
    ensures r.command <= s.command || r.command < count
    ensures r.cursor <= s.cursor || r.cursor < CommandBoxHeight
    decreases |events|
  {
    if events == [] then s
    else Apply(Replay(s, count, events[..|events| - 1]), count, events[|events| - 1])
  }

  /**
   * The commands a run of main-loop events dispatches: each Enter dispatches
   * the command selected at that moment, when there is one.
   */
  function Dispatches(s: Selection, commands: seq<Command>, events: seq<Event>): (r: seq<Command>)
    ensures |r| <= CountKey(events, Enter)
    ensures forall c :: c in r ==> c in commands
    decreases |events|
  {
    if events == [] then []
    else
      var prior := events[..|events| - 1];
      var sel := Replay(s, |commands|, prior);
      if IsKey(events[|events| - 1], Enter) && sel.command < |commands|
      then Dispatches(s, commands, prior) + [commands[sel.command]]
      else Dispatches(s, commands, prior)
  }

  /** The number of events in `events` that are key `k`. */
  function CountKey(events: seq<Event>, k: Key): (n: nat)
    ensures n <= |events|
    decreases |events|
  {
    if events == [] then 0
    else CountKey(events[..|events| - 1], k) + (if IsKey(events[|events| - 1], k) then 1 else 0)
  }

  /** n copies of event `e`. */
  function Repeat(e: Event, n: nat): (r: seq<Event>)
    ensures |r| == n
    ensures forall i :: 0 <= i < n ==> r[i] == e
  {
    if n == 0 then [] else Repeat(e, n - 1) + [e]
  }

  /** The selection and the dispatched commands after one more event. */
  lemma RunStep(s: Selection, commands: seq<Command>, events: seq<Event>, k: nat)
    requires k < |events|
    ensures Replay(s, |commands|, events[..k + 1]) == Apply(Replay(s, |commands|, events[..k]), |commands|, events[k])
    ensures Dispatches(s, commands, events[..k + 1])
         == Dispatches(s, commands, events[..k])
            + (var sel := Replay(s, |commands|, events[..k]);
               if IsKey(events[k], Enter) && sel.command < |commands| then [commands[sel.command]] else [])
  {
    assert events[..k + 1][..k] == events[..k];
  }

  /** Both moves keep the selection invariant. */
  lemma MovesKeepWellFormed(s: Selection, count: nat)
    requires WellFormed(s, count)
    ensures WellFormed(MoveUp(s), count)
    ensures WellFormed(MoveDown(s, count), count)
  {
  }

  /** Any run of events keeps the selection invariant. */
  lemma {:induction false} ReplayKeepsWellFormed(s: Selection, count: nat, events: seq<Event>)
    requires WellFormed(s, count)
    ensures WellFormed(Replay(s, count, events), count)
    decreases |events|
  {
    if events != [] {
      ReplayKeepsWellFormed(s, count, events[..|events| - 1]);
      MovesKeepWellFormed(Replay(s, count, events[..|events| - 1]), count);
    }
  }

  /** The selected command is always in range, so the window start plus the cursor row is the selection. */
  lemma {:induction false} ReplaySelectsExistingCommand(s: Selection, count: nat, events: seq<Event>)
    requires WellFormed(s, count) && count > 0
    ensures Replay(s, count, events).command < count
    ensures Replay(s, count, events).Offset() >= 0
    ensures Replay(s, count, events).Offset() + Replay(s, count, events).cursor == Replay(s, count, events).command
  {
    ReplayKeepsWellFormed(s, count, events);
  }

  /** n moves down select command min(command + n, count - 1): moving down clamps and never wraps. */
  lemma {:induction false} RepeatedMoveDown(s: Selection, count: nat, downs: seq<Event>)
    requires WellFormed(s, count) && count > 0
    requires forall i :: 0 <= i < |downs| ==> IsKey(downs[i], ArrowDown)
    ensures Replay(s, count, downs).command
         == if s.command + |downs| < count then s.command + |downs| else count - 1
    decreases |downs|
  {
    if downs != [] {
      var prior := downs[..|downs| - 1];
      RepeatedMoveDown(s, count, prior);
      assert IsKey(downs[|downs| - 1], ArrowDown);
    }
  }

  /** n moves up lower both indices by n, stopping at 0. */
  lemma {:induction false} RepeatedMoveUp(s: Selection, count: nat, ups: seq<Event>)
    requires forall i :: 0 <= i < |ups| ==> IsKey(ups[i], ArrowUp)
    ensures Replay(s, count, ups).command == if s.command >= |ups| then s.command - |ups| else 0
    ensures Replay(s, count, ups).cursor == if s.cursor >= |ups| then s.cursor - |ups| else 0
    decreases |ups|
  {
    if ups != [] {
      var prior := ups[..|ups| - 1];
      RepeatedMoveUp(s, count, prior);
      assert IsKey(ups[|ups| - 1], ArrowUp);
    }
  }

  /** Five commands, command 0 selected, ten moves down: command 4 is selected. */
  lemma TenMovesDownOnFiveCommands()
    ensures Replay(Selection(0, 0), 5, Repeat(KeyEvent(ArrowDown, 0), 10)).command == 4
  {
    RepeatedMoveDown(Selection(0, 0), 5, Repeat(KeyEvent(ArrowDown, 0), 10));
  }

  /** With command 0 selected, a move up leaves it selected. */
  lemma MoveUpAtTop(cursor: nat)
    ensures MoveUp(Selection(0, cursor)).command == 0
  {
  }

  /** On an interface with commands every Enter dispatches exactly one command, and it is one of them. */
  lemma {:induction false} EveryEnterDispatches(s: Selection, commands: seq<Command>, events: seq<Event>)
    requires WellFormed(s, |commands|) && |commands| > 0
    ensures |Dispatches(s, commands, events)| == CountKey(events, Enter)
    ensures forall c :: c in Dispatches(s, commands, events) ==> c in commands
    decreases |events|
  {
    if events != [] {
      var prior := events[..|events| - 1];
      EveryEnterDispatches(s, commands, prior);
      ReplaySelectsExistingCommand(s, |commands|, prior);
    }
  }

  /** An interface with no commands never dispatches. */
  lemma {:induction false} EmptyInterfaceNeverDispatches(s: Selection, events: seq<Event>)
    ensures Dispatches(s, [], events) == []
    decreases |events|
  {
    if events != [] {
      EmptyInterfaceNeverDispatches(s, events[..|events| - 1]);
    }
  }

  /**
   * The visible window of interface_render: for each row of the command box,
   * the index of the command fetched and drawn there (none when the row is
   * past either end of the list), and the row the "> " cursor is drawn on.
   */
  method CommandWindow(inf: Interface) returns (rows: seq<Option<nat>>, cursorRow: nat)
    ensures |rows| == CommandBoxHeight
    ensures forall i :: 0 <= i < |rows| ==> (rows[i].Some? <==> 0 <= inf.Sel().Offset() + i < |inf.commands|)
    ensures forall i :: 0 <= i < |rows| && rows[i].Some? ==>
              rows[i].value == inf.Sel().Offset() + i && rows[i].value < |inf.commands|
    ensures cursorRow == inf.cursorIndex
    ensures WellFormed(inf.Sel(), |inf.commands|) && |inf.commands| > 0 ==>
              cursorRow < |rows| && rows[cursorRow] == Some(inf.commandIndex)
  {
    var offset: int := inf.commandIndex - inf.cursorIndex;
    rows := [];
    var i := 0;
    while i < CommandBoxHeight
      invariant 0 <= i <= CommandBoxHeight && |rows| == i
      invariant forall j :: 0 <= j < i ==> (rows[j].Some? <==> 0 <= offset + j < |inf.commands|)
      invariant forall j :: 0 <= j < i && rows[j].Some? ==> rows[j].value == offset + j
    {
      if 0 <= offset + i < |inf.commands| {
        rows := rows + [Some((offset + i) as nat)];
      } else {
        rows := rows + [None];
      }
      i := i + 1;
    }
    cursorRow := inf.cursorIndex;
  }

  /** The process-wide game state: the navigation stack, the running flag and the prompt buffer. */
  class GameState {
    var stack: seq<Interface>
    var running: bool
    const promptBuffer: array<byte>

    /** The buffer has its fixed capacity and every interface on the stack has a well-formed selection. */
    ghost predicate Valid()
      reads this, stack
    {
      promptBuffer.Length == Capacity &&
      forall i :: 0 <= i < |stack| ==> WellFormed(stack[i].Sel(), |stack[i].commands|)
    }

    /** The static state before termquest_run: an empty stack, not running, a zeroed buffer. */
    constructor ()
      ensures Valid() && stack == [] && !running
      ensures fresh(promptBuffer) && forall i :: 0 <= i < promptBuffer.Length ==> promptBuffer[i] == 0
    {
      stack := [];
      running := false;
      promptBuffer := new byte[Capacity](_ => 0);
    }

    /** termquest_peek_interface: the interface on top of the stack. */
    function Peek(): (inf: Interface)
      reads this
      requires |stack| > 0
      ensures stack == stack[..|stack| - 1] + [inf]
    {
      stack[|stack| - 1]
    }

    /** termquest_push_interface. */
    method PushInterface(inf: Interface)
      requires Valid() && WellFormed(inf.Sel(), |inf.commands|)
      modifies this
      ensures Valid() && stack == old(stack) + [inf] && running == old(running)
    {
      stack := stack + [inf];
    }

    /** termquest_pop_interface: removes and returns the top interface. */
    method PopInterface() returns (inf: Interface)
      requires Valid() && |stack| > 0
      modifies this
      ensures Valid() && old(stack) == stack + [inf] && running == old(running)
    {
      inf := stack[|stack| - 1];
      stack := stack[..|stack| - 1];
    }

    /** A push followed by a pop returns the pushed interface and restores the stack. */
    method PushThenPop(inf: Interface) returns (popped: Interface)
      requires Valid() && WellFormed(inf.Sel(), |inf.commands|)
      modifies this
      ensures Valid() && popped == inf && stack == old(stack) && running == old(running)
    {
      PushInterface(inf);
      popped := PopInterface();
      assert old(stack) + [inf] == stack + [popped];
      assert (old(stack) + [inf])[|old(stack)|] == inf;
      assert (stack + [popped])[..|stack|] == stack;
    }

    /** termquest_interface_move_up on the top interface. */
    method InterfaceMoveUp()
      requires Valid() && |stack| > 0
      modifies Peek()
      ensures Valid()
      ensures Peek().Sel() == MoveUp(old(Peek().Sel()))
    {
      var inf := Peek();
      MovesKeepWellFormed(inf.Sel(), |inf.commands|);
      if inf.commandIndex > 0 {
        inf.commandIndex := inf.commandIndex - 1;
      }
      if inf.cursorIndex > 0 {
        inf.cursorIndex := inf.cursorIndex - 1;
      }
    }

    /** termquest_interface_move_down on the top interface. */
    method InterfaceMoveDown()
      requires Valid() && |stack| > 0
      modifies Peek()
      ensures Valid()
      ensures Peek().Sel() == MoveDown(old(Peek().Sel()), |Peek().commands|)
    {
      var inf := Peek();
      MovesKeepWellFormed(inf.Sel(), |inf.commands|);
      if inf.commandIndex + 1 < |inf.commands| {
        inf.commandIndex := inf.commandIndex + 1;
        if inf.cursorIndex + 1 < CommandBoxHeight {
          inf.cursorIndex := inf.cursorIndex + 1;
        }
      }
    }

    /** termquest_quit. */
    method Quit()
      modifies this`running
      ensures !running
    {
      running := false;
    }

    /**
     * The command termquest_execute_command hands to the mod list: the
     * selected command of the top interface, or none when that interface has
     * no commands and index 0 is out of range.
     */
    method ExecuteCommand() returns (cmd: Option<Command>)
      requires Valid() && |stack| > 0
      ensures cmd.Some? <==> |Peek().commands| > 0
      ensures cmd.Some? ==> Peek().commandIndex < |Peek().commands| && cmd.value == Peek().commands[Peek().commandIndex]
    {
      var inf := Peek();
      if inf.commandIndex < |inf.commands| {
        cmd := Some(inf.commands[inf.commandIndex]);
      } else {
        cmd := None;
      }
    }

    /**
     * One iteration of the main loop after rendering: ESC quits, the arrows
     * move the top interface's selection, Enter dispatches its selected
     * command, and anything else changes nothing.
     */
    method Step(e: Event) returns (dispatched: Option<Command>)
      requires Valid() && |stack| > 0
      modifies this`running, Peek()
      ensures Valid() && stack == old(stack)
      ensures running == (old(running) && !IsKey(e, Esc))
      ensures Peek().Sel() == Apply(old(Peek().Sel()), |Peek().commands|, e)
      ensures dispatched.Some? <==> IsKey(e, Enter) && |Peek().commands| > 0
      ensures dispatched.Some? ==> dispatched.value == Peek().commands[Peek().commandIndex]
    {
      dispatched := None;
      if e.KeyEvent? {
        if e.key == Esc {
          Quit();
        } else if e.key == ArrowUp {
          InterfaceMoveUp();
        } else if e.key == ArrowDown {
          InterfaceMoveDown();
        } else if e.key == Enter {
          dispatched := ExecuteCommand();
        }
      }
    }

    /**
     * termquest_run's loop over a given run of events: it stops after the
     * first ESC or when the events run out. Dispatching is handed to the mod
     * list, and the command it runs is assumed to change no state here: it
     * pushes and pops no interface and leaves running set.
     */
    method Run(events: seq<Event>) returns (consumed: nat, dispatched: seq<Command>)
      requires Valid() && |stack| > 0
      modifies this`running, Peek()
      ensures Valid() && stack == old(stack)
      ensures consumed <= |events|
      ensures running ==> consumed == |events|
      ensures !running ==> 0 < consumed && IsKey(events[consumed - 1], Esc)
      ensures forall k :: 0 <= k < consumed && (running || k < consumed - 1) ==> !IsKey(events[k], Esc)
      ensures Peek().Sel() == Replay(old(Peek().Sel()), |Peek().commands|, events[..consumed])
      ensures dispatched == Dispatches(old(Peek().Sel()), Peek().commands, events[..consumed])
    {
      ghost var top := Peek();
      ghost var s0 := top.Sel();
      ghost var commands := top.commands;
      running := true;
      consumed := 0;
      dispatched := [];
      while running && consumed < |events|
        invariant Valid() && stack == old(stack) && Peek() == top
        invariant consumed <= |events|
        invariant !running ==> 0 < consumed && IsKey(events[consumed - 1], Esc)
        invariant forall k :: 0 <= k < consumed && (running || k < consumed - 1) ==> !IsKey(events[k], Esc)
        invariant top.Sel() == Replay(s0, |commands|, events[..consumed])
        invariant dispatched == Dispatches(s0, commands, events[..consumed])
      {
        ghost var before := top.Sel();
        var d := Step(events[consumed]);
        RunStep(s0, commands, events, consumed);
        assert top.Sel() == Apply(before, |commands|, events[consumed]);
        if d.Some? {
          dispatched := dispatched + [d.value];
        }
        consumed := consumed + 1;
      }
    }

    /**
     * prompt_user's edit loop over a given run of events: the buffer is
     * zeroed, then edited until Enter or until the events run out. The
     * precondition rules out the unchecked store past the buffer's end.
     */
    method PromptUser(events: seq<Event>) returns (consumed: nat, done: bool)
      requires Valid()
      requires !Edit([], events).Overflow?
      modifies promptBuffer
      ensures done <==> Edit([], events).Entered?
      ensures done ==> consumed == |events| - Edit([], events).unread
      ensures done ==> (|Edit([], events).line| < promptBuffer.Length
                        && promptBuffer[..|Edit([], events).line|] == Edit([], events).line
                        && promptBuffer[|Edit([], events).line|] == 0)
      ensures done && 0 !in Edit([], events).line ==> UntilNul(promptBuffer[..], 0) == Edit([], events).line
      ensures !done ==> (consumed == |events|
                         && |Edit([], events).line| <= promptBuffer.Length
                         && promptBuffer[..|Edit([], events).line|] == Edit([], events).line)
    {
      forall i | 0 <= i < promptBuffer.Length {
        promptBuffer[i] := 0;
      }
      var index: nat := 0;
      consumed := 0;
      done := false;
      while !done && consumed < |events|
        invariant consumed <= |events|
        invariant index <= Capacity == promptBuffer.Length
        invariant !done ==> Edit([], events) == Edit(promptBuffer[..index], events[consumed..])
        invariant done ==> (index < Capacity && promptBuffer[index] == 0
                            && Edit([], events) == Entered(promptBuffer[..index], |events| - consumed))
      {
        var e := events[consumed];
        ghost var line := promptBuffer[..index];
        assert events[consumed..][0] == e && events[consumed..][1..] == events[consumed + 1..];
        if e.KeyEvent? {
          if e.key == Enter {
            done := true;
            promptBuffer[index] := 0;
          } else if IsBackspace(e.key) {
            if index > 0 {
              index := index - 1;
            }
            assert promptBuffer[..index] == DropLast(line);
          } else {
            promptBuffer[index] := ToByte(e.ch);
            index := index + 1;
            assert promptBuffer[..index] == line + [ToByte(e.ch)];
          }
        }
        consumed := consumed + 1;
      }
      if done && 0 !in promptBuffer[..index] {
        SubmittedCString(promptBuffer[..], promptBuffer[..index]);
      }
    }
  }
}

# TermQuest core in Dafny

TermQuest is a terminal game. Its screens are *interfaces*: a named box with a list of commands, drawn by termbox. Mods written in Lua register these interfaces at start-up. This project models two parts of it:

- **The navigation core of `src/termquest.c`.**
  - The game state: a navigation stack of interface pointers, the `running` flag and the 128-byte prompt buffer.
  - The moves up and down. They update an interface's `command_index` (the selected command) and `cursor_index` (the row of the 8-row command box it is drawn on), in place.
  - The window of commands that `interface_render` shows.
  - One step of the main loop, and the loop itself over a given run of events.
  - `prompt_user`'s edit loop over the buffer.
  - The content-area arithmetic of `termquest_width`, `termquest_height` and `termquest_render`.
- **The mod-loading core of `src/mod.c`.**
  - How `mod_init` derives a mod's name from its directory.
  - The registry key `"<mod>:<name>"`.
  - `data_extend`'s walk over definition records, with its Lua-stack bookkeeping.
  - `mod_register_interface`.
  - The script path and outcome of `mod_load`.

## Files and modules

- `wrappers.dfy` (`Wrappers`): `Option`.
- `cstrings.dfy` (`CStrings`): a C string as the characters before the first NUL.
- `events.dfy` (`Events`): the termbox events the core looks at.
- `interfaces.dfy` (`Interfaces`): `Command` and `Selection`, plus two classes:
  - `Interface`, with constant name and commands and mutable indices;
  - `InterfaceRegistry`, the registry as the sequence of insertions.
- `layout.dfy` (`Layout`): margins, box geometry and the u32 arithmetic of the content area.
- `prompt.dfy` (`Prompt`): the specification `Edit` of the prompt editor, and lemmas about typing, backspace and Enter.
- `termquest.dfy` (`TermQuest`):
  - the selection functions `MoveUp`, `MoveDown`, `Apply` and `Replay`, with their lemmas;
  - the method `CommandWindow`;
  - the class `GameState`. Its methods are proved against those functions.
- `mod.dfy` (`Mods`):
  - the name and key functions;
  - the reference definitions of what `data_extend` accepts and registers;
  - the walk `Walk` and lemmas about it;
  - the methods `RegisterInterface`, `VisitRecord`, `DataExtend` and `Load`.

## Where the code departs from the intended behaviour

The model follows the code in each case:

- A mod is meant to become active once its script has run without error. `mod_init` sets `active` to false, and nothing in `src/mod.c` ever sets it to true. `Mods.Load` keeps it unchanged.
- The `"<mod>:<name>"` key is meant to make names unique across mods. A mod directory whose name contains `':'` breaks this, as `Mods.QualifiedNamesCollide` shows. For mod names without `':'`, keys are distinct (`Mods.QualifiedNamesDistinct`).
- The registry is meant to reject duplicate names. The registry's code is not part of this model, so `InterfaceRegistry.Insert` records every insertion and assumes nothing about duplicates.
- An interface is meant to have a single selection index. The code keeps two indices, `command_index` and `cursor_index`, and `include/interface.h` declares neither. The model carries both.

## Model

| member | source | states |
|---|---|---|
| CStrings.UntilNul | src/mod.c:39-41 | the C view of a string is its longest NUL-free prefix, and it stops right before the first NUL |
| CStrings.UntilNulOfTerminated | src/termquest.c:216 | text free of NUL followed by a NUL reads back as exactly that text, whatever follows |
| Interfaces.Interface.constructor | src/mod.c:19 | a new interface has the given name and commands, with command 0 selected on row 0 (the zero start is assumed, see Left out) |
| Interfaces.Selection.Offset | src/termquest.c:100 | the first command drawn in the box is the selected one less its cursor row, and is never negative when the cursor is at or below the selection |
| Interfaces.InterfaceRegistry.Insert | src/mod.c:21 | the interface is appended to the insertions and its name to the keys, so every interface stays held under its own name, and nothing else changes |
| Layout.ToU32 | src/termquest.c:176-184 | the u32 result lies below 2^32, differs from the exact value by a multiple of 2^32, and equals it when it fits |
| Layout.ScreenColumn | src/termquest.c:186-189 | termquest_render draws content column x strictly right of the box's left border exactly when x is not negative |
| Layout.ScreenRow | src/termquest.c:186-189 | termquest_render draws content row y below the separator under the title exactly when y is not negative |
| Layout.ContentWidthAsWritten | src/termquest.c:176-179 | termquest_width as written is a u32 and, on a terminal at least both margins wide, adds back to the terminal width with both margins |
| Layout.ContentWidth | src/termquest.c:176-179 | the corrected width is 2 less than the value as written whenever there is an interior, and 0 when there is none |
| Layout.ContentHeight | src/termquest.c:181-184 | termquest_height is a u32 and, on a terminal at least 21 rows high, adds back to the terminal height with both margins, the command box and its 5 extra rows |
| Layout.ContentWidthOverrunsBox | src/termquest.c:54-58 | on an 80-column terminal the width as written is 72, and content column 71 lands on screen column 76, outside the box |
| Layout.LastReportedColumnsOutsideBox | src/termquest.c:186-189 | on every terminal the last two columns of the width as written are drawn outside the box interior |
| Layout.NarrowTerminalWidthWraps | src/termquest.c:176-179 | below 8 columns termquest_width wraps to 2^32 - 8 + width |
| Layout.ContentColumnsInsideBox | src/termquest.c:186-189 | with the corrected width every content column is drawn strictly between the box borders |
| Layout.InteriorColumnsAreContent | src/termquest.c:54-58 | every screen column strictly inside the box is reached by exactly the content column render shifts onto it |
| Layout.ContentRowsInsideBox | src/termquest.c:181-189 | when it does not wrap, every content row termquest_height reports, and one more, is drawn on a free row of the box |
| Layout.ShortTerminalHeightWraps | src/termquest.c:181-184 | on a terminal shorter than 21 rows termquest_height wraps to 2^32 - 21 + height |
| Prompt.ToByte | src/termquest.c:230 | storing a code point in a char keeps it when it fits in 8 bits, and otherwise keeps it modulo 256 |
| Prompt.Edit | src/termquest.c:208-235 | Enter ends the edit with a line shorter than the buffer and an index into the events; an unfinished edit never holds more than 128 bytes |
| Prompt.TypingAppends | src/termquest.c:228-233 | typing keys that fit appends their bytes, each truncated to 8 bits, to the live text |
| Prompt.BackspaceUndoesTyping | src/termquest.c:218-233 | a backspace right after a typed key takes that key back |
| Prompt.BackspaceOnEmpty | src/termquest.c:220-223 | a backspace on empty input changes nothing |
| Prompt.EnterSubmits | src/termquest.c:213-217 | Enter on a line shorter than the buffer submits that line |
| Prompt.EnterOverflows | src/termquest.c:213-217 | Enter on a full line would store the NUL past the end of the buffer |
| Prompt.TypedLineIsSubmitted | src/termquest.c:203-233 | typing up to 127 characters and then Enter submits exactly the typed bytes |
| Prompt.FullLineOverflows | src/termquest.c:216 | 128 typed characters and then Enter store out of bounds |
| Prompt.SubmittedCString | src/termquest.c:216 | once Enter has stored the NUL after a line without 0 bytes, the buffer's C string is that line |
| TermQuest.MoveUp | src/termquest.c:142-155 | each index drops by one when it is above 0 and stays at 0 otherwise |
| TermQuest.MoveDown | src/termquest.c:157-169 | when a next command exists it is selected, and the cursor row advances with it exactly when it stays inside the 8-row box; at the last command nothing changes |
| TermQuest.Apply | src/termquest.c:253-274 | only the arrow keys change the selection, and each one makes exactly one move |
| TermQuest.Replay | src/termquest.c:245-278 | after any events an index that rose lies in range: the command below the count, the cursor inside the box |
| TermQuest.Dispatches | src/termquest.c:245-278 | at most one command per Enter, each one of the interface's commands |
| TermQuest.RunStep | src/termquest.c:245-278 | one more loop iteration applies its event to the selection so far and appends the command an Enter dispatches |
| TermQuest.MovesKeepWellFormed | src/termquest.c:142-169 | both moves keep the cursor row inside the box, the cursor at or below the selected command, and the selection in range |
| TermQuest.ReplayKeepsWellFormed | src/termquest.c:245-278 | any run of main-loop events keeps the selection invariant |
| TermQuest.ReplaySelectsExistingCommand | src/termquest.c:100-113 | after any events the selected command exists, the window start is at least 0, and window start plus cursor row is the selected command |
| TermQuest.RepeatedMoveDown | src/termquest.c:157-169 | any n arrow-down events select command min(command + n, count - 1) |
| TermQuest.RepeatedMoveUp | src/termquest.c:142-155 | any n arrow-up events lower each index by n independently, stopping at 0 |
| TermQuest.TenMovesDownOnFiveCommands | src/termquest.c:160-162 | five commands and ten moves down select command 4 |
| TermQuest.MoveUpAtTop | src/termquest.c:146-149 | moving up from command 0 keeps command 0 |
| TermQuest.EveryEnterDispatches | src/termquest.c:191-195 | on an interface with commands, every Enter dispatches exactly one command, and it is one of that interface's commands |
| TermQuest.EmptyInterfaceNeverDispatches | src/termquest.c:191-195 | an interface with no commands dispatches nothing |
| TermQuest.CommandWindow | src/termquest.c:100-113 | row i shows command offset + i exactly when that index is in range, the cursor is on row cursor_index, and under the invariant that row shows the selected command |
| TermQuest.GameState.constructor | src/termquest.c:10-23 | the game starts with an empty stack, not running, and a zeroed prompt buffer |
| TermQuest.GameState.Peek | src/termquest.c:132-135 | peek returns the last interface pushed and leaves the stack as it is |
| TermQuest.GameState.PushInterface | src/termquest.c:127-130 | push appends the interface to the stack |
| TermQuest.GameState.PopInterface | src/termquest.c:137-140 | pop removes the top interface and returns it |
| TermQuest.GameState.PushThenPop | src/termquest.c:127-140 | a push followed by a pop returns the pushed interface and restores the stack |
| TermQuest.GameState.InterfaceMoveUp | src/termquest.c:142-155 | the top interface's selection becomes MoveUp of the old one, and the invariant holds |
| TermQuest.GameState.InterfaceMoveDown | src/termquest.c:157-169 | the top interface's selection becomes MoveDown of the old one, and the invariant holds |
| TermQuest.GameState.Quit | src/termquest.c:284-287 | running is false afterwards, and nothing else changes |
| TermQuest.GameState.ExecuteCommand | src/termquest.c:191-195 | a command is handed over exactly when the top interface has commands, and it is the selected one |
| TermQuest.GameState.Step | src/termquest.c:253-278 | ESC clears running; the arrows move only the top interface's selection; Enter dispatches its selected command; any other event changes nothing |
| TermQuest.GameState.Run | src/termquest.c:238-279 | the loop stops exactly at the first ESC, having consumed it, or when the events run out, while no ESC came before; the selection and the dispatched commands are the fold of the consumed events |
| TermQuest.GameState.PromptUser | src/termquest.c:197-236 | after zeroing, the buffer holds what Edit computes: on Enter the line followed by a NUL, whose C string is the line when it has no 0 byte |
| Mods.LastSlash | src/mod.c:57 | strrchr: the position of a '/' with none after it, or none when the path has no '/' |
| Mods.BaseName | src/mod.c:57-65 | the longest suffix of the path free of '/', preceded by a '/' whenever it is not the whole path |
| Mods.LastSlashBefore | src/mod.c:57 | the last '/' of dir/segment is the one before segment |
| Mods.BaseNameOfJoin | src/mod.c:57-65 | the mod in directory dir/segment is named segment |
| Mods.ScriptPath | src/mod.c:84 | the path is the mod directory followed by "/data.lua", and nothing else |
| Mods.ScriptPathInModDirectory | src/mod.c:84 | the script path starts with the mod directory and names the file data.lua |
| Mods.QualifiedName | src/mod.c:15-16 | the buffer of strlen(mod) + 1 + strlen(internal) + 1 bytes holds exactly the key and its NUL |
| Mods.FirstColonAfter | src/mod.c:16 | in prefix ":" rest with no ':' in prefix, the first ':' is right after prefix |
| Mods.SplitJoin | src/mod.c:16 | a key built from a mod name without ':' splits back into that mod name and the internal name |
| Mods.QualifiedNamesDistinct | src/mod.c:16 | mods whose names have no ':' share a key only when both the mod name and the internal name are the same |
| Mods.QualifiedNamesCollide | src/mod.c:16 | mod "a" with name "b:c" and mod "a:b" with name "c" build the same key |
| Mods.AlphaBetaMenus | src/mod.c:16 | mods alpha and beta both registering "menu" get the keys alpha:menu and beta:menu |
| Mods.Mod.constructor | src/mod.c:54-68 | mod_init keeps the path, names the mod by the path's last segment, and marks it inactive |
| Mods.CheckString | src/mod.c:14 | luaL_checkstring yields a value only for a field a table holds as a string or a number |
| Mods.IsInterfaceType | src/mod.c:41 | strcmp finds the type equal only when it starts with "interface" and ends, or has a NUL, right after |
| Mods.RecordStep | src/mod.c:36-48 | one record registers at most one key; when it raises, the error is TypeNotString or NameNotString at that record, and it registers nothing |
| Mods.Walk | src/mod.c:36-49 | the walk registers at most one key per record, and any error it raises is a record's, at a position among the records |
| Mods.Extend | src/mod.c:24-52 | data_extend raises ArgumentNotTable exactly when its argument is not a table, and then registers nothing |
| Mods.RecordStepRejects | src/mod.c:36-44 | a record data_extend does not accept raises its error and registers nothing |
| Mods.RecordStepAccepts | src/mod.c:36-44 | a record data_extend accepts raises nothing and registers its keys |
| Mods.WalkSucceedsIffWellFormed | src/mod.c:36-49 | the walk raises exactly when some record lacks a string type, or is an interface record without a string name |
| Mods.WalkRegistersInterfaceRecords | src/mod.c:19-21 | when every record is accepted, each interface record registers one key in order, and other types register none |
| Mods.WalkStep | src/mod.c:36-48 | after an accepted prefix, one more record adds its keys and raises its error |
| Mods.WalkErrorPersists | src/mod.c:36-39 | once a record has raised, later records change nothing |
| Mods.WalkStopsAtFirstMalformed | src/mod.c:36-44 | the walk raises at the first record it does not accept and keeps every key registered before it |
| Mods.WalkKeepsEarlierNames | src/mod.c:36-49 | keys registered by a prefix of the records are never rolled back |
| Mods.WalkNamesAreQualified | src/mod.c:15-16 | every key the walk registers starts with the mod name and ':' |
| Mods.MissingNameRejected | src/mod.c:13-14 | an interface record without a name raises NameNotString and registers nothing |
| Mods.RegisterInterface | src/mod.c:11-22 | raises when name is not a string, changing nothing; otherwise inserts one fresh interface with 0 commands, named by the key it is inserted under, keeps every interface under its own name, and leaves the Lua stack as it found it |
| Mods.VisitRecord | src/mod.c:38-48 | one iteration raises and registers as RecordStep says, adds only fresh interfaces, and pops the value and type, leaving only the key |
| Mods.DataExtend | src/mod.c:24-52 | raises and registers exactly as Extend says, raising before any registration on a non-table argument, and on success returns with the stack at its two arguments |
| Mods.RunCalls | src/mod.c:86 | the calls raise only data:extend errors, and a run without error means every call succeeded on its own |
| Mods.RunScript | src/mod.c:86 | a script runs without error only when it loads and raises nothing after its calls; one that does not load registers nothing |
| Mods.RunCallsStep | src/mod.c:86 | one more data:extend call after successful ones appends its keys |
| Mods.RunCallsErrorPersists | src/mod.c:86 | once a data:extend call has raised, the rest of the script registers nothing |
| Mods.RunCallsKeepEarlierNames | src/mod.c:86-90 | keys registered before a failure stay registered |
| Mods.ScriptErrorRegistersNothing | src/mod.c:86-89 | a script that does not load registers nothing |
| Mods.ExtendCall | src/mod.c:86 | the next call of the script registers what Extend says, keeps every interface already registered, and succeeds exactly when the calls so far succeed |
| Mods.RunExtendCalls | src/mod.c:86 | the script's calls register what RunCalls says, keep every interface already registered, and succeed exactly when none raises |
| Mods.Load | src/mod.c:83-90 | the path is filepath + "/data.lua"; the interpreter state stays open exactly when the script ran without error; the keys are those the script registered, added after every interface already registered, which stays; active is unchanged |

## Left out

- Terminal I/O. The `tb_*` calls, `render_string` and the box glyphs of `interface_render` are left out, apart from the coordinates `Layout` models. The terminal size is a parameter and input events are a sequence.
- The prompt's echo cells (`tb_change_cell` at message length plus index) and the message drawn at row 0. termbox clips off-screen cells, so they affect only the display.
- The Lua interpreter.
  - A script is modelled as whether it loads, the `data:extend` calls it makes in order, and whether it raises afterwards.
  - `lua_next` order is an input: the order of the record sequence.
  - The text of Lua error messages and the `fprintf` report are not modelled.
- The bodies of `stack.h`, `mod_list.h`, `prototype_registry.h` and `command.h` are not part of this model. The stack is a `seq` and the registry a record of insertions, with no assumption about duplicate names.
- What `mod_list_execute_command` does with a dispatched command is not modelled. The model computes which command is handed over and assumes the command has no effect on the game state: it pushes and pops no interface and does not clear `running`. `TermQuest.GameState.Run`'s unchanged stack, and its loop going on after an Enter, rest on this assumption. Index 0 of an interface with no commands is modelled as no command.
- The first interface on the stack. `termquest_run` calls `termquest_init`, which empties the stack, and no code shown pushes one. `Run` and `Step` take a non-empty stack as given.
- `termquest_create_save_file` is an empty stub.
- Interfaces.Interface.constructor: assumes a new interface starts with both indices at 0. The body of `interface_create` is not part of this model, and `include/interface.h` declares neither index.
- Errors a script catches itself with `pcall` are not modelled. The script model assumes every error `data:extend` raises ends the script; a caught error would leave the keys registered so far and let the script go on.
- The one-argument `interface_create` declared in `include/interface.h`, which `src/mod.c:19` calls with two arguments. The model's constructor takes a name and a command list.
- Whether a C `char` is signed. A stored character is its low 8 bits, as a `byte`.
- TermQuest.GameState.PromptUser: requires that no event writes past the 128-byte buffer. The source writes there unchecked, and `Prompt.Edit` returns `Overflow` for exactly those inputs (`Prompt.FullLineOverflows` shows one).
- TermQuest.GameState.PromptUser: models a finite run of events. The source blocks until Enter; an edit still `Waiting` at the end of the events is reported as not done.
- TermQuest.GameState.Run: models a finite run of events and stops when they run out. The source blocks on the next event.
- Mods.Load: requires that the script path fits in the PATH_MAX buffer, which `sprintf` fills unchecked.
- Mods.DataExtend: states that earlier insertions are kept and that every interface stays under its own name, so it adds one interface per new key. It does not repeat, for the whole call, that each new interface is fresh and has no commands; `Mods.RegisterInterface` and `Mods.VisitRecord` state that for each insertion.

## Findings

| source | as written | input that shows it | evidently intended | confidence | as-written member | corrected member |
|---|---|---|---|---|---|---|
| src/termquest.c:176-179 | termquest_width returns the terminal width less both margins. The box interior is two columns narrower than that, and termquest_render shifts content one column right. Below 8 columns the u32 result wraps. | an 80-column terminal: the width is 72, and content column 71 is drawn on screen column 76, past the right border at 75 | the number of columns strictly inside the box, which is 70 on 80 columns and 0 when there is no interior | not executed | Layout.ContentWidthOverrunsBox | Layout.ContentColumnsInsideBox |

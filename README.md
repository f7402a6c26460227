# Todo-App: a Dafny model of the terminal and desktop front ends

This project models the two front ends of a personal to-do list manager that
change the task list:

- the terminal command loop `todo_app_cli` (`cli.py`), with the commands
  `add`, `show`, `edit`, `complete` and `exit`;
- the desktop window `MainWindow` (`gui.py`), with its Save, Edit, Complete
  and Clear actions and its list-box selection.

Both read and write one backing file holding one task per line. The file is
reached through a `functions` module that is not part of this model. Here it is
the datatype `Storage.Store`: either `Missing`, or `Present(lines)`. A load of a
missing file fails with "not found", and every write replaces the whole contents.

## Layout

| file | module | what it holds |
|---|---|---|
| `wrappers.dfy` | `Wrappers` | `Option` |
| `text.dfy` | `Text` | Python's `strip()`, `strip(chars)`, `startswith`, `s[k:]`, `int()` and `str()` of a natural number, over ASCII |
| `lists.dfy` | `Lists` | Python list indexing with negative indices, `pop`, `index`, `remove` and assignment at `index` |
| `storage.dfy` | `Storage` | the backing file: `Load` and `Write` |
| `cli.dfy` | `Cli` | one round of the loop (`Step`), the loop folded over the typed lines (`Run`), the loop as a method (`TodoAppCli`), and the properties of each command |
| `gui.dfy` | `Gui` | the class `MainWindow` and its actions, and the startup path `Launch` |

### Terminal loop
`Step(cmd, store, reply)` handles one stripped command line. The result is one of:

- `Stored(file, output)`: the file is rewritten;
- `Message(output)`: the file is untouched;
- `Terminate(output)`: `exit`;
- `Crash(fault)`: an exception that nothing catches.

`reply` is the line the next `input()` call would return. Only `edit` reads
it, and only once it has passed its upper-bound check (`Prompts`). Printed text
is a list of `Printed` values; `Render` gives the exact argument of each `print` call in the source.
Each round reloads the list from the file, so the in-place `append`,
assignment and `pop` on the local `all_todos` act on a fresh list. Because of
that, they are modelled as values.

Some of these behaviours are easy to miss when reading the code:

- `edit` and `complete` do not catch `FileNotFoundError`, so with no backing
  file they end the program (`Crash(FileNotFound)`). Only `add` creates the file.
- `edit` checks only `index < len`. On a non-empty list, `edit 0` therefore
  replaces the last task.
  `edit n` with `n - 1 < -len` reads the new text and then raises an uncaught
  `IndexError`.
- On a non-empty list, `complete 0` removes the last task. Indices below `-len` print the
  "no such item" message.
- `show` with no backing file prints a message and does not create the file.
- `int()` skips only space, `\t`, `\n`, `\v`, `\f` and `\r` around the number. `strip()`
  also removes `\x1c`-`\x1f`, so `complete \x1f2` is "not valid" rather than
  removing task 2.
- `int()` refuses more than 4300 digits, leading zeros included (Python 3.12's
  default `sys.int_info.default_max_str_digits`). Such an `edit` or `complete`
  prints "not valid".
- Reaching the end of input at either prompt raises `EOFError`
  (`Crash(EndOfInput)`).

### Desktop window
`MainWindow` has these fields:

- `todos` (`all_todos_list`);
- `selected` (`todo_selected`);
- `input` (the text field, which the user sets through `TypeText`);
- `listbox` (the list box items);
- `file` (the backing file).

`Valid()` is the invariant that holds between actions:

- every task is stripped of surrounding whitespace;
- the list box shows the list;
- a selected task is one of the tasks;
- the file holds the list, each task followed by `"\n"`.

Every action keeps `Valid()`. This is what makes `list.index` and
`list.remove` safe in Save and Complete. A warning dialog is the `Warning`
value an action returns.

Saving straight after Edit never changes the list. Which warning appears
depends on the selected task. For a non-empty task it is "unchanged". For an
empty task, which a blank line in the file produces, it is "blank".

## Model

| member | source | states |
|---|---|---|
| `Text.TrimLeft` | cli.py:14 | `s.lstrip(chars)`: drops leading characters of `chars` one at a time. Its contract is stated by `Text.TrimLeftSpec` |
| `Text.TrimRight` | cli.py:14 | `s.rstrip(chars)`: drops trailing characters of `chars` one at a time. Its contract is stated by `Text.TrimRightSpec` |
| `Text.StripChars` | cli.py:36 | `s.strip(chars)` as `rstrip` after `lstrip`. Its contract is stated by `Text.StripCharsSpec`, `Text.StripPadded` and `Text.StripIdempotent` |
| `Text.Strip` | cli.py:14 | `s.strip()` with no argument strips the ASCII characters `str.isspace` accepts: space, `\t`, `\n`, `\v`, `\f`, `\r` and `\x1c`-`\x1f`. Its contract is the contract of `Text.StripChars` over that set |
| `Text.TrimLeftSpec` | cli.py:14 | stripping from the left removes exactly the longest prefix of stripped characters; the rest does not begin with one |
| `Text.TrimRightSpec` | cli.py:14 | stripping from the right removes exactly the longest suffix of stripped characters; the rest does not end with one |
| `Text.StripCharsSpec` | cli.py:36 | `s.strip(chars)` is an infix of `s` reached by removing only characters of `chars` at both ends, and it neither begins nor ends with one |
| `Text.StripStripped` | gui.py:40 | stripping an already stripped string returns it unchanged |
| `Text.StripPadded` | gui.py:185 | a stripped string padded on both sides with stripped characters strips back to itself |
| `Text.StripIdempotent` | gui.py:40 | stripping twice equals stripping once |
| `Text.StartsWith` | cli.py:16 | `s.startswith(p)`: `p` is no longer than `s` and agrees with `s` at each of its positions. `Cli.ClassifyExact` states what it decides for the command words |
| `Text.Drop` | cli.py:18 | `s[k:]` for `k >= 0`: the text after position `k`, or empty when `k` is past the end |
| `Text.NatToDecimal` | cli.py:36 | `str(n)` is a non-empty run of digits without a leading zero whose decimal value is `n` |
| `Text.ParseInt` | cli.py:44 | `int(s)` in base 10: the six whitespace characters `int` skips, an optional sign, then one to 4300 digits; anything else is a `ValueError`. Its contract is stated by `Text.ParseIntSigned`, `Text.ParseIntShape`, `Text.ParseIntRejectsEmpty`, `Text.ParseIntRejectsSeparator` and `Text.ParseIntTooManyDigits` |
| `Text.ParseSigned` | cli.py:44 | `int()` after its whitespace is stripped: an optional sign, then one to 4300 digits. Its contract is stated by `Text.SpelledStripped`, `Text.SpelledValue` and `Text.SignedShape` |
| `Text.SpelledStripped` | cli.py:44 | a spelling (no sign or `+` or `-`, zeros, then `str(n)`, at most 4300 digits in all) has none of the whitespace `int` skips at either end |
| `Text.SpelledValue` | cli.py:44 | a spelling reads as `n`, or `-n` after a `-` |
| `Text.SignedShape` | cli.py:44 | whatever is accepted after stripping is a spelling of the absolute value of the number returned, with a `-` when that number is negative |
| `Text.DecimalValueZeros` | cli.py:44 | leading zeros do not change the value of a run of digits |
| `Text.NatToDecimalOfValue` | cli.py:44 | a run of digits without a leading zero is `str` of its own value |
| `Text.DigitsSplit` | cli.py:44 | every run of digits is some zeros followed by `str` of its value |
| `Text.ParseIntSigned` | cli.py:44 | `int()` accepts every spelling of `n`: surrounding space, `\t`, `\n`, `\v`, `\f` or `\r`, no sign or `+` or `-`, leading zeros, then `str(n)`, with at most 4300 digits in all. It returns `n`, or `-n` after a `-` |
| `Text.ParseIntShape` | cli.py:44 | conversely, whatever `int()` accepts is, once the whitespace `int` skips is stripped, such a spelling of `Abs(v)`, where `v` is the number it returns, and `v` is `-Abs(v)` after a `-` and `Abs(v)` otherwise |
| `Text.ParseIntOfDecimal` | cli.py:44 | `int()` of the decimal form of `n`, at most 4300 digits long, with any whitespace `int` skips around it, is `n` |
| `Text.NotSkippedLeadText` | cli.py:44 | text that begins with `\x1c`-`\x1f` is not a signed number |
| `Text.ParseIntRejectsEmpty` | cli.py:60 | `int()` of blank text, the empty string and any mix of `str.isspace` characters included, is a `ValueError` |
| `Text.ParseIntRejectsSeparator` | cli.py:60 | `int()` of text beginning with one of `\x1c`-`\x1f` is a `ValueError`, since `int` does not skip them |
| `Text.ParseIntTooManyDigits` | cli.py:44 | `int()` of more than 4300 digits, with any sign and skipped whitespace, is a `ValueError` |
| `Lists.PyIndex` | cli.py:49 | a list index is valid exactly when `-len <= index < len`, and it then names the unique position congruent to it modulo `len` |
| `Lists.RemoveAt` | cli.py:64 | `pop(i)` shortens the list by one, keeps the elements before `i`, shifts those after it down by one, and removes exactly one copy of `xs[i]` |
| `Lists.FirstIndex` | gui.py:183 | `list.index(x)` is a position holding `x` with no `x` before it |
| `Lists.RemoveFirst` | gui.py:206 | `list.remove(x)` removes exactly one copy of `x`, the first, and keeps the other elements in order |
| `Lists.ReplaceFirst` | gui.py:194 | assigning at `list.index(x)` replaces the first `x` and keeps the length and every other position |
| `Storage.Load` | cli.py:19 | loading fails with "not found" exactly when the file is missing |
| `Storage.Write` | cli.py:21 | after a write, loading returns exactly the lines written, whatever the file held before |
| `Cli.Render` | cli.py:10-83 | the argument of each `print` call of the loop; `print` adds the line end. The row text is the number, `- ` and the task with line terminators stripped |
| `Cli.Classify` | cli.py:16-83 | the branch of the `if`/`elif` chain a stripped command line takes: the first prefix that matches, or the exact line `exit`. Its contract is stated by `Cli.ClassifyExact` |
| `Cli.ClassifyExact` | cli.py:16-83 | the four keyword prefixes exclude each other, so each prefix test alone picks its branch; only the exact line `exit` is the exit command; every other line is unknown |
| `Cli.Rows` | cli.py:34-37 | `show` prints one row per task, in list order, row `i` numbered `i + 1` |
| `Cli.Add` | cli.py:16-26 | the `add` branch. Its contract is stated by `Cli.StepAdd` and `Cli.StepAddMissing` |
| `Cli.Show` | cli.py:28-40 | the `show` branch. Its contract is stated by `Cli.StepShow` |
| `Cli.Edit` | cli.py:42-56 | the `edit` branch, given the line its prompt would read. Its contract is stated by `Cli.StepEditReplaces`, `Cli.StepEditPastEnd`, `Cli.StepEditBeforeStart` and `Cli.StepEditRejects` |
| `Cli.Complete` | cli.py:58-76 | the `complete` branch. Its contract is stated by `Cli.StepCompleteRemoves`, `Cli.StepCompleteRejects` and `Cli.StepCompleteOutOfRange` |
| `Cli.Step` | cli.py:16-83 | one round of the loop on a stripped command line: the branch `Classify` picks applied to the backing file. The lemmas `Cli.Step...` below state its contract |
| `Cli.Prompts` | cli.py:44-48 | the round calls `input` a second time exactly when the line is an `edit` with a number, the file exists and `number - 1 < len`. `Cli.StepReplyUnused` states that no other round reads the next line |
| `Cli.StepTerminatesOnlyOnExit` | cli.py:78-80 | a round ends the loop exactly when the line is `exit`, printing the farewell |
| `Cli.StepUnknown` | cli.py:82-83 | a line matching no command prints "Invalid Command" and leaves the file as it was |
| `Cli.StepReplyUnused` | cli.py:47-48 | a round that does not reach `edit`'s prompt does not depend on the next typed line |
| `Cli.StepAdd` | cli.py:16-21 | `add` stores the old lines followed by exactly `user_action[4:] + "\n"`: one line longer, earlier lines unchanged, nothing printed |
| `Cli.StepAddMissing` | cli.py:22-26 | `add` with no backing file creates an empty one, prints a message and drops the new text |
| `Cli.StepShow` | cli.py:28-40 | `show` never writes. It prints one message for a missing file or an empty list. Otherwise it prints a blank line and then each task as its number, `- ` and the task with line terminators stripped from both ends |
| `Cli.StepEditReplaces` | cli.py:42-50 | `edit n` with `n - 1` a valid index prompts. It replaces exactly the addressed line with the stripped reply plus `"\n"`, counting a non-positive `n` from the end. The length and all other lines are kept |
| `Cli.StepEditPastEnd` | cli.py:44-52 | `edit n` with `n - 1 >= len` prints "no such item", does not prompt and writes nothing |
| `Cli.StepEditBeforeStart` | cli.py:44-49 | `edit n` with `n - 1 < -len` passes the upper-bound check and prompts. It then ends the program with an uncaught index error, or at end of input |
| `Cli.StepEditRejects` | cli.py:44-56 | `edit` with a non-numeric argument prints "not valid" before any load or write. With a number and no backing file, the program ends |
| `Cli.StepCompleteRemoves` | cli.py:58-68 | `complete n` with `n - 1` a valid index removes exactly the addressed line. The other lines keep their relative order, and the removed text is echoed with line terminators stripped |
| `Cli.StepCompleteRejects` | cli.py:58-72 | `complete` with a non-numeric argument prints "not valid" and writes nothing. With a number and no backing file, the program ends |
| `Cli.StepCompleteOutOfRange` | cli.py:60-76 | `complete n` with `n - 1` outside `-len .. len - 1` prints "no such item" and writes nothing |
| `Cli.CommandWithNumber` | cli.py:44-60 | a command word, a space and `str(n)` starts with the word, and `int` of the text after the space reads `n` back |
| `Cli.ShownNumberCompletesItem` | cli.py:35-68 | typing the number `show` prints before task `i` after `complete ` removes task `i` |
| `Cli.ShownNumberEditsItem` | cli.py:35-50 | typing the number `show` prints before task `i` after `edit ` replaces task `i` |
| `Cli.AddToEmpty` | cli.py:16-21 | `add <text>` on an empty list stores just `text + "\n"` |
| `Cli.ShowAdded` | cli.py:28-37 | `show` on that file prints a blank line and `1- <text>` |
| `Cli.CompleteSecondOfThree` | cli.py:58-68 | `complete 2` on three tasks keeps the first and the third, in that order |
| `Cli.EditFifthOfThree` | cli.py:42-52 | `edit 5` on three tasks prints "no such item" and writes nothing |
| `Cli.CompleteAfterSeparator` | cli.py:58-72 | `complete` followed by `\x1f2` prints "not valid" and writes nothing, because `int` does not skip `\x1f` |
| `Cli.CompleteNotANumber` | cli.py:58-72 | `complete abc` prints "not valid" and writes nothing |
| `Cli.Run` | cli.py:12-83 | the loop from one typed line on: a round per command, two typed lines for an `edit` that prompts, stopping at `exit`, at an uncaught exception or at the end of input. Its contract is stated by `Cli.RunExitsOnlyOnExit` and `Cli.RunKeepsOutput` |
| `Cli.TodoAppCli` | cli.py:6-83 | the `while True` loop produces exactly the session `Run` describes: greeting first, then one round per command, ending at `exit`, a crash or the end of input |
| `Cli.RunExitsOnlyOnExit` | cli.py:12-83 | the loop ends normally only if a typed line from the current one on strips to `exit` |
| `Cli.RunKeepsOutput` | cli.py:12-83 | what the loop has printed is never taken back: the output only grows |
| `Gui.WarningText` | gui.py:159-203 | the message of each warning dialog, word for word |
| `Gui.Serialize` | gui.py:213 | the lines a reload writes: each task followed by `"\n"`. Its contract is stated by `Gui.SerializeRoundTrip` |
| `Gui.StripAll` | gui.py:40 | the window's list has one entry per loaded line, each stripped of surrounding whitespace |
| `Gui.SerializeRoundTrip` | gui.py:213-214 | loading and stripping the lines a reload writes gives back the window's list |
| `Gui.EditedTextStripsToSelection` | gui.py:166 | the text Edit puts in the field strips back to the selected task |
| `Gui.MainWindow.Valid` | gui.py:35-219 | the invariant between actions: tasks stripped, the list box showing the list, a selection among the tasks, and the file holding the serialized list. Every method of `Gui.MainWindow` keeps it |
| `Gui.MainWindow.constructor` | gui.py:35-70 | on a loaded file the window starts with the stripped lines, no selection, an empty field, the list box showing the list and the file rewritten from it |
| `Gui.MainWindow.OnCurrentItemChanged` | gui.py:149-152 | a reported item from the list box becomes the selection; no item leaves the selection as it was |
| `Gui.MainWindow.TypeText` | gui.py:59-61 | typing into the text field replaces its text and nothing else, so the invariant holds |
| `Gui.MainWindow.ClearInput` | gui.py:154-157 | the field becomes empty and the selection none; nothing else changes |
| `Gui.MainWindow.EditTodo` | gui.py:159-166 | with no selection it warns and changes nothing; otherwise the field becomes a space followed by the selected task |
| `Gui.MainWindow.SaveTodo` | gui.py:168-197 | with no selection, blank text warns and anything else is appended stripped. With a selection, blank or identical text warns, and anything else replaces the first occurrence of the selection. The reload always follows |
| `Gui.MainWindow.CompleteTodo` | gui.py:199-208 | with a selection it removes its first occurrence, keeping the rest in order, and reloads; with none it warns and writes nothing |
| `Gui.MainWindow.ReloadTodosListbox` | gui.py:210-219 | the file becomes exactly the tasks each followed by `"\n"`; the list box shows the list; selection none, field empty; the list itself is unchanged |
| `Gui.SaveAfterEdit` | gui.py:159-197 | Save straight after Edit leaves the list as it was. It warns "unchanged", or "blank" when the selected task is empty |
| `Gui.Launch` | gui.py:37-70 | with a backing file the window opens on its stripped lines. Without one, an empty file is created and the window fails to start |

## Left out

- Qt widget construction, layout, style sheets, screen centring and the rendering of warning dialogs (`pop_up_warning`, `CustomMessageBox`): these are presentation only. A dialog is a `Warning` value.
- The clock: `QTimer`, `update_time` and the time and date labels. They are UI timing with no effect on tasks.
- The Exit button (`self.close`) and `run_app`'s event loop: window lifetime, not task data.
- `web.py`: it only displays the loaded list and writes nothing.
- The `functions` module, which is not part of this model. It is abstracted as `Storage.Store`. How lines are split and joined on disk, and failures other than a missing file (permissions, a crash mid-write), are not modelled.
- `input()` prompt texts and `print` as I/O: inputs are a sequence of lines, printed text is a list of `Printed` values, and the time string of the greeting is a parameter.
- Python `int()` accepts underscores between digits and non-ASCII digits. `strip()` also removes non-ASCII whitespace. Only the ASCII subset is modelled.
- The digit limit of `int()` is fixed at Python 3.12's default of 4300. `sys.set_int_max_str_digits` and `PYTHONINTMAXSTRDIGITS` can change it, and the source does neither.
- Signals the list box emits while it is cleared and refilled: `clear_input` resets the selection right after, so they have no lasting effect.
- `Gui.StripAll`: its contract states the length and that every entry is stripped; that entry `i` is `lines[i].strip()` is its definition.

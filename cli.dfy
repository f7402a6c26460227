/**
 * The terminal front end, `todo_app_cli`: a loop that reads a command line,
 * reloads the task list from the backing file, changes it and writes it back.
 *
 * One round of the loop is the function `Step`; `Run` folds it over the lines
 * the user types, and the method `TodoAppCli` is the loop itself. Printed text
 * is returned as the list of strings passed to `print`; the prompts `input`
 * shows are not part of it.
 */
module Cli {
  import opened Wrappers
  import opened Text
  import opened Lists
  import opened Storage

  /** A line the loop prints; `Render` gives its exact text. */
  datatype Printed =
    | Greeting(now: string)
    | AddNoFile
    | ShowEmpty
    | ShowNoFile
    | Blank              // the bare `print()` before the rows of `show`
    | Row(number: nat, line: string)  // `line` as stored; it is printed without line terminators
    | NoSuchItem
    | NotValid
    | Removed(todo: string)
    | Goodbye
    | InvalidCommand

  function Render(p: Printed): string
  {
    match p
    case Greeting(now) => "\nIt is, " + now + "."
    case AddNoFile => "\n--- No file found for the To-Do list. Creating new empty one. ---"
    case ShowEmpty => "\n--- No items found in the To-do list. ---"
    case ShowNoFile => "\n--- No file found for the To-Do list. ---"
    case Blank => ""
    case Row(number, line) => NatToDecimal(number) + "- " + StripChars(line, LineEnd)
    case NoSuchItem => "\n--- There is no to-do item with that number. ---"
    case NotValid => "\n--- Your command is not valid. ---"
    case Removed(todo) => "\n--- \"" + todo + "\" removed from the To-do list successfully. ---"
    case Goodbye => "\n\n--- Thank you for using this app. Goodbye! ---\n"
    case InvalidCommand => "\n--- Invalid Command. ---"
  }

  /** An exception that nothing in the loop catches, so the program stops. */
  datatype Fault =
    | FileNotFound      // `get_todos` in `edit` or `complete` with no backing file
    | IndexOutOfRange   // `all_todos[index] = ...` in `edit` with `index < -len`
    | EndOfInput        // `input()` with nothing left to read

  /** What one round of the loop does. */
  datatype Outcome =
    | Stored(file: seq<string>, output: seq<Printed>)  // the backing file is rewritten with `file`
    | Message(output: seq<Printed>)                    // the backing file is left as it was
    | Terminate(output: seq<Printed>)                  // `break`: the loop ends
    | Crash(fault: Fault)                             // an uncaught exception ends the program

  datatype Command = AddCmd | ShowCmd | EditCmd | CompleteCmd | ExitCmd | Unknown

  /** The branch the `if`/`elif` chain takes for a stripped command line. */
  function Classify(cmd: string): Command
  {
    if StartsWith(cmd, "add") then AddCmd
    else if StartsWith(cmd, "show") then ShowCmd
    else if StartsWith(cmd, "edit") then EditCmd
    else if StartsWith(cmd, "complete") then CompleteCmd
    else if cmd == "exit" then ExitCmd
    else Unknown
  }

  /**
   * No command line starts with two of the four keywords, so each prefix
   * test selects its branch whatever the order of the tests; `exit` is
   * matched only exactly, and every other line is unknown.
   */
  lemma ClassifyExact(cmd: string)
    ensures Classify(cmd) == AddCmd <==> StartsWith(cmd, "add")
    ensures Classify(cmd) == ShowCmd <==> StartsWith(cmd, "show")
    ensures Classify(cmd) == EditCmd <==> StartsWith(cmd, "edit")
    ensures Classify(cmd) == CompleteCmd <==> StartsWith(cmd, "complete")
    ensures Classify(cmd) == ExitCmd <==> cmd == "exit"
    ensures Classify(cmd) == Unknown <==>
              !StartsWith(cmd, "add") && !StartsWith(cmd, "show") && !StartsWith(cmd, "edit") &&
              !StartsWith(cmd, "complete") && cmd != "exit"
  {
    if StartsWith(cmd, "show") || StartsWith(cmd, "edit") || StartsWith(cmd, "complete") {
      assert cmd[0] != 'a';
    }
    if StartsWith(cmd, "edit") || StartsWith(cmd, "complete") {
      assert cmd[0] != 's';
    }
    if StartsWith(cmd, "complete") {
      assert cmd[0] != 'e';
    }
    if cmd == "exit" {
      assert cmd[0] == 'e' && cmd[1] == 'x';
      assert !StartsWith(cmd, "edit");
    }
  }

  /** The `show` listing of `items`, numbered from `from + 1`. */
  function Rows(items: seq<string>, from: nat): (r: seq<Printed>)
    ensures |r| == |items|
    ensures forall i :: 0 <= i < |items| ==> r[i] == Row(from + i + 1, items[i])
  {
    if items == [] then [] else [Row(from + 1, items[0])] + Rows(items[1..], from + 1)
  }

  /** `add <text>`: `text` is `user_action[4:]`. */
  function Add(text: string, store: Store): Outcome
  {
    match Load(store)
    case None => Stored([], [AddNoFile])
    case Some(todos) => Stored(todos + [text + "\n"], [])
  }

  /** `show`: `print()` then one row per item, or a single message. */
  function Show(store: Store): Outcome
  {
    match Load(store)
    case None => Message([ShowNoFile])
    case Some(todos) =>
      if |todos| == 0 then Message([ShowEmpty]) else Message([Blank] + Rows(todos, 0))
  }

  /**
   * `edit <n>`: `arg` is `user_action[5:]`, `reply` the next line `input`
   * returns, if any. Only the upper bound of the index is checked before
   * the replacement text is read.
   */
  function Edit(arg: string, store: Store, reply: Option<string>): Outcome
  {
    match ParseInt(arg)
    case None => Message([NotValid])
    case Some(number) =>
      var index := number - 1;
      match Load(store)
      case None => Crash(FileNotFound)
      case Some(todos) =>
        if index < |todos| then
          match reply
          case None => Crash(EndOfInput)
          case Some(line) =>
            match PyIndex(index, |todos|)
            case None => Crash(IndexOutOfRange)
            case Some(pos) => Stored(todos[pos := Strip(line) + "\n"], [])
        else
          Message([NoSuchItem])
  }

  /** `complete <n>`: `arg` is `user_action[9:]`. */
  function Complete(arg: string, store: Store): Outcome
  {
    match ParseInt(arg)
    case None => Message([NotValid])
    case Some(number) =>
      match Load(store)
      case None => Crash(FileNotFound)
      case Some(todos) =>
        match PyIndex(number - 1, |todos|)
        case None => Message([NoSuchItem])
        case Some(pos) => Stored(RemoveAt(todos, pos), [Removed(StripChars(todos[pos], LineEnd))])
  }

  /** One round of the loop for the stripped command line `cmd`. */
  function Step(cmd: string, store: Store, reply: Option<string>): Outcome
  {
    match Classify(cmd)
    case AddCmd => Add(Drop(cmd, 4), store)
    case ShowCmd => Show(store)
    case EditCmd => Edit(Drop(cmd, 5), store, reply)
    case CompleteCmd => Complete(Drop(cmd, 9), store)
    case ExitCmd => Terminate([Goodbye])
    case Unknown => Message([InvalidCommand])
  }

  /** The round reaches the `input` call that asks `edit` for the new text. */
  predicate Prompts(cmd: string, store: Store)
  {
    Classify(cmd) == EditCmd && ParseInt(Drop(cmd, 5)).Some? && store.Present? &&
    ParseInt(Drop(cmd, 5)).value - 1 < |store.lines|
  }

  datatype Ending = Exited | Crashed(fault: Fault)

  /** The backing file and the printed text at the end of a session. */
  datatype Session = Session(file: Store, output: seq<Printed>, ending: Ending)

  /**
   * The loop from the `i`-th typed line on, with the backing file `store` and
   * the text `out` printed so far. A round of `edit` that prompts reads the
   * line after its command as the new text.
   */
  function Run(inputs: seq<string>, i: nat, store: Store, out: seq<Printed>): Session
    decreases |inputs| - i
  {
    if i >= |inputs| then Session(store, out, Crashed(EndOfInput))
    else
      var cmd := Strip(inputs[i]);
      var reply := if i + 1 < |inputs| then Some(inputs[i + 1]) else None;
      var next := if Prompts(cmd, store) then i + 2 else i + 1;
      match Step(cmd, store, reply)
      case Stored(file, o) => Run(inputs, next, Present(file), out + o)
      case Message(o) => Run(inputs, next, store, out + o)
      case Terminate(o) => Session(store, out + o, Exited)
      case Crash(fault) => Session(store, out, Crashed(fault))
  }

  /** `todo_app_cli()` reading the lines `inputs`, at the time `now`. */
  method TodoAppCli(now: string, inputs: seq<string>, store: Store) returns (s: Session)
    ensures s == Run(inputs, 0, store, [Greeting(now)])
  {
    var output: seq<Printed> := [Greeting(now)];
    var file := store;
    var i := 0;
    while i < |inputs|
      invariant Run(inputs, i, file, output) == Run(inputs, 0, store, [Greeting(now)])
      decreases |inputs| - i
    {
      var cmd := Strip(inputs[i]);
      var reply := if i + 1 < |inputs| then Some(inputs[i + 1]) else None;
      var next := if Prompts(cmd, file) then i + 2 else i + 1;
      match Step(cmd, file, reply) {
        case Stored(lines, o) =>
          file := Present(lines);
          output := output + o;
        case Message(o) =>
          output := output + o;
        case Terminate(o) =>
          return Session(file, output + o, Exited);
        case Crash(fault) =>
          return Session(file, output, Crashed(fault));
      }
      i := next;
    }
    s := Session(file, output, Crashed(EndOfInput));
  }

  // Properties of one round

  /** Only the exact line `exit` ends the loop; every other round carries on or crashes. */
  lemma StepTerminatesOnlyOnExit(cmd: string, store: Store, reply: Option<string>)
    ensures Step(cmd, store, reply).Terminate? <==> cmd == "exit"
    ensures cmd == "exit" ==> Step(cmd, store, reply) == Terminate([Goodbye])
  {
    ClassifyExact(cmd);
  }

  /** A line that matches no command only prints "Invalid Command" and writes nothing. */
  lemma StepUnknown(cmd: string, store: Store, reply: Option<string>)
    requires !StartsWith(cmd, "add") && !StartsWith(cmd, "show") && !StartsWith(cmd, "edit")
    requires !StartsWith(cmd, "complete") && cmd != "exit"
    ensures Step(cmd, store, reply) == Message([InvalidCommand])
  {
    ClassifyExact(cmd);
  }

  /** The new text is read only by a round that reaches `edit`'s prompt. */
  lemma StepReplyUnused(cmd: string, store: Store, reply1: Option<string>, reply2: Option<string>)
    requires !Prompts(cmd, store)
    ensures Step(cmd, store, reply1) == Step(cmd, store, reply2)
  {
  }

  /** `add` appends `user_action[4:]` and a line terminator and keeps every earlier line. */
  lemma StepAdd(cmd: string, lines: seq<string>, reply: Option<string>)
    requires StartsWith(cmd, "add")
    ensures var r := Step(cmd, Present(lines), reply);
            r.Stored? && r.output == [] && |r.file| == |lines| + 1 &&
            r.file[..|lines|] == lines && r.file[|lines|] == Drop(cmd, 4) + "\n"
  {
    ClassifyExact(cmd);
    assert (lines + [Drop(cmd, 4) + "\n"])[..|lines|] == lines;
  }

  /** Without a backing file, `add` creates an empty one and drops the new text. */
  lemma StepAddMissing(cmd: string, reply: Option<string>)
    requires StartsWith(cmd, "add")
    ensures Step(cmd, Missing, reply) == Stored([], [AddNoFile])
  {
    ClassifyExact(cmd);
  }

  /**
   * `show` writes nothing. It prints one message for a missing file or an
   * empty list; otherwise an empty line and then, in list order, row `i` as
   * the number `i + 1`, "- " and item `i` without line terminators at its ends.
   */
  lemma StepShow(cmd: string, store: Store, reply: Option<string>)
    requires StartsWith(cmd, "show")
    ensures store.Missing? ==> Step(cmd, store, reply) == Message([ShowNoFile])
    ensures store == Present([]) ==> Step(cmd, store, reply) == Message([ShowEmpty])
    ensures store.Present? && store.lines != [] ==>
              var r := Step(cmd, store, reply);
              r.Message? && |r.output| == |store.lines| + 1 && r.output[0] == Blank &&
              forall i :: 0 <= i < |store.lines| ==>
                Render(r.output[i + 1]) == NatToDecimal(i + 1) + "- " + StripChars(store.lines[i], LineEnd)
  {
    ClassifyExact(cmd);
  }

  /**
   * `edit n` with `n - 1` a valid Python index reads the new text and puts it,
   * stripped and with a line terminator, at that position; a non-positive `n`
   * counts from the end. The length and every other line stay as they were.
   */
  lemma StepEditReplaces(cmd: string, lines: seq<string>, line: string, n: int)
    requires StartsWith(cmd, "edit") && ParseInt(Drop(cmd, 5)) == Some(n)
    requires -|lines| < n <= |lines|
    ensures Prompts(cmd, Present(lines))
    ensures var r := Step(cmd, Present(lines), Some(line));
            var pos := if n > 0 then n - 1 else |lines| + n - 1;
            r.Stored? && r.output == [] && |r.file| == |lines| &&
            r.file[pos] == Strip(line) + "\n" &&
            forall j :: 0 <= j < |lines| && j != pos ==> r.file[j] == lines[j]
  {
    ClassifyExact(cmd);
  }

  /** `edit n` with `n - 1` at or past the end prints an error, reads nothing and writes nothing. */
  lemma StepEditPastEnd(cmd: string, lines: seq<string>, reply: Option<string>, n: int)
    requires StartsWith(cmd, "edit") && ParseInt(Drop(cmd, 5)) == Some(n)
    requires n > |lines|
    ensures !Prompts(cmd, Present(lines))
    ensures Step(cmd, Present(lines), reply) == Message([NoSuchItem])
  {
    ClassifyExact(cmd);
  }

  /**
   * `edit n` with `n - 1 < -len` passes the upper-bound check, reads the new
   * text and then fails on the assignment with an uncaught `IndexError`.
   */
  lemma StepEditBeforeStart(cmd: string, lines: seq<string>, reply: Option<string>, n: int)
    requires StartsWith(cmd, "edit") && ParseInt(Drop(cmd, 5)) == Some(n)
    requires n <= -|lines|
    ensures Prompts(cmd, Present(lines))
    ensures Step(cmd, Present(lines), reply) ==
            Crash(if reply.Some? then IndexOutOfRange else EndOfInput)
  {
    ClassifyExact(cmd);
  }

  /**
   * `edit` whose argument is not a number prints "not valid" before touching
   * the backing file; one that is a number ends the program when the file is
   * missing, since `FileNotFoundError` is not caught there.
   */
  lemma StepEditRejects(cmd: string, store: Store, reply: Option<string>)
    requires StartsWith(cmd, "edit")
    ensures ParseInt(Drop(cmd, 5)).None? ==> Step(cmd, store, reply) == Message([NotValid])
    ensures ParseInt(Drop(cmd, 5)).Some? && store.Missing? ==> Step(cmd, store, reply) == Crash(FileNotFound)
  {
    ClassifyExact(cmd);
  }

  /**
   * `complete n` with `n - 1` a valid Python index removes exactly that line,
   * keeps the others in their order and echoes the removed text without its
   * line terminators.
   */
  lemma StepCompleteRemoves(cmd: string, lines: seq<string>, reply: Option<string>, n: int)
    requires StartsWith(cmd, "complete") && ParseInt(Drop(cmd, 9)) == Some(n)
    requires -|lines| < n <= |lines|
    ensures var r := Step(cmd, Present(lines), reply);
            var pos := if n > 0 then n - 1 else |lines| + n - 1;
            r.Stored? && |r.file| == |lines| - 1 &&
            (forall j :: 0 <= j < pos ==> r.file[j] == lines[j]) &&
            (forall j :: pos <= j < |r.file| ==> r.file[j] == lines[j + 1]) &&
            r.output == [Removed(StripChars(lines[pos], LineEnd))]
  {
    ClassifyExact(cmd);
  }

  /**
   * `complete` prints "not valid" for an argument that is not a number and
   * writes nothing; with a number, a missing backing file ends the program.
   */
  lemma StepCompleteRejects(cmd: string, store: Store, reply: Option<string>)
    requires StartsWith(cmd, "complete")
    ensures ParseInt(Drop(cmd, 9)).None? ==> Step(cmd, store, reply) == Message([NotValid])
    ensures ParseInt(Drop(cmd, 9)).Some? && store.Missing? ==> Step(cmd, store, reply) == Crash(FileNotFound)
  {
    ClassifyExact(cmd);
  }

  /** `complete n` with `n - 1` outside the list prints "no such item" and writes nothing. */
  lemma StepCompleteOutOfRange(cmd: string, lines: seq<string>, reply: Option<string>, n: int)
    requires StartsWith(cmd, "complete") && ParseInt(Drop(cmd, 9)) == Some(n)
    requires n > |lines| || n <= -|lines|
    ensures Step(cmd, Present(lines), reply) == Message([NoSuchItem])
  {
    ClassifyExact(cmd);
  }

  /** The command word, a space and `str(n)`: the word starts it, and `int` reads `n` after the space. */
  lemma CommandWithNumber(word: string, n: nat)
    requires |NatToDecimal(n)| <= MaxStrDigits
    ensures StartsWith(word + " " + NatToDecimal(n), word)
    ensures ParseInt(Drop(word + " " + NatToDecimal(n), |word| + 1)) == Some(n)
  {
    var d := NatToDecimal(n);
    var cmd := word + " " + d;
    assert Drop(cmd, |word| + 1) == d;
    ParseIntOfDecimal([], n, []);
    assert [] + d + [] == d;
  }

  /**
   * The number `show` prints in front of item `i` is the number that makes
   * `complete` remove that item.
   */
  lemma {:induction false} ShownNumberCompletesItem(lines: seq<string>, i: nat, reply: Option<string>)
    requires i < |lines| && |NatToDecimal(i + 1)| <= MaxStrDigits
    ensures Rows(lines, 0)[i] == Row(i + 1, lines[i])
    ensures Step("complete " + NatToDecimal(i + 1), Present(lines), reply) ==
            Stored(RemoveAt(lines, i), [Removed(StripChars(lines[i], LineEnd))])
  {
    var cmd := "complete " + NatToDecimal(i + 1);
    CommandWithNumber("complete", i + 1);
    StepCompleteRemoves(cmd, lines, reply, i + 1);
    var r := Step(cmd, Present(lines), reply);
    assert r.file == RemoveAt(lines, i);
  }

  /**
   * The number `show` prints in front of item `i` is the number that makes
   * `edit` replace that item.
   */
  lemma {:induction false} ShownNumberEditsItem(lines: seq<string>, i: nat, line: string)
    requires i < |lines| && |NatToDecimal(i + 1)| <= MaxStrDigits
    ensures Step("edit " + NatToDecimal(i + 1), Present(lines), Some(line)) ==
            Stored(lines[i := Strip(line) + "\n"], [])
  {
    var cmd := "edit " + NatToDecimal(i + 1);
    CommandWithNumber("edit", i + 1);
    StepEditReplaces(cmd, lines, line, i + 1);
    var r := Step(cmd, Present(lines), Some(line));
    assert r.file == lines[i := Strip(line) + "\n"];
  }

  /** `add <text>` on an empty list stores the text as the only line. */
  lemma {:induction false} AddToEmpty(text: string, reply: Option<string>)
    ensures Step("add " + text, Present([]), reply) == Stored([text + "\n"], [])
  {
    var add := "add " + text;
    assert StartsWith(add, "add");
    assert Drop(add, 4) == text;
    StepAdd(add, [], reply);
    assert Step(add, Present([]), reply).file == [text + "\n"];
  }

  /** `show` on the line an `add <text>` stored lists the text as item 1. */
  lemma {:induction false} ShowAdded(text: string, reply: Option<string>)
    requires IsStripped(text, LineEnd)
    ensures var r := Step("show", Present([text + "\n"]), reply);
            r.Message? && |r.output| == 2 && Render(r.output[0]) == "" && Render(r.output[1]) == "1- " + text
  {
    var lines := [text + "\n"];
    assert StartsWith("show", "show");
    StepShow("show", Present(lines), reply);
    var r := Step("show", Present(lines), reply);
    assert Render(r.output[1]) == NatToDecimal(1) + "- " + StripChars(lines[0], LineEnd);
    StripPadded([], text, "\n", LineEnd);
    assert [] + text + "\n" == lines[0];
    assert NatToDecimal(1) == "1";
  }

  /** `complete 2` on a three-item list removes the second item; the third moves up. */
  lemma CompleteSecondOfThree(a: string, b: string, c: string, reply: Option<string>)
    ensures Step("complete 2", Present([a, b, c]), reply) == Stored([a, c], [Removed(StripChars(b, LineEnd))])
  {
    assert NatToDecimal(2) == "2";
    CommandWithNumber("complete", 2);
    StepCompleteRemoves("complete 2", [a, b, c], reply, 2);
  }

  /** `edit 5` on a three-item list reports that there is no such item and writes nothing. */
  lemma EditFifthOfThree(a: string, b: string, c: string, reply: Option<string>)
    ensures Step("edit 5", Present([a, b, c]), reply) == Message([NoSuchItem])
  {
    assert NatToDecimal(5) == "5";
    CommandWithNumber("edit", 5);
    StepEditPastEnd("edit 5", [a, b, c], reply, 5);
  }

  /**
   * `complete` followed by a unit separator and a number is not a number to
   * `int`, so it reports an invalid command and writes nothing.
   */
  lemma CompleteAfterSeparator(store: Store, reply: Option<string>)
    ensures Step("complete \U{001F}2", store, reply) == Message([NotValid])
  {
    var cmd := "complete \U{001F}2";
    assert Drop(cmd, 9) == ['\U{001F}'] + "2";
    ParseIntRejectsSeparator('\U{001F}', "2");
    assert StartsWith(cmd, "complete");
    StepCompleteRejects(cmd, store, reply);
  }

  /** `complete abc` reports an invalid command and writes nothing. */
  lemma CompleteNotANumber(store: Store, reply: Option<string>)
    ensures Step("complete abc", store, reply) == Message([NotValid])
  {
    assert Drop("complete abc", 9) == "abc";
    StripStripped("abc", IntSpace);
    assert !IsDigit("abc"[0]);
    StepCompleteRejects("complete abc", store, reply);
  }

  // Properties of the whole loop

  /**
   * The loop ends normally only if some typed line from the `i`-th on strips to
   * `exit`. The lemma does not say which round read that line.
   */
  lemma {:induction false} RunExitsOnlyOnExit(inputs: seq<string>, i: nat, store: Store, out: seq<Printed>)
    ensures Run(inputs, i, store, out).ending == Exited ==>
            exists j :: i <= j < |inputs| && Strip(inputs[j]) == "exit"
    decreases |inputs| - i
  {
    if i < |inputs| {
      var cmd := Strip(inputs[i]);
      var reply := if i + 1 < |inputs| then Some(inputs[i + 1]) else None;
      var next := if Prompts(cmd, store) then i + 2 else i + 1;
      StepTerminatesOnlyOnExit(cmd, store, reply);
      match Step(cmd, store, reply)
      case Stored(file, o) => RunExitsOnlyOnExit(inputs, next, Present(file), out + o);
      case Message(o) => RunExitsOnlyOnExit(inputs, next, store, out + o);
      case Terminate(o) =>
      case Crash(fault) =>
    }
  }

  /** Whatever has been printed stays printed: the output only grows. */
  lemma {:induction false} RunKeepsOutput(inputs: seq<string>, i: nat, store: Store, out: seq<Printed>)
    ensures |out| <= |Run(inputs, i, store, out).output|
    ensures Run(inputs, i, store, out).output[..|out|] == out
    decreases |inputs| - i
  {
    if i < |inputs| {
      var cmd := Strip(inputs[i]);
      var reply := if i + 1 < |inputs| then Some(inputs[i + 1]) else None;
      var next := if Prompts(cmd, store) then i + 2 else i + 1;
      match Step(cmd, store, reply)
      case Stored(file, o) =>
        RunKeepsOutput(inputs, next, Present(file), out + o);
        assert (out + o)[..|out|] == out;
      case Message(o) =>
        RunKeepsOutput(inputs, next, store, out + o);
        assert (out + o)[..|out|] == out;
      case Terminate(o) =>
        assert (out + o)[..|out|] == out;
      case Crash(fault) =>
    }
  }
}

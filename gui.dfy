/**
 * The desktop front end, `MainWindow`: one list of tasks for the whole
 * session, a list box that shows it, an optional selected task and a text
 * field. Every action that can change the list ends by writing the whole
 * list back to the backing file, refilling the list box and clearing the
 * selection and the text field.
 *
 * Widgets are reduced to the data they hold, and a warning dialog is the
 * `Warning` an action returns.
 */
module Gui {
  import opened Wrappers
  import opened Text
  import opened Lists
  import opened Storage

  /** The warning dialogs; each is shown with the title "Warning". */
  datatype Warning = NothingToEdit | BlankAdd | BlankUpdate | Unchanged | NothingToComplete

  function WarningText(w: Warning): string
  {
    match w
    case NothingToEdit => "Please select a to-do item from the list to edit it."
    case BlankAdd => "The field is blank. There is nothing to add."
    case BlankUpdate => "The field is blank. There is nothing to update."
    case Unchanged => "The value of this todo item remains unchanged. There is nothing to update."
    case NothingToComplete => "Please select a to-do item from the list to mark it as complete."
  }

  predicate AllStripped(todos: seq<string>)
  {
    forall i :: 0 <= i < |todos| ==> IsStripped(todos[i], Whitespace)
  }

  lemma StripsAreStripped(lines: seq<string>)
    ensures forall i :: 0 <= i < |lines| ==> IsStripped(Strip(lines[i]), Whitespace)
  {
    forall i | 0 <= i < |lines|
      ensures IsStripped(Strip(lines[i]), Whitespace)
    {
      StripCharsSpec(lines[i], Whitespace);
    }
  }

  /** The list the window keeps from the loaded lines: each one stripped of surrounding whitespace. */
  function StripAll(lines: seq<string>): (r: seq<string>)
    ensures |r| == |lines| && AllStripped(r)
  {
    StripsAreStripped(lines);
    seq(|lines|, i requires 0 <= i < |lines| => Strip(lines[i]))
  }

  /** The lines `reload_todos_listbox` writes: each task followed by a line terminator. */
  function Serialize(todos: seq<string>): seq<string>
  {
    seq(|todos|, i requires 0 <= i < |todos| => todos[i] + "\n")
  }

  /**
   * Loading the file the window wrote gives back the window's list, so a
   * new window continues with the list the last one saved.
   */
  lemma SerializeRoundTrip(todos: seq<string>)
    requires AllStripped(todos)
    ensures StripAll(Serialize(todos)) == todos
  {
    forall i | 0 <= i < |todos|
      ensures Strip(Serialize(todos)[i]) == todos[i]
    {
      assert "\n"[0] in Whitespace;
      StripPadded([], todos[i], "\n", Whitespace);
      assert [] + todos[i] + "\n" == Serialize(todos)[i];
    }
  }

  /**
   * The text Edit puts in the field (a space and the selected task) strips
   * back to the selected task, since every task is already stripped.
   */
  lemma EditedTextStripsToSelection(selected: string)
    requires IsStripped(selected, Whitespace)
    ensures Strip(" " + selected) == selected
  {
    StripPadded(" ", selected, [], Whitespace);
    assert " " + selected + [] == " " + selected;
  }

  class MainWindow {
    var todos: seq<string>        // all_todos_list
    var selected: Option<string>  // todo_selected
    var input: string             // the text of todo_input
    var listbox: seq<string>      // the items of all_todos_list_listbox
    var file: Store               // the backing file

    /**
     * Between actions: every task is stripped, the list box shows the list,
     * a selected task is one of the tasks, and the file holds the list.
     */
    predicate Valid()
      reads this
    {
      AllStripped(todos) && listbox == todos &&
      (selected.Some? ==> selected.value in todos) &&
      file == Present(Serialize(todos))
    }

    /** The window opened on the lines its load of the backing file returned. */
    constructor (loaded: seq<string>)
      ensures Valid()
      ensures todos == StripAll(loaded) && selected == None && input == ""
    {
      selected := None;
      todos := StripAll(loaded);
      input := "";
      listbox := [];
      file := Present(loaded);
      new;
      ReloadTodosListbox();
    }

    /** The list box reports a new current item, or none. */
    method OnCurrentItemChanged(current: Option<string>)
      requires Valid()
      requires current.Some? ==> current.value in listbox
      modifies this`selected
      ensures Valid()
      ensures selected == if current.Some? then current else old(selected)
    {
      if current.Some? {
        selected := current;
      }
    }

    /** The user types `text` into the text field, replacing what it held. */
    method TypeText(text: string)
      requires Valid()
      modifies this`input
      ensures Valid()
      ensures input == text
    {
      input := text;
    }

    method ClearInput()
      modifies this`input, this`selected
      ensures input == "" && selected == None
    {
      input := "";
      selected := None;
    }

    /** Edit: put the selected task, after a space, into the text field. */
    method EditTodo() returns (warning: Option<Warning>)
      requires Valid()
      modifies this`input
      ensures Valid()
      ensures selected.None? ==> warning == Some(NothingToEdit) && input == old(input)
      ensures selected.Some? ==> warning == None && input == " " + selected.value
    {
      if selected.None? {
        warning := Some(NothingToEdit);
      } else {
        warning := None;
        input := " " + selected.value;
      }
    }

    /**
     * Save: with no selection, add the stripped text at the end unless it is
     * blank; with a selection, put the stripped text in place of the first
     * occurrence of the selected task unless it is blank or the same. The
     * list is written and shown again in every case.
     */
    method SaveTodo() returns (warning: Option<Warning>)
      requires Valid()
      modifies this
      ensures Valid() && selected == None && input == ""
      ensures old(selected).None? ==>
                var text := Strip(old(input));
                if text == "" then warning == Some(BlankAdd) && todos == old(todos)
                else warning == None && todos == old(todos) + [text]
      ensures old(selected).Some? ==>
                var text := Strip(old(input));
                var sel := old(selected).value;
                if text == "" then warning == Some(BlankUpdate) && todos == old(todos)
                else if text == sel then warning == Some(Unchanged) && todos == old(todos)
                else warning == None && todos == ReplaceFirst(old(todos), sel, text)
    {
      StripCharsSpec(input, Whitespace);
      if selected.None? {
        var newTodo := Strip(input);
        if newTodo == "" {
          warning := Some(BlankAdd);
        } else {
          warning := None;
          todos := todos + [newTodo];
        }
      } else {
        var index := FirstIndex(todos, selected.value);
        var updatedTodo := Strip(input);
        if updatedTodo == "" {
          warning := Some(BlankUpdate);
        } else if updatedTodo == selected.value {
          warning := Some(Unchanged);
        } else {
          warning := None;
          todos := todos[index := updatedTodo];
        }
      }
      ReloadTodosListbox();
    }

    /**
     * Complete: remove the first occurrence of the selected task and show the
     * list again; with no selection, only warn.
     */
    method CompleteTodo() returns (warning: Option<Warning>)
      requires Valid()
      modifies this
      ensures Valid()
      ensures old(selected).None? ==>
                warning == Some(NothingToComplete) &&
                todos == old(todos) && input == old(input) && selected == None && file == old(file)
      ensures old(selected).Some? ==>
                warning == None && todos == RemoveFirst(old(todos), old(selected).value) &&
                selected == None && input == ""
    {
      if selected.None? {
        warning := Some(NothingToComplete);
      } else {
        warning := None;
        todos := RemoveFirst(todos, selected.value);
        ReloadTodosListbox();
      }
    }

    /** Write the list to the file, refill the list box, then clear the field and the selection. */
    method ReloadTodosListbox()
      modifies this`file, this`listbox, this`input, this`selected
      ensures file == Present(Serialize(todos)) && Load(file) == Some(Serialize(todos))
      ensures listbox == todos && selected == None && input == ""
    {
      file := Write(Serialize(todos));
      listbox := [];
      listbox := listbox + todos;
      ClearInput();
    }
  }

  /**
   * Saving straight after Edit, with the text Edit put in the field, changes
   * nothing: it warns that the task is unchanged, or, for an empty task (a
   * blank line in the file), that the field is blank.
   */
  method SaveAfterEdit(w: MainWindow) returns (warning: Option<Warning>)
    requires w.Valid() && w.selected.Some?
    modifies w
    ensures w.Valid() && w.todos == old(w.todos)
    ensures warning == if old(w.selected).value == "" then Some(BlankUpdate) else Some(Unchanged)
  {
    var _ := w.EditTodo();
    var i :| 0 <= i < |w.todos| && w.todos[i] == w.selected.value;
    EditedTextStripsToSelection(w.todos[i]);
    warning := w.SaveTodo();
  }

  /** How starting the window ends. */
  datatype Startup =
    | Opened(window: MainWindow)
    | FailedAtStartup(file: Store)  // no backing file: an empty one is created, then the window fails

  /**
   * `MainWindow()` on the backing file `store`. With no file, `__init__`
   * writes an empty one but never sets the list, so its first reload fails.
   */
  method Launch(store: Store) returns (r: Startup)
    ensures store.Missing? ==> r == FailedAtStartup(Present([]))
    ensures store.Present? ==>
              r.Opened? && fresh(r.window) && r.window.Valid() &&
              r.window.todos == StripAll(store.lines) &&
              r.window.selected == None && r.window.input == ""
  {
    match store
    case Missing =>
      r := FailedAtStartup(Write([]));
    case Present(lines) =>
      var w := new MainWindow(lines);
      r := Opened(w);
  }
}

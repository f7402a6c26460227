/**
 * The backing file shared by the front ends, as far as they can observe it:
 * either it does not exist, or it holds an ordered list of lines, each with
 * the line terminator it was stored with. Reading and writing it is the job
 * of the `functions` module, which is not part of this model; here a load
 * either fails with "not found" or returns the stored lines, and a write
 * replaces the whole contents.
 */
module Storage {
  import opened Wrappers

  datatype Store = Missing | Present(lines: seq<string>)

  /** `functions.get_todos()`: the stored lines, or `None` for `FileNotFoundError`. */
  function Load(store: Store): (r: Option<seq<string>>)
    ensures r.None? <==> store.Missing?
  {
    match store
    case Missing => None
    case Present(lines) => Some(lines)
  }

  /** `functions.write_todos(lines)`: the file afterwards, whatever it held before. */
  function Write(lines: seq<string>): (r: Store)
    ensures Load(r) == Some(lines)
  {
    Present(lines)
  }
}

# Fibonacci-heap demo: view-model

A Dafny model of `HeapViewModel`, the view-model behind the Fibonacci-heap
demo window. It holds the key and value the user typed, the operation chosen
(insert, delete, find-min), whether the key box, the value box and the run
button are enabled, a rolling log of status lines (newest first, at most 100),
and the list of key strings inserted so far, kept to warn about duplicates.

The model is one class, `MainViewModel.HeapViewModel`, with the source's
fields and one method per source method. Every method states the whole new
state in its `ensures` and names what it may change with a field-level
`modifies` clause. The class invariant `Valid()` says three things:

- the log is within its bound;
- the remembered key strings are distinct;
- each remembered key string is a well-formed integer.

Every method that touches the log or the key list keeps `Valid()` true.

The supporting modules:

- `MessageLog`: the bounded log and the fact that any run of updates leaves
  the most recent lines, newest first.
- `Builtins`: the Python built-ins the class relies on. These are
  `'\n'.join` (with `str.split` as its inverse), `str()` of an integer (with a
  reader as its inverse), and `list.remove`.

The heap engine itself (`fibonacci_heap/model/fibonacci_heap.py`) is not
part of this model. The view-model sees the heap as a multiset of integer
keys. What an engine call does on a given click is a `HeapReply` passed to
`ClickRunButton`: `Done` (a normal return; for find-min, a return of
`None`), `MinNode(k, v)` (find-min returns that node) or `Raises(e)` (an
exception with text `e`). Python's `int(...)` on the key text is the
partial function `parse`, given to the constructor.

Behaviour of the code that the model keeps as written:

- `set_operation(FIND_MIN)` disables the value box and then enables it again
  (the `else` at line 166 runs for every operation but delete). So find-min
  leaves the value box enabled, although find-min takes no value. The
  model follows the code.
- No method enables the key box again. After find-min has once been chosen,
  it stays disabled for insert and delete too.
- Duplicate detection compares key strings. `"5"` and `"05"` are different
  entries, even though both put the key 5 into the heap.
- Delete is enabled with any key text. An empty or non-numeric key makes
  `int(...)` raise a `ValueError` that `click_run_button` does not catch
  (`Completion.RaisedValueError`, nothing changed).
- After a successful heap delete, `list.remove` raises a `ValueError` when
  the key list is non-empty but lacks the key. The heap has then already
  changed, and no status line is logged.

## Model

| member | source | states |
|---|---|---|
| `MainViewModel.StateValueRoundTrip` | code/fibonacci_heap/viewmodel/main_viewmodel.py:6-8 | each widget state has a Tk string (`'normal'`, `'disabled'`) from which the state is recovered |
| `MainViewModel.NodeOperationValueRoundTrip` | code/fibonacci_heap/viewmodel/main_viewmodel.py:11-14 | each operation has its enum string (`'insert'`, `'delete'`, `'find_min'`) from which the operation is recovered |
| `MainViewModel.InfoTextIsFormat` | code/fibonacci_heap/viewmodel/main_viewmodel.py:21-29 | each status line is its `INFO_MSG` template with the arguments put into the `%s` slots in order, as Python's `%` does (the found key written in decimal) |
| `MainViewModel.HeapViewModel.constructor` | code/fibonacci_heap/viewmodel/main_viewmodel.py:32-46 | a new view-model has an empty heap, empty key, value, key list and log, operation insert, both text boxes enabled and the run button disabled; the invariant holds |
| `MainViewModel.HeapViewModel.ValidateText` | code/fibonacci_heap/viewmodel/main_viewmodel.py:48-57 | the run button ends enabled if and only if the given operation is delete or find-min, or a key is typed and either a value is typed or the value box is disabled; nothing else changes |
| `MainViewModel.HeapViewModel.SetMainButtonEnabled` | code/fibonacci_heap/viewmodel/main_viewmodel.py:59-63 | the run button becomes enabled and nothing else changes |
| `MainViewModel.HeapViewModel.SetValueTextboxEnabled` | code/fibonacci_heap/viewmodel/main_viewmodel.py:65-69 | the value box becomes enabled and nothing else changes |
| `MainViewModel.HeapViewModel.SetMainButtonDisabled` | code/fibonacci_heap/viewmodel/main_viewmodel.py:71-75 | the run button becomes disabled and nothing else changes |
| `MainViewModel.HeapViewModel.SetValueTextboxDisabled` | code/fibonacci_heap/viewmodel/main_viewmodel.py:77-81 | the value box becomes disabled and nothing else changes |
| `MainViewModel.HeapViewModel.GetMainButtonState` | code/fibonacci_heap/viewmodel/main_viewmodel.py:83-88 | the returned string is the Tk name of the run button's current state |
| `MainViewModel.HeapViewModel.SetKeyTextboxDisabled` | code/fibonacci_heap/viewmodel/main_viewmodel.py:90-94 | the key box becomes disabled and nothing else changes; no method's contract lets the key box become enabled again after construction |
| `MainViewModel.HeapViewModel.GetValueTextboxState` | code/fibonacci_heap/viewmodel/main_viewmodel.py:96-101 | the returned string is the Tk name of the value box's current state |
| `MainViewModel.HeapViewModel.GetKey` | code/fibonacci_heap/viewmodel/main_viewmodel.py:103-108 | returns the key text currently held |
| `MainViewModel.HeapViewModel.SetKey` | code/fibonacci_heap/viewmodel/main_viewmodel.py:110-116 | the key text becomes the argument; the run button ends enabled if and only if it is non-empty and a value is typed or the value box is disabled |
| `MainViewModel.HeapViewModel.GetValue` | code/fibonacci_heap/viewmodel/main_viewmodel.py:118-123 | returns the value text currently held |
| `MainViewModel.HeapViewModel.SetValue` | code/fibonacci_heap/viewmodel/main_viewmodel.py:125-131 | the value text becomes the argument; the run button ends enabled if and only if a key is typed and the new value is non-empty or the value box is disabled |
| `MainViewModel.HeapViewModel.GetMessageText` | code/fibonacci_heap/viewmodel/main_viewmodel.py:133-138 | the log as one text: empty for an empty log, and splitting it at newlines gives back the log when no line holds a newline |
| `MainViewModel.HeapViewModel.UpdateMessages` | code/fibonacci_heap/viewmodel/main_viewmodel.py:140-147 | the log becomes the new line followed by the old log, cut to 100 lines; the invariant holds |
| `MainViewModel.HeapViewModel.SetOperation` | code/fibonacci_heap/viewmodel/main_viewmodel.py:149-167 | the operation is stored; find-min clears key and value and disables the key box; delete clears the value and disables the value box; insert and find-min leave the value box enabled; the key box is never re-enabled; the run button ends enabled for delete and find-min, and for insert exactly when the old key and value are both non-empty |
| `MainViewModel.HeapViewModel.ClickRunButton` | code/fibonacci_heap/viewmodel/main_viewmodel.py:169-205 | a disabled button changes nothing; for each operation and each outcome of parsing and of the heap call, the exact new heap, key list, log line and completion (including the uncaught `ValueError`s of delete); the invariant (bounded log, distinct parseable keys) holds |
| `MainViewModel.DuplicateInsertScenario` | code/fibonacci_heap/viewmodel/main_viewmodel.py:176-183 | inserting key "5" twice stores it once and logs the duplicate warning above the insert line |
| `MessageLog.PushMessage` | code/fibonacci_heap/viewmodel/main_viewmodel.py:140-147 | one update: the new line is first, the old lines follow in order, and the length is min(old length + 1, 100) |
| `MessageLog.PushAllKeepsMostRecent` | code/fibonacci_heap/viewmodel/main_viewmodel.py:140-147 | after any run of updates from a log within bound, the log is the new lines newest first followed by the old log, cut to 100 lines |
| `MessageLog.PushAllBounded` | code/fibonacci_heap/viewmodel/main_viewmodel.py:30 | the bound `MAX_MESSAGE_NUMBER` = 100: a log within it stays within it under any run of updates, fills to exactly 100 lines once 100 lines have been seen, and its head is the latest line |
| `Builtins.Join` | code/fibonacci_heap/viewmodel/main_viewmodel.py:138 | `'\n'.join`: empty for no lines; otherwise starts with the first line and is one character longer than the lines together for each line after the first |
| `Builtins.SplitJoin` | code/fibonacci_heap/viewmodel/main_viewmodel.py:138 | splitting the newline-joined lines gives the lines back when none contains a newline |
| `Builtins.IntDecimalRoundTrip` | code/fibonacci_heap/viewmodel/main_viewmodel.py:203 | the decimal text of a found key (as `%s` writes it) reads back as that key |
| `Builtins.RemoveFirst` | code/fibonacci_heap/viewmodel/main_viewmodel.py:194 | `list.remove` drops exactly one occurrence, the first: one shorter, multiset minus that key, elements before it kept, elements after it shifted by one |
| `Builtins.RemoveFirstDistinct` | code/fibonacci_heap/viewmodel/main_viewmodel.py:194 | removing a key from a duplicate-free list keeps it duplicate-free and removes exactly that key |

## Left out

- The Fibonacci-heap engine and its `_Node` (imported at line 3): not part of this model. The heap is a multiset of integer keys, and each engine call's outcome is a parameter.
- ClickRunButton: on a successful `delete`, the model takes one occurrence of the parsed key out of the multiset of keys. What the engine really does with a node made afresh from key and value (line 191) depends on the engine, so this is an assumption, not the source's promise.
- ClickRunButton: an engine exception other than `AssertionError` from `insert` or `delete` is not modelled. `Raises` means an `AssertionError` there; for `find_min` it means any exception.
- ClickRunButton: the find-min reply is not related to `heap`. A reply may name a node whose key is not in the multiset, or a node of an empty heap, because what the engine returns is not part of this model.
- Python's `%` is modelled only for templates whose conversions are all `%s` (`Builtins.Format`), which is true of every `INFO_MSG` entry.
- The grammar of Python's `int(...)` (signs, whitespace, underscores): it is the abstract partial function `parse`.
- The texts of caught exceptions (`e` at lines 187 and 205) are opaque strings supplied by the reply; the one exception the view-model itself causes, reading `.key` of a `None` returned by `find_min`, carries Python 3's `AttributeError` text. `str()` of the found node's value is taken to be that value.
- The Tk window that shows the widgets and the log is not part of this model.

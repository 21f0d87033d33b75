/**
  The view-model of the Fibonacci-heap demo window: which widgets are enabled,
  the key and value typed by the user, the operation chosen, the rolling status
  log, and the list of key strings inserted so far (kept to warn about
  duplicates).

  The heap engine is not part of this model. The heap is seen only as a
  multiset of integer keys, and what each engine call does (return normally,
  raise an `AssertionError` with some text, or hand back the minimum node) is
  a `HeapReply` chosen by the environment. Python's `int(...)` is the partial
  function `parse`, fixed when the view-model is built.
*/
module MainViewModel {
  import opened Builtins
  import opened MessageLog

  /** Widget state; `Value()` is the Tk state string the window uses. */
  datatype State = Enabled | Disabled
  {
    function Value(): string
    {
      match this
      case Enabled => "normal"
      case Disabled => "disabled"
    }
  }

  /** `State(s)`: the state whose Tk string is `s`, if any. */
  function StateFromValue(s: string): Option<State>
  {
    if s == "normal" then Some(Enabled)
    else if s == "disabled" then Some(Disabled)
    else None
  }

  /** Each state's string names that state and no other. */
  lemma StateValueRoundTrip(st: State)
    ensures StateFromValue(st.Value()) == Some(st)
  {
    assert |"disabled"| == 8 && |"normal"| == 6;
  }

  /** The operation the run button performs; `Value()` is its enum string. */
  datatype NodeOperation = Insert | Delete | FindMin
  {
    function Value(): string
    {
      match this
      case Insert => "insert"
      case Delete => "delete"
      case FindMin => "find_min"
    }
  }

  /** `NodeOperations(s)`: the operation whose string is `s`, if any. */
  function NodeOperationFromValue(s: string): Option<NodeOperation>
  {
    if s == "insert" then Some(Insert)
    else if s == "delete" then Some(Delete)
    else if s == "find_min" then Some(FindMin)
    else None
  }

  /** Each operation's string names that operation and no other. */
  lemma NodeOperationValueRoundTrip(op: NodeOperation)
    ensures NodeOperationFromValue(op.Value()) == Some(op)
  {
    assert "insert"[0] == 'i' && "delete"[0] == 'd' && "find_min"[0] == 'f';
  }

  /** The entries of `INFO_MSG`, each with the arguments its `%s` slots take. */
  datatype Info =
    | Inserted(key: string, value: string)
    | Deleted(key: string)
    | Found(minKey: int, minValue: string)
    | KeyInvalid(key: string)
    | KeyExists(key: string)
    | ValueInvalid(value: string)
    | OperationInvalid(reason: string)

  /**
    `INFO_MSG[name]`: the template for `m`, under the name given in the
    comment (each template written as its literal pieces around the `%s`
    slots).
  */
  function InfoTemplate(m: Info): string
  {
    match m
    case Inserted(_, _) =>       // 'insert'
      "Inserted node: key - " + "%s" + ", value - " + "%s" + ""
    case Deleted(_) =>           // 'delete'
      "Deleted node: key - " + "%s" + ""
    case Found(_, _) =>          // 'find'
      "Found node: key - " + "%s" + ", value - " + "%s" + ""
    case KeyInvalid(_) =>        // 'key_invalid'
      "ERROR: key " + "%s" + " does not exist or has invalid format"
    case KeyExists(_) =>         // 'key_mess'
      "ERROR: key " + "%s" + " already exists"
    case ValueInvalid(_) =>      // 'value_invalid'
      "ERROR: value " + "%s" + " does not exist"
    case OperationInvalid(_) =>  // 'operation_invalid'
      "ERROR: selected operation isn't completed - " + "%s" + ""
  }

  /** The values the `%` operator is given for `m`, as `%s` prints them. */
  function InfoArgs(m: Info): seq<string>
  {
    match m
    case Inserted(k, v) => [k, v]
    case Deleted(k) => [k]
    case Found(k, v) => [IntToDecimal(k), v]
    case KeyInvalid(k) => [k]
    case KeyExists(k) => [k]
    case ValueInvalid(v) => [v]
    case OperationInvalid(e) => [e]
  }

  /** The status line for `m`: its template with the arguments put in. */
  function InfoText(m: Info): string
  {
    match m
    case Inserted(k, v) => "Inserted node: key - " + k + ", value - " + v
    case Deleted(k) => "Deleted node: key - " + k
    case Found(k, v) => "Found node: key - " + IntToDecimal(k) + ", value - " + v
    case KeyInvalid(k) => "ERROR: key " + k + " does not exist or has invalid format"
    case KeyExists(k) => "ERROR: key " + k + " already exists"
    case ValueInvalid(v) => "ERROR: value " + v + " does not exist"
    case OperationInvalid(e) => "ERROR: selected operation isn't completed - " + e
  }

  /**
    `InfoText` is `INFO_MSG[name] % args`: each template with its arguments
    in the `%s` slots.
  */
  lemma InfoTextIsFormat(m: Info)
    ensures Format(InfoTemplate(m), InfoArgs(m)) == Some(InfoText(m))
  {
    match m
    case Inserted(k, v) => InsertIsFormat(k, v);
    case Found(k, v) => FindIsFormat(IntToDecimal(k), v);
    case Deleted(k) => DeleteIsFormat(k);
    case OperationInvalid(e) => OperationInvalidIsFormat(e);
    case KeyInvalid(k) => KeyInvalidIsFormat(k);
    case KeyExists(k) => KeyMessIsFormat(k);
    case ValueInvalid(v) => ValueInvalidIsFormat(v);
  }

  // One lemma per template, so that each proof looks at one literal only.

  lemma InsertIsFormat(k: string, v: string)
    ensures Format(InfoTemplate(Inserted(k, v)), [k, v]) == Some(InfoText(Inserted(k, v)))
  {
    var a := "Inserted node: key - ";
    FormatTwo(a, k, ", value - ", v, "");
    assert a + k + ", value - " + v + "" == a + k + ", value - " + v;
  }

  lemma FindIsFormat(k: string, v: string)
    ensures Format("Found node: key - " + "%s" + ", value - " + "%s" + "", [k, v]) ==
            Some("Found node: key - " + k + ", value - " + v)
  {
    var a := "Found node: key - ";
    FormatTwo(a, k, ", value - ", v, "");
    assert a + k + ", value - " + v + "" == a + k + ", value - " + v;
  }

  lemma DeleteIsFormat(k: string)
    ensures Format(InfoTemplate(Deleted(k)), [k]) == Some(InfoText(Deleted(k)))
  {
    var a := "Deleted node: key - ";
    FormatOne(a, k, "");
    assert a + k + "" == a + k;
  }

  lemma KeyInvalidIsFormat(k: string)
    ensures Format(InfoTemplate(KeyInvalid(k)), [k]) == Some(InfoText(KeyInvalid(k)))
  {
    KeyInvalidTailHasNoConversion();
    FormatOne("ERROR: key ", k, " does not exist or has invalid format");
  }

  lemma KeyMessIsFormat(k: string)
    ensures Format(InfoTemplate(KeyExists(k)), [k]) == Some(InfoText(KeyExists(k)))
  {
    FormatOne("ERROR: key ", k, " already exists");
  }

  lemma ValueInvalidIsFormat(v: string)
    ensures Format(InfoTemplate(ValueInvalid(v)), [v]) == Some(InfoText(ValueInvalid(v)))
  {
    FormatOne("ERROR: value ", v, " does not exist");
  }

  lemma OperationInvalidIsFormat(e: string)
    ensures Format(InfoTemplate(OperationInvalid(e)), [e]) == Some(InfoText(OperationInvalid(e)))
  {
    OperationInvalidHeadHasNoConversion();
    var a := "ERROR: selected operation isn't completed - ";
    FormatOne(a, e, "");
    assert a + e + "" == a + e;
  }

  lemma KeyInvalidTailHasNoConversion()
    ensures '%' !in " does not exist or has invalid format"
  {
  }

  lemma OperationInvalidHeadHasNoConversion()
    ensures '%' !in "ERROR: selected operation isn't completed - "
  {
  }

  /**
    What the heap engine does on the call the run button makes.
    For `insert` and `delete`, `Raises(e)` is an `AssertionError` whose text
    is `e`, and any other reply is a normal return.
    For `find_min`, `MinNode(k, v)` returns the node with key `k` and value
    `v`, `Done` returns `None` (so reading `.key` raises an `AttributeError`),
    and `Raises(e)` is any exception, with text `e`.
  */
  datatype HeapReply = Done | MinNode(minKey: int, minValue: string) | Raises(error: string)

  /** The text of the `AttributeError` from reading `.key` of `None`. */
  const NoneHasNoKey: string := "'NoneType' object has no attribute 'key'"

  /** The status line `click_run_button` logs for the reply to `find_min`. */
  function FindMinInfo(reply: HeapReply): Info
  {
    match reply
    case MinNode(k, v) => Found(k, v)
    case Done => OperationInvalid(NoneHasNoKey)
    case Raises(e) => OperationInvalid(e)
  }

  /**
    How `click_run_button` ends: normally, or by a `ValueError` that it does
    not catch (from `int(...)` or `list.remove` in the delete branch).
  */
  datatype Completion = Returned | RaisedValueError

  class HeapViewModel {
    /** Python's `int(...)` on the key text: `None` where it raises `ValueError`. */
    const parse: string -> Option<int>

    var heap: multiset<int>
    var key: string
    var value: string
    var uniqueKeys: seq<string>
    var messages: seq<string>
    var operation: NodeOperation

    var keyTextboxState: State
    var valueTextboxState: State
    var mainButtonState: State

    /**
      The bookkeeping the view-model keeps between events: the log stays
      within its bound, and the remembered keys are distinct and are all
      well-formed integers.
    */
    ghost predicate Valid()
      reads this
    {
      |messages| <= MaxMessageNumber &&
      Distinct(uniqueKeys) &&
      forall k :: k in uniqueKeys ==> parse(k).Some?
    }

    constructor (parse: string -> Option<int>)
      ensures Valid()
      ensures this.parse == parse && heap == multiset{}
      ensures key == "" && value == "" && uniqueKeys == [] && messages == []
      ensures operation == Insert
      ensures keyTextboxState == Enabled && valueTextboxState == Enabled
      ensures mainButtonState == Disabled
    {
      this.parse := parse;
      heap := multiset{};
      key := "";
      value := "";
      uniqueKeys := [];
      messages := [];
      operation := Insert;
      keyTextboxState := Enabled;
      valueTextboxState := Enabled;
      mainButtonState := Enabled;
      new;
      SetValueTextboxEnabled();
      SetMainButtonDisabled();
    }

    /**
      Enables the run button for delete and find-min, and otherwise exactly
      when a key is typed and either a value is typed or the value box is off.
    */
    method ValidateText(op: Option<NodeOperation>)
      modifies this`mainButtonState
      ensures mainButtonState == Enabled <==>
        op == Some(Delete) || op == Some(FindMin) ||
        (key != "" && (value != "" || valueTextboxState == Disabled))
    {
      if op == Some(Delete) || op == Some(FindMin) {
        SetMainButtonEnabled();
      } else if key != "" && (value != "" || valueTextboxState == Disabled) {
        SetMainButtonEnabled();
      } else {
        SetMainButtonDisabled();
      }
    }

    method SetMainButtonEnabled()
      modifies this`mainButtonState
      ensures mainButtonState == Enabled
    {
      mainButtonState := Enabled;
    }

    method SetValueTextboxEnabled()
      modifies this`valueTextboxState
      ensures valueTextboxState == Enabled
    {
      valueTextboxState := Enabled;
    }

    method SetMainButtonDisabled()
      modifies this`mainButtonState
      ensures mainButtonState == Disabled
    {
      mainButtonState := Disabled;
    }

    method SetValueTextboxDisabled()
      modifies this`valueTextboxState
      ensures valueTextboxState == Disabled
    {
      valueTextboxState := Disabled;
    }

    /** No method enables the key box again once this has disabled it. */
    method SetKeyTextboxDisabled()
      modifies this`keyTextboxState
      ensures keyTextboxState == Disabled
    {
      keyTextboxState := Disabled;
    }

    /** The run button's Tk state string. */
    function GetMainButtonState(): (s: string)
      reads this
      ensures StateFromValue(s) == Some(mainButtonState)
    {
      StateValueRoundTrip(mainButtonState);
      mainButtonState.Value()
    }

    /** The value box's Tk state string. */
    function GetValueTextboxState(): (s: string)
      reads this
      ensures StateFromValue(s) == Some(valueTextboxState)
    {
      StateValueRoundTrip(valueTextboxState);
      valueTextboxState.Value()
    }

    function GetKey(): (k: string)
      reads this
      ensures k == key
    {
      key
    }

    function GetValue(): (v: string)
      reads this
      ensures v == value
    {
      value
    }

    /** Stores the key text and re-decides the run button (no operation given). */
    method SetKey(k: string)
      modifies this`key, this`mainButtonState
      ensures key == k
      ensures mainButtonState == Enabled <==> k != "" && (value != "" || valueTextboxState == Disabled)
    {
      key := k;
      ValidateText(None);
    }

    /** Stores the value text and re-decides the run button (no operation given). */
    method SetValue(v: string)
      modifies this`value, this`mainButtonState
      ensures value == v
      ensures mainButtonState == Enabled <==> key != "" && (v != "" || valueTextboxState == Disabled)
    {
      value := v;
      ValidateText(None);
    }

    /**
      The log as one text, lines joined by newlines: empty for an empty log,
      and split back into the log when no line holds a newline.
    */
    function GetMessageText(): (text: string)
      reads this
      ensures messages == [] ==> text == ""
      ensures messages != [] && SingleLines(messages) ==> Split(text) == messages
    {
      if messages != [] && SingleLines(messages) then
        SplitJoin(messages);
        Join(messages)
      else
        Join(messages)
    }

    /** Puts `m` at the head of the log and drops what is past the bound. */
    method UpdateMessages(m: string)
      requires Valid()
      modifies this`messages
      ensures Valid()
      ensures messages == PushMessage(old(messages), m)
    {
      messages := [m] + messages;
      if |messages| > MaxMessageNumber {
        messages := messages[..MaxMessageNumber];
      }
    }

    /**
      Chooses the operation and sets the widgets for it: find-min clears both
      texts and disables the key box; delete clears the value and disables
      the value box; every operation but delete leaves the value box enabled
      (find-min included); the run button ends enabled for delete and
      find-min, and for insert exactly when both texts are non-empty.
    */
    method SetOperation(op: NodeOperation)
      modifies this`operation, this`key, this`value
      modifies this`keyTextboxState, this`valueTextboxState, this`mainButtonState
      ensures operation == op
      ensures key == if op == FindMin then "" else old(key)
      ensures value == if op == Insert then old(value) else ""
      ensures keyTextboxState == if op == FindMin then Disabled else old(keyTextboxState)
      ensures valueTextboxState == if op == Delete then Disabled else Enabled
      ensures mainButtonState == Enabled <==> op != Insert || (old(key) != "" && old(value) != "")
    {
      operation := op;
      if op == FindMin {
        SetValueTextboxDisabled();
        SetValue("");

        SetKeyTextboxDisabled();
        SetKey("");
      }

      if op == Delete {
        SetValueTextboxDisabled();
        SetValue("");
      } else {
        SetValueTextboxEnabled();
      }
      ValidateText(Some(op));
    }

    /**
      Runs the chosen operation against the heap, whose behaviour on this call
      is `reply`, and logs one status line for it, except where a `ValueError`
      escapes.
    */
    method ClickRunButton(reply: HeapReply) returns (c: Completion)
      requires Valid()
      modifies this`heap, this`uniqueKeys, this`messages
      ensures Valid()
      // a disabled run button does nothing
      ensures mainButtonState == Disabled ==> c == Returned && unchanged(this)
      // insert of a key text already remembered: one warning, heap and keys kept
      ensures mainButtonState == Enabled && operation == Insert && key in old(uniqueKeys) ==>
        c == Returned && heap == old(heap) && uniqueKeys == old(uniqueKeys) &&
        messages == PushMessage(old(messages), InfoText(KeyExists(key)))
      // insert of a new key text that is not an integer
      ensures mainButtonState == Enabled && operation == Insert && key !in old(uniqueKeys) &&
              parse(key).None? ==>
        c == Returned && heap == old(heap) && uniqueKeys == old(uniqueKeys) &&
        messages == PushMessage(old(messages), InfoText(KeyInvalid(key)))
      // insert of a new integer key that the heap refuses
      ensures mainButtonState == Enabled && operation == Insert && key !in old(uniqueKeys) &&
              parse(key).Some? && reply.Raises? ==>
        c == Returned && heap == old(heap) && uniqueKeys == old(uniqueKeys) &&
        messages == PushMessage(old(messages), InfoText(OperationInvalid(reply.error)))
      // insert of a new integer key that the heap takes
      ensures mainButtonState == Enabled && operation == Insert && key !in old(uniqueKeys) &&
              parse(key).Some? && !reply.Raises? ==>
        c == Returned && heap == old(heap) + multiset{parse(key).value} &&
        uniqueKeys == old(uniqueKeys) + [key] &&
        messages == PushMessage(old(messages), InfoText(Inserted(key, value)))
      // delete of a key text that is not an integer: `int(...)` raises, nothing changes
      ensures mainButtonState == Enabled && operation == Delete && parse(key).None? ==>
        c == RaisedValueError && unchanged(this)
      // delete that the heap refuses
      ensures mainButtonState == Enabled && operation == Delete && parse(key).Some? && reply.Raises? ==>
        c == Returned && heap == old(heap) && uniqueKeys == old(uniqueKeys) &&
        messages == PushMessage(old(messages), InfoText(KeyInvalid(key)))
      // delete that the heap performs
      ensures mainButtonState == Enabled && operation == Delete && parse(key).Some? && !reply.Raises? ==>
        heap == old(heap) - multiset{parse(key).value} &&
        if old(uniqueKeys) == [] then
          c == Returned && uniqueKeys == [] &&
          messages == PushMessage(old(messages), InfoText(Deleted(key)))
        else if key in old(uniqueKeys) then
          c == Returned && uniqueKeys == RemoveFirst(old(uniqueKeys), key) &&
          messages == PushMessage(old(messages), InfoText(Deleted(key)))
        else
          // `list.remove` raises after the heap has changed
          c == RaisedValueError && uniqueKeys == old(uniqueKeys) && messages == old(messages)
      // find-min reports the node or the failure, and changes neither heap nor keys
      ensures mainButtonState == Enabled && operation == FindMin ==>
        c == Returned && heap == old(heap) && uniqueKeys == old(uniqueKeys) &&
        messages == PushMessage(old(messages), InfoText(FindMinInfo(reply)))
    {
      c := Returned;
      if mainButtonState == Disabled {
        return;
      }
      if operation == Insert {
        if key in uniqueKeys {
          UpdateMessages(InfoText(KeyExists(key)));
        } else {
          match parse(key)
          case None =>
            UpdateMessages(InfoText(KeyInvalid(key)));
          case Some(k) =>
            match reply
            case Raises(e) =>
              UpdateMessages(InfoText(OperationInvalid(e)));
            case _ =>
              heap := heap + multiset{k};
              uniqueKeys := uniqueKeys + [key];
              UpdateMessages(InfoText(Inserted(key, value)));
        }
      } else if operation == Delete {
        match parse(key)
        case None =>
          c := RaisedValueError;
        case Some(k) =>
          match reply
          case Raises(_) =>
            UpdateMessages(InfoText(KeyInvalid(key)));
          case _ =>
            heap := heap - multiset{k};
            if uniqueKeys != [] {
              if key in uniqueKeys {
                RemoveFirstDistinct(uniqueKeys, key);
                uniqueKeys := RemoveFirst(uniqueKeys, key);
              } else {
                c := RaisedValueError;
                return;
              }
            }
            UpdateMessages(InfoText(Deleted(key)));
      } else {
        match reply
        case MinNode(k, v) =>
          UpdateMessages(InfoText(Found(k, v)));
        case Done =>
          UpdateMessages(InfoText(OperationInvalid(NoneHasNoKey)));
        case Raises(e) =>
          UpdateMessages(InfoText(OperationInvalid(e)));
      }
    }
  }

  /**
    A session: type key "5" and value "a", run insert, run it again. The
    first run stores the key, the second only warns; the log shows both,
    newest first.
  */
  method DuplicateInsertScenario(parse: string -> Option<int>, reply: HeapReply)
    returns (log: seq<string>, keys: seq<string>, c: Completion)
    requires parse("5") == Some(5) && !reply.Raises?
    ensures c == Returned
    ensures keys == ["5"]
    ensures log == [InfoText(KeyExists("5")), InfoText(Inserted("5", "a"))]
  {
    var vm := new HeapViewModel(parse);
    vm.SetKey("5");
    vm.SetValue("a");
    c := vm.ClickRunButton(reply);
    assert vm.heap == multiset{5} && vm.uniqueKeys == ["5"];
    c := vm.ClickRunButton(reply);
    log, keys := vm.messages, vm.uniqueKeys;
  }
}

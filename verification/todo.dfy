/**
  The reorderable to-do list (src/app/anime-9/page.tsx): toggling an item,
  the deferred re-sort that sinks completed items to the bottom, appending,
  resetting, and the add-task dialog. Timers are explicit events.
 */
module Todo {

  import opened Text

  datatype TodoItem = TodoItem(id: string, text: string, completed: bool, color: string)

  /** The `value` of each entry of the dialog's colour palette, in display order. */
  const Palette: seq<string> := [
    "bg-pink-500", "bg-purple-500", "bg-blue-500", "bg-cyan-500",
    "bg-green-500", "bg-yellow-500", "bg-orange-500", "bg-red-500"
  ]

  const InitialTodos: seq<TodoItem> := [
    TodoItem("1", "Review project proposal", false, "bg-pink-500"),
    TodoItem("2", "Update documentation", false, "bg-purple-500"),
    TodoItem("3", "Schedule team meeting", false, "bg-blue-500"),
    TodoItem("4", "Test new features", false, "bg-cyan-500"),
    TodoItem("5", "Deploy to staging", false, "bg-green-500")
  ]

  // ---------------------------------------------------------------------------
  // Toggle

  function Flip(t: TodoItem): TodoItem {
    t.(completed := !t.completed)
  }

  /** The immediate part of `handleToggle`: every item whose id matches has `completed` negated. */
  function Toggle(todos: seq<TodoItem>, id: string): (r: seq<TodoItem>)
    ensures |r| == |todos|
    ensures forall i :: 0 <= i < |r| ==>
      r[i].id == todos[i].id && r[i].text == todos[i].text && r[i].color == todos[i].color
    ensures forall i :: 0 <= i < |r| ==>
      (r[i].completed != todos[i].completed <==> todos[i].id == id)
  {
    seq(|todos|, i requires 0 <= i < |todos| =>
      if todos[i].id == id then Flip(todos[i]) else todos[i])
  }

  /** Toggling the same id twice restores the list. */
  lemma ToggleInvolution(todos: seq<TodoItem>, id: string)
    ensures Toggle(Toggle(todos, id), id) == todos
  {
    var r := Toggle(Toggle(todos, id), id);
    assert forall i :: 0 <= i < |r| ==> r[i] == todos[i];
  }

  // ---------------------------------------------------------------------------
  // The deferred re-sort

  /** `current.filter((todo) => !todo.completed)` */
  function Incomplete(s: seq<TodoItem>): (r: seq<TodoItem>)
    ensures forall i :: 0 <= i < |r| ==> !r[i].completed
    ensures |r| <= |s|
  {
    if s == [] then []
    else if !s[0].completed then [s[0]] + Incomplete(s[1..])
    else Incomplete(s[1..])
  }

  /** `current.filter((todo) => todo.completed)` */
  function Completed(s: seq<TodoItem>): (r: seq<TodoItem>)
    ensures forall i :: 0 <= i < |r| ==> r[i].completed
    ensures |r| <= |s|
  {
    if s == [] then []
    else if s[0].completed then [s[0]] + Completed(s[1..])
    else Completed(s[1..])
  }

  /** The timer callback scheduled by `handleToggle`: incomplete items first, then completed ones. */
  function Resort(s: seq<TodoItem>): seq<TodoItem> {
    Incomplete(s) + Completed(s)
  }

  /** No completed item comes before an incomplete one. */
  predicate Partitioned(s: seq<TodoItem>) {
    forall i, j :: 0 <= i < j < |s| && s[i].completed ==> s[j].completed
  }

  lemma {:induction false} IncompleteAppend(a: seq<TodoItem>, b: seq<TodoItem>)
    ensures Incomplete(a + b) == Incomplete(a) + Incomplete(b)
  {
    if a != [] {
      assert (a + b)[1..] == a[1..] + b;
      IncompleteAppend(a[1..], b);
    } else {
      assert a + b == b;
    }
  }

  lemma {:induction false} CompletedAppend(a: seq<TodoItem>, b: seq<TodoItem>)
    ensures Completed(a + b) == Completed(a) + Completed(b)
  {
    if a != [] {
      assert (a + b)[1..] == a[1..] + b;
      CompletedAppend(a[1..], b);
    } else {
      assert a + b == b;
    }
  }

  lemma {:induction false} AllIncomplete(s: seq<TodoItem>)
    requires forall i :: 0 <= i < |s| ==> !s[i].completed
    ensures Incomplete(s) == s && Completed(s) == []
  {
    if s != [] {
      AllIncomplete(s[1..]);
    }
  }

  lemma {:induction false} AllCompleted(s: seq<TodoItem>)
    requires forall i :: 0 <= i < |s| ==> s[i].completed
    ensures Completed(s) == s && Incomplete(s) == []
  {
    if s != [] {
      AllCompleted(s[1..]);
    }
  }

  /** The two groups together hold exactly the items of the list. */
  lemma {:induction false} GroupsArePermutation(s: seq<TodoItem>)
    ensures multiset(Incomplete(s)) + multiset(Completed(s)) == multiset(s)
  {
    if s != [] {
      var t := s[1..];
      GroupsArePermutation(t);
      assert s == [s[0]] + t;
      if s[0].completed {
        assert Completed(s) == [s[0]] + Completed(t) && Incomplete(s) == Incomplete(t);
      } else {
        assert Incomplete(s) == [s[0]] + Incomplete(t) && Completed(s) == Completed(t);
      }
    }
  }

  /**
    The re-sort puts every incomplete item before every completed one, is a
    permutation of its input, keeps the relative order inside each group, and
    keeps the length.
   */
  lemma ResortSpec(s: seq<TodoItem>)
    ensures Partitioned(Resort(s))
    ensures multiset(Resort(s)) == multiset(s)
    ensures |Resort(s)| == |s|
    ensures Incomplete(Resort(s)) == Incomplete(s)
    ensures Completed(Resort(s)) == Completed(s)
  {
    var a, b := Incomplete(s), Completed(s);
    GroupsArePermutation(s);
    assert multiset(Resort(s)) == multiset(a) + multiset(b);
    assert |Resort(s)| == |multiset(Resort(s))| == |multiset(s)| == |s|;
    IncompleteAppend(a, b);
    CompletedAppend(a, b);
    AllIncomplete(a);
    AllCompleted(b);
    assert a + [] == a;
    assert [] + b == b;
  }

  /** An already partitioned list is a fixed point of the re-sort. */
  lemma {:induction false} PartitionedIsFixpoint(s: seq<TodoItem>)
    requires Partitioned(s)
    ensures Resort(s) == s
  {
    if s != [] {
      if s[0].completed {
        assert forall i :: 0 <= i < |s| ==> s[i].completed by {
          forall i | 0 < i < |s| ensures s[i].completed {
            assert s[0].completed;
          }
        }
        AllCompleted(s);
      } else {
        var t := s[1..];
        assert Partitioned(t) by {
          forall i, j | 0 <= i < j < |t| && t[i].completed ensures t[j].completed {
            assert s[i + 1].completed;
          }
        }
        PartitionedIsFixpoint(t);
        assert Resort(s) == [s[0]] + Resort(t);
      }
    }
  }

  /** The re-sort leaves a list unchanged exactly when the list is already partitioned. */
  lemma ResortFixpointIff(s: seq<TodoItem>)
    ensures Resort(s) == s <==> Partitioned(s)
  {
    ResortSpec(s);
    if Partitioned(s) {
      PartitionedIsFixpoint(s);
    }
  }

  /** Re-sorting the output of a re-sort changes nothing. */
  lemma ResortIdempotent(s: seq<TodoItem>)
    ensures Resort(Resort(s)) == Resort(s)
  {
    ResortSpec(s);
    PartitionedIsFixpoint(Resort(s));
  }

  // ---------------------------------------------------------------------------
  // Append, reset and the counters

  /** `addNewTodo`, with the `Date.now()` id supplied by the caller. */
  function AddTodo(todos: seq<TodoItem>, id: string, text: string, color: string): (r: seq<TodoItem>)
    ensures |r| == |todos| + 1
    ensures r[..|todos|] == todos
    ensures r[|todos|].id == id && r[|todos|].text == text && r[|todos|].color == color
    ensures !r[|todos|].completed
  {
    todos + [TodoItem(id, text, false, color)]
  }

  /** `completedCount`: the number of completed items. */
  function CompletedCount(todos: seq<TodoItem>): (n: nat)
    ensures n <= |todos|
  {
    |Completed(todos)|
  }

  lemma {:induction false} CompletedCountAppend(a: seq<TodoItem>, b: seq<TodoItem>)
    ensures CompletedCount(a + b) == CompletedCount(a) + CompletedCount(b)
  {
    CompletedAppend(a, b);
  }

  /** The re-sort moves items but completes none and reopens none. */
  lemma {:induction false} ResortKeepsCount(s: seq<TodoItem>)
    ensures CompletedCount(Resort(s)) == CompletedCount(s)
  {
    ResortSpec(s);
  }

  // ---------------------------------------------------------------------------
  // The list as an event-driven state machine

  /**
    The list plus the number of re-sort timers scheduled by `handleToggle`
    that have not fired yet.
   */
  datatype ListState = ListState(todos: seq<TodoItem>, pendingResorts: nat)

  datatype ListEvent =
    | ToggleClicked(id: string)
    | ResortTimerFired
    | TaskAdded(id: string, text: string, color: string)
    | ResetClicked
    | Reordered(order: seq<TodoItem>)

  const InitialList := ListState(InitialTodos, 0)

  /**
    `Reorder.Group` hands back a reordering of the displayed items; any
    other sequence is not an event the list can receive.
   */
  predicate Admissible(st: ListState, e: ListEvent) {
    e.Reordered? ==> multiset(e.order) == multiset(st.todos)
  }

  function ListStep(st: ListState, e: ListEvent): (r: ListState)
    requires Admissible(st, e)
    ensures |r.todos| >= |st.todos| || e.ResetClicked?
    ensures e.ResetClicked? ==> r.todos == InitialTodos
    ensures e.ToggleClicked? ==> r.pendingResorts == st.pendingResorts + 1
    ensures e.ResortTimerFired? && st.pendingResorts > 0 ==>
      r.pendingResorts + 1 == st.pendingResorts && Partitioned(r.todos)
    ensures e.ResortTimerFired? && st.pendingResorts == 0 ==> r == st
    ensures e.ToggleClicked? ==> r.todos == Toggle(st.todos, e.id)
    ensures e.ResortTimerFired? && st.pendingResorts > 0 ==> r.todos == Resort(st.todos)
    ensures e.TaskAdded? ==> r == st.(todos := AddTodo(st.todos, e.id, e.text, e.color))
    ensures e.ResetClicked? ==> r.pendingResorts == st.pendingResorts
    ensures e.Reordered? ==> r == st.(todos := e.order)
  {
    match e
    case ToggleClicked(id) =>
      ListState(Toggle(st.todos, id), st.pendingResorts + 1)
    case ResortTimerFired =>
      if st.pendingResorts == 0 then st
      else
        ResortSpec(st.todos);
        ListState(Resort(st.todos), st.pendingResorts - 1)
    case TaskAdded(id, text, color) =>
      st.(todos := AddTodo(st.todos, id, text, color))
    case ResetClicked =>
      st.(todos := InitialTodos)
    case Reordered(order) =>
      assert |order| == |multiset(order)| == |multiset(st.todos)| == |st.todos|;
      st.(todos := order)
  }

  predicate AdmissibleTrace(st: ListState, events: seq<ListEvent>)
    decreases |events|
  {
    if events == [] then true
    else Admissible(st, events[0]) && AdmissibleTrace(ListStep(st, events[0]), events[1..])
  }

  function ListRun(st: ListState, events: seq<ListEvent>): ListState
    requires AdmissibleTrace(st, events)
    decreases |events|
  {
    if events == [] then st else ListRun(ListStep(st, events[0]), events[1..])
  }

  /**
    No event removes items and a reset restores the five initial todos, so from
    the initial state the list always holds at least five items, and the
    completed count never exceeds the total.
   */
  lemma {:induction false} AtLeastInitialSize(st: ListState, events: seq<ListEvent>)
    requires |st.todos| >= |InitialTodos|
    requires AdmissibleTrace(st, events)
    ensures |ListRun(st, events).todos| >= 5
    ensures CompletedCount(ListRun(st, events).todos) <= |ListRun(st, events).todos|
    decreases |events|
  {
    if events != [] {
      AtLeastInitialSize(ListStep(st, events[0]), events[1..]);
    }
  }

  /** Every admissible run from the page's initial list keeps at least its five items. */
  lemma FromInitialList(events: seq<ListEvent>)
    requires AdmissibleTrace(InitialList, events)
    ensures |ListRun(InitialList, events).todos| >= |InitialTodos|
  {
    AtLeastInitialSize(InitialList, events);
  }

  // ---------------------------------------------------------------------------
  // The add-task dialog

  datatype Dialog = Dialog(open: bool, text: string, color: string)

  const ClosedDialog := Dialog(false, "", Palette[0])

  /** What a dialog action asks of the list: nothing, or `onAddTask(text, color)`. */
  datatype AddRequest = NoRequest | Add(text: string, color: string)

  /**
    `handleSubmit`: with a non-blank text, requests the trimmed text in the
    selected colour and closes the dialog with its fields reset; a blank
    text does nothing.
   */
  function Submit(d: Dialog): (r: (Dialog, AddRequest))
    ensures IsBlank(d.text) ==> r == (d, NoRequest)
    ensures !IsBlank(d.text) ==>
      r.0 == ClosedDialog && r.1 == Add(Trim(d.text), d.color) && r.1.text != []
  {
    var t := Trim(d.text);
    if t != [] then (ClosedDialog, Add(t, d.color)) else (d, NoRequest)
  }

  /** `handleCancel`: resets the fields and closes, without requesting anything. */
  function Cancel(d: Dialog): (r: (Dialog, AddRequest))
    ensures r.1 == NoRequest && !r.0.open && r.0.text == [] && r.0.color == Palette[0]
  {
    (ClosedDialog, NoRequest)
  }

  /** Submitting and cancelling leave the dialog in the same state when the text is not blank. */
  lemma SubmitThenSameAsCancel(d: Dialog)
    requires !IsBlank(d.text)
    ensures Submit(d).0 == Cancel(d).0
  {
  }

  /** A task the dialog hands to the list never has blank text, nor white space at either end. */
  lemma SubmittedTextTrimmed(d: Dialog)
    requires Submit(d).1.Add?
    ensures !IsBlank(Submit(d).1.text)
    ensures !IsSpace(Submit(d).1.text[0])
    ensures !IsSpace(Submit(d).1.text[|Submit(d).1.text| - 1])
  {
    var t := Submit(d).1.text;
    BlankIffAllSpace(t);
  }
}

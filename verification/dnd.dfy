/**
 * The task board of the DND component: three ordered task lists, the drag
 * handler that reorders a list or moves a task between lists, and the
 * operation that appends a new task to the todo list.
 */
module Dnd {
  import opened Wrappers
  import opened Splice
  import opened JsArrays

  /** A task record `{id, content}`. */
  datatype Task = Task(id: string, content: string)

  /** The three droppable lists, keyed "todo", "Running" and "Completed". */
  datatype Column = Todo | Running | Completed

  /** The `tasks` state object: one ordered list per column. */
  datatype Board = Board(todo: seq<Task>, running: seq<Task>, completed: seq<Task>) {

    /** `tasks[c]`. */
    function Get(c: Column): seq<Task>
    {
      match c
      case Todo => todo
      case Running => running
      case Completed => completed
    }

    /** `{...tasks, [c]: s}`: the board with list `c` replaced by `s`. */
    function With(c: Column, s: seq<Task>): (r: Board)
      ensures r.Get(c) == s
      ensures forall d :: d != c ==> r.Get(d) == Get(d)
    {
      match c
      case Todo => this.(todo := s)
      case Running => this.(running := s)
      case Completed => this.(completed := s)
    }
  }

  /** The number of tasks on the board, over all three lists. */
  function Total(b: Board): nat
  {
    |b.todo| + |b.running| + |b.completed|
  }

  /** All the tasks on the board, with their multiplicities. */
  function Bag(b: Board): multiset<Task>
  {
    multiset(b.todo) + multiset(b.running) + multiset(b.completed)
  }

  /** The lists one after the other, in the order the board shows them. */
  function All(b: Board): seq<Task>
  {
    b.todo + b.running + b.completed
  }

  /**
   * No task is on the board twice, and no two different tasks share an id:
   * every id appears at most once over the three lists.
   */
  ghost predicate UniqueIds(b: Board)
  {
    && (forall t :: Bag(b)[t] <= 1)
    && (forall t, u :: t in Bag(b) && u in Bag(b) && t.id == u.id ==> t == u)
  }

  /**
   * The initial state: the todo list is what storage held (nothing stored
   * reads as the empty list), and the other two lists start empty.
   */
  function Initial(stored: Option<seq<Task>>): (b: Board)
    ensures b.running == [] && b.completed == []
    ensures b.todo == if stored.Some? then stored.value else []
  {
    Board(if stored.Some? then stored.value else [], [], [])
  }

  /** The board starts with unique ids when the stored list has them. */
  lemma InitialUniqueIds(stored: Option<seq<Task>>)
    requires stored.Some? ==> UniqueIds(Board(stored.value, [], []))
    ensures UniqueIds(Initial(stored))
  {
    if stored.None? {
      assert Bag(Initial(stored)) == multiset{};
    }
  }

  // ---------------------------------------------------------------------
  // Drag resolution
  // ---------------------------------------------------------------------

  /** A position in a list: `{droppableId, index}`. */
  datatype Location = Location(droppableId: Column, index: nat)

  /** What the drag library reports when a drag ends; no destination when dropped outside every list. */
  datatype DropResult = DropResult(source: Location, destination: Option<Location>)

  /**
   * The indices of a drag result are in range for the board: the source
   * index names a task, and the destination index is a place to insert at
   * once the task has been taken out (so at most the last index in its own
   * list, at most the length of another list).
   */
  predicate InRange(b: Board, r: DropResult): (ok: bool)
    ensures ok <==>
      || r.destination.None?
      || (r.source.index < |b.Get(r.source.droppableId)| && r.destination.value.index <= |Landing(b, r)|)
  {
    match r.destination
    case None => true
    case Some(dst) =>
      && r.source.index < |b.Get(r.source.droppableId)|
      && if dst.droppableId == r.source.droppableId
         then dst.index < |b.Get(dst.droppableId)|
         else dst.index <= |b.Get(dst.droppableId)|
  }

  /**
   * The list the dragged task is spliced into: the source list with the task
   * already taken out when the drop is in the same list, the destination list
   * otherwise.
   */
  function Landing(b: Board, r: DropResult): seq<Task>
    requires r.destination.Some? && r.source.index < |b.Get(r.source.droppableId)|
  {
    var items := b.Get(r.source.droppableId);
    if r.destination.value.droppableId == r.source.droppableId
    then Removed(items, r.source.index)
    else b.Get(r.destination.value.droppableId)
  }

  /** Whether list `c` is the source or the destination of the drag. */
  predicate Touches(r: DropResult, c: Column)
  {
    r.destination.Some? && (c == r.source.droppableId || c == r.destination.value.droppableId)
  }

  /** The board after a drag ends with result `r`. */
  function Dragged(b: Board, r: DropResult): (next: Board)
    requires InRange(b, r)
    ensures r.destination.None? ==> next == b
    ensures forall c :: !Touches(r, c) ==> next.Get(c) == b.Get(c)
    ensures Total(next) == Total(b)
  {
    match r.destination
    case None => b
    case Some(dst) =>
      var src := r.source;
      var items := b.Get(src.droppableId);
      if src.droppableId == dst.droppableId then
        b.With(src.droppableId, Inserted(Removed(items, src.index), dst.index, items[src.index]))
      else
        b.With(src.droppableId, Removed(items, src.index))
         .With(dst.droppableId, Inserted(b.Get(dst.droppableId), dst.index, items[src.index]))
  }

  /**
   * The drag handler: copies the affected lists, splices the task out of
   * the source copy and into the destination copy, and builds the new state
   * from the old one with those lists replaced.
   */
  method OnDragEnd(tasks: Board, result: DropResult) returns (next: Board)
    requires InRange(tasks, result)
    ensures next == Dragged(tasks, result)
  {
    if result.destination.None? {
      return tasks;
    }
    var source, destination := result.source, result.destination.value;
    if source.droppableId == destination.droppableId {
      var items := new JsArray.From(tasks.Get(source.droppableId));
      var reorderedItem := items.RemoveAt(source.index);
      items.InsertAt(destination.index, reorderedItem);
      next := tasks.With(source.droppableId, items.Elements());
    } else {
      var sourceItems := new JsArray.From(tasks.Get(source.droppableId));
      var movedItem := sourceItems.RemoveAt(source.index);
      var destinationItems := new JsArray.From(tasks.Get(destination.droppableId));
      destinationItems.InsertAt(destination.index, movedItem);
      next := tasks.With(source.droppableId, sourceItems.Elements())
                   .With(destination.droppableId, destinationItems.Elements());
    }
  }

  /**
   * A reorder within one list keeps the list's length and its tasks; only
   * their order changes.
   */
  lemma ReorderKeepsTasks(b: Board, r: DropResult)
    requires InRange(b, r) && r.destination.Some?
    requires r.destination.value.droppableId == r.source.droppableId
    ensures |Dragged(b, r).Get(r.source.droppableId)| == |b.Get(r.source.droppableId)|
    ensures multiset(Dragged(b, r).Get(r.source.droppableId)) == multiset(b.Get(r.source.droppableId))
  {
    var items := b.Get(r.source.droppableId);
    var i, j := r.source.index, r.destination.value.index;
    RemovedMultiset(items, i);
    InsertedMultiset(Removed(items, i), j, items[i]);
  }

  /**
   * After a reorder the task from the source index is at the destination
   * index, and the other tasks are in the order they were in before.
   */
  lemma ReorderPlacesTask(b: Board, r: DropResult)
    requires InRange(b, r) && r.destination.Some?
    requires r.destination.value.droppableId == r.source.droppableId
    ensures
      var before, after := b.Get(r.source.droppableId), Dragged(b, r).Get(r.source.droppableId);
      var i, j := r.source.index, r.destination.value.index;
      && after[j] == before[i]
      && Removed(after, j) == Removed(before, i)
  {
    var items := b.Get(r.source.droppableId);
    var i, j := r.source.index, r.destination.value.index;
    RemovedInserted(Removed(items, i), j, items[i]);
  }

  /**
   * A move to another list shortens the source list by one and lengthens
   * the destination list by one; the task placed at the destination index
   * is the very record taken from the source index, and both lists are
   * otherwise what they were.
   */
  lemma TransferMovesTask(b: Board, r: DropResult)
    requires InRange(b, r) && r.destination.Some?
    requires r.destination.value.droppableId != r.source.droppableId
    ensures
      var src, dst := r.source.droppableId, r.destination.value.droppableId;
      var i, j := r.source.index, r.destination.value.index;
      var next := Dragged(b, r);
      && |next.Get(src)| == |b.Get(src)| - 1
      && |next.Get(dst)| == |b.Get(dst)| + 1
      && next.Get(dst)[j] == b.Get(src)[i]
      && next.Get(src) == Removed(b.Get(src), i)
      && Removed(next.Get(dst), j) == b.Get(dst)
  {
    var src, dst := r.source.droppableId, r.destination.value.droppableId;
    RemovedInserted(b.Get(dst), r.destination.value.index, b.Get(src)[r.source.index]);
  }

  /** Replacing list `c` by `s` trades that list's tasks for those of `s`. */
  lemma BagWith(b: Board, c: Column, s: seq<Task>)
    ensures Bag(b.With(c, s)) + multiset(b.Get(c)) == Bag(b) + multiset(s)
  {
  }

  /** Taking a task out of list `c` and putting it back in `c` keeps the board's tasks. */
  lemma ReorderKeepsBag(b: Board, c: Column, i: nat, j: nat)
    requires i < |b.Get(c)| && j < |b.Get(c)|
    ensures Bag(b.With(c, Inserted(Removed(b.Get(c), i), j, b.Get(c)[i]))) == Bag(b)
  {
    var items := b.Get(c);
    RemovedMultiset(items, i);
    InsertedMultiset(Removed(items, i), j, items[i]);
    BagWith(b, c, Inserted(Removed(items, i), j, items[i]));
  }

  /** Taking the task at `i` out of list `c` takes exactly that task off the board. */
  lemma RemoveFromBag(b: Board, c: Column, i: nat)
    requires i < |b.Get(c)|
    ensures Bag(b.With(c, Removed(b.Get(c), i))) + multiset{b.Get(c)[i]} == Bag(b)
  {
    var rest := Removed(b.Get(c), i);
    RemovedMultiset(b.Get(c), i);
    BagWith(b, c, rest);
    MultisetCancel(Bag(b.With(c, rest)) + multiset{b.Get(c)[i]}, Bag(b), multiset(rest));
  }

  /** Inserting `x` into list `d` puts exactly that task onto the board. */
  lemma InsertIntoBag(b: Board, d: Column, j: nat, x: Task)
    requires j <= |b.Get(d)|
    ensures Bag(b.With(d, Inserted(b.Get(d), j, x))) == Bag(b) + multiset{x}
  {
    var moved := Inserted(b.Get(d), j, x);
    InsertedMultiset(b.Get(d), j, x);
    BagWith(b, d, moved);
    MultisetCancel(Bag(b.With(d, moved)), Bag(b) + multiset{x}, multiset(b.Get(d)));
  }

  /** Taking a task out of list `c` and putting it into list `d` keeps the board's tasks. */
  lemma TransferKeepsBag(b: Board, c: Column, d: Column, i: nat, j: nat)
    requires c != d && i < |b.Get(c)| && j <= |b.Get(d)|
    ensures Bag(b.With(c, Removed(b.Get(c), i)).With(d, Inserted(b.Get(d), j, b.Get(c)[i]))) == Bag(b)
  {
    var b1 := b.With(c, Removed(b.Get(c), i));
    assert b1.Get(d) == b.Get(d);
    RemoveFromBag(b, c, i);
    InsertIntoBag(b1, d, j, b.Get(c)[i]);
  }

  /** Multiset union cancels. */
  lemma MultisetCancel(p: multiset<Task>, q: multiset<Task>, m: multiset<Task>)
    requires p + m == q + m
    ensures p == q
  {
    forall t ensures p[t] == q[t] {
      assert (p + m)[t] == (q + m)[t];
    }
  }

  /** No drag creates, loses or duplicates a task. */
  lemma DragKeepsBag(b: Board, r: DropResult)
    requires InRange(b, r)
    ensures Bag(Dragged(b, r)) == Bag(b)
  {
    if r.destination.Some? {
      var src, dst := r.source.droppableId, r.destination.value.droppableId;
      if src == dst {
        ReorderKeepsBag(b, src, r.source.index, r.destination.value.index);
      } else {
        TransferKeepsBag(b, src, dst, r.source.index, r.destination.value.index);
      }
    }
  }

  /** A drag keeps every id on the board unique. */
  lemma DragKeepsIdsUnique(b: Board, r: DropResult)
    requires InRange(b, r) && UniqueIds(b)
    ensures UniqueIds(Dragged(b, r))
  {
    DragKeepsBag(b, r);
  }

  /** Unique ids mean that no two positions of the board hold the same id. */
  lemma UniqueIdsAtPositions(b: Board, i: nat, j: nat)
    requires UniqueIds(b) && i < j < |All(b)|
    ensures All(b)[i].id != All(b)[j].id
  {
    var s := All(b);
    assert multiset(s) == Bag(b);
    RepeatCounted(s, i, j);
  }

  // ---------------------------------------------------------------------
  // Adding a task
  // ---------------------------------------------------------------------

  /** The character for decimal digit `d`. */
  function Digit(d: nat): (c: char)
    requires d < 10
    ensures '0' <= c <= '9' && c as int - '0' as int == d
  {
    ('0' as int + d) as char
  }

  /** The value of a character that is a decimal digit. */
  function DigitValue(c: char): nat
  {
    if '0' <= c <= '9' then c as int - '0' as int else 0
  }

  /**
   * A number written in decimal, as a template literal prints an integral
   * number: decimal digits only, and no leading zero unless the number is 0.
   */
  function Decimal(n: nat): (s: string)
    ensures |s| >= 1
    ensures forall k :: 0 <= k < |s| ==> '0' <= s[k] <= '9'
    ensures s[0] == '0' <==> n == 0
    decreases n
  {
    if n < 10 then [Digit(n)] else Decimal(n / 10) + [Digit(n % 10)]
  }

  /** The number a string of decimal digits stands for. */
  function DecimalValue(s: string): nat
  {
    if s == [] then 0 else DecimalValue(s[..|s| - 1]) * 10 + DigitValue(s[|s| - 1])
  }

  /** Reading back a number written in decimal gives the number. */
  lemma {:induction false} DecimalRoundTrip(n: nat)
    ensures DecimalValue(Decimal(n)) == n
    decreases n
  {
    if n >= 10 {
      DecimalRoundTrip(n / 10);
      var s := Decimal(n);
      assert s[..|s| - 1] == Decimal(n / 10);
    }
  }

  /**
   * The id a task created at millisecond `now` gets: `task-${now}`. The id
   * is the prefix "task-" followed by the decimal text of `now` (digits only,
   * no leading zero), which reads back as `now`.
   */
  function TaskId(now: nat): (id: string)
    ensures |id| > 5 && id[..5] == "task-"
    ensures id[5..] == Decimal(now) && DecimalValue(id[5..]) == now
  {
    DecimalRoundTrip(now);
    var id := "task-" + Decimal(now);
    assert id[5..] == Decimal(now);
    id
  }

  /** Tasks created at different milliseconds get different ids. */
  lemma TaskIdInjective(now1: nat, now2: nat)
    ensures TaskId(now1) == TaskId(now2) ==> now1 == now2
  {
    if TaskId(now1) == TaskId(now2) {
      assert Decimal(now1) == TaskId(now1)[5..];
      assert Decimal(now2) == TaskId(now2)[5..];
      DecimalRoundTrip(now1);
      DecimalRoundTrip(now2);
    }
  }

  /**
   * `addTask(content)` at millisecond `now`: appends the task
   * `{id: task-<now>, content}` to the end of the todo list.
   */
  function AddTask(b: Board, now: nat, content: string): (r: Board)
    ensures |r.todo| == |b.todo| + 1 && r.todo[..|b.todo|] == b.todo
    ensures r.todo[|b.todo|] == Task(TaskId(now), content)
    ensures r.running == b.running && r.completed == b.completed
  {
    var newTask := Task(TaskId(now), content);
    b.(todo := b.todo + [newTask])
  }

  /** Adding a task puts exactly one new task on the board and keeps all others. */
  lemma AddTaskBag(b: Board, now: nat, content: string)
    ensures Bag(AddTask(b, now, content)) == Bag(b) + multiset{Task(TaskId(now), content)}
    ensures Total(AddTask(b, now, content)) == Total(b) + 1
  {
    assert AddTask(b, now, content).todo == b.todo + [Task(TaskId(now), content)];
  }

  /** Adding a task whose id is not yet on the board keeps every id unique. */
  lemma AddTaskKeepsIdsUnique(b: Board, now: nat, content: string)
    requires UniqueIds(b)
    requires forall t :: t in Bag(b) ==> t.id != TaskId(now)
    ensures UniqueIds(AddTask(b, now, content))
  {
    AddTaskBag(b, now, content);
  }

  /**
   * The freshness condition cannot be dropped: two tasks added in the same
   * millisecond share an id, whatever their contents.
   */
  lemma SameMillisecondSharesId(b: Board, now: nat, c1: string, c2: string)
    ensures !UniqueIds(AddTask(AddTask(b, now, c1), now, c2))
  {
    var t1, t2 := Task(TaskId(now), c1), Task(TaskId(now), c2);
    AddTaskBag(b, now, c1);
    AddTaskBag(AddTask(b, now, c1), now, c2);
    var bag := Bag(AddTask(AddTask(b, now, c1), now, c2));
    assert bag == Bag(b) + multiset{t1} + multiset{t2};
    if c1 == c2 {
      assert bag[t1] >= 2;
    } else {
      assert t1 in bag && t2 in bag && t1 != t2;
    }
  }
}

/**
 The application component (src/App.tsx): the filter over the list of
 todos, the list updates its event handlers apply, the derived flags, and
 the component state those handlers change.
 */
module AppComponent {
  import opened Todos
  import opened JsArray
  import opened JsString
  import opened FooterComponent

  // ---------------------------------------------------------------------------
  // Filtering the list for display

  /** `filteringTodos`: the todos shown under a filter mode. */
  function FilteringTodos(todos: seq<Todo>, filterType: FilterTypes): seq<Todo>
  {
    match filterType
    case Active => Filter(todos, IsActive)
    case Completed => Filter(todos, IsCompleted)
    case All => todos
  }

  /** Whether a todo belongs to the view of a filter mode, independently of how the view is computed. */
  predicate Shows(filterType: FilterTypes, t: Todo)
  {
    match filterType
    case All => true
    case Active => !t.completed
    case Completed => t.completed
  }

  /** Under `All` the list is shown as it is. */
  lemma FilteringAllIsIdentity(todos: seq<Todo>)
    ensures FilteringTodos(todos, All) == todos
  {
  }

  /**
   Every mode shows exactly the todos it selects, each as often as it occurs
   in the list, in their order in the list.
   */
  lemma FilteringTodosSelects(todos: seq<Todo>, filterType: FilterTypes)
    ensures forall t :: t in FilteringTodos(todos, filterType) <==> t in todos && Shows(filterType, t)
    ensures forall t ::
      multiset(FilteringTodos(todos, filterType))[t] == if Shows(filterType, t) then multiset(todos)[t] else 0
    ensures IsSubsequence(FilteringTodos(todos, filterType), todos)
  {
    match filterType
    case All =>
      SubsequenceOfItself(todos);
    case Active =>
      FilterMembers(todos, IsActive);
      FilterCounts(todos, IsActive);
      FilterIsSubsequence(todos, IsActive);
    case Completed =>
      FilterMembers(todos, IsCompleted);
      FilterCounts(todos, IsCompleted);
      FilterIsSubsequence(todos, IsCompleted);
  }

  lemma {:induction false} SubsequenceOfItself(s: seq<Todo>)
    ensures IsSubsequence(s, s)
    decreases |s|
  {
    if s != [] {
      SubsequenceOfItself(s[..|s| - 1]);
    }
  }

  /** The Active and Completed views split the list: disjoint, and together the whole list. */
  lemma ActiveAndCompletedPartition(todos: seq<Todo>)
    ensures |FilteringTodos(todos, Active)| + |FilteringTodos(todos, Completed)| == |todos|
    ensures multiset(FilteringTodos(todos, Active)) + multiset(FilteringTodos(todos, Completed)) == multiset(todos)
    ensures forall t :: !(t in FilteringTodos(todos, Active) && t in FilteringTodos(todos, Completed))
  {
    FilterPartition(todos, IsActive, IsCompleted);
  }

  /** Filtering an already filtered view by the same mode changes nothing. */
  lemma FilteringTodosIdempotent(todos: seq<Todo>, filterType: FilterTypes)
    ensures FilteringTodos(FilteringTodos(todos, filterType), filterType) == FilteringTodos(todos, filterType)
  {
    match filterType
    case All =>
    case Active => FilterIdempotent(todos, IsActive);
    case Completed => FilterIdempotent(todos, IsCompleted);
  }

  // ---------------------------------------------------------------------------
  // Derived flags

  /** `isTodosEmpty`: the footer is rendered only when this is false. */
  predicate IsTodosEmpty(todos: seq<Todo>)
  {
    |todos| == 0
  }

  /** `isAllTodosCompleted`: `todos.every(todo => todo.completed)`. */
  predicate IsAllTodosCompleted(todos: seq<Todo>)
  {
    Every(todos, IsCompleted)
  }

  /**
   Every todo is completed exactly when the Active view is empty, which is
   exactly when no item is left; in particular this holds of the empty list.
   */
  lemma AllCompletedIffNoneActive(todos: seq<Todo>)
    ensures IsAllTodosCompleted(todos) <==> FilteringTodos(todos, Active) == []
    ensures IsAllTodosCompleted(todos) <==> AmountOfActiveTodos(todos) == 0
    ensures IsTodosEmpty(todos) ==> IsAllTodosCompleted(todos)
  {
    FilterMembers(todos, IsActive);
    var open := Filter(todos, IsActive);
    if i :| 0 <= i < |todos| && !todos[i].completed {
      assert todos[i] in open;
    }
    if open != [] {
      assert open[0] in open;
    }
  }

  // ---------------------------------------------------------------------------
  // Deleting a todo

  /** The filter callback of `deleteSelectedTodo`: keep the todos whose id differs. */
  function HasOtherId(targetId: int): Todo -> bool
  {
    (t: Todo) => t.id != targetId
  }

  /** The list after deleting the todo with id `targetId`. */
  function RemoveTodo(todos: seq<Todo>, targetId: int): seq<Todo>
  {
    Filter(todos, HasOtherId(targetId))
  }

  /**
   Deleting removes every todo with the id, keeps every other todo as often
   as it occurred, and keeps their order.
   */
  lemma RemoveTodoSpec(todos: seq<Todo>, targetId: int)
    ensures forall t :: t in RemoveTodo(todos, targetId) <==> t in todos && t.id != targetId
    ensures forall t ::
      multiset(RemoveTodo(todos, targetId))[t] == if t.id != targetId then multiset(todos)[t] else 0
    ensures IsSubsequence(RemoveTodo(todos, targetId), todos)
  {
    FilterMembers(todos, HasOtherId(targetId));
    FilterCounts(todos, HasOtherId(targetId));
    FilterIsSubsequence(todos, HasOtherId(targetId));
  }

  /** Deleting an id that no todo has leaves the list as it is. */
  lemma RemoveAbsentTodo(todos: seq<Todo>, targetId: int)
    requires forall i :: 0 <= i < |todos| ==> todos[i].id != targetId
    ensures RemoveTodo(todos, targetId) == todos
  {
    FilterKeepsAll(todos, HasOtherId(targetId));
  }

  /** With unique ids, deleting a present id removes exactly one todo. */
  lemma RemovePresentTodo(todos: seq<Todo>, k: int)
    requires 0 <= k < |todos|
    requires forall i, j :: 0 <= i < j < |todos| ==> todos[i].id != todos[j].id
    ensures |RemoveTodo(todos, todos[k].id)| == |todos| - 1
  {
    var id := todos[k].id;
    assert forall x :: HasId(id)(x) == !HasOtherId(id)(x);
    FilterPartition(todos, HasOtherId(id), HasId(id));
    FilterLength(todos, HasId(id));
    OnlyPositionWithId(todos, k);
  }

  /** With unique ids, position `k` is the only one holding its id. */
  lemma OnlyPositionWithId(todos: seq<Todo>, k: int)
    requires 0 <= k < |todos|
    requires forall i, j :: 0 <= i < j < |todos| ==> todos[i].id != todos[j].id
    ensures MatchingIndices(todos, HasId(todos[k].id)) == {k}
  {
  }

  // ---------------------------------------------------------------------------
  // Toggling the status of a todo

  /** `todoWithNewStatus`: the todo with its status flipped and the configured user id. */
  function ToggledTodo(todo: Todo, userId: int): Todo
  {
    Todo(todo.id, userId, todo.title, !todo.completed)
  }

  /** Toggling twice restores the todo, up to its user id. */
  lemma ToggledTwice(todo: Todo, userId: int)
    ensures ToggledTodo(ToggledTodo(todo, userId), userId) == todo.(userId := userId)
    ensures ToggledTodo(todo, userId).completed != todo.completed
  {
  }

  /** The `findIndex` callback: the todo has the id. */
  function HasId(id: int): Todo -> bool
  {
    (t: Todo) => t.id == id
  }

  /**
   The state updater run when an update succeeds: the position is looked up
   by the patched todo's id in `snapshot`, the list as it was when the
   handler was created, and the candidate is spliced into `current`, the
   list at the time the response arrives.
   */
  function StatusUpdate(snapshot: seq<Todo>, current: seq<Todo>, candidate: Todo, patchedId: int): seq<Todo>
  {
    SpliceOne(current, FindIndex(snapshot, HasId(patchedId)), candidate)
  }

  /**
   When the list has not changed since the handler was created and the id
   is present, the candidate replaces the first todo with that id, and
   nothing else changes.
   */
  lemma StatusUpdateInPlace(todos: seq<Todo>, candidate: Todo, k: int)
    requires 0 <= k < |todos| && todos[k].id == candidate.id
    requires forall j :: 0 <= j < k ==> todos[j].id != candidate.id
    ensures |StatusUpdate(todos, todos, candidate, candidate.id)| == |todos|
    ensures StatusUpdate(todos, todos, candidate, candidate.id)[k] == candidate
    ensures forall j :: 0 <= j < |todos| && j != k ==>
      StatusUpdate(todos, todos, candidate, candidate.id)[j] == todos[j]
  {
  }

  /**
   With unique ids, a successful update replaces the todo with the
   candidate's id by the candidate and leaves the other todos in place.
   */
  lemma StatusUpdateUniqueIds(todos: seq<Todo>, candidate: Todo)
    requires forall i, j :: 0 <= i < j < |todos| ==> todos[i].id != todos[j].id
    requires exists k :: 0 <= k < |todos| && todos[k].id == candidate.id
    ensures |StatusUpdate(todos, todos, candidate, candidate.id)| == |todos|
    ensures forall j :: 0 <= j < |todos| ==>
      StatusUpdate(todos, todos, candidate, candidate.id)[j] ==
        if todos[j].id == candidate.id then candidate else todos[j]
  {
  }

  /**
   When no todo of the snapshot has the patched id, `findIndex` gives -1 and
   the splice replaces the last todo of the current list (or adds the
   candidate to an empty list).
   */
  lemma StatusUpdateIdMissing(snapshot: seq<Todo>, current: seq<Todo>, candidate: Todo, patchedId: int)
    requires forall i :: 0 <= i < |snapshot| ==> snapshot[i].id != patchedId
    ensures StatusUpdate(snapshot, current, candidate, patchedId) ==
      if current == [] then [candidate] else current[..|current| - 1] + [candidate]
  {
  }

  /**
   A stale snapshot: the list was [a, b] when the toggle of `a` was clicked
   and `a` was deleted before the response arrived. The position 0 of `a`
   in the snapshot is applied to the current list [b], so `b` is replaced
   by the toggled `a`: the deleted todo comes back and `b` is lost.
   */
  lemma StaleSnapshotReplacesOther(a: Todo, b: Todo, userId: int)
    requires a.id != b.id
    ensures StatusUpdate([a, b], [b], ToggledTodo(a, userId), a.id) == [ToggledTodo(a, userId)]
  {
  }

  // ---------------------------------------------------------------------------
  // The component state and its event handlers

  /**
   The state of the component: `todos`, `newTodoTitle` and `filterType`,
   each replaced through its setter by the handlers below. `userId` is the
   configured user id the requests carry.
   */
  class App {
    const userId: int
    var todos: seq<Todo>
    var newTodoTitle: string
    var filterType: FilterTypes

    /** The title field never starts with white space. */
    ghost predicate Valid()
      reads this
    {
      newTodoTitle == [] || !IsWhitespace(newTodoTitle[0])
    }

    constructor(userId: int)
      ensures Valid()
      ensures this.userId == userId && todos == [] && newTodoTitle == [] && filterType == All
    {
      this.userId := userId;
      todos := [];
      newTodoTitle := [];
      filterType := All;
    }

    /** The todos rendered in the list: `filteredTodos`. */
    function FilteredTodos(): seq<Todo>
      reads this
    {
      FilteringTodos(todos, filterType)
    }

    /** The initial load: on success the list becomes the loaded one; a failure only raises an alert. */
    method LoadTodos(response: Response<seq<Todo>>)
      requires Valid()
      modifies this`todos
      ensures Valid()
      ensures todos == if response.Success? then response.value else old(todos)
    {
      if response.Success? {
        todos := response.value;
      }
    }

    /**
     `deleteSelectedTodo`: the delete request for `targetId` is always sent
     (`request`) and not awaited, and the todo is removed from the list at
     once, whatever the request does.
     */
    method DeleteSelectedTodo(targetId: int) returns (request: int)
      requires Valid()
      modifies this`todos
      ensures Valid()
      ensures request == targetId
      ensures todos == RemoveTodo(old(todos), targetId)
      ensures forall t :: t in todos ==> t.id != targetId
    {
      request := targetId;
      todos := RemoveTodo(todos, targetId);
      RemoveTodoSpec(old(todos), targetId);
    }

    /**
     `handleSubmit`: with an empty title nothing is sent and nothing
     changes. Otherwise the new todo is sent (`request`); the todo the
     store returns is appended on success, and the title is cleared on
     success and on failure.
     */
    method HandleSubmit(response: Response<Todo>) returns (request: Option<NewTodo>)
      requires Valid()
      modifies this`todos, this`newTodoTitle
      ensures Valid()
      ensures old(newTodoTitle) == [] ==>
        request == None && todos == old(todos) && newTodoTitle == old(newTodoTitle)
      ensures old(newTodoTitle) != [] ==>
        && request == Some(NewTodo(userId, old(newTodoTitle), false))
        && !IsWhitespace(request.value.title[0])
        && newTodoTitle == []
        && todos == if response.Success? then old(todos) + [response.value] else old(todos)
    {
      var pushingNewTodo := NewTodo(userId, newTodoTitle, false);
      request := None;
      if newTodoTitle != [] {
        request := Some(pushingNewTodo);
        if response.Success? {
          todos := todos + [response.value];
        }
        newTodoTitle := [];
      }
    }

    /**
     `handleTodoStatus`: the toggled todo is sent (`request`). On success the
     list becomes `StatusUpdate` of the list, looking the position up in
     `snapshot`, the list rendered when the checkbox was clicked; on failure
     the list is unchanged.
     */
    method HandleTodoStatus(todo: Todo, snapshot: seq<Todo>, response: Response<Todo>) returns (request: Todo)
      requires Valid()
      modifies this`todos
      ensures Valid()
      ensures request == ToggledTodo(todo, userId)
      ensures request.id == todo.id && request.title == todo.title
      ensures request.completed == !todo.completed && request.userId == userId
      ensures todos == if response.Success?
        then StatusUpdate(snapshot, old(todos), request, response.value.id)
        else old(todos)
    {
      request := ToggledTodo(todo, userId);
      if response.Success? {
        var patchedTodo := response.value;
        todos := StatusUpdate(snapshot, todos, request, patchedTodo.id);
      }
    }

    /** The title field's change handler stores the typed value without its leading white space. */
    method ChangeNewTodoTitle(value: string)
      modifies this`newTodoTitle
      ensures Valid()
      ensures newTodoTitle == TrimStart(value)
    {
      newTodoTitle := TrimStart(value);
    }

    /** `setFilterType`, the setter the footer is given. */
    method SetFilterType(filterType: FilterTypes)
      requires Valid()
      modifies this`filterType
      ensures Valid()
      ensures this.filterType == filterType
    {
      this.filterType := filterType;
    }

    /**
     A click on the footer link for value `v`: the mode changes only when
     `handleFiltering` matches a case. The footer, and so its links, is
     rendered only when the list is not empty.
     */
    method ClickFilterLink(v: LinkValue)
      requires Valid()
      requires !IsTodosEmpty(todos)
      modifies this`filterType
      ensures Valid()
      ensures filterType == match HandleFiltering(v)
        case Some(f) => f
        case None => old(filterType)
    {
      match HandleFiltering(v)
      case Some(f) => SetFilterType(f);
      case None =>
    }
  }
}

/**
 The footer of the list (src/components/Footer.tsx): the "items left"
 counter, the enablement of the "Clear completed" button, and the filter
 links with their click handler and "selected" marking.
 */
module FooterComponent {
  import opened Todos
  import opened JsArray

  /** The number shown as "items left": how many todos are not completed. */
  function AmountOfActiveTodos(todos: seq<Todo>): nat
  {
    |Filter(todos, IsActive)|
  }

  /** The counter is the number of positions holding an uncompleted todo, so never more than the list length. */
  lemma AmountOfActiveTodosCounts(todos: seq<Todo>)
    ensures AmountOfActiveTodos(todos) == |MatchingIndices(todos, IsActive)|
    ensures AmountOfActiveTodos(todos) <= |todos|
  {
    FilterLength(todos, IsActive);
  }

  /** `todos.some(todo => todo.completed === true)`. */
  function IsSomeTodoIsCompleted(todos: seq<Todo>): bool
  {
    Any(todos, IsCompleted)
  }

  /** The "Clear completed" button is rendered disabled when this holds. */
  predicate IsClearCompletedDisabled(todos: seq<Todo>)
  {
    !IsSomeTodoIsCompleted(todos)
  }

  /**
   The button is disabled exactly when no todo is completed, which is
   exactly when every todo counts as an item left.
   */
  lemma ClearCompletedDisabledIff(todos: seq<Todo>)
    ensures IsClearCompletedDisabled(todos) <==> forall i :: 0 <= i < |todos| ==> !todos[i].completed
    ensures IsClearCompletedDisabled(todos) <==> AmountOfActiveTodos(todos) == |todos|
  {
    FilterPartition(todos, IsActive, IsCompleted);
    FilterMembers(todos, IsCompleted);
    var done := Filter(todos, IsCompleted);
    if i :| 0 <= i < |todos| && todos[i].completed {
      assert todos[i] in done;
    }
    if done != [] {
      assert done[0] in done;
    }
  }

  /**
   A value the filter links are built from. `Object.values` of the numeric
   enumeration `FilterTypes` yields the three names and the three numbers.
   */
  datatype LinkValue = NameValue(name: string) | NumberValue(number: int)

  /** The value a filter mode has at run time: its number. */
  function RuntimeValue(f: FilterTypes): LinkValue
  {
    NumberValue(Ordinal(f))
  }

  /** The values the links are rendered for, in `Object.values` order: names first, then numbers. */
  function FilterLinkValues(): (links: seq<LinkValue>)
    ensures |links| == 6
    ensures forall f :: links[Ordinal(f)] == NameValue(Name(f)) && links[3 + Ordinal(f)] == RuntimeValue(f)
  {
    [NameValue(Name(All)), NameValue(Name(Active)), NameValue(Name(Completed)),
     RuntimeValue(All), RuntimeValue(Active), RuntimeValue(Completed)]
  }

  /**
   `handleFiltering`: the mode passed to the filter setter when a link with
   value `v` is clicked, or None when no case of the switch matches and the
   setter is not called.
   */
  function HandleFiltering(v: LinkValue): Option<FilterTypes>
  {
    match v
    case NameValue(s) =>
      if s == "All" then Some(All)
      else if s == "Active" then Some(Active)
      else if s == "Completed" then Some(Completed)
      else None
    case NumberValue(_) => None
  }

  /** A click sets mode `f` exactly when the link's value is the name of `f`. */
  lemma HandleFilteringSetsNamedMode(v: LinkValue, f: FilterTypes)
    ensures HandleFiltering(v) == Some(f) <==> v == NameValue(Name(f))
  {
  }

  /** A value that is no mode's name (such as a mode's number) matches no case. */
  lemma HandleFilteringIgnoresOthers(v: LinkValue)
    requires forall f :: v != NameValue(Name(f))
    ensures HandleFiltering(v) == None
  {
    if HandleFiltering(v).Some? {
      HandleFilteringSetsNamedMode(v, HandleFiltering(v).value);
    }
  }

  /** A link is marked selected when its value strictly equals the current mode. */
  predicate IsSelected(v: LinkValue, filterType: FilterTypes)
  {
    v == RuntimeValue(filterType)
  }

  /**
   For every mode exactly one of the six links is selected, the one for
   the mode's number; the three name links are never selected.
   */
  lemma SelectedLinkIsTheNumber(filterType: FilterTypes)
    ensures forall i :: 0 <= i < |FilterLinkValues()| ==>
      (IsSelected(FilterLinkValues()[i], filterType) <==> i == 3 + Ordinal(filterType))
  {
  }

  /** Clicking the selected link does nothing: the links that act are never the selected one. */
  lemma SelectedLinkIsInert(v: LinkValue, filterType: FilterTypes)
    requires IsSelected(v, filterType)
    ensures HandleFiltering(v) == None
  {
  }
}

/**
  The to-do record and the persisted list of records (memo/TodoItemClass.swift).

  The list is stored as one blob under a fixed key and is always read and
  written whole. The blob and its JSON codec are not modelled: the store is
  seen through the decoder, so `saved == None` stands both for "nothing was
  ever written" and for "what is written does not decode".
 */
module TodoItems {
  import opened Wrappers

  /** A point in time. The model never looks inside one. */
  type Date(==, !new)

  /** A case of the app's `Category` enumeration; its cases and raw values are
      supplied by `Categories.CategoryEnum`. */
  type Category(==, !new)

  /** One task. `category` is read and written by the detail screen although
      the struct in TodoItemClass.swift does not declare it. */
  datatype TodoItem = TodoItem(
    id: int,
    title: string,
    isCompleted: bool,
    dueDate: Date,
    category: Category)

  /** What the user-defaults entry holds, as the decoder sees it. */
  datatype Store = Store(saved: Option<seq<TodoItem>>)

  /** `getTodoList`: the decoded list, or the empty list when the entry is
      missing or does not decode. */
  function Load(st: Store): (r: seq<TodoItem>)
    ensures st.saved.None? ==> r == []
    ensures st.saved.Some? ==> r == st.saved.value
  {
    st.saved.GetOr([])
  }

  /** `setTodoList`: overwrites the whole entry with `list`. */
  function Save(list: seq<TodoItem>): (st: Store)
    ensures st.saved.Some?
    ensures Load(st) == list
  {
    Store(Some(list))
  }

  /** Whatever was written last is what the next load returns. */
  lemma LoadAfterSave(list: seq<TodoItem>)
    ensures Load(Save(list)) == list
  {
  }

  /** Saving the list just loaded and loading again yields the same list, and
      a second save changes nothing further. */
  lemma SaveLoadedIsStable(st: Store)
    ensures Load(Save(Load(st))) == Load(st)
    ensures Save(Load(Save(Load(st)))) == Save(Load(st))
  {
  }
}

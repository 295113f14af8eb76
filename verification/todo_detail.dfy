/**
  The detail screen's logic (memo/Controllers/TodoDetailViewController.swift):
  what it shows for the current task, how it commits an edit, and how it
  deletes the task. The screen state is the optional current task plus the
  persisted list; UIKit views, alerts and navigation are reduced to the values
  they display or the effects they request.
 */
module TodoDetail {
  import opened Wrappers
  import opened TodoItems
  import opened Categories

  /** The platform behaviour the screen relies on: a `DateFormatter` set to
      "yyyy-MM-dd HH:mm" (parsing is partial) and the `Category` enumeration. */
  datatype Platform = Platform(
    parseDate: string -> Option<Date>,
    formatDate: Date -> string,
    categories: CategoryEnum)

  /** `todoItem` and the list held in user defaults. */
  datatype Screen = Screen(todoItem: Option<TodoItem>, store: Store)

  /** The texts of the edit alert's three fields (title, due date, category);
      a `UITextField`'s text may be nil. */
  datatype EditForm = EditForm(title: Option<string>, dueDate: Option<string>, category: Option<string>)

  /** What `updateUI` puts on screen. */
  datatype Rendered = Rendered(
    name: Option<string>,
    segment: int,
    categoryLabel: string,
    dueDateLabel: Option<string>)

  /** An edit commit: the new screen state, and what was re-rendered (None when
      the commit returned before `updateUI`). */
  datatype EditOutcome = EditOutcome(screen: Screen, shown: Option<Rendered>)

  /** Side effects of a delete that leave the screen. */
  datatype Effect = PostTodoItemDeleted | PopViewController

  datatype DeleteOutcome = DeleteOutcome(screen: Screen, effects: seq<Effect>)

  // ---------------------------------------------------------------------------
  // Render

  /** `formattedDate`: no date, no text. */
  function FormattedDate(p: Platform, date: Option<Date>): (r: Option<string>)
    ensures r.None? <==> date.None?
    ensures date.Some? ==> r.value == p.formatDate(date.value)
  {
    match date
    case None => None
    case Some(d) => Some(p.formatDate(d))
  }

  /** `updateUI`: the projection of the current task onto the screen. */
  function Render(p: Platform, item: Option<TodoItem>): (r: Rendered)
    ensures r.segment == 0 || r.segment == 1
    ensures r.segment == 1 <==> item.Some? && item.value.isCompleted
    ensures r.name.Some? <==> item.Some?
    ensures item.Some? ==> r.name.value == item.value.title
    ensures item.Some? ==> r.categoryLabel == "Category: " + p.categories.rawValue(item.value.category)
    ensures item.None? ==> r.categoryLabel == "Category: "
    ensures r.dueDateLabel.None? <==> item.None?
    ensures item.Some? ==> r.dueDateLabel == Some(p.formatDate(item.value.dueDate))
  {
    match item
    case None => Rendered(None, 0, "Category: ", FormattedDate(p, None))
    case Some(t) =>
      Rendered(
        Some(t.title),
        if t.isCompleted then 1 else 0,
        "Category: " + p.categories.rawValue(t.category),
        FormattedDate(p, Some(t.dueDate)))
  }

  /** The category label names a case that the edit form would accept back. */
  lemma RenderedCategoryParsesBack(p: Platform, t: TodoItem)
    requires DistinctRawValues(p.categories)
    requires t.category in p.categories.allCases
    ensures var text := Render(p, Some(t)).categoryLabel;
      |text| >= 10 && text[..10] == "Category: " &&
      FromRawValue(p.categories, text[10..]) == Some(t.category)
  {
  }

  // ---------------------------------------------------------------------------
  // Edit

  /** The field values an edit writes into every matching entry. A `None`
      category means the submitted text named no case. */
  datatype Change = Change(title: string, dueDate: Date, category: Option<Category>)

  /** The loop's test `item.id == todoItem?.id`: a nil current task matches nothing. */
  predicate Matches(item: TodoItem, key: Option<int>) {
    key == Some(item.id)
  }

  function KeyOf(current: Option<TodoItem>): Option<int> {
    match current
    case None => None
    case Some(t) => Some(t.id)
  }

  /** The three assignments to `todoList[index]`. */
  function UpdateEntry(item: TodoItem, ch: Change): (r: TodoItem)
    ensures r.id == item.id && r.isCompleted == item.isCompleted
    ensures r.title == ch.title && r.dueDate == ch.dueDate
    ensures ch.category.Some? ==> r.category == ch.category.value
    ensures ch.category.None? ==> r.category == item.category
  {
    item.(title := ch.title,
          dueDate := ch.dueDate,
          category := if ch.category.Some? then ch.category.value else item.category)
  }

  /** One pass of the loop body over an entry. */
  function EditEntry(item: TodoItem, key: Option<int>, ch: Change): TodoItem {
    if Matches(item, key) then UpdateEntry(item, ch) else item
  }

  /** The list after an edit, entry by entry. */
  function EditedList(list: seq<TodoItem>, key: Option<int>, ch: Change): (r: seq<TodoItem>)
    ensures |r| == |list|
    ensures forall i :: 0 <= i < |list| ==>
      r[i].id == list[i].id && r[i].isCompleted == list[i].isCompleted
    ensures forall i :: 0 <= i < |list| && !Matches(list[i], key) ==> r[i] == list[i]
    ensures forall i :: 0 <= i < |list| && Matches(list[i], key) ==>
      && r[i].title == ch.title
      && r[i].dueDate == ch.dueDate
      && (ch.category.Some? ==> r[i].category == ch.category.value)
      && (ch.category.None? ==> r[i].category == list[i].category)
  {
    seq(|list|, i requires 0 <= i < |list| => EditEntry(list[i], key, ch))
  }

  /** The position of the last entry carrying `key`. */
  function LastMatch(list: seq<TodoItem>, key: Option<int>): (r: Option<nat>)
    ensures r.Some? ==> r.value < |list| && Matches(list[r.value], key)
    ensures r.Some? ==> forall j :: r.value < j < |list| ==> !Matches(list[j], key)
    ensures r.None? <==> forall j :: 0 <= j < |list| ==> !Matches(list[j], key)
  {
    if list == [] then None
    else if Matches(list[|list| - 1], key) then Some(|list| - 1)
    else LastMatch(list[..|list| - 1], key)
  }

  /** `todoItem` after the loop: the last entry it updated, if any. */
  function CurrentAfterEdit(list: seq<TodoItem>, current: Option<TodoItem>, ch: Change): (r: Option<TodoItem>)
    ensures KeyOf(r) == KeyOf(current)
    ensures LastMatch(list, KeyOf(current)).None? ==> r == current
    ensures LastMatch(list, KeyOf(current)).Some? ==>
      r.Some? && r.value.title == ch.title && r.value.dueDate == ch.dueDate
  {
    match LastMatch(list, KeyOf(current))
    case None => current
    case Some(k) => Some(UpdateEntry(list[k], ch))
  }

  /** One more iteration of the loop: the last match in a longer prefix. */
  lemma LastMatchStep(list: seq<TodoItem>, index: int, key: Option<int>)
    requires 0 <= index < |list|
    ensures LastMatch(list[..index + 1], key) ==
      if Matches(list[index], key) then Some(index) else LastMatch(list[..index], key)
  {
    assert list[..index + 1][..index] == list[..index];
  }

  /** A list that agrees with the edit entry by entry is the edited list. */
  lemma EditedListPointwise(list: seq<TodoItem>, key: Option<int>, ch: Change, edited: seq<TodoItem>)
    requires |edited| == |list|
    requires forall i :: 0 <= i < |list| ==>
      edited[i] == EditEntry(list[i], key, ch)
    ensures edited == EditedList(list, key, ch)
  {
  }

  /** The loop of `handleEditAction`, as written: it walks the loaded list,
      compares each entry with the id of `todoItem` as it stands at that
      iteration, updates matches in place and makes each updated entry the
      current task. */
  method EditEntries(list: seq<TodoItem>, current: Option<TodoItem>, ch: Change)
    returns (edited: seq<TodoItem>, current': Option<TodoItem>)
    ensures edited == EditedList(list, KeyOf(current), ch)
    ensures current' == CurrentAfterEdit(list, current, ch)
  {
    ghost var key := KeyOf(current);
    edited := list;
    current' := current;
    var index := 0;
    while index < |list|
      invariant 0 <= index <= |list|
      invariant |edited| == |list|
      invariant KeyOf(current') == key
      invariant forall i :: 0 <= i < index ==>
        edited[i] == EditEntry(list[i], key, ch)
      invariant forall i :: index <= i < |list| ==> edited[i] == list[i]
      invariant current' == CurrentAfterEdit(list[..index], current, ch)
    {
      var item := list[index];
      LastMatchStep(list, index, key);
      if current'.Some? && item.id == current'.value.id {
        edited := edited[index := UpdateEntry(edited[index], ch)];
        current' := Some(edited[index]);
      }
      index := index + 1;
    }
    assert list[..index] == list;
    EditedListPointwise(list, key, ch, edited);
  }

  /** `handleEditAction`: parse the due date (a nil field reads as ""); if it
      does not parse, return with nothing loaded, saved or re-rendered.
      Otherwise load the list, run the loop, save the list whatever it found,
      and re-render. */
  method HandleEdit(p: Platform, s: Screen, form: EditForm) returns (r: EditOutcome)
    ensures p.parseDate(form.dueDate.GetOr("")).None? ==> r == EditOutcome(s, None)
    ensures p.parseDate(form.dueDate.GetOr("")).Some? ==>
      var ch := Change(form.title.GetOr(""), p.parseDate(form.dueDate.GetOr("")).value,
                       FromRawValue(p.categories, form.category.GetOr("")));
      && r.screen.store.saved == Some(EditedList(Load(s.store), KeyOf(s.todoItem), ch))
      && r.screen.todoItem == CurrentAfterEdit(Load(s.store), s.todoItem, ch)
      && r.shown == Some(Render(p, r.screen.todoItem))
    ensures p.parseDate(form.dueDate.GetOr("")).Some? && LastMatch(Load(s.store), KeyOf(s.todoItem)).Some? ==>
      && r.shown.Some?
      && r.shown.value.name == Some(form.title.GetOr(""))
      && r.shown.value.dueDateLabel == Some(p.formatDate(p.parseDate(form.dueDate.GetOr("")).value))
  {
    var dueDate := p.parseDate(form.dueDate.GetOr(""));
    if dueDate.None? {
      return EditOutcome(s, None);
    }
    var ch := Change(form.title.GetOr(""), dueDate.value, FromRawValue(p.categories, form.category.GetOr("")));
    var todoList, todoItem := EditEntries(Load(s.store), s.todoItem, ch);
    var screen := Screen(todoItem, Save(todoList));
    r := EditOutcome(screen, Some(Render(p, screen.todoItem)));
  }

  /** With no current task, or no entry carrying its id, an edit writes the
      loaded list back unchanged and leaves the current task alone. */
  lemma EditWithoutMatchIsIdentity(list: seq<TodoItem>, current: Option<TodoItem>, ch: Change)
    requires forall i :: 0 <= i < |list| ==> !Matches(list[i], KeyOf(current))
    ensures EditedList(list, KeyOf(current), ch) == list
    ensures CurrentAfterEdit(list, current, ch) == current
  {
  }

  /** The current task after an edit is the entry the loop updated last, as
      saved in the list. */
  lemma CurrentIsLastUpdatedEntry(list: seq<TodoItem>, current: Option<TodoItem>, ch: Change)
    requires LastMatch(list, KeyOf(current)).Some?
    ensures var k := LastMatch(list, KeyOf(current)).value;
      CurrentAfterEdit(list, current, ch) == Some(EditedList(list, KeyOf(current), ch)[k])
  {
  }

  predicate DistinctIds(list: seq<TodoItem>) {
    forall i, j :: 0 <= i < j < |list| ==> list[i].id != list[j].id
  }

  /** With distinct ids, editing the task at position k changes that entry
      only. */
  lemma EditTargetsOneEntry(list: seq<TodoItem>, k: int, ch: Change)
    requires DistinctIds(list)
    requires 0 <= k < |list|
    ensures EditedList(list, Some(list[k].id), ch) == list[k := UpdateEntry(list[k], ch)]
  {
  }

  /** Committing the same edit twice leaves the list as committing it once. */
  lemma EditIsIdempotent(list: seq<TodoItem>, key: Option<int>, ch: Change)
    ensures EditedList(EditedList(list, key, ch), key, ch) == EditedList(list, key, ch)
  {
  }

  /** A category text that names no case leaves every matching entry's
      category as it was, while title and due date are still written. */
  lemma UnknownCategoryKeepsCategory(p: Platform, list: seq<TodoItem>, key: Option<int>, title: string, due: Date, text: string, i: int)
    requires forall k :: 0 <= k < |p.categories.allCases| ==> p.categories.rawValue(p.categories.allCases[k]) != text
    requires 0 <= i < |list| && Matches(list[i], key)
    ensures var r := EditedList(list, key, Change(title, due, FromRawValue(p.categories, text)));
      r[i].category == list[i].category && r[i].title == title && r[i].dueDate == due
  {
  }

  // ---------------------------------------------------------------------------
  // Delete

  /** The number of entries carrying `id`. */
  function CountId(list: seq<TodoItem>, id: int): (n: nat)
    ensures n <= |list|
    ensures n == 0 <==> forall i :: 0 <= i < |list| ==> list[i].id != id
  {
    if list == [] then 0
    else (if list[0].id == id then 1 else 0) + CountId(list[1..], id)
  }

  /** `todoList.removeAll { $0.id == todoItem.id }`. */
  function RemoveId(list: seq<TodoItem>, id: int): (r: seq<TodoItem>)
    ensures forall i :: 0 <= i < |r| ==> r[i].id != id
    ensures |r| == |list| - CountId(list, id)
  {
    if list == [] then []
    else if list[0].id == id then RemoveId(list[1..], id)
    else [list[0]] + RemoveId(list[1..], id)
  }

  /** The entries kept are exactly the entries without the id. */
  lemma {:induction false} RemoveIdKeeps(list: seq<TodoItem>, id: int, x: TodoItem)
    ensures x in RemoveId(list, id) <==> x in list && x.id != id
  {
    if list != [] {
      RemoveIdKeeps(list[1..], id, x);
      assert list == [list[0]] + list[1..];
    }
  }

  /** Removal works piece by piece, so the kept entries stay in their order. */
  lemma {:induction false} RemoveIdDistributes(a: seq<TodoItem>, b: seq<TodoItem>, id: int)
    ensures RemoveId(a + b, id) == RemoveId(a, id) + RemoveId(b, id)
  {
    if a == [] {
      assert a + b == b;
    } else {
      var ab := a + b;
      assert ab[0] == a[0] && ab[1..] == a[1..] + b;
      RemoveIdDistributes(a[1..], b, id);
      if a[0].id != id {
        calc {
          RemoveId(ab, id);
          [a[0]] + RemoveId(a[1..] + b, id);
          [a[0]] + (RemoveId(a[1..], id) + RemoveId(b, id));
          ([a[0]] + RemoveId(a[1..], id)) + RemoveId(b, id);
        }
      }
    }
  }

  /** A list without the id is left as it is. */
  lemma {:induction false} RemoveAbsentId(list: seq<TodoItem>, id: int)
    requires CountId(list, id) == 0
    ensures RemoveId(list, id) == list
  {
    if list != [] {
      RemoveAbsentId(list[1..], id);
    }
  }

  /** Removing twice is removing once. */
  lemma RemoveIdIsIdempotent(list: seq<TodoItem>, id: int)
    ensures RemoveId(RemoveId(list, id), id) == RemoveId(list, id)
  {
  }

  /** Removing the id of the one entry that carries it, between two stretches
      that do not, leaves the two stretches joined. */
  lemma RemoveSingleMatch(a: seq<TodoItem>, x: TodoItem, b: seq<TodoItem>)
    requires CountId(a, x.id) == 0 && CountId(b, x.id) == 0
    ensures RemoveId(a + [x] + b, x.id) == a + b
  {
    var ax := a + [x];
    RemoveIdDistributes(ax, b, x.id);
    RemoveIdDistributes(a, [x], x.id);
    RemoveAbsentId(a, x.id);
    RemoveAbsentId(b, x.id);
    assert [x][1..] == [];
    assert RemoveId([x], x.id) == [];
    assert RemoveId(ax, x.id) == a;
    assert a + [x] + b == ax + b;
  }

  /** With distinct ids, no entry other than the one at position k carries its id. */
  lemma DistinctIdsElsewhere(list: seq<TodoItem>, k: int)
    requires DistinctIds(list)
    requires 0 <= k < |list|
    ensures forall i :: 0 <= i < |list| && i != k ==> list[i].id != list[k].id
  {
    forall i | 0 <= i < |list| && i != k
      ensures list[i].id != list[k].id
    {
      if i < k { assert list[i].id != list[k].id; } else { assert list[k].id != list[i].id; }
    }
  }

  /** A stretch of entries none of which carries the id counts none of it. */
  lemma AbsentFromSlice(list: seq<TodoItem>, lo: int, hi: int, id: int)
    requires 0 <= lo <= hi <= |list|
    requires forall i :: lo <= i < hi ==> list[i].id != id
    ensures CountId(list[lo..hi], id) == 0
  {
    var slice := list[lo..hi];
    assert forall i :: 0 <= i < |slice| ==> slice[i] == list[lo + i];
  }

  /** With distinct ids, the entries before and after position k do not carry its id. */
  lemma OnlyOneCarriesId(list: seq<TodoItem>, k: int)
    requires DistinctIds(list)
    requires 0 <= k < |list|
    ensures CountId(list[..k], list[k].id) == 0 && CountId(list[k + 1..], list[k].id) == 0
  {
    DistinctIdsElsewhere(list, k);
    AbsentFromSlice(list, 0, k, list[k].id);
    AbsentFromSlice(list, k + 1, |list|, list[k].id);
    assert list[..k] == list[0..k] && list[k + 1..] == list[k + 1..|list|];
  }

  /** With distinct ids, deleting the task at position k removes exactly that
      entry and keeps the rest in order. */
  lemma DeleteTargetsOneEntry(list: seq<TodoItem>, k: int)
    requires DistinctIds(list)
    requires 0 <= k < |list|
    ensures RemoveId(list, list[k].id) == list[..k] + list[k + 1..]
  {
    var before, after := list[..k], list[k + 1..];
    OnlyOneCarriesId(list, k);
    assert list == before + [list[k]] + after;
    RemoveSingleMatch(before, list[k], after);
  }

  /** `handleDeleteAction`: with no current task, nothing happens. Otherwise the
      loaded list loses every entry with the current id and is saved, the
      deletion is announced and the screen is popped; `todoItem` itself is
      kept. */
  function HandleDelete(s: Screen): (r: DeleteOutcome)
    ensures s.todoItem.None? ==> r == DeleteOutcome(s, [])
    ensures s.todoItem.Some? ==>
      var id := s.todoItem.value.id;
      && r.screen.todoItem == s.todoItem
      && r.screen.store.saved.Some?
      && (forall i :: 0 <= i < |Load(r.screen.store)| ==> Load(r.screen.store)[i].id != id)
      && |Load(r.screen.store)| == |Load(s.store)| - CountId(Load(s.store), id)
      && r.effects == [PostTodoItemDeleted, PopViewController]
  {
    match s.todoItem
    case None => DeleteOutcome(s, [])
    case Some(t) =>
      DeleteOutcome(Screen(s.todoItem, Save(RemoveId(Load(s.store), t.id))), [PostTodoItemDeleted, PopViewController])
  }

  /** After a delete the stored list holds exactly the entries loaded before
      whose id differs from the current task's. */
  lemma DeleteKeepsExactlyOthers(s: Screen, x: TodoItem)
    requires s.todoItem.Some?
    ensures x in Load(HandleDelete(s).screen.store) <==> x in Load(s.store) && x.id != s.todoItem.value.id
  {
    RemoveIdKeeps(Load(s.store), s.todoItem.value.id, x);
  }

  /** A second delete of the same task leaves the store as the first one did. */
  lemma DeleteTwiceIsDeleteOnce(s: Screen)
    ensures HandleDelete(HandleDelete(s).screen).screen == HandleDelete(s).screen
  {
    if s.todoItem.Some? {
      RemoveIdIsIdempotent(Load(s.store), s.todoItem.value.id);
    }
  }

  /** The screen still shows the deleted task until it is popped. */
  lemma DeleteKeepsRendering(p: Platform, s: Screen)
    ensures Render(p, HandleDelete(s).screen.todoItem) == Render(p, s.todoItem)
  {
  }
}

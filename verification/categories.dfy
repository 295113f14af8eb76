/**
  The `Category` enumeration as the detail screen uses it: the list of its
  cases (`Category.allCases`), their raw values, the failable initialiser
  `Category(rawValue:)`, and the picker-wheel data source built on them
  (memo/Controllers/TodoDetailViewController.swift). The enumeration's own
  cases are not part of this model, so they are a parameter.
 */
module Categories {
  import opened Wrappers
  import opened TodoItems

  datatype CategoryEnum = CategoryEnum(allCases: seq<Category>, rawValue: Category -> string)

  /** Swift requires the cases of a raw-value enumeration to have distinct raw values. */
  predicate DistinctRawValues(e: CategoryEnum) {
    forall i, j :: 0 <= i < j < |e.allCases| ==> e.rawValue(e.allCases[i]) != e.rawValue(e.allCases[j])
  }

  /** `Category(rawValue: raw)`: the case whose raw value is `raw`, if any. */
  function FromRawValue(e: CategoryEnum, raw: string): (r: Option<Category>)
    ensures r.Some? ==> r.value in e.allCases && e.rawValue(r.value) == raw
    ensures r.None? <==> forall i :: 0 <= i < |e.allCases| ==> e.rawValue(e.allCases[i]) != raw
    decreases |e.allCases|
  {
    if e.allCases == [] then None
    else if e.rawValue(e.allCases[0]) == raw then Some(e.allCases[0])
    else FromRawValue(e.(allCases := e.allCases[1..]), raw)
  }

  /** Every case is recovered from its own raw value. */
  lemma RawValueRoundTrip(e: CategoryEnum, c: Category)
    requires DistinctRawValues(e)
    requires c in e.allCases
    ensures FromRawValue(e, e.rawValue(c)) == Some(c)
  {
  }

  /** `pickerView(_:numberOfRowsInComponent:)`: one row per case. */
  function NumberOfRows(e: CategoryEnum): (n: int)
    ensures n == |e.allCases|
    ensures forall row :: 0 <= row < n ==> TitleForRow(e, row).Some?
  {
    |e.allCases|
  }

  /** `pickerView(_:titleForRow:forComponent:)`: the row's raw value. Indexing
      outside `allCases` traps in Swift, hence the precondition. */
  function TitleForRow(e: CategoryEnum, row: int): (r: Option<string>)
    requires 0 <= row < |e.allCases|
    ensures r.Some? && r.value == e.rawValue(e.allCases[row])
    ensures FromRawValue(e, r.value).Some?
  {
    Some(e.rawValue(e.allCases[row]))
  }

  /** The picker offers exactly the cases: every row has a title, and typing
      that title into the category field selects that row's case on commit. */
  lemma PickerRowParsesBack(e: CategoryEnum, row: int)
    requires DistinctRawValues(e)
    requires 0 <= row < NumberOfRows(e)
    ensures TitleForRow(e, row).Some?
    ensures FromRawValue(e, TitleForRow(e, row).value) == Some(e.allCases[row])
  {
    RawValueRoundTrip(e, e.allCases[row]);
  }

  /** `Category.allCases.firstIndex(where: { $0 == todoItem?.category })`: the
      row the picker starts on. With no current item the comparison is with
      nil and never holds. */
  function SelectedRow(e: CategoryEnum, current: Option<Category>): (r: Option<nat>)
    ensures r.Some? ==> current.Some? && r.value < |e.allCases| && e.allCases[r.value] == current.value
    ensures r.Some? ==> forall j :: 0 <= j < r.value ==> e.allCases[j] != current.value
    ensures r.None? <==> current.None? || current.value !in e.allCases
    decreases |e.allCases|
  {
    if current.None? || e.allCases == [] then None
    else if e.allCases[0] == current.value then Some(0)
    else match SelectedRow(e.(allCases := e.allCases[1..]), current)
      case None => None
      case Some(k) => Some(k + 1)
  }

  /** The picker opens on the row whose title is the current category's raw value. */
  lemma SelectedRowShowsCurrent(e: CategoryEnum, c: Category)
    requires c in e.allCases
    ensures SelectedRow(e, Some(c)).Some?
    ensures TitleForRow(e, SelectedRow(e, Some(c)).value) == Some(e.rawValue(c))
  {
  }
}

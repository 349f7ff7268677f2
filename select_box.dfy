/** The searchable dropdown used by the admin forms: option filtering, the selected option and open/search state. */
module SelectBox {
  import opened Wrappers
  import Seqs
  import Text

  /** An option value: a string or a number, compared strictly (`"1"` is not `1`). */
  datatype OptValue = Str(s: string) | Num(n: int)

  datatype SelectOption = SelectOption(labelText: string, value: OptValue)

  /** Whether the list is open, and the search typed into it. */
  datatype SelectState = SelectState(open: bool, search: string)

  /** An option is listed when its lower-cased label contains the lower-cased search. */
  predicate Listed(o: SelectOption, search: string)
  {
    Text.Contains(Text.Lower(o.labelText), Text.Lower(search))
  }

  /** `filteredOptions`: the listed options, in their order. */
  function FilteredOptions(options: seq<SelectOption>, search: string): (r: seq<SelectOption>)
    ensures forall i :: 0 <= i < |r| ==> Listed(r[i], search)
    ensures forall o :: multiset(r)[o] == if Listed(o, search) then multiset(options)[o] else 0
    ensures Seqs.IsSubsequence(r, options)
  {
    var keep := (o: SelectOption) => Listed(o, search);
    var kept := Seqs.Filter(options, keep);
    Seqs.FilterIsSubsequence(options, keep);
    Seqs.FilterMultiset(options, keep);
    kept
  }

  /** An empty search lists every option. */
  lemma EmptySearchListsAll(options: seq<SelectOption>)
    ensures FilteredOptions(options, "") == options
  {
    forall i | 0 <= i < |options|
      ensures Listed(options[i], "")
    {
      assert Text.Lower("") == "";
      assert Text.StartsWith(Text.Lower(options[i].labelText), "");
    }
    Seqs.FilterAll(options, (o: SelectOption) => Listed(o, ""));
  }

  /** The position of the first option with that value, or none. */
  function FirstWithValue(options: seq<SelectOption>, value: OptValue): (r: Option<nat>)
    ensures r.None? <==> forall i :: 0 <= i < |options| ==> options[i].value != value
    ensures r.Some? ==> r.value < |options| && options[r.value].value == value
    ensures r.Some? ==> forall j :: 0 <= j < r.value ==> options[j].value != value
  {
    if options == [] then None
    else if options[0].value == value then Some(0)
    else match FirstWithValue(options[1..], value)
      case None => None
      case Some(k) => Some(k + 1)
  }

  /** `selected`: the first option with that value (`find`), or none. */
  function Selected(options: seq<SelectOption>, value: OptValue): (r: Option<SelectOption>)
    ensures r.None? <==> forall i :: 0 <= i < |options| ==> options[i].value != value
    ensures r.Some? ==> r.value.value == value && r.value in options
  {
    match FirstWithValue(options, value)
    case None => None
    case Some(i) => Some(options[i])
  }

  /**
   * Clicking the box toggles the list and clears the search, so whatever was typed
   * before, a list opened this way shows every option.
   */
  function ClickBox(s: SelectState): (r: SelectState)
    ensures r.open != s.open
    ensures forall options :: FilteredOptions(options, r.search) == options
  {
    var r := SelectState(!s.open, "");
    assert forall options :: FilteredOptions(options, r.search) == options by {
      forall options: seq<SelectOption> ensures FilteredOptions(options, r.search) == options {
        EmptySearchListsAll(options);
      }
    }
    r
  }

  /** A mouse press outside the dropdown closes the list and leaves the search as typed. */
  function CloseOutside(s: SelectState): (r: SelectState)
    ensures !r.open && r.search == s.search
  {
    s.(open := false)
  }

  /** After a press outside, the next click on the box reopens it with every option listed. */
  lemma ReopenAfterOutside(s: SelectState, options: seq<SelectOption>)
    ensures ClickBox(CloseOutside(s)).open
    ensures FilteredOptions(options, ClickBox(CloseOutside(s)).search) == options
  {
  }

  /**
   * Choosing a listed option reports its value and closes the list; the search is kept.
   * The reported value is one the box then shows: some option carries it.
   */
  function ChooseOption(s: SelectState, options: seq<SelectOption>, o: SelectOption): (r: (SelectState, OptValue))
    requires o in FilteredOptions(options, s.search)
    ensures !r.0.open && r.0.search == s.search
    ensures Selected(options, r.1).Some? && Selected(options, r.1).value.value == o.value
  {
    var listed := FilteredOptions(options, s.search);
    assert o in options by {
      var i :| 0 <= i < |listed| && listed[i] == o;
    }
    (s.(open := false), o.value)
  }

  /** An option chosen from the list becomes the selected one unless an earlier option has the same value. */
  lemma ChosenIsSelected(options: seq<SelectOption>, i: nat)
    requires i < |options|
    requires forall j :: 0 <= j < i ==> options[j].value != options[i].value
    ensures Selected(options, options[i].value) == Some(options[i])
  {
    assert FirstWithValue(options, options[i].value) == Some(i);
  }
}

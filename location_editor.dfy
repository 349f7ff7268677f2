/**
 * The locations screen of the admin dashboard: a list of states, each with its cities,
 * edited in the browser, and the set of states whose city list is expanded.
 */
module LocationEditor {
  import Seqs
  import Text

  datatype LocationState = LocationState(id: string, name: string, cities: seq<string>)

  /**
   * `addState`: a blank name changes nothing; otherwise a state with the name as typed and no
   * cities goes at the end, and the input is cleared. The result is the list and the input.
   */
  function AddState(locs: seq<LocationState>, input: string, freshId: string): (r: (seq<LocationState>, string))
    ensures Text.IsBlank(input) ==> r == (locs, input)
    ensures !Text.IsBlank(input) ==>
      && |r.0| == |locs| + 1 && r.0[..|locs|] == locs
      && r.0[|locs|] == LocationState(freshId, input, [])
      && r.1 == ""
  {
    if Text.IsBlank(input) then (locs, input)
    else (locs + [LocationState(freshId, input, [])], "")
  }

  /** `removeState`: once confirmed, the states with that id go; the others keep their order. */
  function RemoveState(locs: seq<LocationState>, id: string, confirmed: bool): (r: seq<LocationState>)
    ensures !confirmed ==> r == locs
    ensures confirmed ==>
      && (forall i :: 0 <= i < |r| ==> r[i].id != id)
      && (forall l :: multiset(r)[l] == if l.id != id then multiset(locs)[l] else 0)
      && Seqs.IsSubsequence(r, locs)
  {
    if confirmed then
      var keep := (l: LocationState) => l.id != id;
      var kept := Seqs.Filter(locs, keep);
      Seqs.FilterIsSubsequence(locs, keep);
      Seqs.FilterMultiset(locs, keep);
      kept
    else locs
  }

  /** The state with id `stateId` with `city` appended; other states are returned unchanged. */
  function AppendCity(l: LocationState, stateId: string, city: string): LocationState
  {
    if l.id == stateId then l.(cities := l.cities + [city]) else l
  }

  /**
   * `addCity`: the city typed for that state (missing counts as empty). A blank one changes
   * nothing; otherwise it is appended to the matching states, without removing duplicates,
   * and that state's input is cleared.
   */
  function AddCity(locs: seq<LocationState>, inputs: map<string, string>, stateId: string)
    : (r: (seq<LocationState>, map<string, string>))
    ensures stateId !in inputs || Text.IsBlank(inputs[stateId]) ==> r == (locs, inputs)
    ensures stateId in inputs && !Text.IsBlank(inputs[stateId]) ==>
      && |r.0| == |locs|
      && (forall i :: 0 <= i < |locs| && locs[i].id == stateId ==>
            r.0[i] == locs[i].(cities := locs[i].cities + [inputs[stateId]]))
      && (forall i :: 0 <= i < |locs| && locs[i].id != stateId ==> r.0[i] == locs[i])
      && r.1 == inputs[stateId := ""]
  {
    if stateId !in inputs || Text.IsBlank(inputs[stateId]) then (locs, inputs)
    else
      var city := inputs[stateId];
      (Seqs.Map(locs, (l: LocationState) => AppendCity(l, stateId, city)), inputs[stateId := ""])
  }

  /** The state with id `stateId` without any occurrence of `city`; other states unchanged. */
  function DropCity(l: LocationState, stateId: string, city: string): LocationState
  {
    if l.id == stateId then l.(cities := Seqs.Filter(l.cities, (c: string) => c != city)) else l
  }

  /** `removeCity`: every occurrence of the city leaves the matching states; all other states are unchanged. */
  function RemoveCity(locs: seq<LocationState>, stateId: string, city: string): (r: seq<LocationState>)
    ensures |r| == |locs|
    ensures forall i :: 0 <= i < |locs| && locs[i].id != stateId ==> r[i] == locs[i]
    ensures forall i :: 0 <= i < |locs| && locs[i].id == stateId ==>
      r[i] == locs[i].(cities := r[i].cities) && city !in r[i].cities &&
      Seqs.IsSubsequence(r[i].cities, locs[i].cities) &&
      forall c :: c != city ==> multiset(r[i].cities)[c] == multiset(locs[i].cities)[c]
  {
    var r := Seqs.Map(locs, (l: LocationState) => DropCity(l, stateId, city));
    assert forall i :: 0 <= i < |locs| && locs[i].id == stateId ==> city !in r[i].cities by {
      forall i | 0 <= i < |locs| && locs[i].id == stateId
        ensures city !in r[i].cities
      {
        var cs := r[i].cities;
        assert forall k :: 0 <= k < |cs| ==> cs[k] != city;
      }
    }
    forall i | 0 <= i < |locs| && locs[i].id == stateId
      ensures Seqs.IsSubsequence(r[i].cities, locs[i].cities)
      ensures forall c :: c != city ==> multiset(r[i].cities)[c] == multiset(locs[i].cities)[c]
    {
      Seqs.FilterIsSubsequence(locs[i].cities, (c: string) => c != city);
      Seqs.FilterMultiset(locs[i].cities, (c: string) => c != city);
    }
    r
  }

  /** Removing a city right after adding it leaves the list as removing it from the original would. */
  lemma RemoveUndoesAdd(locs: seq<LocationState>, inputs: map<string, string>, stateId: string)
    requires stateId in inputs && !Text.IsBlank(inputs[stateId])
    ensures RemoveCity(AddCity(locs, inputs, stateId).0, stateId, inputs[stateId]) ==
            RemoveCity(locs, stateId, inputs[stateId])
  {
    var city := inputs[stateId];
    var added := AddCity(locs, inputs, stateId).0;
    var keep := (c: string) => c != city;
    forall i | 0 <= i < |locs| && locs[i].id == stateId
      ensures DropCity(added[i], stateId, city) == DropCity(locs[i], stateId, city)
    {
      Seqs.FilterAppend(locs[i].cities, [city], keep);
      assert Seqs.Filter([city], keep) == [];
    }
    var lhs := RemoveCity(added, stateId, city);
    var rhs := RemoveCity(locs, stateId, city);
    assert |lhs| == |rhs|;
    forall i | 0 <= i < |lhs|
      ensures lhs[i] == rhs[i]
    {
      if locs[i].id == stateId {
        assert lhs[i] == DropCity(added[i], stateId, city);
        assert rhs[i] == DropCity(locs[i], stateId, city);
      }
    }
  }

  /** The toggle as a value: membership of `id` flips and nothing else changes. */
  function Toggled(expanded: set<string>, id: string): (r: set<string>)
    ensures id in r <==> id !in expanded
    ensures forall x :: x != id ==> (x in r <==> x in expanded)
  {
    if id in expanded then expanded - {id} else expanded + {id}
  }

  /** `toggleExpand`: the id joins the expanded set when absent and leaves it when present. */
  method ToggleExpand(expanded: set<string>, id: string) returns (r: set<string>)
    ensures r == Toggled(expanded, id)
  {
    r := expanded;
    if id in r {
      r := r - {id};
    } else {
      r := r + {id};
    }
  }

  /** Toggling twice restores the set. */
  lemma ToggleTwice(expanded: set<string>, id: string)
    ensures Toggled(Toggled(expanded, id), id) == expanded
  {
  }
}

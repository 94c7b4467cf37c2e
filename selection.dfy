/** The selected-symptom list of static/js/app.js: a page-level array that the
    dropdown's change handler appends to (unless the symptom is already there),
    that a remove button filters, and whose comma-joined contents are copied
    into the hidden form field after each change. */
module Selection {
  import opened Seqs
  import opened Text

  /** The list after the change handler has seen `symptom`: appended only
      when it is not yet in the list. */
  function Added(list: seq<string>, symptom: string): (r: seq<string>)
    ensures forall x :: x in r <==> x in list || x == symptom
    ensures |r| == if symptom in list then |list| else |list| + 1
    ensures r[..|list|] == list
    ensures NoDuplicates(list) ==> NoDuplicates(r)
  {
    if symptom in list then list else list + [symptom]
  }

  /** The filter predicate of the remove handler: `symptom !== symptomToRemove`. */
  function Differs(symptomToRemove: string): string -> bool
  {
    (s: string) => s != symptomToRemove
  }

  /** The list after the remove button for `symptom` was clicked. */
  function Removed(list: seq<string>, symptom: string): (r: seq<string>)
  {
    Filter(list, Differs(symptom))
  }

  /** Removing deletes every copy of the symptom and keeps every other entry,
      as often as it occurred and in its original order. */
  lemma RemovedDeletesAll(list: seq<string>, symptom: string)
    ensures symptom !in Removed(list, symptom)
    ensures forall x :: multiset(Removed(list, symptom))[x] == if x == symptom then 0 else multiset(list)[x]
    ensures IsSubsequence(Removed(list, symptom), list)
  {
    FilterMembers(list, Differs(symptom));
    forall x ensures multiset(Removed(list, symptom))[x] == if x == symptom then 0 else multiset(list)[x] {
      FilterCount(list, Differs(symptom), x);
    }
    FilterIsSubsequence(list, Differs(symptom));
  }

  /** Removing a symptom that is not selected leaves the list as it was. */
  lemma RemovedAbsent(list: seq<string>, symptom: string)
    requires symptom !in list
    ensures Removed(list, symptom) == list
  {
    FilterKeepsAll(list, Differs(symptom));
  }

  lemma RemovedNoDuplicates(list: seq<string>, symptom: string)
    requires NoDuplicates(list)
    ensures NoDuplicates(Removed(list, symptom))
  {
    FilterNoDuplicates(list, Differs(symptom));
  }

  /** A user action on the selection widget. */
  datatype Action = Add(symptom: string) | Remove(symptom: string)

  function Step(list: seq<string>, action: Action): seq<string>
  {
    match action
    case Add(s) => Added(list, s)
    case Remove(s) => Removed(list, s)
  }

  /** The list after `actions`, starting from `let selectedSymptoms = []`. */
  function Replay(actions: seq<Action>): seq<string>
  {
    if actions == [] then [] else Step(Replay(actions[..|actions| - 1]), actions[|actions| - 1])
  }

  /** Whatever the user adds and removes, the list never holds a symptom twice. */
  lemma {:induction false} ReplayNoDuplicates(actions: seq<Action>)
    ensures NoDuplicates(Replay(actions))
  {
    if actions != [] {
      var before := Replay(actions[..|actions| - 1]);
      ReplayNoDuplicates(actions[..|actions| - 1]);
      match actions[|actions| - 1]
      case Add(s) =>
      case Remove(s) => RemovedNoDuplicates(before, s);
    }
  }

  /** The widget's state: `selectedSymptoms` and the value of the hidden input
      `#selected_symptoms`. `history` records the actions seen so far. */
  class SymptomSelector {
    var selected: seq<string>
    var hiddenField: string
    ghost var history: seq<Action>

    ghost predicate Valid()
      reads this
    {
      selected == Replay(history)
    }

    /** Page load: the list starts empty; the hidden field keeps the value the
        page was served with until the first change. */
    constructor (initialHidden: string)
      ensures Valid() && history == []
      ensures selected == [] && hiddenField == initialHidden
    {
      selected := [];
      hiddenField := initialHidden;
      history := [];
    }

    /** The dropdown's change handler. The hidden field is rewritten whether
        or not the symptom was new. */
    method OnChange(symptom: string)
      requires Valid()
      modifies this
      ensures Valid() && history == old(history) + [Add(symptom)]
      ensures selected == Added(old(selected), symptom)
      ensures hiddenField == Join(selected, ',')
      ensures NoDuplicates(selected)
    {
      if symptom !in selected {
        selected := selected + [symptom];
      }
      history := history + [Add(symptom)];
      assert history[..|history| - 1] == old(history);
      hiddenField := Join(selected, ',');
      ReplayNoDuplicates(history);
    }

    /** A remove button's click handler. */
    method OnRemove(symptomToRemove: string)
      requires Valid()
      modifies this
      ensures Valid() && history == old(history) + [Remove(symptomToRemove)]
      ensures selected == Removed(old(selected), symptomToRemove)
      ensures hiddenField == Join(selected, ',')
      ensures NoDuplicates(selected)
    {
      selected := Filter(selected, Differs(symptomToRemove));
      history := history + [Remove(symptomToRemove)];
      assert history[..|history| - 1] == old(history);
      hiddenField := Join(selected, ',');
      ReplayNoDuplicates(history);
    }
  }
}

/** `predictDisease` of app.py: the selected display names become a 0/1 input
    vector indexed through `symptom_index`, the three trained classifiers are
    applied to it, and their answers are combined by taking the mode. The
    classifiers are opaque functions supplied by the caller. */
module Prediction {
  import opened Seqs
  import Catalogue

  /** A value computed by `predictDisease`; the `IndexError` Python raises
      when a stored column index lies outside the input vector; or the
      `ValueError` a fitted model's `predict` raises when the vector's length
      is not the number of columns the model was fitted on. */
  datatype Outcome<T> = Ok(value: T) | IndexError(index: nat) | ValueError(expected: nat, actual: nat)

  /** The four labels `predictDisease` returns. */
  datatype Predictions<C> = Predictions(rf: C, naiveBayes: C, svm: C, final: C)

  /** Some name among `selected` is a key of `symptomIndex` stored with
      position `j` (defined from the end, as the loop marks positions). */
  predicate Marked(symptomIndex: map<string, nat>, selected: seq<string>, j: nat)
  {
    && |selected| > 0
    && var last := selected[|selected| - 1];
       || (last in symptomIndex && symptomIndex[last] == j)
       || Marked(symptomIndex, selected[..|selected| - 1], j)
  }

  lemma {:induction false} MarkedIff(symptomIndex: map<string, nat>, selected: seq<string>, j: nat)
    ensures Marked(symptomIndex, selected, j) <==>
      exists x :: x in selected && x in symptomIndex && symptomIndex[x] == j
  {
    if selected != [] {
      var init := selected[..|selected| - 1];
      MarkedIff(symptomIndex, init, j);
      assert selected == init + [selected[|selected| - 1]];
    }
  }

  /** The vector `predictDisease` means to build: one entry per key of
      `symptomIndex`, 1 where a selected name is stored, 0 elsewhere. */
  function InputVector(symptomIndex: map<string, nat>, selected: seq<string>): (v: seq<int>)
    ensures |v| == |symptomIndex|
  {
    seq(|symptomIndex|, j requires 0 <= j < |symptomIndex| => if Marked(symptomIndex, selected, j) then 1 else 0)
  }

  /** Some selected name is stored with a position outside the vector. */
  predicate Overflows(symptomIndex: map<string, nat>, selected: seq<string>)
  {
    exists k :: 0 <= k < |selected| && selected[k] in symptomIndex && symptomIndex[selected[k]] >= |symptomIndex|
  }

  /** Lines 52-58 of app.py: allocate `[0] * len(symptom_index)` and set the
      entry of every selected name that is a key to 1. */
  method EncodeSelection(symptomIndex: map<string, nat>, selected: seq<string>) returns (r: Outcome<seq<int>>)
    ensures !r.ValueError?
    ensures r.IndexError? <==> Overflows(symptomIndex, selected)
    ensures r.Ok? ==> r.value == InputVector(symptomIndex, selected)
    ensures r.IndexError? ==> r.index in symptomIndex.Values && r.index >= |symptomIndex|
  {
    var n := |symptomIndex|;
    var input := new int[n](_ => 0);
    for i := 0 to |selected|
      invariant input.Length == n
      invariant !Overflows(symptomIndex, selected[..i])
      invariant forall j :: 0 <= j < n ==> input[j] == if Marked(symptomIndex, selected[..i], j) then 1 else 0
    {
      assert selected[..i + 1][..i] == selected[..i];
      var symptom := selected[i];
      if symptom in symptomIndex {
        var index := symptomIndex[symptom];
        if index >= n {
          return IndexError(index);
        }
        input[index] := 1;
      }
      ghost var prefix := selected[..i + 1];
      assert !Overflows(symptomIndex, prefix) by {
        forall k | 0 <= k < |prefix| && prefix[k] in symptomIndex ensures symptomIndex[prefix[k]] < n {
          if k < i {
            assert prefix[k] == selected[..i][k];
          }
        }
      }
    }
    assert selected[..|selected|] == selected;
    r := Ok(input[..]);
  }

  /** `statistics.mode` of three labels: a label given by at least two
      classifiers wins. */
  function Mode<C(==)>(a: C, b: C, c: C): (r: C)
    ensures r == a || r == b || r == c
    ensures a == b || a == c ==> r == a
    ensures b == c ==> r == b
  {
    if b == c then b else a
  }

  /** `predictDisease(selected_symptoms)` with the three fitted models given
      as functions from input vector to label. All three were fitted on
      `featureCount` columns and reject a vector of any other length. */
  method PredictDisease<C(==)>(symptomIndex: map<string, nat>, selected: seq<string>, featureCount: nat,
                               rf: seq<int> -> C, nb: seq<int> -> C, svm: seq<int> -> C)
    returns (r: Outcome<Predictions<C>>)
    ensures r.IndexError? <==> Overflows(symptomIndex, selected)
    ensures r.ValueError? <==> !Overflows(symptomIndex, selected) && |symptomIndex| != featureCount
    ensures r.ValueError? ==> r.expected == featureCount && r.actual == |symptomIndex|
    ensures r.Ok? ==>
      var v := InputVector(symptomIndex, selected);
      r.value == Predictions(rf(v), nb(v), svm(v), Mode(rf(v), nb(v), svm(v)))
  {
    var encoded := EncodeSelection(symptomIndex, selected);
    match encoded
    case IndexError(index) =>
      r := IndexError(index);
    case Ok(input) =>
      if |input| != featureCount {
        return ValueError(featureCount, |input|);
      }
      var rfPrediction := rf(input);
      var nbPrediction := nb(input);
      var svmPrediction := svm(input);
      r := Ok(Predictions(rfPrediction, nbPrediction, svmPrediction, Mode(rfPrediction, nbPrediction, svmPrediction)));
  }

  /** Every entry is 0 or 1, and it is 1 exactly when a selected name is a key
      stored with that position. */
  lemma InputVectorEntry(symptomIndex: map<string, nat>, selected: seq<string>, j: nat)
    requires j < |symptomIndex|
    ensures InputVector(symptomIndex, selected)[j] in {0, 1}
    ensures InputVector(symptomIndex, selected)[j] == 1 <==>
      exists x :: x in selected && x in symptomIndex && symptomIndex[x] == j
  {
    MarkedIff(symptomIndex, selected, j);
  }

  /** Order and repetition in the selection do not change the vector. */
  lemma InputVectorSameSet(symptomIndex: map<string, nat>, a: seq<string>, b: seq<string>)
    requires forall x :: x in a <==> x in b
    ensures InputVector(symptomIndex, a) == InputVector(symptomIndex, b)
  {
    forall j | 0 <= j < |symptomIndex|
      ensures InputVector(symptomIndex, a)[j] == InputVector(symptomIndex, b)[j]
    {
      MarkedIff(symptomIndex, a, j);
      MarkedIff(symptomIndex, b, j);
    }
  }

  /** The test `symptom in data_dict["symptom_index"]`. */
  function Known(symptomIndex: map<string, nat>): string -> bool
  {
    (s: string) => s in symptomIndex
  }

  /** Selected names that are not keys are ignored. */
  lemma InputVectorIgnoresUnknown(symptomIndex: map<string, nat>, selected: seq<string>)
    ensures InputVector(symptomIndex, Filter(selected, Known(symptomIndex))) == InputVector(symptomIndex, selected)
  {
    var kept := Filter(selected, Known(symptomIndex));
    FilterMembers(selected, Known(symptomIndex));
    forall j | 0 <= j < |symptomIndex|
      ensures InputVector(symptomIndex, kept)[j] == InputVector(symptomIndex, selected)[j]
    {
      MarkedIff(symptomIndex, kept, j);
      MarkedIff(symptomIndex, selected, j);
    }
  }

  /** When no two dataset columns share a display name, the vector built over
      `symptom_index` never raises `IndexError`, whatever is selected. */
  lemma DistinctNamesNeverOverflow(columns: seq<string>, selected: seq<string>)
    requires NoDuplicates(Catalogue.Names(columns))
    ensures !Overflows(Catalogue.IndexOf(columns).position, selected)
  {
    Catalogue.DistinctNamesInBounds(Catalogue.Names(columns));
  }

  /** Columns `fever` and `Fever` share the display name `Fever`, stored with
      position 1 in a dict of size 1: selecting it raises `IndexError`. */
  lemma CollidingNamesOverflow()
    ensures Overflows(Catalogue.IndexOf(["fever", "Fever"]).position, ["Fever"])
  {
    Catalogue.CollidingNames();
    var selected := ["Fever"];
    assert selected[0] == "Fever";
  }

  /** Whenever two columns share a display name, selecting the last column's
      name raises `IndexError`: the dict has fewer keys than there are
      columns, and that name is stored with the last column's index. */
  lemma CollisionOverflows(columns: seq<string>)
    requires !NoDuplicates(Catalogue.Names(columns))
    ensures Overflows(Catalogue.IndexOf(columns).position, [Catalogue.Names(columns)[|columns| - 1]])
  {
    var names := Catalogue.Names(columns);
    var position := Catalogue.Build(names).position;
    var last := names[|names| - 1];
    Catalogue.BuildSize(names);
    Catalogue.BuildMembers(names);
    Catalogue.BuildLastOccurrence(names);
    assert last in position;
    assert Catalogue.IsLastOccurrence(names, last, position[last]);
    assert position[last] == |names| - 1;
    var selected := [last];
    assert selected[0] in position && position[selected[0]] >= |position|;
  }

  /** The models are fitted on one feature per column, so with the
      `symptom_index` built from those columns `predict` rejects the vector
      exactly when two columns share a display name. */
  lemma FeatureCountMismatch(columns: seq<string>)
    ensures |Catalogue.IndexOf(columns).position| != |columns| <==> !NoDuplicates(Catalogue.Names(columns))
  {
    Catalogue.BuildSize(Catalogue.Names(columns));
  }
}

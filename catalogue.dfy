/** The symptom catalogue of app.py: dataset column names normalised to display
    names, the `symptom_index` dict built from them, and the `/search` filter
    over the dict's keys. */
module Catalogue {
  import opened Seqs
  import opened Text

  /** `value.replace("_", " ").title()`: the display name of a dataset column. */
  function Normalise(column: string): (name: string)
    ensures |name| == |column| && '_' !in name
    ensures forall i :: 0 <= i < |column| ==>
      name[i] == if column[i] == '_' then ' '
                 else if i > 0 && IsCased(column[i - 1]) then LowerChar(column[i])
                 else UpperChar(column[i])
  {
    var spaced := ReplaceUnderscores(column);
    var name := Title(spaced);
    assert '_' !in name by {
      forall i | 0 <= i < |name| ensures name[i] != '_' {
        var c := spaced[i];
        assert c != '_';
        assert name[i] == if i > 0 && IsCased(spaced[i - 1]) then LowerChar(c) else UpperChar(c);
      }
    }
    name
  }

  /** A display name is its own normal form. */
  lemma NormaliseIdempotent(column: string)
    ensures Normalise(Normalise(column)) == Normalise(column)
  {
    var spaced := ReplaceUnderscores(column);
    var name := Normalise(column);
    assert name == Title(spaced);
    assert ReplaceUnderscores(name) == name;
    TitleIdempotent(spaced);
  }

  /** The display names of all columns, in column order. */
  function Names(columns: seq<string>): (names: seq<string>)
    ensures |names| == |columns|
    ensures forall i :: 0 <= i < |columns| ==> names[i] == Normalise(columns[i])
  {
    seq(|columns|, i requires 0 <= i < |columns| => Normalise(columns[i]))
  }

  /** A Python dict from display name to column index. `keys` is the dict's
      iteration order (`list(symptom_index.keys())`), `position` its contents. */
  datatype SymptomIndex = SymptomIndex(keys: seq<string>, position: map<string, nat>)

  /** The iteration order lists every key of the dict exactly once. */
  predicate WellFormed(d: SymptomIndex)
  {
    && NoDuplicates(d.keys)
    && (forall k :: k in d.position ==> k in d.keys)
    && (forall k :: k in d.keys ==> k in d.position)
    && |d.position| == |d.keys|
  }

  /** `d[name] = i` on a Python dict: a new key is appended to the iteration
      order, an existing key keeps its place and takes the new value. */
  function Assign(d: SymptomIndex, name: string, i: nat): SymptomIndex
  {
    if name in d.position then SymptomIndex(d.keys, d.position[name := i])
    else SymptomIndex(d.keys + [name], d.position[name := i])
  }

  /** The dict obtained by assigning `d[names[i]] = i` for i = 0, 1, ... in turn. */
  function Build(names: seq<string>): SymptomIndex
  {
    if names == [] then SymptomIndex([], map[])
    else Assign(Build(names[..|names| - 1]), names[|names| - 1], |names| - 1)
  }

  /** The `symptom_index` that the loop of app.py builds from the columns. */
  function IndexOf(columns: seq<string>): SymptomIndex
  {
    Build(Names(columns))
  }

  /** Dict assignment keeps the iteration order well formed and grows the dict
      by one exactly when the key is new. */
  lemma AssignWellFormed(d: SymptomIndex, name: string, i: nat)
    requires WellFormed(d)
    ensures WellFormed(Assign(d, name, i))
    ensures Assign(d, name, i).position == d.position[name := i]
    ensures |Assign(d, name, i).position| == if name in d.position then |d.position| else |d.position| + 1
  {
  }

  lemma {:induction false} BuildWellFormed(names: seq<string>)
    ensures WellFormed(Build(names))
  {
    if names != [] {
      BuildWellFormed(names[..|names| - 1]);
      AssignWellFormed(Build(names[..|names| - 1]), names[|names| - 1], |names| - 1);
    }
  }

  /** Position `i` holds the last occurrence of `name` in `names`. */
  predicate IsLastOccurrence(names: seq<string>, name: string, i: int)
  {
    && 0 <= i < |names|
    && names[i] == name
    && forall j :: i < j < |names| ==> names[j] != name
  }

  /** The loop of app.py, with the dict held as its key order and contents. */
  method BuildSymptomIndex(columns: seq<string>) returns (d: SymptomIndex)
    ensures d == IndexOf(columns)
    ensures WellFormed(d) && |d.position| <= |columns|
    ensures forall k :: k in d.position ==> IsLastOccurrence(Names(columns), k, d.position[k])
  {
    var keys: seq<string> := [];
    var position: map<string, nat> := map[];
    var index := 0;
    while index < |columns|
      invariant 0 <= index <= |columns|
      invariant SymptomIndex(keys, position) == Build(Names(columns[..index]))
    {
      var symptom := Normalise(columns[index]);
      ghost var names := Names(columns[..index + 1]);
      assert names[..index] == Names(columns[..index]) && names[index] == symptom;
      if symptom !in position {
        keys := keys + [symptom];
      }
      position := position[symptom := index];
      index := index + 1;
    }
    assert columns[..|columns|] == columns;
    d := SymptomIndex(keys, position);
    BuildWellFormed(Names(columns));
    BuildLastOccurrence(Names(columns));
    BuildSize(Names(columns));
  }

  /** The dict's iteration order is the list of distinct names, each at the
      place of its first occurrence. */
  lemma {:induction false} BuildKeys(names: seq<string>)
    ensures Build(names).keys == Dedup(names)
  {
    if names != [] {
      var init := names[..|names| - 1];
      BuildKeys(init);
      BuildMembers(init);
      DedupMembers(init);
    }
  }

  /** The dict's keys are exactly the names assigned. */
  lemma {:induction false} BuildMembers(names: seq<string>)
    ensures forall k :: k in Build(names).position <==> k in names
  {
    if names != [] {
      var init := names[..|names| - 1];
      BuildMembers(init);
      assert names == init + [names[|names| - 1]];
    }
  }

  /** Each key maps to the position of its last occurrence. */
  lemma {:induction false} BuildLastOccurrence(names: seq<string>)
    ensures forall k :: k in Build(names).position ==> IsLastOccurrence(names, k, Build(names).position[k])
  {
    if names != [] {
      var n := |names| - 1;
      var init := names[..n];
      BuildLastOccurrence(init);
      var prev := Build(init);
      var d := Build(names);
      forall k | k in d.position ensures IsLastOccurrence(names, k, d.position[k]) {
        if k != names[n] {
          var i := prev.position[k];
          assert IsLastOccurrence(init, k, i);
          forall j | i < j < |names| ensures names[j] != k {
            if j < n {
              assert names[j] == init[j];
            }
          }
        }
      }
    }
  }

  /** The dict has at most one key per name assigned, and exactly one per name
      precisely when no name is assigned twice. */
  lemma BuildSize(names: seq<string>)
    ensures |Build(names).position| <= |names|
    ensures |Build(names).position| == |names| <==> NoDuplicates(names)
  {
    BuildWellFormed(names);
    BuildKeys(names);
    DedupLength(names);
  }

  /** When no name is assigned twice, every stored position is smaller than
      the dict's size, the length of the input vector. */
  lemma DistinctNamesInBounds(names: seq<string>)
    requires NoDuplicates(names)
    ensures forall k :: k in Build(names).position ==> Build(names).position[k] < |Build(names).position|
  {
    BuildSize(names);
    BuildLastOccurrence(names);
  }

  /** Columns `fever` and `Fever` share the display name `Fever`: the dict has
      one key, stored with column index 1. */
  lemma CollidingNames()
    ensures IndexOf(["fever", "Fever"]) == SymptomIndex(["Fever"], map["Fever" := 1])
  {
    var columns := ["fever", "Fever"];
    assert Normalise(columns[0]) == "Fever";
    assert Normalise(columns[1]) == "Fever";
    var names := Names(columns);
    assert names == ["Fever", "Fever"];
    assert names[..1] == ["Fever"];
    assert names[..1][..0] == [];
  }

  /** The `/search` test for entry `s` against the lower-cased query `q`. */
  function Matcher(q: string): string -> bool
  {
    (s: string) => Contains(Lower(s), q)
  }

  /** Whether `entry` contains `query`, ignoring case. */
  predicate Matches(entry: string, query: string)
  {
    Matcher(Lower(query))(entry)
  }

  /** `/search?query=...` over the catalogue: the entries containing the query
      ignoring case, or the whole catalogue for an empty query. */
  function Search(catalogue: seq<string>, query: string): (result: seq<string>)
    ensures |result| <= |catalogue|
  {
    var q := Lower(query);
    if q != "" then Filter(catalogue, Matcher(q)) else catalogue
  }

  lemma SearchEmptyQuery(catalogue: seq<string>)
    ensures Search(catalogue, "") == catalogue
  {
  }

  /** A non-empty query returns exactly the entries that contain it, ignoring case. */
  lemma SearchMembers(catalogue: seq<string>, query: string)
    requires query != ""
    ensures forall x :: x in Search(catalogue, query) <==> x in catalogue && Matches(x, query)
  {
    FilterMembers(catalogue, Matcher(Lower(query)));
  }

  /** Each matching entry is returned as often as the catalogue holds it, the
      others not at all. */
  lemma SearchCount(catalogue: seq<string>, query: string, x: string)
    ensures multiset(Search(catalogue, query))[x] ==
      if query == "" || Matches(x, query) then multiset(catalogue)[x] else 0
  {
    if query != "" {
      FilterCount(catalogue, Matcher(Lower(query)), x);
    }
  }

  /** The result keeps the catalogue's order. */
  lemma SearchSubsequence(catalogue: seq<string>, query: string)
    ensures IsSubsequence(Search(catalogue, query), catalogue)
  {
    if Lower(query) != "" {
      FilterIsSubsequence(catalogue, Matcher(Lower(query)));
    } else {
      SubsequenceReflexive(catalogue);
    }
  }

  /** Searching the catalogue built from the columns (`data_dict["symptoms"]`)
      never returns a name twice. */
  lemma SearchNoDuplicates(columns: seq<string>, query: string)
    ensures NoDuplicates(Search(IndexOf(columns).keys, query))
  {
    BuildKeys(Names(columns));
    DedupNoDuplicates(Names(columns));
    if Lower(query) != "" {
      FilterNoDuplicates(IndexOf(columns).keys, Matcher(Lower(query)));
    }
  }
}

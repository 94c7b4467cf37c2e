# Symptom checker core, modelled in Dafny

The symptom checker is a Flask application (app.py) with a jQuery front end
(static/js/app.js). Its logic, apart from the trained classifiers, has three
parts:

- **Symptom catalogue and search** (`Catalogue`, app.py). Each dataset column
  name becomes a display name: `_` is replaced by a space and the result is
  title-cased. A Python dict `symptom_index` maps each display name to a column
  index. Re-assigning a dict key keeps the key's first place in the iteration
  order but stores the new value. So the dict's keys (the catalogue the search
  serves) are the distinct display names in first-occurrence order, and each
  key maps to the *last* column with that display name. `/search` lower-cases
  the query. An empty query returns the whole catalogue. A non-empty query keeps
  the entries whose lower-cased form contains it.
- **Input vector and prediction** (`Prediction`, app.py `predictDisease`).
  A zero vector of length `len(symptom_index)` is allocated. Each selected name
  that is a key sets the entry at its stored column index to 1. Names that are
  not keys are skipped. Python raises `IndexError` when a stored index is not
  below the dict's size; the model returns this as `Outcome.IndexError`. That
  can happen only when two columns share a display name, and then selecting
  the last column's name raises it. The three classifiers are
  parameters, fitted on one feature per column: a vector of any other length
  makes `predict` raise `ValueError` (`Outcome.ValueError`), which happens
  exactly when two columns share a display name. The classifiers' answers are
  combined by `statistics.mode`.
- **Selected-symptom list** (`Selection`, static/js/app.js). A page-level
  array. Adding a symptom appends it only if it is not already there; removing
  one filters out every equal entry. After each change the hidden input gets
  the list joined with `,`. This is a class whose methods update `selected` and
  `hiddenField`. A ghost `history` of actions ties the state to the pure
  function `Replay`.

The `Seqs` module holds the shared sequence facts: an order-keeping filter,
subsequences, duplicate-freedom and first-occurrence de-duplication. The `Text`
module holds the string operations over ASCII: `lower`, `replace`, `title`,
substring search, and JavaScript's `join`, with `split` as its inverse.

The code has no cap of 10 symptoms, does not reject empty values, does not
block an empty submission, and does not filter the search results against the
current selection; the model does none of these either.

## Model

| member | source | states |
|---|---|---|
| Text.Lower | app.py:97 | `str.lower`: same length, every character mapped to its lower-case form |
| Text.ReplaceUnderscores | app.py:39 | `replace("_", " ")`: same length, each `_` becomes a space, every other character is kept |
| Text.Title | app.py:39 | `str.title`: a character is lower-cased when the character before it is cased, otherwise upper-cased |
| Text.TitleIdempotent | app.py:39 | title-casing an already title-cased string changes nothing |
| Text.Contains | app.py:101 | Python's `q in s` holds exactly when `q` occurs in `s` at some offset |
| Text.Join | static/js/app.js:27-51 | `selectedSymptoms.join(",")`; the empty list joins to the empty string and a one-element list to its element; on non-empty lists whose entries contain no comma the round trips SplitJoin and JoinSplit fix the result |
| Text.SplitJoin | static/js/app.js:27 | the hidden field's comma-joined value splits back into the list, for a non-empty list whose entries contain no comma |
| Text.JoinSplit | static/js/app.js:51 | joining the pieces of a split string gives the string back |
| Catalogue.Normalise | app.py:39 | display name of a column: same length; contains no `_`; position i is a space where the column has `_`, lower case after a letter, upper case otherwise |
| Catalogue.NormaliseIdempotent | app.py:39 | a display name is its own normal form |
| Catalogue.Names | app.py:36-39 | one display name per column, in column order, each the column's normal form |
| Catalogue.Assign | app.py:40 | `symptom_index[symptom] = index`: a new key goes to the end of the key order, an existing key keeps its place; its properties are stated by AssignWellFormed |
| Catalogue.Build | app.py:37-40 | the dict after assigning each name its position in turn; specified by BuildWellFormed, BuildKeys, BuildMembers, BuildLastOccurrence and BuildSize |
| Catalogue.IndexOf | app.py:36-40 | `symptom_index` built from the columns' display names; BuildSymptomIndex is proved to compute it |
| Catalogue.AssignWellFormed | app.py:40 | dict assignment keeps the key order well formed (each key listed once), stores the new value, and grows the dict by one exactly for a new key |
| Catalogue.BuildWellFormed | app.py:37-40 | the dict built by successive assignments has a well-formed key order |
| Catalogue.BuildSymptomIndex | app.py:36-40 | the loop computes `IndexOf(columns)`: well formed, at most one key per column, each key mapped to the last column with that display name |
| Catalogue.BuildKeys | app.py:37-46 | the catalogue `list(symptom_index.keys())` is the list of distinct names in first-occurrence order |
| Catalogue.BuildMembers | app.py:38-40 | the dict's keys are exactly the names assigned, that is the columns' display names |
| Catalogue.BuildLastOccurrence | app.py:38-40 | each key maps to the position of its last occurrence |
| Catalogue.BuildSize | app.py:37-40 | the dict has at most as many keys as there are columns, and exactly as many precisely when the names are distinct |
| Catalogue.DistinctNamesInBounds | app.py:37-52 | with distinct names every stored index is below `len(symptom_index)` |
| Catalogue.CollidingNames | app.py:36-40 | columns `fever` and `Fever` give a one-key dict whose key maps to index 1 |
| Catalogue.Search | app.py:96-105 | `/search`: the result is never longer than the catalogue; exactly which entries it keeps, how often and in what order is stated by SearchEmptyQuery, SearchMembers, SearchCount and SearchSubsequence |
| Catalogue.SearchEmptyQuery | app.py:100-105 | an empty query returns the whole catalogue, in order |
| Catalogue.SearchMembers | app.py:97-101 | a non-empty query returns exactly the entries that contain it, ignoring case |
| Catalogue.SearchCount | app.py:96-105 | each entry kept by the search appears as often as in the catalogue; the other entries do not appear |
| Catalogue.SearchSubsequence | app.py:101 | the search result is a subsequence of the catalogue |
| Catalogue.SearchNoDuplicates | app.py:43-105 | searching the catalogue built from the columns never returns a name twice |
| Prediction.MarkedIff | app.py:55-58 | a position is marked exactly when some selected name is a key stored with that position |
| Prediction.InputVector | app.py:52-58 | the intended input vector: one entry per key of the dict; its entries are characterised by InputVectorEntry |
| Prediction.Overflows | app.py:57-58 | some selected key is stored at a position outside the vector, the condition under which `input_data[index] = 1` raises `IndexError`; EncodeSelection fails exactly then |
| Prediction.EncodeSelection | app.py:52-58 | the loop over the array fails with `IndexError` exactly when a selected key is stored out of range; otherwise it returns the vector `InputVector` |
| Prediction.InputVectorEntry | app.py:52-58 | each entry is 0 or 1; it is 1 exactly when a selected name is a key mapped to that position |
| Prediction.InputVectorSameSet | app.py:55-58 | order and duplicates in the selection do not change the vector |
| Prediction.InputVectorIgnoresUnknown | app.py:56 | dropping the selected names that are not keys leaves the vector unchanged |
| Prediction.Mode | app.py:68 | the mode of three labels is one of them, and a label given at least twice is the answer |
| Prediction.PredictDisease | app.py:22-76 | raises `IndexError` exactly when the encoding overflows; otherwise raises `ValueError` exactly when the vector's length is not the models' column count; otherwise returns the three classifiers' labels on `InputVector` and their mode |
| Prediction.DistinctNamesNeverOverflow | app.py:36-58 | with distinct display names `predictDisease` never raises `IndexError`, whatever is selected |
| Prediction.CollidingNamesOverflow | app.py:36-58 | with columns `fever` and `Fever`, selecting `Fever` raises `IndexError` |
| Prediction.CollisionOverflows | app.py:36-58 | whenever two columns share a display name, selecting the last column's name raises `IndexError` |
| Prediction.FeatureCountMismatch | app.py:22-52 | the vector's length differs from the number of columns the models were fitted on exactly when two columns share a display name |
| Selection.Added | static/js/app.js:17-24 | the added symptom is in the list; a new symptom is appended at the end with the earlier entries kept; a symptom already present leaves the list as it was; duplicate-freedom is kept |
| Selection.Removed | static/js/app.js:47-49 | `selectedSymptoms.filter(s => s !== symptomToRemove)`; specified by RemovedDeletesAll, RemovedAbsent and RemovedNoDuplicates |
| Selection.RemovedDeletesAll | static/js/app.js:45-49 | no entry equal to the removed symptom is left; every other entry keeps its count and order |
| Selection.RemovedAbsent | static/js/app.js:47-49 | removing a symptom that is not in the list leaves it unchanged |
| Selection.RemovedNoDuplicates | static/js/app.js:47-49 | removal keeps the list free of duplicates |
| Selection.Replay | static/js/app.js:3-49 | the list after a sequence of adds and removes from `[]`; the class invariant `Valid` ties the widget's state to it, and ReplayNoDuplicates states what it keeps |
| Selection.ReplayNoDuplicates | static/js/app.js:3-49 | after any sequence of adds and removes from the empty list, no symptom appears twice |
| Selection.SymptomSelector.constructor | static/js/app.js:3 | the list starts empty; the hidden field keeps its page value |
| Selection.SymptomSelector.OnChange | static/js/app.js:17-28 | the list becomes `Added(old list, symptom)`; the hidden field becomes the comma-joined list; the list stays duplicate-free |
| Selection.SymptomSelector.OnRemove | static/js/app.js:45-52 | the list becomes `Removed(old list, symptom)`; the hidden field becomes the comma-joined list; the list stays duplicate-free |

## Left out

- Loading `Training.csv` with pandas, `LabelEncoder`, and training and running SVC, GaussianNB and RandomForest (app.py:14-33, 60-65). These are foreign library calls over floating-point models. The column names are a parameter, and the three fitted models (each followed by the label lookup of `predictions_classes`) are opaque functions from the input vector to a label, with the one check sklearn makes before predicting, the vector's length against the fitted column count, modelled as `Outcome.ValueError`. Any other error `predict` could raise is not modelled.
- The numpy reshape (app.py:60): a library call with no logic of its own.
- Prediction.Mode: when the three labels all differ, the model returns the first, as Python 3.8 and later do. Its contract says nothing about that case, because older Pythons raise `StatisticsError` instead.
- Flask routing, `request`, `render_template`, `jsonify` and `app.run` (app.py:4, 12, 79-92, 95, 107-108). This is web I/O. `search` takes the query string directly. A missing `query` parameter is the empty string (app.py:97), so it is covered by the empty-query case.
- jQuery DOM rendering, event binding, the `$.get` call and the HTML of `<option>` and `<li>` items (static/js/app.js:6-14, 31-45). This is UI and network glue. The remove handler's symptom is taken to be the displayed name. jQuery's `.data()` would turn a numeric-looking name into a number; that conversion and the missing HTML escaping are not modelled.
- Text: the case mapping covers ASCII only. Other characters are treated as uncased and kept unchanged, whereas Python's Unicode case tables would also map them.
- Text.Join: its own contract states only the empty and one-element cases. The round trips SplitJoin and JoinSplit fix it on non-empty lists whose entries contain no comma; for lists with a comma inside an entry nothing beyond its definition is stated.
- How the server reads the submitted form (`request.form.getlist("symptoms")`, app.py:83) depends on the HTML template, which is not part of this model. The model does not relate the hidden field to that list.
- The quote-guessing game: none of its source is part of this model.

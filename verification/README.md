# Music recommendation by nearest neighbours — a Dafny model

The repository is a small Flask demo. A user posts a track name and an artist
name. The server finds that track in a CSV table and sends two of its feature
columns (`track_genre`, `popularity`) through a fitted scaler, a PCA projection
and a k-nearest-neighbours index. It answers with up to ten neighbouring
tracks, with repeated (`track_name`, `artists`) pairs removed.

This project models the logic around those library calls:

- `recomendar_musicas`. The query is stripped and lower-cased. The table is
  filtered with an exact track-name test and an artist-substring test. The
  first match is resolved to the feature row of its `track_id`. The rows at
  the neighbour positions are taken, de-duplicated keeping the first
  occurrence, and cut to `n` rows.
- The branch structure of the `resultados` handler. Its outcomes, in order:
  data file missing, required field blank, track not found, recommendations.

Modules, one per concept:

| module | file | what it holds |
|---|---|---|
| `Wrappers` | wrappers.dfy | `Option` |
| `Text` | text.dfy | ASCII `lower`, `strip`, substring test, query normalisation |
| `Tracks` | tracks.dfy | the row record, the de-duplication key, `iloc` |
| `Dedup` | dedup.dfy | `drop_duplicates(keep='first')` and its reference definition |
| `Recommender` | recommender.dfy | the pipeline of `recomendar_musicas` |
| `Handler` | handler.dfy | the outcome dispatch of `resultados` |

The scaler → PCA → KNN chain is a function parameter
`knn: Features -> seq<nat>`, an oracle from a feature record to row
positions, nearest first. Its one stated requirement, `InRange`, is that every
position is a row of the table. A second hypothesis, `AlwaysAnswers`, says it
returns at least one position, as a fitted `NearestNeighbors` does. The lemmas
that say "not found exactly when nothing matches" assume it only when the
table has rows, so they also cover a CSV with a header and no data. The
presence of the data file is a boolean input. The two form fields are
`Option<string>`, because `request.form.get` may return `None`.

Behaviour of the code worth knowing:

- The features sent to the index are those of the FIRST row carrying the
  matched `track_id`. Line 90 selects every row with that id, and line 102
  uses only `indices[0]`. That row may come before the matched row
  (`Recommender.QueryRow`).
- The required-field test (line 63) looks at the raw input. A whitespace-only
  artist passes it, normalises to the empty string, and then matches every
  artist (`Handler.WhitespaceArtistIgnoresArtists`).
- Only the query is stripped, not the table. A stored track name with
  surrounding whitespace can never be matched. `Recommender.ResolverFindsStoredTrack`
  therefore asks for a stored name without padding.
- The artist query is handed to `str.contains` (line 81), which reads it as
  a regular expression by default. An artists value holding `$`, `+` or `(`,
  such as "Florence + The Machine", can therefore fail to match its own
  text. The model's test is a plain substring search (see `Text.Contains`
  under "Left out"), so `Recommender.ResolverFindsStoredTrack` holds for the
  model, not for such values in the source.

The order of the early exits follows the code. The blank-field test (line 63)
runs after the file check (line 46) and after the models and the CSV are
loaded (lines 50-56). A missing file therefore wins over a blank field.

## Model

| member | source | states |
|---|---|---|
| Text.LowerChar | music_recomendation/ia_recomendation.py:77-81 | an upper-case ASCII letter becomes the same letter in lower case, every other character is unchanged, and no upper-case letter remains |
| Text.StripStart | music_recomendation/ia_recomendation.py:77-78 | the result is a suffix of the input; everything dropped is whitespace; the result is empty or starts with a non-space |
| Text.StripEnd | music_recomendation/ia_recomendation.py:77-78 | the result is a prefix of the input; everything dropped is whitespace; the result is empty or ends with a non-space |
| Text.Lower | music_recomendation/ia_recomendation.py:77-81 | `.lower()` keeps the length and lower-cases each character on its own, by `LowerChar` |
| Text.Strip | music_recomendation/ia_recomendation.py:77-78 | the stripped query is a contiguous piece of the input, starting where the leading whitespace ends, and neither starts nor ends with whitespace |
| Text.Normalize | music_recomendation/ia_recomendation.py:77-78 | the normalised query is no longer than the input, neither starts nor ends with whitespace, and holds no capital letter |
| Text.StripUnpadded | music_recomendation/ia_recomendation.py:77-78 | stripping leaves a string unchanged exactly when it neither starts nor ends with whitespace |
| Text.Contains | music_recomendation/ia_recomendation.py:81 | the substring test holds exactly when the artist query occurs at some position of the artists text |
| Text.LowerStrip | music_recomendation/ia_recomendation.py:77-78 | stripping then lower-casing equals lower-casing then stripping |
| Text.NormalizeIgnoresCase | music_recomendation/ia_recomendation.py:77-78 | two inputs equal up to letter case normalise to the same query |
| Text.StripIgnoresPadding | music_recomendation/ia_recomendation.py:77-78 | whitespace added on either side does not change the stripped string |
| Text.NormalizeIgnoresCaseAndPadding | music_recomendation/ia_recomendation.py:77-78 | an input equal, up to case, to another padded with whitespace normalises to the same query |
| Text.NormalizeBlank | music_recomendation/ia_recomendation.py:77-78 | a whitespace-only input normalises to the empty string |
| Text.ContainsOwnNormalization | music_recomendation/ia_recomendation.py:78-81 | a lower-cased artists text always contains its own normalisation |
| Tracks.Pick | music_recomendation/ia_recomendation.py:102 | `iloc` keeps the neighbour list's length and order: entry m is the table row at position m of the list |
| Dedup.FirstPositions | music_recomendation/ia_recomendation.py:102 | the reference selection lists, in increasing order, exactly the positions that are the first occurrence of their pair |
| Dedup.DropDuplicatesFrom | music_recomendation/ia_recomendation.py:102 | a scan that starts from kept rows with distinct pairs ends with distinct pairs, each row either already kept or still to be scanned |
| Dedup.FirstOccurrences | music_recomendation/ia_recomendation.py:102 | the reference selection of the first k rows has distinct pairs, all taken from those k rows |
| Dedup.DropDuplicatesFromReference | music_recomendation/ia_recomendation.py:102 | a scan started from the reference state after k rows ends with the reference selection of all rows |
| Dedup.DropDuplicates | music_recomendation/ia_recomendation.py:102 | no two kept rows share a (`track_name`, `artists`) pair, and every kept row comes from the input |
| Dedup.DropDuplicatesKeepsFirst | music_recomendation/ia_recomendation.py:102 | de-duplication equals the reference: the first occurrence of each pair, in input order |
| Dedup.DropDuplicatesKeepsEveryPair | music_recomendation/ia_recomendation.py:102 | the set of pairs after de-duplication is the set of pairs before it |
| Dedup.DropDuplicatesLength | music_recomendation/ia_recomendation.py:102 | the number of kept rows is the number of distinct pairs in the input |
| Dedup.DropDuplicatesNonEmpty | music_recomendation/ia_recomendation.py:102 | a non-empty input keeps its first row, so the result is non-empty |
| Recommender.FirstWhere | music_recomendation/ia_recomendation.py:81-87 | the search returns the first position satisfying the filter, or nothing exactly when no position does |
| Recommender.FindFirstMatch | music_recomendation/ia_recomendation.py:81-87 | with `Matches` as the mask of line 81 (lower-cased `track_name` equal to the track query, lower-cased `artists` containing the artist query), the resolved row matches the query, no earlier row does, and nothing is resolved exactly when no row matches |
| Recommender.QueryRow | music_recomendation/ia_recomendation.py:84-90 | the feature row is the first row carrying the matched row's `track_id`, at or before the match; none exists exactly when no row matches |
| Recommender.Take | music_recomendation/ia_recomendation.py:102 | `head(n)` is a prefix of length min(n, length of the input) |
| Recommender.NeighbourRows | music_recomendation/ia_recomendation.py:99-102 | the rows fed to de-duplication are the table rows at the oracle's positions, in the oracle's order |
| Recommender.Recommend | music_recomendation/ia_recomendation.py:76-103 | at most `n` rows, all from the table, with pairwise distinct pairs; nothing when no row matches |
| Recommender.RecommendFollowsNeighbours | music_recomendation/ia_recomendation.py:99-102 | result row m is the table row at the m-th first-occurrence neighbour position; its length is min(n, distinct pairs among the neighbours) |
| Recommender.RecommendEmptyIffNoMatch | music_recomendation/ia_recomendation.py:84-102 | with an index that answers on any non-empty table and n > 0, the result is empty exactly when no row matches the normalised query, an empty table included |
| Recommender.RecommendIgnoresCaseAndPadding | music_recomendation/ia_recomendation.py:77-78 | queries differing only in letter case and surrounding whitespace give the same recommendations |
| Recommender.QueryIgnoresLaterRows | music_recomendation/ia_recomendation.py:81-90 | tables that agree up to the first match resolve to the same row and the same query features |
| Recommender.ResolverFindsStoredTrack | music_recomendation/ia_recomendation.py:77-87 | querying a stored track, whose name has no surrounding whitespace, by its own name and artists resolves to that row or an earlier one |
| Recommender.BlankArtistMatchesEveryArtist | music_recomendation/ia_recomendation.py:78-81 | with a whitespace-only artist query, only the track name decides a match |
| Handler.Respond | music_recomendation/ia_recomendation.py:44-73 | a recommendation page holds between 1 and 10 rows, all from the table, with distinct pairs |
| Handler.RespondDispatch | music_recomendation/ia_recomendation.py:44-73 | with `Blank` as the `not field` test of line 63 (absent or empty), file missing, else blank field, else no match, else recommendations: each outcome happens exactly under its condition, for every input including an empty table, and the list is the pipeline's answer for 10 results |
| Handler.WhitespaceArtistIgnoresArtists | music_recomendation/ia_recomendation.py:63-81 | a whitespace-only artist passes the required-field test and any row with the queried track name yields recommendations |

## Left out

- Flask routes and template rendering (lines 33-40, 73): web plumbing. The outcome datatype stands for what the page is rendered with.
- `os.path.isfile`, `pd.read_csv` and the `joblib.load` of the three model files (lines 19-22, 46-53): file I/O. File presence is a boolean input, and the table and neighbour chain are parameters.
- `clean_numeric_values` (lines 24-30): pandas dtype inference and float parsing with swallowed errors. The feature columns are taken as already-numeric values.
- `scaler.transform`, `pca.transform` and `knn.kneighbors` (lines 93-99): floating-point numerics inside scikit-learn. They are the oracle `knn`. Distances are not modelled.
- Text.Contains: a plain substring test. pandas `str.contains` treats the artist query as a regular expression by default, so characters such as `(` or `.` behave differently there or raise an error.
- Text.LowerChar: ASCII only. Python's `str.lower` also maps non-ASCII letters.
- Text.StripStart: ASCII whitespace only (including the separators 28-31 that Python counts as whitespace). Python's `str.lstrip` also drops Unicode spaces.
- Text.StripEnd: ASCII whitespace only, as for Text.StripStart. Python's `str.rstrip` also drops Unicode spaces.
- Text.Strip: ASCII whitespace only, as for Text.StripStart. Python's `str.strip` also drops Unicode spaces.
- Missing (NaN) cells in `track_name` or `artists`: every row is modelled with both strings present.
- `head(n)` with a negative `n`: `n` is a natural number here; the handler always passes 10.
- Line 90 can feed several feature rows to `kneighbors` when a `track_id` repeats. Only `indices[0]` is used, so only the first such row is modelled.
- Exceptions other than the three handled outcomes (malformed models, shape mismatches, out-of-range positions from the index) are not modelled. `InRange` rules out the last.

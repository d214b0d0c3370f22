# MovieLens reshape, modelled in Dafny

This project models the in-memory reshape at the centre of the MovieLens-100K
ETL script `app.py`. The script reads each `u.item` row with five leading
columns and nineteen one-hot genre flags. It then:

- collapses the flags into a comma-joined `genre` string and a `num_genres`
  count (`group_genres`);
- builds the closed `genre` catalog (`genre_id` = position in `genres_columns`)
  and the lookup `genres_2_id`;
- splits each genre string again and looks every piece up, yielding the
  `movie_genres` junction table (`create_movie_genre_table`);
- gives the junction table and the ratings surrogate keys taken from their row
  positions, and drops the `genre` string from the movies (`get_tables`).

Modules, one per concern:

- `Outcome`: the `Result` type. The only error the reshape can raise is
  `KeyError`.
- `Text`: Python's `','.join` and `str.split(',')`, with both round trips.
- `Keys`: position keys (`reset_index`, `df.index`), used for `genre_id`,
  `movie_genre_id` and `rating_id`.
- `Genres`: `genres_columns`, the catalog, and `dict(zip(...))`.
- `Grouping`: the `int8` cast of the flags, and `group_genres`.
- `Junction`: `create_movie_genre_table`.
- `Pipeline`: the reshape part of `get_tables`. It also defines independent
  reference definitions in terms of the raw flags, and proves that the tables
  match them.

`Pipeline.GetTables` is generic over the vocabulary. The script passes
`genres_columns`, and `Pipeline.GenreColumnsRun` and the example lemmas
instantiate it with `Genres.GenreColumns`.

Three behaviours of the code shape the model:

- **A movie with no genre makes the whole run fail.** A movie with no flag
  equal to 1 gets the genre string `''` (app.py:78). `''.split(',')` is
  `['']` (app.py:88), and `genres_2_id['']` raises `KeyError` (app.py:91).
  So `get_tables` fails with `KeyError('')`; the movie does not contribute
  zero junction rows. See `Pipeline.GetTablesFailsIff` and
  `Pipeline.NoGenreExample`.
- **The code defines no validation errors.** `KeyError` is the only failure.
  A flag other than 1 counts as not set.
- **The `int8` cast wraps.** `astype(np.int8)` (app.py:59) keeps the value's
  residue modulo 256. A parsed flag therefore counts as set exactly when it
  is 1 modulo 256, so 257 counts as set.

## Model

| member | source | states |
|---|---|---|
| Genres.GenreColumnsWellFormed | app.py:11-15 | the script's vocabulary has 19 names, pairwise distinct, none empty and none containing a comma |
| Genres.Catalog | app.py:99-100 | the genre table has one row per vocabulary name, in order, with `genre_id` equal to the name's position |
| Genres.DictFromZip | app.py:101 | `dict(zip(keys, vals))` has exactly the given keys, and a repeated key keeps the value of its last occurrence |
| Genres.GenreIds | app.py:101 | `genres_2_id` has exactly the catalog's names as keys |
| Genres.GenreIdsBijection | app.py:99-101 | over distinct names, `genres_2_id` maps the name at position i to i, every id lies in 0..n-1, and the id of a name indexes back to that name |
| Grouping.ToInt8 | app.py:59 | the `int8` cast yields a value in -128..127 with the same residue modulo 256 |
| Grouping.CastFlags | app.py:59 | casting the flag columns leaves every other column unchanged and keeps the number of flags |
| Grouping.CastFlagsSet | app.py:59 | every cast flag is an `int8`, and it is 1 exactly when the parsed value is 1 modulo 256 |
| Grouping.SetPositions | app.py:78-79 | `x[x==1].index` lists exactly the positions holding 1, strictly increasing, one per such flag |
| Grouping.GenreNames | app.py:78-79 | the genre list is the vocabulary names of the set flags in column order, and has as many entries as there are flags equal to 1 |
| Grouping.GenreNamesEmpty | app.py:78 | the genre list is empty exactly when no flag equals 1 |
| Grouping.GenreStringRoundTrip | app.py:78-88 | for a non-empty list of comma-free names, splitting the joined genre string gives the genre list back |
| Grouping.GroupMovie | app.py:77-82 | grouping keeps every other column, sets `num_genres` to the count of flags equal to 1, and gives the empty string when there are none |
| Grouping.GroupMovieGenreCell | app.py:78-88 | with comma-free names and at least one genre, the grouped row's genre cell splits back into its genre list |
| Grouping.GroupGenres | app.py:77-82 | the frame keeps its order and length, and each row's `num_genres` counts its set flags |
| Text.Join | app.py:78 | the empty list joins to the empty string, and a non-empty join starts with its first part |
| Text.Split | app.py:88 | splitting yields at least one piece, and no piece contains a comma |
| Text.JoinSplit | app.py:88 | joining the pieces of any split gives back the original string |
| Text.SplitJoin | app.py:78-88 | splitting a join of one or more comma-free pieces gives back the pieces |
| Text.EmptyJoinSplitsToEmptyPiece | app.py:78-88 | the empty genre list joins to a string that splits into one empty piece, not into no pieces |
| Keys.Enumerate | app.py:104-106 | a position-keyed frame keeps its rows in order, and the row at position i has key i |
| Keys.EnumerateKeysGapFree | app.py:104-106 | the keys are exactly 0..n-1, increasing with row order |
| Keys.EnumerateKeepsRows | app.py:104-106 | removing the keys gives back the original rows |
| Junction.LookupAll | app.py:89-91 | looking up the pieces succeeds exactly when every piece is a key, giving `genres_2_id[p]` for each piece; otherwise it fails with the first missing piece |
| Junction.MovieLinks | app.py:88-91 | one movie yields one `(movie_id, genre_id)` row per piece, in order, exactly when every piece is known; a failure names an unknown piece |
| Junction.CreateMovieGenreTable | app.py:84-94 | the table is produced exactly when every piece of every movie is a known name, with one row per piece; a failure names an unknown piece of some movie |
| Junction.CreateTableFailsAt | app.py:87-91 | a movie that fails after all earlier movies succeeded ends the whole call with its error |
| Pipeline.GetTables | app.py:96-107 | on success the genre table is the catalog, the users pass through, the movies table keeps its length and the ratings keep their rows; a failure names a key that is not a genre name. Its full behaviour is stated by `GetTablesFailsIff`, `GetTablesContents` and `NumGenresMatchesJunction` |
| Pipeline.DropGenre | app.py:105 | dropping `genre` keeps every other column of the movie row |
| Pipeline.CastAll | app.py:59 | the cast frame keeps its order and casts each row |
| Pipeline.HasGenreRaw | app.py:59 | a movie has a flag that reads as 1 after the cast exactly when one of its parsed flags is 1 modulo 256 |
| Pipeline.HasGenreIffNames | app.py:59-79 | a movie has a non-empty genre list exactly when it has a flag that reads as 1 |
| Pipeline.LookupGenreNames | app.py:89-101 | looking up a movie's genre list in `genres_2_id` gives the positions of its set flags |
| Pipeline.GenreStringLookup | app.py:78-101 | for a movie with a genre, splitting its genre string and looking up the pieces gives the positions of its set flags |
| Pipeline.MovieLinksWithGenre | app.py:78-91 | a movie with a genre yields one junction row per set flag, with the flag's position as `genre_id` |
| Pipeline.MovieLinksWithoutGenre | app.py:78-91 | a movie without a genre makes the lookup raise `KeyError('')` |
| Pipeline.GroupedTail | app.py:77-82 | grouping is row-wise: the grouped frame without its first row is the grouping of the frame without its first row |
| Pipeline.JunctionTableWhenAllHaveGenres | app.py:84-94 | when every movie has a genre, the junction table is the reference table: one row per set flag, movie by movie in frame order |
| Pipeline.JunctionTableWhenOneLacksGenres | app.py:84-94 | when the first movie without a genre is movie j, the call raises `KeyError('')` |
| Pipeline.FirstWithoutGenre | app.py:87 | if some movie lacks a genre, there is a least index j of a movie without one, and every movie before j has a genre |
| Pipeline.ExpectedLinksLength | app.py:87-91 | the reference junction table has as many rows as the frame has set flags in total |
| Pipeline.ExpectedLinksSound | app.py:87-91 | every reference junction row belongs to a movie of the frame, and its `genre_id` is the position of one of that movie's set flags |
| Pipeline.RefCountAppend | app.py:90 | counting the rows that reference a movie distributes over appending tables |
| Pipeline.RefCountBlock | app.py:87-91 | a movie's own rows reference it once per set flag, and reference no other movie |
| Pipeline.RefCountExpected | app.py:87-91 | with distinct movie ids, the rows referencing a movie number its set flags |
| Pipeline.RefCountAbsent | app.py:87-91 | a movie id that no movie in the frame carries is referenced by no row |
| Pipeline.RefCountPrefix | app.py:87-91 | with distinct ids, the movies in front of movie j add nothing to its reference count |
| Pipeline.GetTablesFailsIff | app.py:96-107 | `get_tables` yields tables exactly when every movie has a flag that reads as 1; otherwise it raises `KeyError('')` |
| Pipeline.GetTablesContents | app.py:96-107 | on success: the genre table is the catalog; users pass through; ratings and junction rows are keyed 0..n-1 in order; the junction rows are the reference rows; movies keep their fields in order with `num_genres` at least 1 |
| Pipeline.NumGenresMatchesJunction | app.py:78-104 | the junction table has as many rows as the `num_genres` column sums to; with distinct ids, each movie's `num_genres` equals the number of rows that reference it |
| Pipeline.SumMatches | app.py:79 | two tables whose rows agree on the per-row counts have the same total |
| Pipeline.JunctionRowsValid | app.py:89-101 | every junction row has a `genre_id` in 0..n-1 and references a movie of the frame whose parsed flag at that position is 1 modulo 256 |
| Pipeline.RunOverVocab | app.py:96-107 | over any well-formed vocabulary, the run fails exactly when some movie has no genre, and every `genre_id` indexes the vocabulary |
| Pipeline.GenreColumnsRun | app.py:96-107 | with the script's 19 names, the run fails exactly when some movie has no genre |
| Pipeline.GenreColumnsIdsInRange | app.py:96-107 | with the script's 19 names, every `genre_id` of a successful run lies in 0..18 |
| Pipeline.FirstAndLastPositions | app.py:78 | flags set at the first and the last column have set positions 0 and 18 |
| Pipeline.CastKeepsBits | app.py:59 | flags that already hold 0 or 1 are unchanged by the cast |
| Pipeline.FirstAndLastGenreExample | app.py:78-79 | such a movie has the genre list `["unknown", "Western"]` and `num_genres` 2 |
| Pipeline.FirstAndLastGenreString | app.py:78 | such a movie's genre cell is `"unknown,Western"` |
| Pipeline.FirstAndLastJunctionExample | app.py:87-91 | such a movie's junction rows carry genre ids 0 and 18, in that order |
| Pipeline.EmptyFrameExample | app.py:77-107 | an empty movies frame gives a successful run with empty movies and junction tables |
| Pipeline.NoGenreExample | app.py:78-103 | a single movie with all flags 0 makes the run fail with `KeyError('')` |

## Left out

- `download_data` (app.py 31-46): network and file-system I/O.
- The CSV reading in `read_dataset` (app.py 48-75): the parsed rows are the model's inputs. The one value transformation the reader applies, the `int8` cast at line 59, is modelled. Encoding, separators and the debug prints are not.
- The module-level Oracle connection (app.py 19-29), `create_schema` (app.py 110-123) and the inserts and commits in `main` (app.py 125-170): database I/O.
- The casts `main` applies to the movie columns before loading (app.py 146-149: dates to strings, then the two date columns dropped). They happen after `get_tables` and are outside the reshape.
- Missing flag values (NaN): the `int8` cast of a NaN column raises inside pandas. Flags are modelled as integers, so such a row cannot be expressed.
- Integers are unbounded: the `int64` width of the parsed ids and ratings is not modelled. Only the flags' 8-bit wrap-around matters to the reshape, and it is modelled.
- Pipeline.GetTables: requires every movie row to have one flag per vocabulary name (`FlagsAligned`). The CSV reader guarantees this by construction, because it always produces all 24 named columns.
- Pipeline.NumGenresMatchesJunction: states the per-movie reference count only for frames with distinct movie ids. With repeated ids, the rows of all movies sharing an id are counted together. The total-count statement holds regardless.

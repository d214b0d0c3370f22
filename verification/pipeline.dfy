/** The in-memory part of `get_tables` (app.py 96-107): from the parsed
    movie, user and rating rows to the five tables handed to the loader —
    movies, users, ratings, genre and movie_genres.

    The download, the CSV reading and the database load around it are not
    modelled; the parsed rows are the inputs. What the reader does to the
    values it hands over, the `int8` cast of the flag columns (app.py 59),
    is applied here.
 */
module Pipeline {
  import opened Outcome
  import Text
  import opened Keys
  import opened Genres
  import opened Grouping
  import opened Junction

  /** A row of `u.user`, passed through unchanged. */
  datatype User = User(user_id: int, age: int, gender: string, occupation: string, zip_code: string)

  /** A row of `u.data`. */
  datatype Rating = Rating(user_id: int, movie_id: int, rating: int, timestamp: int)

  /** A row of the final movies table: the `genre` string is dropped again
      (app.py 105) and only `num_genres` remains of the genre columns. */
  datatype MovieRow = MovieRow(
    movie_id: int,
    title: string,
    release_date: string,
    video_release_date: string,
    imdb_url: string,
    num_genres: nat)

  /** The five frames returned by `get_tables`, in its order. */
  datatype Tables = Tables(
    movies: seq<MovieRow>,
    users: seq<User>,
    ratings: seq<Keyed<Rating>>,
    genres: seq<GenreRow>,
    movieGenres: seq<Keyed<Link>>)

  /** `movies_df.drop(columns=['genre'])` on one row. */
  function DropGenre(g: GroupedMovie): (m: MovieRow)
    ensures m.movie_id == g.movie_id && m.title == g.title && m.imdb_url == g.imdb_url
    ensures m.release_date == g.release_date && m.video_release_date == g.video_release_date
    ensures m.num_genres == g.num_genres
  {
    MovieRow(g.movie_id, g.title, g.release_date, g.video_release_date, g.imdb_url, g.num_genres)
  }

  /** The reader's frame: every row's flags cast to `int8`. */
  function CastAll(movies: seq<Movie>): (cast: seq<Movie>)
    ensures |cast| == |movies|
    ensures forall j :: 0 <= j < |movies| ==> cast[j] == CastFlags(movies[j])
  {
    seq(|movies|, j requires 0 <= j < |movies| => CastFlags(movies[j]))
  }

  /** `get_tables` after the download and the read, over the vocabulary
      `vocab` (the script passes `genres_columns`). */
  function GetTables(vocab: seq<string>, movies: seq<Movie>, users: seq<User>, ratings: seq<Rating>): (r: Result<Tables>)
    requires FlagsAligned(vocab, movies)
    ensures r.Ok? ==> r.value.genres == Catalog(vocab) && r.value.users == users
    ensures r.Ok? ==> |r.value.movies| == |movies| && Rows(r.value.ratings) == ratings
    ensures r.Err? ==> r.error.key !in vocab
  {
    var genres := Catalog(vocab);
    var ids := GenreIds(genres);
    var grouped := GroupGenres(vocab, CastAll(movies));
    var links :- CreateMovieGenreTable(grouped, ids);
    var final := seq(|grouped|, j requires 0 <= j < |grouped| => DropGenre(grouped[j]));
    Ok(Tables(final, users, Enumerate(ratings), genres, Enumerate(links)))
  }

  // ---------------------------------------------------------------------
  // Reference definitions, in terms of the raw flag values.

  /** Some flag of the row reads as 1 once cast to `int8`. */
  predicate HasGenre(m: Movie) {
    1 in CastFlags(m).flags
  }

  /** In terms of the parsed values: some flag is 1 modulo 256. */
  lemma HasGenreRaw(m: Movie)
    ensures HasGenre(m) <==> exists i :: 0 <= i < |m.flags| && m.flags[i] % 256 == 1
  {
    CastFlagsSet(m);
    if HasGenre(m) {
      var i :| 0 <= i < |m.flags| && CastFlags(m).flags[i] == 1;
      assert m.flags[i] % 256 == 1;
    } else if exists i :: 0 <= i < |m.flags| && m.flags[i] % 256 == 1 {
      var i :| 0 <= i < |m.flags| && m.flags[i] % 256 == 1;
      assert CastFlags(m).flags[i] == 1;
    }
  }

  /** The junction rows one movie should produce: one per set flag, the
      flag's column position being the genre id. */
  function ExpectedBlock(m: Movie): seq<Link> {
    var p := SetPositions(CastFlags(m).flags);
    seq(|p|, k requires 0 <= k < |p| => Link(m.movie_id, p[k]))
  }

  /** The junction rows the whole frame should produce, movie by movie. */
  function ExpectedLinks(movies: seq<Movie>): seq<Link> {
    if |movies| == 0 then [] else ExpectedBlock(movies[0]) + ExpectedLinks(movies[1..])
  }

  /** Number of set flags of a row, after the cast. */
  function SetCount(m: Movie): nat {
    multiset(CastFlags(m).flags)[1]
  }

  /** Sum of `num_genres` over a movies table. */
  function SumNumGenres(rows: seq<MovieRow>): nat {
    if |rows| == 0 then 0 else rows[0].num_genres + SumNumGenres(rows[1..])
  }

  /** Number of junction rows that reference `movieId`. */
  function RefCount(links: seq<Link>, movieId: int): nat {
    if |links| == 0 then 0
    else (if links[0].movie_id == movieId then 1 else 0) + RefCount(links[1..], movieId)
  }

  predicate DistinctMovieIds(movies: seq<Movie>) {
    forall a, b :: 0 <= a < b < |movies| ==> movies[a].movie_id != movies[b].movie_id
  }

  // ---------------------------------------------------------------------
  // One movie.

  /** A movie has a genre list exactly when one of its raw flags reads as 1
      after the cast. */
  lemma HasGenreIffNames(vocab: seq<string>, m: Movie)
    requires WellFormedVocab(vocab)
    requires |m.flags| == |vocab|
    ensures HasGenre(m) <==> |GenreNames(vocab, CastFlags(m).flags)| >= 1
  {
    var c := CastFlags(m);
    GenreNamesEmpty(vocab, c.flags);
  }

  /** Looking up a genre list in `genres_2_id` gives the positions of the
      set flags. */
  lemma LookupGenreNames(vocab: seq<string>, flags: seq<int>)
    requires Distinct(vocab)
    requires |flags| == |vocab|
    ensures LookupAll(GenreNames(vocab, flags), GenreIds(Catalog(vocab))) == Ok(SetPositions(flags))
  {
    var ids := GenreIds(Catalog(vocab));
    var names := GenreNames(vocab, flags);
    var p := SetPositions(flags);
    GenreIdsBijection(vocab);
    forall k | 0 <= k < |names|
      ensures names[k] in ids && ids[names[k]] == p[k]
    {
      assert names[k] == vocab[p[k]];
    }
    var look := LookupAll(names, ids);
    assert look.Ok?;
    assert |look.value| == |p|;
    assert look.value == p;
  }

  /** A movie with a genre: its genre string splits back into its genre
      list, and every piece is found, at the position of its flag. */
  lemma GenreStringLookup(vocab: seq<string>, m: Movie)
    requires WellFormedVocab(vocab)
    requires |m.flags| == |vocab|
    requires HasGenre(m)
    ensures LookupAll(Text.Split(GroupMovie(vocab, CastFlags(m)).genre), GenreIds(Catalog(vocab)))
            == Ok(SetPositions(CastFlags(m).flags))
  {
    var c := CastFlags(m);
    HasGenreIffNames(vocab, m);
    GenreStringRoundTrip(vocab, c.flags);
    LookupGenreNames(vocab, c.flags);
  }

  /** So the rows such a movie produces carry the positions of its set
      flags as genre ids. */
  lemma MovieLinksWithGenre(vocab: seq<string>, m: Movie)
    requires WellFormedVocab(vocab)
    requires |m.flags| == |vocab|
    requires HasGenre(m)
    ensures MovieLinks(GroupMovie(vocab, CastFlags(m)), GenreIds(Catalog(vocab))) == Ok(ExpectedBlock(m))
  {
    GenreStringLookup(vocab, m);
  }

  /** A movie without a genre has the empty genre string, which splits into
      the single piece "", and looking that up raises `KeyError('')`. */
  lemma MovieLinksWithoutGenre(vocab: seq<string>, m: Movie)
    requires WellFormedVocab(vocab)
    requires |m.flags| == |vocab|
    requires !HasGenre(m)
    ensures MovieLinks(GroupMovie(vocab, CastFlags(m)), GenreIds(Catalog(vocab))) == Err(KeyError(""))
  {
    var c := CastFlags(m);
    var g := GroupMovie(vocab, c);
    var ids := GenreIds(Catalog(vocab));
    GenreIdsBijection(vocab);
    HasGenreIffNames(vocab, m);
    assert g.genre == "";
    assert Text.Split(g.genre) == [""];
    assert "" !in ids;
  }

  // ---------------------------------------------------------------------
  // The junction table.

  /** Grouping commutes with dropping the first row. */
  lemma GroupedTail(vocab: seq<string>, movies: seq<Movie>)
    requires FlagsAligned(vocab, movies)
    requires |movies| > 0
    ensures FlagsAligned(vocab, movies[1..])
    ensures GroupGenres(vocab, CastAll(movies))[0] == GroupMovie(vocab, CastFlags(movies[0]))
    ensures GroupGenres(vocab, CastAll(movies))[1..] == GroupGenres(vocab, CastAll(movies[1..]))
  {
    var grouped := GroupGenres(vocab, CastAll(movies));
    var tail := GroupGenres(vocab, CastAll(movies[1..]));
    assert |grouped[1..]| == |tail|;
    forall k | 0 <= k < |tail|
      ensures grouped[1..][k] == tail[k]
    {
      assert movies[1..][k] == movies[k + 1];
    }
  }

  /** When every movie has a genre, the junction table of the grouped frame
      is the expected one. */
  lemma {:induction false} JunctionTableWhenAllHaveGenres(vocab: seq<string>, movies: seq<Movie>)
    requires WellFormedVocab(vocab)
    requires FlagsAligned(vocab, movies)
    requires forall j :: 0 <= j < |movies| ==> HasGenre(movies[j])
    ensures CreateMovieGenreTable(GroupGenres(vocab, CastAll(movies)), GenreIds(Catalog(vocab)))
            == Ok(ExpectedLinks(movies))
  {
    if |movies| > 0 {
      var grouped := GroupGenres(vocab, CastAll(movies));
      var ids := GenreIds(Catalog(vocab));
      var tail := movies[1..];
      assert MovieLinks(grouped[0], ids) == Ok(ExpectedBlock(movies[0])) by {
        GroupedTail(vocab, movies);
        MovieLinksWithGenre(vocab, movies[0]);
      }
      assert CreateMovieGenreTable(grouped[1..], ids) == Ok(ExpectedLinks(tail)) by {
        GroupedTail(vocab, movies);
        assert forall j :: 0 <= j < |tail| ==> tail[j] == movies[j + 1];
        JunctionTableWhenAllHaveGenres(vocab, tail);
      }
      CreateTableCons(grouped, ids, ExpectedBlock(movies[0]), ExpectedLinks(tail));
    }
  }

  /** When movie `j` is the first without a genre, the call raises
      `KeyError('')` there: every movie before it succeeds, and the
      exception discards their rows. */
  lemma JunctionTableWhenOneLacksGenres(vocab: seq<string>, movies: seq<Movie>, j: int)
    requires WellFormedVocab(vocab)
    requires FlagsAligned(vocab, movies)
    requires 0 <= j < |movies| && !HasGenre(movies[j])
    requires forall i :: 0 <= i < j ==> HasGenre(movies[i])
    ensures CreateMovieGenreTable(GroupGenres(vocab, CastAll(movies)), GenreIds(Catalog(vocab)))
            == Err(KeyError(""))
  {
    var grouped := GroupGenres(vocab, CastAll(movies));
    var ids := GenreIds(Catalog(vocab));
    forall i | 0 <= i < j
      ensures MovieLinks(grouped[i], ids).Ok?
    {
      assert grouped[i] == GroupMovie(vocab, CastFlags(movies[i]));
      MovieLinksWithGenre(vocab, movies[i]);
    }
    assert MovieLinks(grouped[j], ids) == Err(KeyError("")) by {
      assert grouped[j] == GroupMovie(vocab, CastFlags(movies[j]));
      MovieLinksWithoutGenre(vocab, movies[j]);
    }
    CreateTableFailsAt(grouped, ids, j, KeyError(""));
  }

  /** A frame with a movie without a genre has a first such movie. */
  lemma FirstWithoutGenre(movies: seq<Movie>, j: int) returns (f: int)
    requires 0 <= j < |movies| && !HasGenre(movies[j])
    ensures 0 <= f <= j && !HasGenre(movies[f])
    ensures forall i :: 0 <= i < f ==> HasGenre(movies[i])
  {
    f := 0;
    while HasGenre(movies[f])
      invariant 0 <= f <= j
      invariant forall i :: 0 <= i < f ==> HasGenre(movies[i])
      decreases j - f
    {
      f := f + 1;
    }
  }

  /** The expected junction rows number the set flags of all movies. */
  lemma {:induction false} ExpectedLinksLength(movies: seq<Movie>)
    ensures |ExpectedLinks(movies)| == SumSetCounts(movies)
  {
    if |movies| > 0 {
      ExpectedLinksLength(movies[1..]);
    }
  }

  /** Sum of the set-flag counts of a frame. */
  function SumSetCounts(movies: seq<Movie>): nat {
    if |movies| == 0 then 0 else SetCount(movies[0]) + SumSetCounts(movies[1..])
  }

  /** Every expected junction row belongs to some movie of the frame, and
      its genre id is a column position whose cast flag is 1 for that
      movie. */
  lemma {:induction false} ExpectedLinksSound(movies: seq<Movie>)
    ensures forall k :: 0 <= k < |ExpectedLinks(movies)| ==>
              exists j :: 0 <= j < |movies| && ExpectedLinks(movies)[k].movie_id == movies[j].movie_id
                && 0 <= ExpectedLinks(movies)[k].genre_id < |movies[j].flags|
                && CastFlags(movies[j]).flags[ExpectedLinks(movies)[k].genre_id] == 1
  {
    if |movies| > 0 {
      var links := ExpectedLinks(movies);
      var block := ExpectedBlock(movies[0]);
      var rest := ExpectedLinks(movies[1..]);
      assert links == block + rest;
      ExpectedLinksSound(movies[1..]);
      forall k | 0 <= k < |links|
        ensures exists j :: 0 <= j < |movies| && links[k].movie_id == movies[j].movie_id
                  && 0 <= links[k].genre_id < |movies[j].flags|
                  && CastFlags(movies[j]).flags[links[k].genre_id] == 1
      {
        if k < |block| {
          var p := SetPositions(CastFlags(movies[0]).flags);
          assert links[k] == Link(movies[0].movie_id, p[k]);
        } else {
          var r := rest[k - |block|];
          assert links[k] == r;
          var j :| 0 <= j < |movies[1..]| && r.movie_id == movies[1..][j].movie_id
                && 0 <= r.genre_id < |movies[1..][j].flags|
                && CastFlags(movies[1..][j]).flags[r.genre_id] == 1;
          assert movies[1..][j] == movies[j + 1];
        }
      }
    } else {
      assert |ExpectedLinks(movies)| == 0;
    }
  }

  /** Counting references distributes over concatenation. */
  lemma {:induction false} RefCountAppend(a: seq<Link>, b: seq<Link>, movieId: int)
    ensures RefCount(a + b, movieId) == RefCount(a, movieId) + RefCount(b, movieId)
  {
    if |a| > 0 {
      assert (a + b)[0] == a[0];
      assert (a + b)[1..] == a[1..] + b;
      RefCountAppend(a[1..], b, movieId);
    } else {
      assert a + b == b;
    }
  }

  /** A movie's own block references it once per set flag; another
      movie's block does not reference it at all. */
  lemma {:induction false} RefCountBlock(m: Movie, movieId: int)
    ensures RefCount(ExpectedBlock(m), movieId) == if m.movie_id == movieId then SetCount(m) else 0
  {
    var b := ExpectedBlock(m);
    var n := |b|;
    var i := 0;
    while i < n
      invariant 0 <= i <= n
      invariant RefCount(b[..i], movieId) == if m.movie_id == movieId then i else 0
    {
      assert b[..i + 1] == b[..i] + [b[i]];
      RefCountAppend(b[..i], [b[i]], movieId);
      assert RefCount([b[i]], movieId) == if b[i].movie_id == movieId then 1 else 0;
      i := i + 1;
    }
    assert b[..n] == b;
  }

  /** With distinct movie ids, the number of expected junction rows that
      reference a movie equals the number of its set flags. */
  lemma {:induction false} RefCountExpected(movies: seq<Movie>, j: int)
    requires DistinctMovieIds(movies)
    requires 0 <= j < |movies|
    ensures RefCount(ExpectedLinks(movies), movies[j].movie_id) == SetCount(movies[j])
  {
    RefCountAbsent(movies[j + 1..], movies[j].movie_id);
    RefCountPrefix(movies, j);
  }

  /** A frame none of whose movies carries `movieId` references it nowhere. */
  lemma {:induction false} RefCountAbsent(movies: seq<Movie>, movieId: int)
    requires forall j :: 0 <= j < |movies| ==> movies[j].movie_id != movieId
    ensures RefCount(ExpectedLinks(movies), movieId) == 0
  {
    if |movies| > 0 {
      RefCountBlock(movies[0], movieId);
      RefCountAbsent(movies[1..], movieId);
      RefCountAppend(ExpectedBlock(movies[0]), ExpectedLinks(movies[1..]), movieId);
    }
  }

  /** Peels the movies in front of position j off the count. */
  lemma {:induction false} RefCountPrefix(movies: seq<Movie>, j: int)
    requires DistinctMovieIds(movies)
    requires 0 <= j < |movies|
    requires RefCount(ExpectedLinks(movies[j + 1..]), movies[j].movie_id) == 0
    ensures RefCount(ExpectedLinks(movies), movies[j].movie_id) == SetCount(movies[j])
    decreases j
  {
    var id := movies[j].movie_id;
    RefCountBlock(movies[0], id);
    RefCountAppend(ExpectedBlock(movies[0]), ExpectedLinks(movies[1..]), id);
    if j == 0 {
      assert movies[1..] == movies[j + 1..];
    } else {
      var tail := movies[1..];
      assert DistinctMovieIds(tail) by {
        forall a, b | 0 <= a < b < |tail|
          ensures tail[a].movie_id != tail[b].movie_id
        {
          assert tail[a] == movies[a + 1] && tail[b] == movies[b + 1];
        }
      }
      assert tail[j - 1] == movies[j];
      assert tail[j - 1 + 1..] == movies[j + 1..];
      RefCountPrefix(tail, j - 1);
      assert movies[0].movie_id != id;
    }
  }

  // ---------------------------------------------------------------------
  // The whole reshape.

  /** `get_tables` yields its tables exactly when every movie has a flag
      that reads as 1; otherwise it raises `KeyError('')` and yields no
      table. */
  lemma GetTablesFailsIff(vocab: seq<string>, movies: seq<Movie>, users: seq<User>, ratings: seq<Rating>)
    requires WellFormedVocab(vocab)
    requires FlagsAligned(vocab, movies)
    ensures GetTables(vocab, movies, users, ratings).Ok? <==> forall j :: 0 <= j < |movies| ==> HasGenre(movies[j])
    ensures GetTables(vocab, movies, users, ratings).Err? ==> GetTables(vocab, movies, users, ratings).error == KeyError("")
  {
    if forall j :: 0 <= j < |movies| ==> HasGenre(movies[j]) {
      JunctionTableWhenAllHaveGenres(vocab, movies);
    } else {
      var j :| 0 <= j < |movies| && !HasGenre(movies[j]);
      var f := FirstWithoutGenre(movies, j);
      JunctionTableWhenOneLacksGenres(vocab, movies, f);
    }
  }

  /** On success the tables are: the catalog of the 19 names; the users as
      read; the ratings keyed 0 .. m-1 in file order; the junction table
      holding, movie by movie in frame order, one row per set flag with the
      flag's position as genre id, keyed 0 .. n-1 in that order; and the
      movies in frame order with their fields kept and `num_genres` the
      (positive) number of set flags. */
  lemma GetTablesContents(vocab: seq<string>, movies: seq<Movie>, users: seq<User>, ratings: seq<Rating>)
    requires WellFormedVocab(vocab)
    requires FlagsAligned(vocab, movies)
    requires GetTables(vocab, movies, users, ratings).Ok?
    ensures GetTables(vocab, movies, users, ratings).value.genres == Catalog(vocab)
    ensures GetTables(vocab, movies, users, ratings).value.users == users
    ensures Rows(GetTables(vocab, movies, users, ratings).value.ratings) == ratings
    ensures Rows(GetTables(vocab, movies, users, ratings).value.movieGenres) == ExpectedLinks(movies)
    ensures forall k :: 0 <= k < |GetTables(vocab, movies, users, ratings).value.ratings| ==>
              GetTables(vocab, movies, users, ratings).value.ratings[k].key == k
    ensures forall k :: 0 <= k < |GetTables(vocab, movies, users, ratings).value.movieGenres| ==>
              GetTables(vocab, movies, users, ratings).value.movieGenres[k].key == k
    ensures |GetTables(vocab, movies, users, ratings).value.movies| == |movies|
    ensures forall j :: 0 <= j < |movies| ==>
              var row := GetTables(vocab, movies, users, ratings).value.movies[j];
              row.movie_id == movies[j].movie_id && row.title == movies[j].title
              && row.imdb_url == movies[j].imdb_url && row.release_date == movies[j].release_date
              && row.video_release_date == movies[j].video_release_date
              && row.num_genres == SetCount(movies[j]) && row.num_genres >= 1
  {
    var t := GetTables(vocab, movies, users, ratings).value;
    GetTablesFailsIff(vocab, movies, users, ratings);
    JunctionTableWhenAllHaveGenres(vocab, movies);
    EnumerateKeepsRows(ExpectedLinks(movies));
    EnumerateKeepsRows(ratings);
    forall j | 0 <= j < |movies|
      ensures t.movies[j].num_genres >= 1
    {
      HasGenreIffNames(vocab, movies[j]);
    }
  }

  /** The count invariant: on success, `num_genres` of each movie (with
      distinct movie ids) equals the number of junction rows that reference
      it, and the junction table has as many rows as the `num_genres`
      column sums to. */
  lemma NumGenresMatchesJunction(vocab: seq<string>, movies: seq<Movie>, users: seq<User>, ratings: seq<Rating>)
    requires WellFormedVocab(vocab)
    requires FlagsAligned(vocab, movies)
    requires GetTables(vocab, movies, users, ratings).Ok?
    ensures |GetTables(vocab, movies, users, ratings).value.movieGenres|
            == SumNumGenres(GetTables(vocab, movies, users, ratings).value.movies)
    ensures DistinctMovieIds(movies) ==> forall j :: 0 <= j < |movies| ==>
              RefCount(Rows(GetTables(vocab, movies, users, ratings).value.movieGenres), movies[j].movie_id)
              == GetTables(vocab, movies, users, ratings).value.movies[j].num_genres
  {
    var t := GetTables(vocab, movies, users, ratings).value;
    GetTablesContents(vocab, movies, users, ratings);
    ExpectedLinksLength(movies);
    SumMatches(movies, t.movies);
    if DistinctMovieIds(movies) {
      forall j | 0 <= j < |movies|
        ensures RefCount(Rows(t.movieGenres), movies[j].movie_id) == t.movies[j].num_genres
      {
        RefCountExpected(movies, j);
      }
    }
  }

  /** Two tables whose rows agree on the counts have equal sums. */
  lemma {:induction false} SumMatches(movies: seq<Movie>, rows: seq<MovieRow>)
    requires |rows| == |movies|
    requires forall j :: 0 <= j < |movies| ==> rows[j].num_genres == SetCount(movies[j])
    ensures SumNumGenres(rows) == SumSetCounts(movies)
  {
    if |movies| > 0 {
      SumMatches(movies[1..], rows[1..]);
    }
  }

  /** On success every junction row references a movie of the frame, and
      its genre id lies in 0 .. n-1 for a vocabulary of n names and names a
      genre whose raw flag reads as 1 (modulo 256) for that movie. */
  lemma JunctionRowsValid(vocab: seq<string>, movies: seq<Movie>, users: seq<User>, ratings: seq<Rating>)
    requires WellFormedVocab(vocab)
    requires FlagsAligned(vocab, movies)
    requires GetTables(vocab, movies, users, ratings).Ok?
    ensures forall k :: 0 <= k < |GetTables(vocab, movies, users, ratings).value.movieGenres| ==>
              var link := GetTables(vocab, movies, users, ratings).value.movieGenres[k].row;
              0 <= link.genre_id < |vocab|
              && exists j :: 0 <= j < |movies| && link.movie_id == movies[j].movie_id
                   && movies[j].flags[link.genre_id] % 256 == 1
  {
    var t := GetTables(vocab, movies, users, ratings).value;
    GetTablesContents(vocab, movies, users, ratings);
    ExpectedLinksSound(movies);
    forall k | 0 <= k < |t.movieGenres|
      ensures 0 <= t.movieGenres[k].row.genre_id < |vocab|
      ensures exists j :: 0 <= j < |movies| && t.movieGenres[k].row.movie_id == movies[j].movie_id
                && movies[j].flags[t.movieGenres[k].row.genre_id] % 256 == 1
    {
      var link := t.movieGenres[k].row;
      assert link == ExpectedLinks(movies)[k];
      var j :| 0 <= j < |movies| && link.movie_id == movies[j].movie_id
                && 0 <= link.genre_id < |movies[j].flags|
                && CastFlags(movies[j]).flags[link.genre_id] == 1;
      CastFlagsSet(movies[j]);
    }
  }

  // ---------------------------------------------------------------------
  // The script's own vocabulary.

  /** With `genres_columns` the run fails exactly when some movie has no
      genre. */
  lemma GenreColumnsRun(movies: seq<Movie>, users: seq<User>, ratings: seq<Rating>)
    requires FlagsAligned(GenreColumns, movies)
    ensures GetTables(GenreColumns, movies, users, ratings).Err? <==>
              exists j :: 0 <= j < |movies| && !HasGenre(movies[j])
  {
    GenreColumnsWellFormed();
    RunOverVocab(GenreColumns, movies, users, ratings);
  }

  /** With `genres_columns` every junction row's genre id lies in 0 .. 18. */
  lemma GenreColumnsIdsInRange(movies: seq<Movie>, users: seq<User>, ratings: seq<Rating>)
    requires FlagsAligned(GenreColumns, movies)
    requires GetTables(GenreColumns, movies, users, ratings).Ok?
    ensures forall k :: 0 <= k < |GetTables(GenreColumns, movies, users, ratings).value.movieGenres| ==>
              0 <= GetTables(GenreColumns, movies, users, ratings).value.movieGenres[k].row.genre_id < 19
  {
    GenreColumnsWellFormed();
    RunOverVocab(GenreColumns, movies, users, ratings);
  }

  /** Over any well-formed vocabulary: the run fails exactly when some movie
      has no genre, and every genre id of the junction table indexes the
      vocabulary. */
  lemma RunOverVocab(vocab: seq<string>, movies: seq<Movie>, users: seq<User>, ratings: seq<Rating>)
    requires WellFormedVocab(vocab)
    requires FlagsAligned(vocab, movies)
    ensures GetTables(vocab, movies, users, ratings).Err? <==>
              exists j :: 0 <= j < |movies| && !HasGenre(movies[j])
    ensures GetTables(vocab, movies, users, ratings).Ok? ==>
              forall k :: 0 <= k < |GetTables(vocab, movies, users, ratings).value.movieGenres| ==>
                0 <= GetTables(vocab, movies, users, ratings).value.movieGenres[k].row.genre_id < |vocab|
  {
    GetTablesFailsIff(vocab, movies, users, ratings);
    if GetTables(vocab, movies, users, ratings).Ok? {
      JunctionRowsValid(vocab, movies, users, ratings);
    }
  }

  /** The flags of a movie tagged with the first and the last genre only. */
  const FirstAndLastFlags: seq<int> := [1] + seq(17, _ => 0) + [1]

  /** Its set positions are 0 and 18. */
  lemma FirstAndLastPositions()
    ensures SetPositions(FirstAndLastFlags) == [0, 18]
  {
    var flags := FirstAndLastFlags;
    var p := SetPositions(flags);
    assert flags[0] == 1 && flags[18] == 1;
    assert 0 in p && 18 in p;
    assert multiset(flags)[1] == 2 by {
      assert multiset(flags) == multiset{1} + multiset(seq(17, (_: int) => 0)) + multiset{1};
      assert 1 !in seq(17, (_: int) => 0);
    }
  }

  /** Flags that already hold 0 or 1 come through the cast unchanged. */
  lemma CastKeepsBits(m: Movie)
    requires forall i :: 0 <= i < |m.flags| ==> m.flags[i] == 0 || m.flags[i] == 1
    ensures CastFlags(m) == m
  {
    assert CastFlags(m).flags == m.flags;
  }

  /** That movie's genre list is ["unknown", "Western"] and it counts 2
      genres. */
  lemma FirstAndLastGenreExample(id: int)
    ensures var m := Movie(id, "", "", "", "", FirstAndLastFlags);
            && GenreNames(GenreColumns, CastFlags(m).flags) == ["unknown", "Western"]
            && GroupMovie(GenreColumns, CastFlags(m)).num_genres == 2
  {
    var m := Movie(id, "", "", "", "", FirstAndLastFlags);
    CastKeepsBits(m);
    FirstAndLastPositions();
    assert GenreColumns[0] == "unknown" && GenreColumns[18] == "Western";
  }

  /** Its genre cell is the string "unknown,Western". */
  lemma FirstAndLastGenreString(id: int)
    ensures GroupMovie(GenreColumns, CastFlags(Movie(id, "", "", "", "", FirstAndLastFlags))).genre
            == "unknown,Western"
  {
    FirstAndLastGenreExample(id);
    var names: seq<string> := ["unknown", "Western"];
    assert Text.Join(names[1..]) == "Western";
    assert Text.Join(names) == "unknown" + [Text.Comma] + "Western";
  }

  /** Its junction rows carry genre ids 0 and 18, in that order. */
  lemma FirstAndLastJunctionExample(id: int)
    ensures ExpectedBlock(Movie(id, "", "", "", "", FirstAndLastFlags)) == [Link(id, 0), Link(id, 18)]
  {
    CastKeepsBits(Movie(id, "", "", "", "", FirstAndLastFlags));
    FirstAndLastPositions();
  }

  /** An empty movies frame gives empty movies and junction tables; the
      catalog and the users are produced as for any other frame. */
  lemma EmptyFrameExample(vocab: seq<string>, users: seq<User>, ratings: seq<Rating>)
    ensures GetTables(vocab, [], users, ratings).Ok?
    ensures GetTables(vocab, [], users, ratings).value.movies == []
    ensures GetTables(vocab, [], users, ratings).value.movieGenres == []
  {
    assert GroupGenres(vocab, CastAll([])) == [];
  }

  /** A movie with no genre flag set makes the whole run fail with
      `KeyError('')` instead of yielding zero junction rows. */
  lemma NoGenreExample(id: int, users: seq<User>, ratings: seq<Rating>)
    ensures GetTables(GenreColumns, [Movie(id, "", "", "", "", seq(19, _ => 0))], users, ratings)
            == Err(KeyError(""))
  {
    var m := Movie(id, "", "", "", "", seq(19, _ => 0));
    GenreColumnsWellFormed();
    CastFlagsSet(m);
    assert !HasGenre(m);
    JunctionTableWhenOneLacksGenres(GenreColumns, [m], 0);
  }
}

/** The movie-genre junction table (`create_movie_genre_table`, app.py
    84-94): every movie's genre string is split on `,` and each piece is
    looked up in `genres_2_id`, giving one `(movie_id, genre_id)` row per
    piece, movie by movie in frame order. A piece that is not a genre name
    raises `KeyError`, which ends the whole call.
 */
module Junction {
  import opened Outcome
  import Text
  import opened Grouping

  /** A row of the junction table before its surrogate key is added. */
  datatype Link = Link(movie_id: int, genre_id: int)

  /** `genres_2_id[p]` for each piece `p` in order; the first piece that
      is not a key raises. */
  function LookupAll(pieces: seq<string>, ids: map<string, int>): (r: Result<seq<int>>)
    ensures r.Ok? <==> forall k :: 0 <= k < |pieces| ==> pieces[k] in ids
    ensures r.Ok? ==> |r.value| == |pieces|
    ensures r.Ok? ==> forall k :: 0 <= k < |pieces| ==> r.value[k] == ids[pieces[k]]
    ensures r.Err? ==> exists k :: 0 <= k < |pieces| && r.error == KeyError(pieces[k]) && pieces[k] !in ids
                          && forall i :: 0 <= i < k ==> pieces[i] in ids
  {
    if |pieces| == 0 then Ok([])
    else if pieces[0] !in ids then Err(KeyError(pieces[0]))
    else
      var rest :- LookupAll(pieces[1..], ids);
      Ok([ids[pieces[0]]] + rest)
  }

  /** Every piece of every movie's genre string is a known genre name. */
  predicate AllPiecesKnown(movies: seq<GroupedMovie>, ids: map<string, int>) {
    forall j :: 0 <= j < |movies| ==> forall p :: p in Text.Split(movies[j].genre) ==> p in ids
  }

  /** Number of pieces in all genre strings together. */
  function TotalPieces(movies: seq<GroupedMovie>): nat {
    if |movies| == 0 then 0 else |Text.Split(movies[0].genre)| + TotalPieces(movies[1..])
  }

  /** The inner loop of app.py 88-91 for one movie. */
  function MovieLinks(m: GroupedMovie, ids: map<string, int>): (r: Result<seq<Link>>)
    ensures r.Ok? <==> forall p :: p in Text.Split(m.genre) ==> p in ids
    ensures r.Ok? ==> |r.value| == |Text.Split(m.genre)|
    ensures r.Ok? ==> forall k :: 0 <= k < |r.value| ==>
              r.value[k] == Link(m.movie_id, ids[Text.Split(m.genre)[k]])
    ensures r.Err? ==> r.error.key in Text.Split(m.genre) && r.error.key !in ids
  {
    var gids :- LookupAll(Text.Split(m.genre), ids);
    Ok(seq(|gids|, k requires 0 <= k < |gids| => Link(m.movie_id, gids[k])))
  }

  /** `create_movie_genre_table`: it yields the table exactly when every
      piece is a known name; the table then holds one row per piece; a
      failure names a piece of some movie that is not a known name. */
  function CreateMovieGenreTable(movies: seq<GroupedMovie>, ids: map<string, int>): (r: Result<seq<Link>>)
    ensures r.Ok? <==> AllPiecesKnown(movies, ids)
    ensures r.Ok? ==> |r.value| == TotalPieces(movies)
    ensures r.Err? ==> exists j :: 0 <= j < |movies| && r.error.key in Text.Split(movies[j].genre)
                          && r.error.key !in ids
  {
    if |movies| == 0 then Ok([])
    else
      var head :- MovieLinks(movies[0], ids);
      var tail :- CreateMovieGenreTable(movies[1..], ids);
      Ok(head + tail)
  }

  /** The table is built movie by movie: the first movie's rows come first,
      followed by the table of the remaining movies. */
  lemma CreateTableCons(movies: seq<GroupedMovie>, ids: map<string, int>, head: seq<Link>, tail: seq<Link>)
    requires |movies| > 0
    requires MovieLinks(movies[0], ids) == Ok(head)
    requires CreateMovieGenreTable(movies[1..], ids) == Ok(tail)
    ensures CreateMovieGenreTable(movies, ids) == Ok(head + tail)
  {
  }

  /** A failing movie ends the call with its error, once every movie
      before it has succeeded. */
  lemma CreateTableFailsAt(movies: seq<GroupedMovie>, ids: map<string, int>, j: int, e: Error)
    requires 0 <= j < |movies|
    requires forall i :: 0 <= i < j ==> MovieLinks(movies[i], ids).Ok?
    requires MovieLinks(movies[j], ids) == Err(e)
    ensures CreateMovieGenreTable(movies, ids) == Err(e)
    decreases j
  {
    if j > 0 {
      assert forall i :: 0 <= i < j - 1 ==> movies[1..][i] == movies[i + 1];
      CreateTableFailsAt(movies[1..], ids, j - 1, e);
    }
  }
}

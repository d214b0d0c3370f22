/** Collapsing a movie's one-hot genre flags into a genre string and a count
    (`group_genres`, app.py 77-82), together with the `int8` cast the flag
    columns receive when they are read (app.py 59).
 */
module Grouping {
  import Text
  import Genres

  /** A row of `u.item` as the CSV reader produces it: the five leading
      columns and the flag columns, index-aligned with the vocabulary. */
  datatype Movie = Movie(
    movie_id: int,
    title: string,
    release_date: string,
    video_release_date: string,
    imdb_url: string,
    flags: seq<int>)

  /** The same row after `group_genres`: the flags replaced by the
      comma-joined `genre` string and `num_genres`. */
  datatype GroupedMovie = GroupedMovie(
    movie_id: int,
    title: string,
    release_date: string,
    video_release_date: string,
    imdb_url: string,
    genre: string,
    num_genres: nat)

  /** `astype(np.int8)`: the value wraps into -128 .. 127, keeping its
      residue modulo 256, as numpy's integer cast does. */
  function ToInt8(v: int): (r: int)
    ensures -128 <= r < 128
    ensures (v - r) % 256 == 0
  {
    var w := v % 256;
    if w < 128 then w else w - 256
  }

  /** After the cast a flag tests equal to 1 exactly when the parsed value
      is 1 modulo 256; nothing else about the value is checked. */
  lemma ToInt8IsOne(v: int)
    ensures ToInt8(v) == 1 <==> v % 256 == 1
  {
  }

  /** The movie with its flag columns cast to `int8`; the other columns
      are untouched. */
  function CastFlags(m: Movie): (c: Movie)
    ensures c.movie_id == m.movie_id && c.title == m.title && c.imdb_url == m.imdb_url
    ensures c.release_date == m.release_date && c.video_release_date == m.video_release_date
    ensures |c.flags| == |m.flags|
  {
    m.(flags := seq(|m.flags|, i requires 0 <= i < |m.flags| => ToInt8(m.flags[i])))
  }

  /** Every cast flag is an `int8`, and it equals 1 exactly when the parsed
      value is 1 modulo 256. */
  lemma CastFlagsSet(m: Movie)
    ensures forall i :: 0 <= i < |m.flags| ==> -128 <= CastFlags(m).flags[i] < 128
    ensures forall i :: 0 <= i < |m.flags| ==> (CastFlags(m).flags[i] == 1 <==> m.flags[i] % 256 == 1)
  {
    forall i | 0 <= i < |m.flags|
      ensures CastFlags(m).flags[i] == 1 <==> m.flags[i] % 256 == 1
    {
      ToInt8IsOne(m.flags[i]);
    }
  }

  /** `p` lists, in increasing order, exactly the positions of `flags`
      that hold 1: one entry per such flag, none elsewhere. */
  predicate IsSetPositions(flags: seq<int>, p: seq<nat>) {
    && (forall k :: 0 <= k < |p| ==> p[k] < |flags| && flags[p[k]] == 1)
    && (forall i :: 0 <= i < |flags| && flags[i] == 1 ==> i in p)
    && (forall a, b :: 0 <= a < b < |p| ==> p[a] < p[b])
    && |p| == multiset(flags)[1]
  }

  /** The positions of the flags equal to 1 (`x[x==1]`), in increasing
      order. Any value other than 1 counts as not set. */
  function SetPositions(flags: seq<int>): (p: seq<nat>)
    ensures IsSetPositions(flags, p)
  {
    if |flags| == 0 then []
    else
      var n := |flags| - 1;
      var prefix := SetPositions(flags[..n]);
      SetPositionsStep(flags, prefix);
      prefix + (if flags[n] == 1 then [n] else [])
  }

  /** Extending the flags by one value extends their positions by that
      value's position when it is 1. */
  lemma SetPositionsStep(flags: seq<int>, prefix: seq<nat>)
    requires |flags| > 0
    requires IsSetPositions(flags[..|flags| - 1], prefix)
    ensures IsSetPositions(flags, prefix + (if flags[|flags| - 1] == 1 then [|flags| - 1] else []))
  {
    var n := |flags| - 1;
    var init := flags[..n];
    var p := prefix + (if flags[n] == 1 then [n] else []);
    assert forall i :: 0 <= i < n ==> init[i] == flags[i];
    assert multiset(flags) == multiset(init) + multiset{flags[n]} by {
      assert flags == init + [flags[n]];
    }
    forall i | 0 <= i < |flags| && flags[i] == 1
      ensures i in p
    {
      if i < n {
        assert init[i] == 1;
        assert i in prefix;
      }
    }
  }

  /** The genre list of a movie: the vocabulary names whose flag is 1, one
      per set flag, in vocabulary (column) order. */
  function GenreNames(vocab: seq<string>, flags: seq<int>): (names: seq<string>)
    requires |flags| == |vocab|
    ensures |names| == multiset(flags)[1]
    ensures forall k :: 0 <= k < |names| ==> names[k] == vocab[SetPositions(flags)[k]]
    ensures forall i :: 0 <= i < |flags| && flags[i] == 1 ==> vocab[i] in names
    ensures forall k :: 0 <= k < |names| ==> names[k] in vocab
  {
    var p := SetPositions(flags);
    seq(|p|, k requires 0 <= k < |p| => vocab[p[k]])
  }

  /** No genre name contains a comma, so neither does a genre list. */
  lemma GenreNamesCommaFree(vocab: seq<string>, flags: seq<int>)
    requires |flags| == |vocab|
    requires Genres.CommaFree(vocab)
    ensures Genres.CommaFree(GenreNames(vocab, flags))
  {
    var names := GenreNames(vocab, flags);
    forall k | 0 <= k < |names|
      ensures Text.Comma !in names[k]
    {
      assert names[k] == vocab[SetPositions(flags)[k]];
    }
  }

  /** The genre list is empty exactly when no flag equals 1. */
  lemma GenreNamesEmpty(vocab: seq<string>, flags: seq<int>)
    requires |flags| == |vocab|
    ensures |GenreNames(vocab, flags)| == 0 <==> forall i :: 0 <= i < |flags| ==> flags[i] != 1
  {
    if |GenreNames(vocab, flags)| != 0 {
      var i := SetPositions(flags)[0];
      assert flags[i] == 1;
    }
  }

  /** The genre string of line 78 splits back into the genre list whenever
      that list is non-empty and no vocabulary name contains a comma. */
  lemma GenreStringRoundTrip(vocab: seq<string>, flags: seq<int>)
    requires |flags| == |vocab|
    requires Genres.CommaFree(vocab)
    requires |GenreNames(vocab, flags)| >= 1
    ensures Text.Split(Text.Join(GenreNames(vocab, flags))) == GenreNames(vocab, flags)
  {
    GenreNamesCommaFree(vocab, flags);
    Text.SplitJoin(GenreNames(vocab, flags));
  }

  /** `group_genres` on one row: the flags are dropped, the joined genre
      string and the count of set flags are added, every other field is
      kept. */
  function GroupMovie(vocab: seq<string>, m: Movie): (g: GroupedMovie)
    requires |m.flags| == |vocab|
    ensures g.movie_id == m.movie_id && g.title == m.title && g.imdb_url == m.imdb_url
    ensures g.release_date == m.release_date && g.video_release_date == m.video_release_date
    ensures g.num_genres == multiset(m.flags)[1]
    ensures g.num_genres == 0 ==> g.genre == ""
  {
    var names := GenreNames(vocab, m.flags);
    GroupedMovie(m.movie_id, m.title, m.release_date, m.video_release_date, m.imdb_url,
                 Text.Join(names), |names|)
  }

  /** A grouped row with at least one genre holds a genre cell that splits
      back into its genre list. */
  lemma GroupMovieGenreCell(vocab: seq<string>, m: Movie)
    requires |m.flags| == |vocab|
    requires Genres.CommaFree(vocab)
    requires GroupMovie(vocab, m).num_genres >= 1
    ensures Text.Split(GroupMovie(vocab, m).genre) == GenreNames(vocab, m.flags)
  {
    GenreStringRoundTrip(vocab, m.flags);
  }

  /** Every row has as many flag columns as there are vocabulary names. */
  predicate FlagsAligned(vocab: seq<string>, movies: seq<Movie>) {
    forall j :: 0 <= j < |movies| ==> |movies[j].flags| == |vocab|
  }

  /** `group_genres` on the whole frame: row by row, order kept. */
  function GroupGenres(vocab: seq<string>, movies: seq<Movie>): (grouped: seq<GroupedMovie>)
    requires FlagsAligned(vocab, movies)
    ensures |grouped| == |movies|
    ensures forall j :: 0 <= j < |movies| ==> grouped[j].movie_id == movies[j].movie_id
    ensures forall j :: 0 <= j < |movies| ==> grouped[j].num_genres == multiset(movies[j].flags)[1]
  {
    seq(|movies|, j requires 0 <= j < |movies| => GroupMovie(vocab, movies[j]))
  }
}

/** The closed genre vocabulary and the genre catalog built from it.

    `genres_columns` (app.py 11-15) is the ordered list of the 19 genre names;
    its order is also the order of the one-hot flag columns of a movie row.
    `get_tables` turns it into the `genre` table, whose `genre_id` is the
    name's position (app.py 99-100), and into the lookup `genres_2_id`
    (app.py 101) that the junction builder uses.
 */
module Genres {
  import Text
  import opened Keys

  /** `genres_columns`, in the script's order. */
  const GenreColumns: seq<string> := [
    "unknown", "Action", "Adventure", "Animation", "Children", "Comedy", "Crime", "Documentary",
    "Drama", "Fantasy", "Film-Noir", "Horror", "Musical", "Mystery", "Romance", "Sci-Fi",
    "Thriller", "War", "Western"
  ]

  /** A row of the `genre` table: `key` is `genre_id`, `row` is `genre_name`. */
  type GenreRow = Keyed<string>

  predicate Distinct(names: seq<string>) {
    forall a, b :: 0 <= a < b < |names| ==> names[a] != names[b]
  }

  predicate CommaFree(names: seq<string>) {
    forall k :: 0 <= k < |names| ==> Text.Comma !in names[k]
  }

  /** What the reshape relies on of a vocabulary: names pairwise distinct,
      none containing the separator `,`, none empty. */
  predicate WellFormedVocab(vocab: seq<string>) {
    && Distinct(vocab)
    && CommaFree(vocab)
    && forall k :: 0 <= k < |vocab| ==> vocab[k] != ""
  }

  /** `genres_columns` has 19 names and is a well-formed vocabulary. */
  lemma GenreColumnsWellFormed()
    ensures |GenreColumns| == 19
    ensures WellFormedVocab(GenreColumns)
  {
    GenreColumnsDistinct();
    assert CommaFree(GenreColumns);
  }

  /** No two of the 19 names are equal. */
  lemma GenreColumnsDistinct()
    ensures Distinct(GenreColumns)
  {
    forall a, b | 0 <= a < b < |GenreColumns|
      ensures GenreColumns[a] != GenreColumns[b]
    {
      var x, y := GenreColumns[a], GenreColumns[b];
      assert |x| != |y| || x[0] != y[0] || x[1] != y[1] || x[2] != y[2];
    }
  }

  /** The `genre` table: one row per vocabulary name, `genre_id` being the
      name's position. It depends on nothing but the vocabulary. */
  function Catalog(vocab: seq<string>): (genres: seq<GenreRow>)
    ensures |genres| == |vocab|
    ensures forall i :: 0 <= i < |genres| ==> genres[i].key == i && genres[i].row == vocab[i]
  {
    Enumerate(vocab)
  }

  /** The `genre_id` column of a genre table. */
  function Ids(genres: seq<GenreRow>): (ids: seq<int>)
    ensures |ids| == |genres|
  {
    seq(|genres|, i requires 0 <= i < |genres| => genres[i].key as int)
  }

  /** `keys[i]` is not repeated later in `keys`. */
  predicate LastOccurrence(keys: seq<string>, i: int)
    requires 0 <= i < |keys|
  {
    forall j :: i < j < |keys| ==> keys[j] != keys[i]
  }

  /** `d` is what `dict(zip(keys, vals))` builds: every key is present
      and nothing else, and a key that occurs more than once keeps the value
      paired with its last occurrence. */
  ghost predicate IsZipDict(keys: seq<string>, vals: seq<int>, d: map<string, int>)
    requires |keys| == |vals|
  {
    && (forall n :: n in d <==> n in keys)
    && (forall i :: 0 <= i < |keys| && LastOccurrence(keys, i) ==> d[keys[i]] == vals[i])
  }

  /** `dict(zip(keys, vals))`, inserting the pairs left to right. */
  function DictFromZip(keys: seq<string>, vals: seq<int>): (d: map<string, int>)
    requires |keys| == |vals|
    ensures IsZipDict(keys, vals, d)
  {
    if |keys| == 0 then map[]
    else
      var n := |keys| - 1;
      var prefix := DictFromZip(keys[..n], vals[..n]);
      DictFromZipStep(keys, vals, prefix);
      prefix[keys[n] := vals[n]]
  }

  /** Inserting the last pair into the dictionary of the others. */
  lemma DictFromZipStep(keys: seq<string>, vals: seq<int>, prefix: map<string, int>)
    requires |keys| == |vals| > 0
    requires IsZipDict(keys[..|keys| - 1], vals[..|keys| - 1], prefix)
    ensures IsZipDict(keys, vals, prefix[keys[|keys| - 1] := vals[|keys| - 1]])
  {
    var n := |keys| - 1;
    var init := keys[..n];
    var d := prefix[keys[n] := vals[n]];
    assert forall m :: m in d <==> m in keys by {
      assert keys == init + [keys[n]];
    }
    forall i | 0 <= i < |keys| && LastOccurrence(keys, i)
      ensures d[keys[i]] == vals[i]
    {
      if i < n {
        assert init[i] == keys[i] && vals[..n][i] == vals[i];
        assert LastOccurrence(init, i);
        assert keys[i] != keys[n];
      }
    }
  }

  /** `genres_2_id`: genre name to `genre_id`, read off the catalog. */
  function GenreIds(genres: seq<GenreRow>): (ids: map<string, int>)
    ensures forall n :: n in ids <==> n in Rows(genres)
  {
    DictFromZip(Rows(genres), Ids(genres))
  }

  /** Over a vocabulary of distinct names, `genres_2_id` sends the name at
      position i to i. */
  lemma GenreIdsOfPosition(vocab: seq<string>)
    requires Distinct(vocab)
    ensures forall i :: 0 <= i < |vocab| ==>
              vocab[i] in GenreIds(Catalog(vocab)) && GenreIds(Catalog(vocab))[vocab[i]] == i
  {
    var genres := Catalog(vocab);
    var names := Rows(genres);
    var ids := GenreIds(genres);
    assert names == vocab;
    assert IsZipDict(names, Ids(genres), ids);
    forall i | 0 <= i < |vocab|
      ensures vocab[i] in ids && ids[vocab[i]] == i
    {
      assert LastOccurrence(names, i);
      assert Ids(genres)[i] == i;
    }
  }

  /** Over a vocabulary of distinct names, `genres_2_id` is a bijection from
      the vocabulary onto 0 .. n-1 that inverts the catalog: the name at
      position i maps to i, and the id of a name indexes that name. */
  lemma GenreIdsBijection(vocab: seq<string>)
    requires Distinct(vocab)
    ensures forall n :: n in GenreIds(Catalog(vocab)) <==> n in vocab
    ensures forall i :: 0 <= i < |vocab| ==> GenreIds(Catalog(vocab))[vocab[i]] == i
    ensures forall n :: n in GenreIds(Catalog(vocab)) ==>
              0 <= GenreIds(Catalog(vocab))[n] < |vocab| && vocab[GenreIds(Catalog(vocab))[n]] == n
  {
    var ids := GenreIds(Catalog(vocab));
    assert Rows(Catalog(vocab)) == vocab;
    GenreIdsOfPosition(vocab);
    forall n | n in ids
      ensures 0 <= ids[n] < |vocab| && vocab[ids[n]] == n
    {
      var i :| 0 <= i < |vocab| && vocab[i] == n;
    }
  }
}

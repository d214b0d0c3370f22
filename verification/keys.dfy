/** Surrogate keys taken from row positions.

    The script gives three tables a key that is simply the pandas row index
    of a freshly built frame: the genre catalog (`reset_index`, app.py
    99-100), the movie-genre junction table (`movie_genre_id`, app.py 104)
    and the ratings (`rating_id`, app.py 106). All three are the same
    operation, `Enumerate`.
 */
module Keys {

  /** A table row together with its surrogate key. */
  datatype Keyed<T> = Keyed(key: nat, row: T)

  /** Pairs each row with `start` plus its position, walking the rows in
      order the way a counter-driven loop would. */
  function EnumerateFrom<T>(rows: seq<T>, start: nat): (r: seq<Keyed<T>>)
    ensures |r| == |rows|
    ensures forall i :: 0 <= i < |r| ==> r[i].key == start + i && r[i].row == rows[i]
  {
    if |rows| == 0 then []
    else [Keyed(start, rows[0])] + EnumerateFrom(rows[1..], start + 1)
  }

  /** The keyed table of a default pandas RangeIndex: keys 0, 1, 2, ... */
  function Enumerate<T>(rows: seq<T>): (r: seq<Keyed<T>>)
    ensures |r| == |rows|
    ensures forall i :: 0 <= i < |r| ==> r[i].key == i && r[i].row == rows[i]
  {
    EnumerateFrom(rows, 0)
  }

  /** The rows of a keyed table, keys dropped. */
  function Rows<T>(keyed: seq<Keyed<T>>): (rows: seq<T>)
    ensures |rows| == |keyed|
    ensures forall i :: 0 <= i < |rows| ==> rows[i] == keyed[i].row
  {
    if |keyed| == 0 then [] else [keyed[0].row] + Rows(keyed[1..])
  }

  /** The set of keys used by a keyed table. */
  function KeySet<T>(keyed: seq<Keyed<T>>): set<nat>
  {
    set i | 0 <= i < |keyed| :: keyed[i].key
  }

  /** Keying changes no row and drops or reorders none: removing the keys
      gives back the table it was built from. */
  lemma EnumerateKeepsRows<T>(rows: seq<T>)
    ensures Rows(Enumerate(rows)) == rows
  {
  }

  /** The keys of `Enumerate` are exactly 0 .. n-1: no gap, no duplicate,
      and the key order is the row order. */
  lemma EnumerateKeysGapFree<T>(rows: seq<T>)
    ensures forall k: nat :: k in KeySet(Enumerate(rows)) <==> k < |rows|
    ensures forall a, b :: 0 <= a < b < |rows| ==> Enumerate(rows)[a].key < Enumerate(rows)[b].key
  {
    var r := Enumerate(rows);
    forall i: nat | i < |rows|
      ensures i in KeySet(r)
    {
      assert r[i].key == i;
    }
  }
}

/** Python's `','.join(parts)` and `s.split(',')`, the two string operations
    the reshape uses to pack a movie's genre names into one cell and to take
    them apart again (app.py lines 78 and 88).
 */
module Text {

  const Comma: char := ','

  /** `','.join(parts)`: the empty list joins to the empty string. */
  function Join(parts: seq<string>): (s: string)
    ensures |parts| == 0 ==> s == ""
    ensures |parts| >= 1 ==> parts[0] <= s
  {
    if |parts| == 0 then ""
    else if |parts| == 1 then parts[0]
    else parts[0] + [Comma] + Join(parts[1..])
  }

  /** Position of the first comma of `s`. */
  function FirstComma(s: string): (i: nat)
    requires Comma in s
    ensures i < |s| && s[i] == Comma
    ensures Comma !in s[..i]
  {
    if s[0] == Comma then 0
    else
      assert Comma in s[1..] by {
        var k :| 0 <= k < |s| && s[k] == Comma;
        assert s[1..][k - 1] == Comma;
      }
      var j := FirstComma(s[1..]);
      assert s[..j + 1] == [s[0]] + s[1..][..j];
      j + 1
  }

  /** `s.split(',')`: the pieces between commas, left to right. A string
      without a comma (the empty string included) is one piece, so the
      result is never empty. */
  function Split(s: string): (parts: seq<string>)
    ensures |parts| >= 1
    ensures forall k :: 0 <= k < |parts| ==> Comma !in parts[k]
    decreases |s|
  {
    if Comma !in s then [s]
    else
      var i := FirstComma(s);
      [s[..i]] + Split(s[i + 1..])
  }

  /** Joining the pieces of a split gives back the string: no character is
      lost or added by `split`. */
  lemma {:induction false} JoinSplit(s: string)
    ensures Join(Split(s)) == s
    decreases |s|
  {
    if Comma in s {
      var i := FirstComma(s);
      var rest := Split(s[i + 1..]);
      JoinSplit(s[i + 1..]);
      assert Split(s) == [s[..i]] + rest;
      assert (Split(s))[1..] == rest;
      assert s == s[..i] + [Comma] + s[i + 1..];
    }
  }

  /** Splitting a join gives back the pieces, provided there is at least one
      piece and no piece contains the separator. The empty list is the one
      comma-free list that does not come back: it joins to "" and "" splits
      to [""]. */
  lemma {:induction false} SplitJoin(parts: seq<string>)
    requires |parts| >= 1
    requires forall k :: 0 <= k < |parts| ==> Comma !in parts[k]
    ensures Split(Join(parts)) == parts
  {
    if |parts| == 1 {
      assert Join(parts) == parts[0];
    } else {
      var head := parts[0];
      var tail := parts[1..];
      var s := Join(parts);
      assert s == head + [Comma] + Join(tail);
      assert s[|head|] == Comma;
      assert s[..|head|] == head;
      assert Comma in s;
      var i := FirstComma(s);
      assert i == |head|;
      assert s[i + 1..] == Join(tail);
      SplitJoin(tail);
      assert parts == [head] + tail;
    }
  }

  /** The one string that `Join` produces from an empty list splits into a
      single empty piece, not into no pieces. */
  lemma EmptyJoinSplitsToEmptyPiece()
    ensures Split(Join([])) == [""]
  {
  }
}

/** The row order `ORDER BY <score> DESC, <id> ASC` that both the influence
    aggregate (likes_sum, user_id) and the top-answers query (likes_count,
    id) ask MySQL for, with a reference sort that produces it. */
module Ordering {

  /** A row reduced to the two columns it is ordered by. */
  datatype Scored = Scored(score: int, id: int)

  /** `x` may come before `y`: a larger score first, then a smaller id. */
  predicate Precedes(x: Scored, y: Scored) {
    x.score > y.score || (x.score == y.score && x.id <= y.id)
  }

  predicate SortedDesc(s: seq<Scored>) {
    forall i, j :: 0 <= i < j < |s| ==> Precedes(s[i], s[j])
  }

  /** Insert `x` into an ordered sequence, before the first row it precedes. */
  function Insert(x: Scored, s: seq<Scored>): (r: seq<Scored>)
    requires SortedDesc(s)
    ensures SortedDesc(r)
    ensures multiset(r) == multiset(s) + multiset{x}
  {
    if s == [] then [x]
    else if Precedes(x, s[0]) then [x] + s
    else
      var rest := Insert(x, s[1..]);
      assert s == [s[0]] + s[1..];
      HeadPrecedesAll(s[0], x, s[1..], rest);
      [s[0]] + rest
  }

  lemma HeadPrecedesAll(h: Scored, x: Scored, tail: seq<Scored>, rest: seq<Scored>)
    requires forall j :: 0 <= j < |tail| ==> Precedes(h, tail[j])
    requires Precedes(h, x)
    requires multiset(rest) == multiset(tail) + multiset{x}
    ensures forall j :: 0 <= j < |rest| ==> Precedes(h, rest[j])
  {
    forall j | 0 <= j < |rest| ensures Precedes(h, rest[j]) {
      assert rest[j] in multiset(rest);
      if rest[j] != x {
        assert rest[j] in multiset(tail);
        var k :| 0 <= k < |tail| && tail[k] == rest[j];
      }
    }
  }

  /** The rows in the order the query returns them. */
  function Sort(s: seq<Scored>): (r: seq<Scored>)
    ensures SortedDesc(r)
    ensures multiset(r) == multiset(s)
    ensures |r| == |s|
  {
    if s == [] then []
    else
      assert s == [s[0]] + s[1..];
      Insert(s[0], Sort(s[1..]))
  }

  /** `LIMIT n`: the first `n` rows, or all of them. */
  function Take<T>(s: seq<T>, n: int): (r: seq<T>)
    ensures |r| == if n <= 0 then 0 else if n < |s| then n else |s|
    ensures forall i :: 0 <= i < |r| ==> r[i] == s[i]
  {
    if n <= 0 then [] else if n < |s| then s[..n] else s
  }

  /** A prefix of an ordered sequence is ordered. */
  lemma TakeSorted(s: seq<Scored>, n: int)
    requires SortedDesc(s)
    ensures SortedDesc(Take(s, n))
  {
  }

  /** The order is total (two rows are tied only when equal), so the rows
      of a query have exactly one ordered arrangement. */
  lemma {:induction false} SortedUnique(s: seq<Scored>, t: seq<Scored>)
    requires SortedDesc(s) && SortedDesc(t) && multiset(s) == multiset(t)
    ensures s == t
    decreases |s|
  {
    assert |s| == |multiset(s)| == |multiset(t)| == |t|;
    if s != [] {
      HeadsEqual(s, t);
      DropHead(s);
      DropHead(t);
      SortedUnique(s[1..], t[1..]);
      assert s == [s[0]] + s[1..] && t == [t[0]] + t[1..];
    }
  }

  /** Two ordered arrangements of the same rows start with the same row:
      each head precedes the other, and the order is antisymmetric. */
  lemma HeadsEqual(s: seq<Scored>, t: seq<Scored>)
    requires SortedDesc(s) && SortedDesc(t) && multiset(s) == multiset(t) && s != [] && t != []
    ensures s[0] == t[0]
  {
    assert s[0] in multiset(t) && t[0] in multiset(s);
    var ix :| 0 <= ix < |t| && t[ix] == s[0];
    var iy :| 0 <= iy < |s| && s[iy] == t[0];
    assert Precedes(t[0], s[0]) && Precedes(s[0], t[0]);
  }

  /** Dropping the head keeps the order and removes one copy of the head. */
  lemma DropHead(s: seq<Scored>)
    requires SortedDesc(s) && s != []
    ensures SortedDesc(s[1..])
    ensures multiset(s[1..]) == multiset(s) - multiset{s[0]}
  {
    assert s == [s[0]] + s[1..];
    assert multiset(s) == multiset{s[0]} + multiset(s[1..]);
  }
}

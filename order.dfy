/**
 * The order in which the reservation list is handed out: newest first by
 * creation time. The service sorts its own list in place with a comparator
 * that subtracts creation times; the sort here is insertion sort on values.
 */
module ReservationOrder {
  import opened Types

  /** Creation times never increase along the list. */
  ghost predicate NewestFirstOrdered(rs: seq<Reservation>)
  {
    forall i, j :: 0 <= i < j < |rs| ==> rs[i].createdAt >= rs[j].createdAt
  }

  /** Puts `r` in front of the first element that is not newer than it. */
  function Insert(r: Reservation, sorted: seq<Reservation>): (out: seq<Reservation>)
    ensures multiset(out) == multiset(sorted) + multiset{r}
    ensures |out| == |sorted| + 1
    ensures out[0] == r || (sorted != [] && out[0] == sorted[0])
  {
    if sorted == [] || r.createdAt >= sorted[0].createdAt then
      [r] + sorted
    else
      assert sorted == [sorted[0]] + sorted[1..];
      [sorted[0]] + Insert(r, sorted[1..])
  }

  /** Inserting into a newest-first list keeps it newest first. */
  lemma {:induction false} InsertOrdered(r: Reservation, sorted: seq<Reservation>)
    requires NewestFirstOrdered(sorted)
    ensures NewestFirstOrdered(Insert(r, sorted))
  {
    if sorted != [] && r.createdAt < sorted[0].createdAt {
      var rest := Insert(r, sorted[1..]);
      InsertOrdered(r, sorted[1..]);
      var out := [sorted[0]] + rest;
      assert out == Insert(r, sorted);
      forall i, j | 0 <= i < j < |out|
        ensures out[i].createdAt >= out[j].createdAt
      {
        if i == 0 {
          assert rest[0].createdAt <= sorted[0].createdAt;
          assert rest[0].createdAt >= rest[j - 1].createdAt || j - 1 == 0;
        } else {
          assert out[i] == rest[i - 1] && out[j] == rest[j - 1];
        }
      }
    }
  }

  /** The list as the service returns it: the same reservations, newest first. */
  function NewestFirst(rs: seq<Reservation>): (out: seq<Reservation>)
    ensures multiset(out) == multiset(rs)
    ensures |out| == |rs|
    ensures NewestFirstOrdered(out)
  {
    if rs == [] then []
    else
      assert rs == [rs[0]] + rs[1..];
      var rest := NewestFirst(rs[1..]);
      InsertOrdered(rs[0], rest);
      Insert(rs[0], rest)
  }

  /** The reservations created at time `c`, in list order. */
  function CreatedAt(rs: seq<Reservation>, c: nat): seq<Reservation>
  {
    if rs == [] then [] else (if rs[0].createdAt == c then [rs[0]] else []) + CreatedAt(rs[1..], c)
  }

  /** Inserting puts the new reservation in front of every older-or-equal one, so it leads its own creation time. */
  lemma {:induction false} InsertStable(r: Reservation, sorted: seq<Reservation>, c: nat)
    ensures CreatedAt(Insert(r, sorted), c) == (if r.createdAt == c then [r] else []) + CreatedAt(sorted, c)
  {
    if sorted == [] || r.createdAt >= sorted[0].createdAt {
      assert ([r] + sorted)[1..] == sorted;
    } else {
      var rest := Insert(r, sorted[1..]);
      InsertStable(r, sorted[1..], c);
      assert ([sorted[0]] + rest)[1..] == rest;
    }
  }

  /**
   * The sort is stable: the reservations that share a creation time come
   * out in the order they had in the list.
   */
  lemma {:induction false} NewestFirstStable(rs: seq<Reservation>, c: nat)
    ensures CreatedAt(NewestFirst(rs), c) == CreatedAt(rs, c)
  {
    if rs != [] {
      NewestFirstStable(rs[1..], c);
      InsertStable(rs[0], NewestFirst(rs[1..]), c);
    }
  }

  /** Sorting keeps exactly the reservations there were: none lost, none added. */
  lemma NewestFirstSameMembers(rs: seq<Reservation>, r: Reservation)
    ensures r in NewestFirst(rs) <==> r in rs
  {
    var out := NewestFirst(rs);
    assert r in out <==> r in multiset(out);
    assert r in rs <==> r in multiset(rs);
  }
}

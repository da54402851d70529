/**
 * The document store every concept is built on, seen as an ordered sequence of
 * records. A query is a value of some query type Q together with a named
 * matcher `m(q, row)`; `readMany` keeps every matching row, `readOne` yields the
 * first match, `popOne` removes the first match and `deleteMany` removes every
 * match. Object ids are natural numbers handed out by a counter.
 */
module Store {

  type Id = nat

  datatype Option<+T> = None | Some(value: T)

  /** The three error classes the concepts throw. */
  datatype Error = BadValues | NotFound | NotAllowed

  datatype Result<+T> = Ok(value: T) | Err(error: Error)

  datatype Outcome = Pass | Fail(error: Error)

  /** Every row of `rows` that matches `q`, in store order (`readMany`). */
  function Select<Q, T(!new)>(rows: seq<T>, q: Q, m: (Q, T) -> bool): (r: seq<T>)
    ensures |r| <= |rows|
    ensures forall x :: x in r <==> x in rows && m(q, x)
  {
    if rows == [] then []
    else if m(q, rows[0]) then [rows[0]] + Select(rows[1..], q, m)
    else Select(rows[1..], q, m)
  }

  /** Every row of `rows` that does not match `q`, in store order (`deleteMany`). */
  function Reject<Q, T(!new)>(rows: seq<T>, q: Q, m: (Q, T) -> bool): (r: seq<T>)
    ensures |r| <= |rows|
    ensures forall x :: x in r <==> x in rows && !m(q, x)
  {
    if rows == [] then []
    else if m(q, rows[0]) then Reject(rows[1..], q, m)
    else [rows[0]] + Reject(rows[1..], q, m)
  }

  /** The position of the first row that matches `q`, if any. */
  function FirstMatch<Q, T>(rows: seq<T>, q: Q, m: (Q, T) -> bool): (r: Option<nat>)
    ensures r.None? <==> forall i :: 0 <= i < |rows| ==> !m(q, rows[i])
    ensures r.Some? ==> r.value < |rows| && m(q, rows[r.value])
    ensures r.Some? ==> forall j :: 0 <= j < r.value ==> !m(q, rows[j])
  {
    if rows == [] then None
    else if m(q, rows[0]) then Some(0)
    else match FirstMatch(rows[1..], q, m)
      case None => None
      case Some(k) => Some(k + 1)
  }

  /** The first row that matches `q` (`readOne`). */
  function ReadOne<Q, T>(rows: seq<T>, q: Q, m: (Q, T) -> bool): (r: Option<T>)
    ensures r.None? <==> forall x :: x in rows ==> !m(q, x)
    ensures r.Some? ==> r.value in rows && m(q, r.value)
  {
    match FirstMatch(rows, q, m)
    case None => None
    case Some(k) => Some(rows[k])
  }

  /** `rows` without the row at position `i`. */
  function RemoveAt<T>(rows: seq<T>, i: nat): (r: seq<T>)
    requires i < |rows|
    ensures |r| == |rows| - 1
    ensures forall j :: 0 <= j < i ==> r[j] == rows[j]
    ensures forall j :: i <= j < |r| ==> r[j] == rows[j + 1]
  {
    rows[..i] + rows[i + 1..]
  }

  /** Removing one row keeps every other row and brings in none. */
  lemma RemoveAtKeeps<T>(rows: seq<T>, i: nat)
    requires i < |rows|
    ensures forall x :: x in rows && x != rows[i] ==> x in RemoveAt(rows, i)
    ensures forall x :: x in RemoveAt(rows, i) ==> x in rows
  {
    forall x | x in rows && x != rows[i] ensures x in RemoveAt(rows, i) {
      var j :| 0 <= j < |rows| && rows[j] == x;
      if j < i {
        assert RemoveAt(rows, i)[j] == x;
      } else {
        assert RemoveAt(rows, i)[j - 1] == x;
      }
    }
  }

  /** `rows` without its first match of `q`, if any (the write half of `popOne` and `deleteOne`). */
  function RemoveFirst<Q, T>(rows: seq<T>, q: Q, m: (Q, T) -> bool): (r: seq<T>)
    ensures FirstMatch(rows, q, m).None? <==> r == rows
    ensures |r| == |rows| - (if FirstMatch(rows, q, m).Some? then 1 else 0)
  {
    match FirstMatch(rows, q, m)
    case None => rows
    case Some(k) => RemoveAt(rows, k)
  }

  /** Putting the first match back at its index into what `RemoveFirst` leaves gives the rows back. */
  lemma RemoveFirstReinserts<Q, T>(rows: seq<T>, q: Q, m: (Q, T) -> bool)
    requires FirstMatch(rows, q, m).Some?
    ensures var k := FirstMatch(rows, q, m).value; var r := RemoveFirst(rows, q, m);
      m(q, rows[k]) && (forall i :: 0 <= i < k ==> !m(q, rows[i])) &&
      rows == r[..k] + [rows[k]] + r[k..]
  {
    var k := FirstMatch(rows, q, m).value;
    var r := RemoveFirst(rows, q, m);
    assert r[..k] == rows[..k] && r[k..] == rows[k + 1..];
    assert rows == rows[..k] + [rows[k]] + rows[k + 1..];
  }

  /** How many rows match `q`. */
  function Count<Q, T(!new)>(rows: seq<T>, q: Q, m: (Q, T) -> bool): nat
  {
    |Select(rows, q, m)|
  }

  /** Appending a row extends the selection by that row exactly when it matches. */
  lemma {:induction false} SelectAppend<Q, T(!new)>(rows: seq<T>, x: T, q: Q, m: (Q, T) -> bool)
    ensures Select(rows + [x], q, m) == Select(rows, q, m) + (if m(q, x) then [x] else [])
  {
    if rows != [] {
      assert (rows + [x])[1..] == rows[1..] + [x];
      SelectAppend(rows[1..], x, q, m);
    }
  }

  /** Nothing is selected when no row matches. */
  lemma {:induction false} SelectNone<Q, T(!new)>(rows: seq<T>, q: Q, m: (Q, T) -> bool)
    requires forall x :: x in rows ==> !m(q, x)
    ensures Select(rows, q, m) == []
  {
    if rows != [] {
      assert forall x :: x in rows[1..] ==> x in rows;
      SelectNone(rows[1..], q, m);
    }
  }

  /** Selecting from two runs of rows selects from each in turn. */
  lemma {:induction false} SelectConcat<Q, T(!new)>(a: seq<T>, b: seq<T>, q: Q, m: (Q, T) -> bool)
    ensures Select(a + b, q, m) == Select(a, q, m) + Select(b, q, m)
  {
    if a != [] {
      assert (a + b)[0] == a[0] && (a + b)[1..] == a[1..] + b;
      SelectConcat(a[1..], b, q, m);
      var s1, s2 := Select(a[1..], q, m), Select(b, q, m);
      assert ([a[0]] + s1) + s2 == [a[0]] + (s1 + s2);
    } else {
      assert a + b == b;
    }
  }

  /** Deleting rows that no row matching `q2` can be leaves the selection by `q2` as it was. */
  lemma {:induction false} SelectReject<Q1, Q2, T(!new)>(rows: seq<T>, q1: Q1, m1: (Q1, T) -> bool, q2: Q2, m2: (Q2, T) -> bool)
    requires forall x :: x in rows && m2(q2, x) ==> !m1(q1, x)
    ensures Select(Reject(rows, q1, m1), q2, m2) == Select(rows, q2, m2)
  {
    if rows != [] {
      assert forall x :: x in rows[1..] ==> x in rows;
      SelectReject(rows[1..], q1, m1, q2, m2);
    }
  }

  /**
   * Removing one row that matches `q` lowers the count of matches by one; removing
   * one that does not leaves it unchanged.
   */
  lemma SelectRemoveAt<Q, T(!new)>(rows: seq<T>, i: nat, q: Q, m: (Q, T) -> bool)
    requires i < |rows|
    ensures Count(RemoveAt(rows, i), q, m) + (if m(q, rows[i]) then 1 else 0) == Count(rows, q, m)
  {
    assert rows == rows[..i] + [rows[i]] + rows[i + 1..];
    SelectConcat(rows[..i] + [rows[i]], rows[i + 1..], q, m);
    SelectConcat(rows[..i], [rows[i]], q, m);
    SelectConcat(rows[..i], rows[i + 1..], q, m);
  }

  /**
   * A row appended after rows of which none matches is the first match, and
   * removing the first match then gives the rows back: `popOne` undoes `createOne`.
   */
  lemma PopAfterAppend<Q, T>(rows: seq<T>, x: T, q: Q, m: (Q, T) -> bool)
    requires forall y :: y in rows ==> !m(q, y)
    requires m(q, x)
    ensures FirstMatch(rows + [x], q, m) == Some(|rows|)
    ensures RemoveFirst(rows + [x], q, m) == rows
  {
    assert (rows + [x])[|rows|] == x;
    assert forall i :: 0 <= i < |rows| ==> (rows + [x])[i] == rows[i];
    assert (rows + [x])[..|rows|] == rows;
  }

  /** No two rows of `rows` share a key. */
  ghost predicate DistinctBy<T, K>(rows: seq<T>, key: T -> K)
  {
    forall i, j :: 0 <= i < j < |rows| ==> key(rows[i]) != key(rows[j])
  }

  /** With distinct keys, two positions holding the same key are one position. */
  lemma DistinctKeyAt<T, K>(rows: seq<T>, key: T -> K, i: nat, j: nat)
    requires DistinctBy(rows, key) && i < |rows| && j < |rows| && key(rows[i]) == key(rows[j])
    ensures i == j
  {
  }

  /** Appending a row whose key is new keeps keys distinct. */
  lemma DistinctAppend<T, K>(rows: seq<T>, x: T, key: T -> K)
    requires DistinctBy(rows, key)
    requires forall i :: 0 <= i < |rows| ==> key(rows[i]) != key(x)
    ensures DistinctBy(rows + [x], key)
  {
  }

  /** Removing a row keeps keys distinct. */
  lemma DistinctRemoveAt<T, K>(rows: seq<T>, i: nat, key: T -> K)
    requires i < |rows|
    requires DistinctBy(rows, key)
    ensures DistinctBy(RemoveAt(rows, i), key)
  {
    var r := RemoveAt(rows, i);
    forall a, b | 0 <= a < b < |r| ensures key(r[a]) != key(r[b]) {
      var a' := if a < i then a else a + 1;
      var b' := if b < i then b else b + 1;
      assert r[a] == rows[a'] && r[b] == rows[b'];
    }
  }

  /** Deleting every match keeps keys distinct. */
  lemma {:induction false} DistinctReject<Q, T(!new), K>(rows: seq<T>, q: Q, m: (Q, T) -> bool, key: T -> K)
    requires DistinctBy(rows, key)
    ensures DistinctBy(Reject(rows, q, m), key)
  {
    if rows != [] {
      DistinctReject(rows[1..], q, m, key);
      var tail := Reject(rows[1..], q, m);
      if !m(q, rows[0]) {
        forall j | 0 <= j < |tail| ensures key(rows[0]) != key(tail[j]) {
          assert tail[j] in rows[1..];
          var k :| 0 <= k < |rows[1..]| && rows[1..][k] == tail[j];
          assert rows[k + 1] == tail[j];
        }
      }
    }
  }

  // ---------------------------------------------------------------------------
  // readMany(..., { sort: { dateUpdated: -1 } })

  /** `rows` is ordered newest first by `stamp`: each row is at least as new as the next. */
  ghost predicate NewestFirst<T>(rows: seq<T>, stamp: T -> nat)
  {
    forall i :: 0 < i < |rows| ==> stamp(rows[i - 1]) >= stamp(rows[i])
  }

  /** In a newest-first sequence no row is older than any row after it. */
  lemma {:induction false} NewestFirstOrdered<T>(rows: seq<T>, stamp: T -> nat, i: nat, j: nat)
    requires NewestFirst(rows, stamp) && i <= j < |rows|
    ensures stamp(rows[i]) >= stamp(rows[j])
    decreases j - i
  {
    if i < j {
      NewestFirstOrdered(rows, stamp, i + 1, j);
    }
  }

  /** Puts `x` into the newest-first sequence `rows`, after every strictly newer row and before the rest. */
  function InsertByStamp<T>(x: T, rows: seq<T>, stamp: T -> nat): (r: seq<T>)
    ensures multiset(r) == multiset(rows) + multiset{x}
    ensures |r| == |rows| + 1
  {
    if rows == [] then [x]
    else if stamp(rows[0]) > stamp(x) then
      assert rows == [rows[0]] + rows[1..];
      [rows[0]] + InsertByStamp(x, rows[1..], stamp)
    else [x] + rows
  }

  /** The sort the store applies for `{ dateUpdated: -1 }`; rows with equal stamps keep store order. */
  function SortNewestFirst<T>(rows: seq<T>, stamp: T -> nat): (r: seq<T>)
    ensures multiset(r) == multiset(rows)
    ensures |r| == |rows|
  {
    if rows == [] then []
    else
      assert rows == [rows[0]] + rows[1..];
      InsertByStamp(rows[0], SortNewestFirst(rows[1..], stamp), stamp)
  }

  /** A row at least as new as the head of a newest-first sequence can go in front of it. */
  lemma NewestFirstCons<T>(h: T, t: seq<T>, stamp: T -> nat)
    requires NewestFirst(t, stamp) && (t != [] ==> stamp(h) >= stamp(t[0]))
    ensures NewestFirst([h] + t, stamp)
  {
    var r := [h] + t;
    forall i | 1 < i < |r| ensures stamp(r[i - 1]) >= stamp(r[i]) {
      assert r[i - 1] == t[i - 2] && r[i] == t[i - 1];
    }
  }

  /** Dropping the head keeps a sequence newest first. */
  lemma NewestFirstTail<T>(rows: seq<T>, stamp: T -> nat)
    requires rows != [] && NewestFirst(rows, stamp)
    ensures NewestFirst(rows[1..], stamp)
  {
    var rest := rows[1..];
    forall i | 0 < i < |rest| ensures stamp(rest[i - 1]) >= stamp(rest[i]) {
      assert rest[i - 1] == rows[i] && rest[i] == rows[i + 1];
    }
  }

  lemma {:induction false} InsertByStampSorted<T>(x: T, rows: seq<T>, stamp: T -> nat)
    requires NewestFirst(rows, stamp)
    ensures NewestFirst(InsertByStamp(x, rows, stamp), stamp)
    ensures InsertByStamp(x, rows, stamp) != [] && (rows != [] ==>
      InsertByStamp(x, rows, stamp)[0] == (if stamp(rows[0]) > stamp(x) then rows[0] else x))
  {
    if rows == [] {
    } else if stamp(rows[0]) > stamp(x) {
      var rest := rows[1..];
      NewestFirstTail(rows, stamp);
      InsertByStampSorted(x, rest, stamp);
      var tail := InsertByStamp(x, rest, stamp);
      assert rest != [] ==> rest[0] == rows[1];
      NewestFirstCons(rows[0], tail, stamp);
    } else {
      NewestFirstCons(x, rows, stamp);
    }
  }

  /** The sorted sequence is newest first and holds exactly the rows it was given. */
  lemma {:induction false} SortNewestFirstCorrect<T>(rows: seq<T>, stamp: T -> nat)
    ensures NewestFirst(SortNewestFirst(rows, stamp), stamp)
    ensures multiset(SortNewestFirst(rows, stamp)) == multiset(rows)
  {
    if rows != [] {
      SortNewestFirstCorrect(rows[1..], stamp);
      InsertByStampSorted(rows[0], SortNewestFirst(rows[1..], stamp), stamp);
    }
  }

  /** A row at least as new as the head goes in front, so a tie keeps the inserted row first. */
  lemma InsertInFront<T>(x: T, rows: seq<T>, stamp: T -> nat)
    requires rows == [] || stamp(rows[0]) <= stamp(x)
    ensures InsertByStamp(x, rows, stamp) == [x] + rows
  {
  }

  /** Rows that all carry the same stamp come out of the sort in store order. */
  lemma {:induction false} SortEqualStampsKeepsOrder<T>(rows: seq<T>, stamp: T -> nat, c: nat)
    requires forall i :: 0 <= i < |rows| ==> stamp(rows[i]) == c
    ensures SortNewestFirst(rows, stamp) == rows
  {
    if rows != [] {
      var tail := rows[1..];
      assert forall i :: 0 <= i < |tail| ==> tail[i] == rows[i + 1];
      SortEqualStampsKeepsOrder(tail, stamp, c);
      assert tail != [] ==> stamp(tail[0]) == stamp(rows[0]);
      InsertInFront(rows[0], tail, stamp);
      assert rows == [rows[0]] + tail;
    }
  }

  /** Sorting keeps exactly the rows it was given. */
  lemma SortedMembers<T>(rows: seq<T>, stamp: T -> nat, x: T)
    ensures x in SortNewestFirst(rows, stamp) <==> x in rows
  {
    var s := SortNewestFirst(rows, stamp);
    assert x in s <==> x in multiset(s);
    assert x in rows <==> x in multiset(rows);
  }
}

/**
 * Canvases (server/concepts/canvas.ts). A canvas row pins a post to a user's
 * canvas. `addPost` refuses a (user, post) pair that is already there, so pairs
 * are never stored twice; `removePost` refuses a pair that is not there, with
 * NotAllowed rather than NotFound.
 */
module Canvases {
  import opened Store

  /** One row of the `canvas` collection. */
  datatype CanvasDoc = CanvasDoc(id: Id, user: Id, post: Id)

  /** The filter `{ user, post }`. */
  predicate PairIs(key: (Id, Id), c: CanvasDoc) { c.user == key.0 && c.post == key.1 }

  /** The filter `{ _id: id }`. */
  predicate CanvasIdIs(id: Id, c: CanvasDoc) { c.id == id }

  /** The filter `{ user }`. */
  predicate UserIs(user: Id, c: CanvasDoc) { c.user == user }

  function PairKey(c: CanvasDoc): (Id, Id) { (c.user, c.post) }

  /** A `Partial<CanvasDoc>` filter: each present field must be equal, absent fields match anything. */
  datatype CanvasFilter = CanvasFilter(id: Option<Id>, user: Option<Id>, post: Option<Id>)

  predicate FilterMatches(f: CanvasFilter, c: CanvasDoc)
  {
    && (f.id.Some? ==> c.id == f.id.value)
    && (f.user.Some? ==> c.user == f.user.value)
    && (f.post.Some? ==> c.post == f.post.value)
  }

  /** Ids are below the counter, and no (user, post) pair is stored twice. */
  ghost predicate Wf(rows: seq<CanvasDoc>, nextId: Id)
  {
    && (forall c :: c in rows ==> c.id < nextId)
    && DistinctBy(rows, PairKey)
  }

  // ---------------------------------------------------------------------------
  // Queries

  /** `userHasPost`: some row pins `post` to `user`'s canvas. */
  function UserHasPost(rows: seq<CanvasDoc>, user: Id, post: Id): (r: bool)
    ensures r <==> exists c :: c in rows && c.user == user && c.post == post
  {
    ReadOne(rows, (user, post), PairIs).Some?
  }

  /** `getCanvas`: the rows of user `id`, or every row when no id is given. */
  function GetCanvas(rows: seq<CanvasDoc>, id: Option<Id>): (r: seq<CanvasDoc>)
    ensures id.None? ==> r == rows
    ensures id.Some? ==> forall c :: c in r <==> c in rows && c.user == id.value
  {
    if id.Some? then Select(rows, id.value, UserIs) else rows
  }

  // ---------------------------------------------------------------------------
  // What the writes do to the rows

  /** The row `addPost` inserts. */
  function NewPin(id: Id, user: Id, post: Id): CanvasDoc
  {
    CanvasDoc(id, user, post)
  }

  /** A pair that is not yet there keeps the collection free of repeated pairs. */
  lemma AddKeepsWf(rows: seq<CanvasDoc>, nextId: Id, user: Id, post: Id)
    requires Wf(rows, nextId)
    requires !UserHasPost(rows, user, post)
    ensures Wf(rows + [NewPin(nextId, user, post)], nextId + 1)
    ensures ReadOne(rows + [NewPin(nextId, user, post)], nextId, CanvasIdIs) == Some(NewPin(nextId, user, post))
  {
    var x := NewPin(nextId, user, post);
    forall i | 0 <= i < |rows| ensures PairKey(rows[i]) != PairKey(x) {
      assert rows[i] in rows;
    }
    DistinctAppend(rows, x, PairKey);
    assert (rows + [x])[|rows|] == x;
    assert forall i :: 0 <= i < |rows| ==> (rows + [x])[i] == rows[i];
  }

  /** `removePost` after a successful `addPost` of the same pair gives back the collection as it was. */
  lemma AddThenRemove(rows: seq<CanvasDoc>, nextId: Id, user: Id, post: Id)
    requires !UserHasPost(rows, user, post)
    ensures UserHasPost(rows + [NewPin(nextId, user, post)], user, post)
    ensures RemoveFirst(rows + [NewPin(nextId, user, post)], (user, post), PairIs) == rows
  {
    PopAfterAppend(rows, NewPin(nextId, user, post), (user, post), PairIs);
  }

  /** Since pairs are distinct, once `removePost` pops a pair it is gone, and every other row stays. */
  lemma RemoveSpec(rows: seq<CanvasDoc>, nextId: Id, user: Id, post: Id)
    requires Wf(rows, nextId)
    requires FirstMatch(rows, (user, post), PairIs).Some?
    ensures Wf(RemoveFirst(rows, (user, post), PairIs), nextId)
    ensures !UserHasPost(RemoveFirst(rows, (user, post), PairIs), user, post)
    ensures forall c :: c in rows && !PairIs((user, post), c) ==> c in RemoveFirst(rows, (user, post), PairIs)
  {
    var k := FirstMatch(rows, (user, post), PairIs).value;
    RemoveAtKeeps(rows, k);
    DistinctRemoveAt(rows, k, PairKey);
    var rest := RemoveAt(rows, k);
    forall c | c in rest ensures !PairIs((user, post), c) {
      var j :| 0 <= j < |rest| && rest[j] == c;
      var j' := if j < k then j else j + 1;
      assert rest[j] == rows[j'] && j' != k;
      assert PairKey(rows[j']) != PairKey(rows[k]);
    }
  }

  // ---------------------------------------------------------------------------
  // The concept's state and its writes

  class CanvasConcept {
    /** The `canvas` collection. */
    var canvas: seq<CanvasDoc>
    /** The next fresh object id. */
    var nextId: Id

    ghost predicate Valid()
      reads this
    {
      Wf(canvas, nextId)
    }

    constructor ()
      ensures Valid() && canvas == []
    {
      canvas := [];
      nextId := 0;
    }

    /**
     * `deleteCanvasFilter`: removes every row matching all fields present in the
     * filter and keeps every other row.
     */
    method DeleteCanvasFilter(filter: CanvasFilter)
      requires Valid()
      modifies this
      ensures Valid() && nextId == old(nextId)
      ensures canvas == Reject(old(canvas), filter, FilterMatches)
      ensures forall c :: c in canvas <==> c in old(canvas) && !FilterMatches(filter, c)
    {
      DistinctReject(canvas, filter, FilterMatches, PairKey);
      canvas := Reject(canvas, filter, FilterMatches);
    }

    /**
     * `addPost`: NotAllowed when the pair is already there; otherwise inserts one
     * row for it and reads it back.
     */
    method AddPost(user: Id, post: Id) returns (r: Result<CanvasDoc>)
      requires Valid()
      modifies this
      ensures Valid()
      ensures UserHasPost(old(canvas), user, post) ==>
        r == Err(NotAllowed) && canvas == old(canvas) && nextId == old(nextId)
      ensures !UserHasPost(old(canvas), user, post) ==>
        && r == Ok(NewPin(old(nextId), user, post))
        && canvas == old(canvas) + [r.value]
        && nextId == old(nextId) + 1
    {
      var existing := UserHasPost(canvas, user, post);
      if existing {
        return Err(NotAllowed);
      }
      AddKeepsWf(canvas, nextId, user, post);
      var id := nextId;
      canvas := canvas + [CanvasDoc(id, user, post)];
      nextId := nextId + 1;
      r := Ok(ReadOne(canvas, id, CanvasIdIs).value);
    }

    /**
     * `removePost`: NotAllowed when the pair is not there; otherwise pops its row
     * and returns it.
     */
    method RemovePost(user: Id, post: Id) returns (r: Result<CanvasDoc>)
      requires Valid()
      modifies this
      ensures Valid() && nextId == old(nextId)
      ensures !UserHasPost(old(canvas), user, post) ==> r == Err(NotAllowed) && canvas == old(canvas)
      ensures UserHasPost(old(canvas), user, post) ==>
        && r.Ok? && r.value in old(canvas) && PairIs((user, post), r.value)
        && canvas == RemoveFirst(old(canvas), (user, post), PairIs)
    {
      var existing := UserHasPost(canvas, user, post);
      if !existing {
        return Err(NotAllowed);
      }
      RemoveSpec(canvas, nextId, user, post);
      var k := FirstMatch(canvas, (user, post), PairIs).value;
      r := Ok(canvas[k]);
      canvas := RemoveFirst(canvas, (user, post), PairIs);
    }
  }
}

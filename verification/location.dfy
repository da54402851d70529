/**
 * Map locations (server/concepts/map.ts). A location pins a target (a user or a
 * post) to a latitude and longitude, both kept as strings. `register` refuses an
 * empty coordinate. Its uniqueness check looks the target up under a field named
 * `id`, which no stored location has, so it never refuses: a target can be
 * registered any number of times. `update` accepts only the keys `latitude` and
 * `longitude`.
 */
module Locations {
  import opened Store

  /** One row of a locations collection; `dateUpdated` is the time `createOne` stamped it with. */
  datatype LocationDoc = LocationDoc(id: Id, target: Id, latitude: string, longitude: string, dateUpdated: nat)

  /**
   * A `Filter<LocationDoc>`: each present field must be equal, absent fields match
   * anything. `field_id` is a condition on a field named `id`, which is not the
   * document's `_id` and which no stored location carries.
   */
  datatype LocationQuery = LocationQuery(field_id: Option<Id>, target: Option<Id>, latitude: Option<string>, longitude: Option<string>)

  predicate LocationMatches(q: LocationQuery, l: LocationDoc)
  {
    && q.field_id.None?
    && (q.target.Some? ==> l.target == q.target.value)
    && (q.latitude.Some? ==> l.latitude == q.latitude.value)
    && (q.longitude.Some? ==> l.longitude == q.longitude.value)
  }

  /** The filter `{ _id: id }`. */
  predicate LocationIdIs(id: Id, l: LocationDoc) { l.id == id }

  /** The filter `{ target }`. */
  predicate TargetIs(target: Id, l: LocationDoc) { l.target == target }

  function LocationId(l: LocationDoc): Id { l.id }

  function LocationStamp(l: LocationDoc): nat { l.dateUpdated }

  /** Ids are below the counter and distinct. */
  ghost predicate Wf(rows: seq<LocationDoc>, nextId: Id)
  {
    && (forall l :: l in rows ==> l.id < nextId)
    && DistinctBy(rows, LocationId)
  }

  // ---------------------------------------------------------------------------
  // Queries

  /** `isTargetUnique`: NotAllowed when `readOne({ id: target })` finds a location. */
  function IsTargetUnique(rows: seq<LocationDoc>, target: Id): (r: Outcome)
    ensures r == Pass
  {
    if ReadOne(rows, LocationQuery(Some(target), None, None, None), LocationMatches).Some? then Fail(NotAllowed)
    else Pass
  }

  /**
   * `canCreate`: BadValues when the latitude or the longitude is empty, then
   * `isTargetUnique`, which never refuses; so this passes exactly when both
   * coordinates are given.
   */
  function CanCreate(rows: seq<LocationDoc>, target: Id, latitude: string, longitude: string): (r: Outcome)
    ensures r == Fail(BadValues) <==> latitude == "" || longitude == ""
    ensures r == Pass <==> latitude != "" && longitude != ""
  {
    if latitude == "" || longitude == "" then Fail(BadValues)
    else IsTargetUnique(rows, target)
  }

  /** `getTargets`: the locations matching `q`, newest `dateUpdated` first. */
  function GetTargets(rows: seq<LocationDoc>, q: LocationQuery): (r: seq<LocationDoc>)
    ensures NewestFirst(r, LocationStamp)
    ensures multiset(r) == multiset(Select(rows, q, LocationMatches))
    ensures forall l :: l in r <==> l in rows && LocationMatches(q, l)
  {
    var sel := Select(rows, q, LocationMatches);
    SortNewestFirstCorrect(sel, LocationStamp);
    forall l ensures l in SortNewestFirst(sel, LocationStamp) <==> l in sel {
      SortedMembers(sel, LocationStamp, l);
    }
    SortNewestFirst(sel, LocationStamp)
  }

  /**
   * `getAllByLocation`: the locations whose coordinate strings equal both inputs
   * (string equality, so "1.0" and "1" differ), newest first.
   */
  function GetAllByLocation(rows: seq<LocationDoc>, latitude: string, longitude: string): (r: seq<LocationDoc>)
    ensures NewestFirst(r, LocationStamp)
    ensures forall l :: l in r <==> l in rows && l.latitude == latitude && l.longitude == longitude
  {
    GetTargets(rows, LocationQuery(None, None, Some(latitude), Some(longitude)))
  }

  /** `getTargetLocation`: every location of `target`, newest first. */
  function GetTargetLocation(rows: seq<LocationDoc>, target: Id): (r: seq<LocationDoc>)
    ensures NewestFirst(r, LocationStamp)
    ensures forall l :: l in r <==> l in rows && l.target == target
  {
    GetTargets(rows, LocationQuery(None, Some(target), None, None))
  }

  /** The keys `sanitizeUpdate` lets through. */
  predicate AllowedKey(key: string)
  {
    key == "latitude" || key == "longitude"
  }

  /**
   * `sanitizeUpdate`: walks the keys of the update and fails NotAllowed at the
   * first key other than `latitude` and `longitude`.
   */
  method SanitizeUpdate(keys: seq<string>) returns (r: Outcome)
    ensures r == Pass <==> forall i :: 0 <= i < |keys| ==> AllowedKey(keys[i])
    ensures r.Fail? ==> r.error == NotAllowed
  {
    var i := 0;
    while i < |keys|
      invariant 0 <= i <= |keys|
      invariant forall j :: 0 <= j < i ==> AllowedKey(keys[j])
    {
      if !AllowedKey(keys[i]) {
        return Fail(NotAllowed);
      }
      i := i + 1;
    }
    return Pass;
  }

  // ---------------------------------------------------------------------------
  // What the writes do to the rows

  /** The row `register` inserts. */
  function NewLocation(id: Id, target: Id, latitude: string, longitude: string, now: nat): LocationDoc
  {
    LocationDoc(id, target, latitude, longitude, now)
  }

  /** A registered location gets a fresh id, which `readOne({ _id })` then finds. */
  lemma RegisterSpec(rows: seq<LocationDoc>, nextId: Id, target: Id, latitude: string, longitude: string, now: nat)
    requires Wf(rows, nextId)
    ensures Wf(rows + [NewLocation(nextId, target, latitude, longitude, now)], nextId + 1)
    ensures ReadOne(rows + [NewLocation(nextId, target, latitude, longitude, now)], nextId, LocationIdIs)
      == Some(NewLocation(nextId, target, latitude, longitude, now))
  {
    var x := NewLocation(nextId, target, latitude, longitude, now);
    forall i | 0 <= i < |rows| ensures LocationId(rows[i]) != LocationId(x) {
      assert rows[i] in rows;
    }
    DistinctAppend(rows, x, LocationId);
    assert (rows + [x])[|rows|] == x;
    assert forall i :: 0 <= i < |rows| ==> (rows + [x])[i] == rows[i];
  }

  /**
   * Registering the same target twice succeeds both times and leaves two
   * locations for it: the uniqueness check never sees the first one.
   */
  lemma RegisterTwice(rows: seq<LocationDoc>, nextId: Id, target: Id, latitude: string, longitude: string, now: nat)
    requires latitude != "" && longitude != ""
    ensures CanCreate(rows, target, latitude, longitude) == Pass
    ensures CanCreate(rows + [NewLocation(nextId, target, latitude, longitude, now)], target, latitude, longitude) == Pass
    ensures Count(rows + [NewLocation(nextId, target, latitude, longitude, now)] + [NewLocation(nextId + 1, target, latitude, longitude, now)],
                  target, TargetIs) == Count(rows, target, TargetIs) + 2
  {
    var x := NewLocation(nextId, target, latitude, longitude, now);
    var y := NewLocation(nextId + 1, target, latitude, longitude, now);
    SelectAppend(rows, x, target, TargetIs);
    SelectAppend(rows + [x], y, target, TargetIs);
  }

  /** `deleteOne({ target })` removes at most one location, one of that target, and keeps every other. */
  lemma DeleteSpec(rows: seq<LocationDoc>, nextId: Id, target: Id)
    requires Wf(rows, nextId)
    ensures Wf(RemoveFirst(rows, target, TargetIs), nextId)
    ensures |RemoveFirst(rows, target, TargetIs)| == |rows| - (if Count(rows, target, TargetIs) > 0 then 1 else 0)
    ensures Count(RemoveFirst(rows, target, TargetIs), target, TargetIs) ==
      if Count(rows, target, TargetIs) > 0 then Count(rows, target, TargetIs) - 1 else 0
    ensures forall l :: l in rows && l.target != target ==> l in RemoveFirst(rows, target, TargetIs)
  {
    match FirstMatch(rows, target, TargetIs)
    case None =>
      SelectNone(rows, target, TargetIs);
    case Some(k) =>
      RemoveAtKeeps(rows, k);
      DistinctRemoveAt(rows, k, LocationId);
      SelectRemoveAt(rows, k, target, TargetIs);
      assert rows[k] in Select(rows, target, TargetIs);
  }

  // ---------------------------------------------------------------------------
  // The concept's state and its writes

  class MapConcept {
    /** The locations collection. */
    var locations: seq<LocationDoc>
    /** The next fresh object id. */
    var nextId: Id

    ghost predicate Valid()
      reads this
    {
      Wf(locations, nextId)
    }

    constructor ()
      ensures Valid() && locations == []
    {
      locations := [];
      nextId := 0;
    }

    /**
     * `register`: runs `canCreate` and passes its error on before any write;
     * otherwise inserts one location stamped `now` and reads it back.
     */
    method Register(target: Id, latitude: string, longitude: string, now: nat) returns (r: Result<LocationDoc>)
      requires Valid()
      modifies this
      ensures Valid()
      ensures CanCreate(old(locations), target, latitude, longitude).Fail? ==>
        r == Err(BadValues) && locations == old(locations) && nextId == old(nextId)
      ensures CanCreate(old(locations), target, latitude, longitude).Pass? ==>
        && r == Ok(NewLocation(old(nextId), target, latitude, longitude, now))
        && locations == old(locations) + [r.value]
        && nextId == old(nextId) + 1
    {
      var c := CanCreate(locations, target, latitude, longitude);
      if c.Fail? {
        return Err(c.error);
      }
      RegisterSpec(locations, nextId, target, latitude, longitude, now);
      var id := nextId;
      locations := locations + [LocationDoc(id, target, latitude, longitude, now)];
      nextId := nextId + 1;
      r := Ok(ReadOne(locations, id, LocationIdIs).value);
    }

    /** `delete`: removes the first location of `target`, if there is one. */
    method Delete(target: Id)
      requires Valid()
      modifies this
      ensures Valid() && nextId == old(nextId)
      ensures locations == RemoveFirst(old(locations), target, TargetIs)
    {
      DeleteSpec(locations, nextId, target);
      locations := RemoveFirst(locations, target, TargetIs);
    }

    /**
     * `update`: runs `sanitizeUpdate` on the keys of the update first, so a key
     * other than `latitude` or `longitude` fails NotAllowed before anything is
     * read or written. The `updateOne` that follows filters on `_id` bound to the
     * array of locations `getTargetLocation` returns rather than an id; that
     * write is not part of this model.
     */
    method Update(target: Id, keys: seq<string>) returns (r: Outcome)
      ensures r == Pass <==> forall i :: 0 <= i < |keys| ==> AllowedKey(keys[i])
      ensures r.Fail? ==> r.error == NotAllowed
    {
      r := SanitizeUpdate(keys);
    }
  }
}

/**
 * Profiles (server/concepts/profile.ts). `create` refuses an empty username and
 * a username some profile already has; `update` patches the profile with the
 * given id without looking at usernames, so distinct usernames are kept by
 * `create` only.
 */
module Profiles {
  import opened Store

  /** One row of the `profiles` collection. */
  datatype ProfileDoc = ProfileDoc(id: Id, username: string, displayName: string, photo: string)

  /** The fields a `Partial<ProfileDoc>` patch may carry; an absent field is left as it is. */
  datatype ProfilePatch = ProfilePatch(username: Option<string>, displayName: Option<string>, photo: Option<string>)

  /** The filter `{ username }`. */
  predicate UsernameIs(username: string, p: ProfileDoc) { p.username == username }

  /** The filter `{ _id: id }`. */
  predicate ProfileIdIs(id: Id, p: ProfileDoc) { p.id == id }

  function ProfileId(p: ProfileDoc): Id { p.id }

  function Username(p: ProfileDoc): string { p.username }

  /** Ids are below the counter and distinct. */
  ghost predicate Wf(rows: seq<ProfileDoc>, nextId: Id)
  {
    && (forall p :: p in rows ==> p.id < nextId)
    && DistinctBy(rows, ProfileId)
  }

  // ---------------------------------------------------------------------------
  // Queries

  /**
   * `canCreate` with `isUsernameUnique`: BadValues for an empty username, then
   * NotAllowed when a profile already has it.
   */
  function CanCreate(rows: seq<ProfileDoc>, username: string): (r: Outcome)
    ensures r == Fail(BadValues) <==> username == ""
    ensures r == Fail(NotAllowed) <==> username != "" && exists p :: p in rows && p.username == username
    ensures r == Pass <==> username != "" && forall p :: p in rows ==> p.username != username
  {
    if username == "" then Fail(BadValues)
    else if ReadOne(rows, username, UsernameIs).Some? then Fail(NotAllowed)
    else Pass
  }

  /** `getProfiles`: the profiles with that username, or all of them when it is missing or empty. */
  function GetProfiles(rows: seq<ProfileDoc>, username: Option<string>): (r: seq<ProfileDoc>)
    ensures username.None? || username == Some("") ==> r == rows
    ensures username.Some? && username.value != "" ==> forall p :: p in r <==> p in rows && p.username == username.value
  {
    if username.Some? && username.value != "" then Select(rows, username.value, UsernameIs) else rows
  }

  /** `profileExists`: NotFound exactly when no profile has this id. */
  function ProfileExists(rows: seq<ProfileDoc>, id: Id): (r: Outcome)
    ensures r.Fail? <==> forall p :: p in rows ==> p.id != id
    ensures r.Fail? ==> r.error == NotFound
  {
    if ReadOne(rows, id, ProfileIdIs).None? then Fail(NotFound) else Pass
  }

  // ---------------------------------------------------------------------------
  // What the writes do to the rows

  /** The row `create` inserts. */
  function NewProfile(id: Id, username: string, displayName: string, photo: string): ProfileDoc
  {
    ProfileDoc(id, username, displayName, photo)
  }

  /** A profile that passes `canCreate` keeps ids distinct, and keeps usernames distinct if they were. */
  lemma CreateSpec(rows: seq<ProfileDoc>, nextId: Id, username: string, displayName: string, photo: string)
    requires Wf(rows, nextId)
    requires CanCreate(rows, username) == Pass
    ensures Wf(rows + [NewProfile(nextId, username, displayName, photo)], nextId + 1)
    ensures ReadOne(rows + [NewProfile(nextId, username, displayName, photo)], nextId, ProfileIdIs)
      == Some(NewProfile(nextId, username, displayName, photo))
    ensures DistinctBy(rows, Username) ==> DistinctBy(rows + [NewProfile(nextId, username, displayName, photo)], Username)
  {
    var x := NewProfile(nextId, username, displayName, photo);
    forall i | 0 <= i < |rows| ensures ProfileId(rows[i]) != ProfileId(x) && Username(rows[i]) != Username(x) {
      assert rows[i] in rows;
    }
    DistinctAppend(rows, x, ProfileId);
    if DistinctBy(rows, Username) {
      DistinctAppend(rows, x, Username);
    }
    assert (rows + [x])[|rows|] == x;
    assert forall i :: 0 <= i < |rows| ==> (rows + [x])[i] == rows[i];
  }

  /** A profile with the fields the patch carries replaced. */
  function Patch(p: ProfileDoc, u: ProfilePatch): ProfileDoc
  {
    p.(username := if u.username.Some? then u.username.value else p.username,
       displayName := if u.displayName.Some? then u.displayName.value else p.displayName,
       photo := if u.photo.Some? then u.photo.value else p.photo)
  }

  /** `updateOne({ _id: id }, update)`: the profile whose id is `id` is patched; every other row stays. */
  function Patched(rows: seq<ProfileDoc>, id: Id, u: ProfilePatch): (r: seq<ProfileDoc>)
    ensures |r| == |rows|
  {
    seq(|rows|, i requires 0 <= i < |rows| => if rows[i].id == id then Patch(rows[i], u) else rows[i])
  }

  /**
   * The write `update` performs: patching the first row with this id is patching
   * every row with it, ids stay as they were, and with no such row nothing changes.
   */
  lemma UpdateSpec(rows: seq<ProfileDoc>, nextId: Id, id: Id, u: ProfilePatch)
    requires Wf(rows, nextId)
    ensures FirstMatch(rows, id, ProfileIdIs).None? ==> Patched(rows, id, u) == rows
    ensures FirstMatch(rows, id, ProfileIdIs).Some? ==>
      var k := FirstMatch(rows, id, ProfileIdIs).value; rows[k := Patch(rows[k], u)] == Patched(rows, id, u)
    ensures Wf(Patched(rows, id, u), nextId)
  {
    var r := Patched(rows, id, u);
    assert forall i :: 0 <= i < |rows| ==> ProfileId(r[i]) == ProfileId(rows[i]);
    forall p | p in r ensures p.id < nextId {
      var i :| 0 <= i < |r| && r[i] == p;
      assert rows[i] in rows;
    }
    match FirstMatch(rows, id, ProfileIdIs)
    case None =>
    case Some(k) =>
      forall i | 0 <= i < |rows| ensures rows[k := Patch(rows[k], u)][i] == r[i] {
        assert i != k ==> ProfileId(rows[i]) != ProfileId(rows[k]);
      }
  }

  /** `update` does not keep usernames distinct: renaming one profile to another's username is accepted. */
  lemma UpdateCanRepeatUsername()
    ensures var rows := [ProfileDoc(0, "ann", "Ann", ""), ProfileDoc(1, "bob", "Bob", "")];
      && Wf(rows, 2) && DistinctBy(rows, Username)
      && !DistinctBy(Patched(rows, 0, ProfilePatch(Some("bob"), None, None)), Username)
  {
    var rows := [ProfileDoc(0, "ann", "Ann", ""), ProfileDoc(1, "bob", "Bob", "")];
    var r := Patched(rows, 0, ProfilePatch(Some("bob"), None, None));
    assert Username(r[0]) == Username(r[1]);
  }

  // ---------------------------------------------------------------------------
  // The concept's state and its writes

  class ProfileConcept {
    /** The `profiles` collection. */
    var profiles: seq<ProfileDoc>
    /** The next fresh object id. */
    var nextId: Id

    ghost predicate Valid()
      reads this
    {
      Wf(profiles, nextId)
    }

    constructor ()
      ensures Valid() && profiles == []
    {
      profiles := [];
      nextId := 0;
    }

    /**
     * `create`: runs `canCreate` and passes its error on; otherwise inserts one
     * profile and reads it back.
     */
    method Create(username: string, displayName: string, photo: string) returns (r: Result<ProfileDoc>)
      requires Valid()
      modifies this
      ensures Valid()
      ensures CanCreate(old(profiles), username).Fail? ==>
        r == Err(CanCreate(old(profiles), username).error) && profiles == old(profiles) && nextId == old(nextId)
      ensures CanCreate(old(profiles), username).Pass? ==>
        && r == Ok(NewProfile(old(nextId), username, displayName, photo))
        && profiles == old(profiles) + [r.value]
        && nextId == old(nextId) + 1
    {
      var c := CanCreate(profiles, username);
      if c.Fail? {
        return Err(c.error);
      }
      CreateSpec(profiles, nextId, username, displayName, photo);
      var id := nextId;
      profiles := profiles + [ProfileDoc(id, username, displayName, photo)];
      nextId := nextId + 1;
      r := Ok(ReadOne(profiles, id, ProfileIdIs).value);
    }

    /** `update`: patches the profile whose id is `id`, if there is one; usernames are not checked. */
    method Update(id: Id, u: ProfilePatch)
      requires Valid()
      modifies this
      ensures Valid() && nextId == old(nextId)
      ensures profiles == Patched(old(profiles), id, u)
    {
      UpdateSpec(profiles, nextId, id, u);
      var k := FirstMatch(profiles, id, ProfileIdIs);
      if k.Some? {
        profiles := profiles[k.value := Patch(profiles[k.value], u)];
      }
    }
  }
}

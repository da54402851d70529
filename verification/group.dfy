/**
 * Groups (server/concepts/group.ts). A group is a set of membership rows that
 * share a `groupID`. The row created first is the group's head: its `id` is the
 * group id, it alone carries the `name`, and its `member` is the creator. A group
 * exists when its head row has a non-empty name; a user belongs to it when some
 * row pairs the group id with that user. The creator never changes and can never
 * be removed. Adding a member does not look for an existing row of that member.
 *
 * The queries (`getGroupInfo`, `getGroupsOfUser`, `isInGroup`) only read the
 * collection, so they are functions of its rows; the writes are methods of
 * `GroupConcept`, whose contracts tie the new rows to the old ones.
 */
module Groups {
  import opened Store

  /** One row of the `groups` collection. `groupID` is missing only between the two writes of `Create`. */
  datatype GroupDoc = GroupDoc(id: Id, groupID: Option<Id>, name: Option<string>, member: Id)

  /** What `getGroupInfo` reports. */
  datatype GroupInfo = GroupInfo(groupID: Option<Id>, groupName: string, creator: Id, members: seq<Id>)

  function RowId(r: GroupDoc): Id { r.id }

  /** The filter `{ _id: id }`. */
  predicate IdIs(id: Id, r: GroupDoc) { r.id == id }

  /** The filter `{ _id: originalNode.groupID }`, whose value may be missing. */
  predicate IdIsField(id: Option<Id>, r: GroupDoc) { id == Some(r.id) }

  /** The filter `{ groupID }`. */
  predicate GroupIdIs(g: Option<Id>, r: GroupDoc) { r.groupID == g }

  /** The filter `{ member }`. */
  predicate MemberIs(u: Id, r: GroupDoc) { r.member == u }

  /** The filter `{ groupID, member }`. */
  predicate RowIs(key: (Id, Id), r: GroupDoc) { r.groupID == Some(key.0) && r.member == key.1 }

  /** The row's `name` is truthy: present and not empty. */
  predicate Named(r: GroupDoc) { r.name.Some? && r.name.value != "" }

  /** The `member` of every row, in order (`members.map((info) => info.member)`). */
  function MembersOf(rows: seq<GroupDoc>): seq<Id>
  {
    seq(|rows|, i requires 0 <= i < |rows| => rows[i].member)
  }

  /** The members listed for the group whose rows carry `groupID == g`. */
  function Roster(rows: seq<GroupDoc>, g: Option<Id>): seq<Id>
  {
    MembersOf(Select(rows, g, GroupIdIs))
  }

  /** A user is on the roster exactly when some row of the group names that user. */
  lemma {:induction false} RosterMembers(rows: seq<GroupDoc>, g: Option<Id>, u: Id)
    ensures u in Roster(rows, g) <==> exists r :: r in rows && r.groupID == g && r.member == u
  {
    var sel := Select(rows, g, GroupIdIs);
    if u in Roster(rows, g) {
      var i :| 0 <= i < |sel| && MembersOf(sel)[i] == u;
      assert sel[i] in sel;
    }
    if r :| r in rows && r.groupID == g && r.member == u {
      assert r in sel;
      var i :| 0 <= i < |sel| && sel[i] == r;
      assert MembersOf(sel)[i] == u;
    }
  }

  /** The roster of two runs of rows is the roster of each in turn. */
  lemma RosterConcat(a: seq<GroupDoc>, b: seq<GroupDoc>, g: Option<Id>)
    ensures Roster(a + b, g) == Roster(a, g) + Roster(b, g)
  {
    SelectConcat(a, b, g, GroupIdIs);
    var sa, sb := Select(a, g, GroupIdIs), Select(b, g, GroupIdIs);
    assert MembersOf(sa + sb) == MembersOf(sa) + MembersOf(sb);
  }

  /** A row appended to the collection adds its member at the end of its own group's roster. */
  lemma RosterAppend(rows: seq<GroupDoc>, x: GroupDoc, g: Option<Id>)
    ensures Roster(rows + [x], g) == Roster(rows, g) + (if x.groupID == g then [x.member] else [])
  {
    RosterConcat(rows, [x], g);
    assert Select([x], g, GroupIdIs) == if x.groupID == g then [x] else [];
  }

  /** Removing one row of group `g` takes exactly one occurrence of its member off the roster. */
  lemma RosterRemoveAt(rows: seq<GroupDoc>, k: nat, g: Option<Id>)
    requires k < |rows| && rows[k].groupID == g
    ensures multiset(Roster(RemoveAt(rows, k), g)) + multiset{rows[k].member} == multiset(Roster(rows, g))
  {
    assert rows == rows[..k] + [rows[k]] + rows[k + 1..];
    RosterConcat(rows[..k] + [rows[k]], rows[k + 1..], g);
    RosterAppend(rows[..k], rows[k], g);
    RosterConcat(rows[..k], rows[k + 1..], g);
  }

  /** Rows that agree on `groupID` and `member` position by position give the same rosters. */
  lemma {:induction false} RosterIgnoresNames(a: seq<GroupDoc>, b: seq<GroupDoc>, g: Option<Id>)
    requires |a| == |b|
    requires forall i :: 0 <= i < |a| ==> a[i].groupID == b[i].groupID && a[i].member == b[i].member
    ensures Roster(a, g) == Roster(b, g)
  {
    if a != [] {
      RosterIgnoresNames(a[1..], b[1..], g);
      var sa, sb := Select(a[1..], g, GroupIdIs), Select(b[1..], g, GroupIdIs);
      if a[0].groupID == g {
        assert MembersOf([a[0]] + sa) == [a[0].member] + MembersOf(sa);
        assert MembersOf([b[0]] + sb) == [b[0].member] + MembersOf(sb);
      }
    }
  }

  /**
   * The invariant of the collection: ids are below the counter and distinct, every
   * stored row has a `groupID` below the counter, and a row carrying a name is a
   * head row, whose `groupID` is its own id.
   */
  ghost predicate Wf(rows: seq<GroupDoc>, nextId: Id)
  {
    && (forall r :: r in rows ==> r.id < nextId && r.groupID.Some? && r.groupID.value < nextId)
    && DistinctBy(rows, RowId)
    && (forall r :: r in rows && r.name.Some? ==> r.groupID == Some(r.id))
  }

  /** Group `g` exists: its head row has a non-empty name. */
  ghost predicate Exists(rows: seq<GroupDoc>, g: Id)
  {
    exists h :: h in rows && h.id == g && Named(h)
  }

  /** Some row pairs group `g` with user `u`. */
  ghost predicate Belongs(rows: seq<GroupDoc>, g: Id, u: Id)
  {
    exists r :: r in rows && r.groupID == Some(g) && r.member == u
  }

  /** With distinct ids, a row is identified by its id. */
  lemma IdsIdentify(rows: seq<GroupDoc>, nextId: Id)
    requires Wf(rows, nextId)
    ensures forall a, b :: a in rows && b in rows && a.id == b.id ==> a == b
  {
    forall a, b | a in rows && b in rows && a.id == b.id ensures a == b {
      var i :| 0 <= i < |rows| && rows[i] == a;
      var j :| 0 <= j < |rows| && rows[j] == b;
      assert RowId(rows[i]) == RowId(rows[j]);
    }
  }

  /** With distinct ids, the row whose id is `g` is the one `readOne({ _id: g })` finds. */
  lemma HeadUnique(rows: seq<GroupDoc>, nextId: Id, g: Id, h: GroupDoc)
    requires Wf(rows, nextId)
    requires h in rows && h.id == g
    ensures ReadOne(rows, g, IdIs) == Some(h)
  {
    var k := FirstMatch(rows, g, IdIs);
    var i :| 0 <= i < |rows| && rows[i] == h;
    assert k.Some?;
    assert RowId(rows[k.value]) == RowId(rows[i]);
  }

  /** `readOne({ groupID, member })` finds a row exactly when the user belongs to the group. */
  lemma BelongsFirst(rows: seq<GroupDoc>, g: Id, u: Id)
    ensures Belongs(rows, g, u) <==> FirstMatch(rows, (g, u), RowIs).Some?
  {
    if Belongs(rows, g, u) {
      var r :| r in rows && r.groupID == Some(g) && r.member == u;
      var i :| 0 <= i < |rows| && rows[i] == r;
      assert RowIs((g, u), rows[i]);
    }
  }

  // ---------------------------------------------------------------------------
  // Queries

  /**
   * `getGroupInfo`: NotFound unless `readOne({ _id: groupID })` finds a row with a
   * non-empty name; otherwise that row's `groupID`, name and member (the creator)
   * and the member of every row sharing its `groupID`.
   */
  function GetGroupInfo(rows: seq<GroupDoc>, groupID: Id): Result<GroupInfo>
  {
    match ReadOne(rows, groupID, IdIs)
    case None => Err(NotFound)
    case Some(head) =>
      if !Named(head) then Err(NotFound)
      else Ok(GroupInfo(head.groupID, head.name.value, head.member, Roster(rows, head.groupID)))
  }

  /**
   * What `getGroupInfo` reports on a well-formed collection: NotFound exactly when
   * the group does not exist; otherwise the head's name and creator, and a roster
   * that lists exactly the group's members, the creator among them.
   */
  lemma GetGroupInfoSpec(rows: seq<GroupDoc>, nextId: Id, g: Id)
    requires Wf(rows, nextId)
    ensures GetGroupInfo(rows, g).Err? <==> !Exists(rows, g)
    ensures GetGroupInfo(rows, g).Err? ==> GetGroupInfo(rows, g).error == NotFound
    ensures GetGroupInfo(rows, g).Ok? ==>
      && GetGroupInfo(rows, g).value.groupID == Some(g)
      && GetGroupInfo(rows, g).value.members == Roster(rows, Some(g))
      && GetGroupInfo(rows, g).value.creator in GetGroupInfo(rows, g).value.members
    ensures GetGroupInfo(rows, g).Ok? ==> forall h :: h in rows && h.id == g ==>
      GetGroupInfo(rows, g).value.groupName == h.name.value && GetGroupInfo(rows, g).value.creator == h.member
    ensures GetGroupInfo(rows, g).Ok? ==> forall u ::
      u in GetGroupInfo(rows, g).value.members <==> Belongs(rows, g, u)
  {
    if Exists(rows, g) {
      var h :| h in rows && h.id == g && Named(h);
      HeadUnique(rows, nextId, g, h);
      IdsIdentify(rows, nextId);
      forall u ensures u in Roster(rows, Some(g)) <==> Belongs(rows, g, u) {
        RosterMembers(rows, Some(g), u);
      }
      assert Belongs(rows, g, h.member);
    }
  }

  /** `getGroupsOfUser`: every row, of any group, whose member is `user`. */
  function GetGroupsOfUser(rows: seq<GroupDoc>, user: Id): (r: seq<GroupDoc>)
    ensures |r| <= |rows|
    ensures forall row :: row in r <==> row in rows && row.member == user
  {
    Select(rows, user, MemberIs)
  }

  /**
   * `isInGroup`: NotFound when `readOne({ _id: groupID })` finds no row with a
   * non-empty name (checked first), else NotAllowed when no row pairs the group
   * with `member`, else the head row.
   */
  function IsInGroup(rows: seq<GroupDoc>, groupID: Id, member: Id): Result<GroupDoc>
  {
    var originalNode := ReadOne(rows, groupID, IdIs);
    var maybeMember := ReadOne(rows, (groupID, member), RowIs);
    if originalNode.None? || !Named(originalNode.value) then Err(NotFound)
    else if maybeMember.None? then Err(NotAllowed)
    else Ok(originalNode.value)
  }

  /** What `isInGroup` reports on a well-formed collection. */
  lemma IsInGroupSpec(rows: seq<GroupDoc>, nextId: Id, g: Id, u: Id)
    requires Wf(rows, nextId)
    ensures !Exists(rows, g) ==> IsInGroup(rows, g, u) == Err(NotFound)
    ensures Exists(rows, g) && !Belongs(rows, g, u) ==> IsInGroup(rows, g, u) == Err(NotAllowed)
    ensures IsInGroup(rows, g, u).Ok? <==> Exists(rows, g) && Belongs(rows, g, u)
    ensures IsInGroup(rows, g, u).Ok? ==>
      var h := IsInGroup(rows, g, u).value; h in rows && h.id == g && Named(h) && h.member == GetGroupInfo(rows, g).value.creator
  {
    GetGroupInfoSpec(rows, nextId, g);
    BelongsFirst(rows, g, u);
    if Exists(rows, g) {
      var h :| h in rows && h.id == g && Named(h);
      HeadUnique(rows, nextId, g, h);
    }
  }

  // ---------------------------------------------------------------------------
  // What the writes do to the rows

  /** The head row of a group created as `id` by `creator` under `name`, once its `groupID` is set. */
  function HeadRow(id: Id, creator: Id, name: string): GroupDoc
  {
    GroupDoc(id, Some(id), Some(name), creator)
  }

  /** No row of a well-formed collection belongs to a group whose id is not yet handed out. */
  lemma FreshGroupEmpty(rows: seq<GroupDoc>, nextId: Id)
    requires Wf(rows, nextId)
    ensures Roster(rows, Some(nextId)) == []
  {
    SelectNone(rows, Some(nextId), GroupIdIs);
  }

  /** An appended row with a fresh id changes no other group's info. */
  lemma AppendKeepsInfo(rows: seq<GroupDoc>, nextId: Id, x: GroupDoc, g: Id)
    requires Wf(rows, nextId) && Wf(rows + [x], nextId + 1)
    requires x.id == nextId && x.groupID != Some(g) && g != nextId
    ensures GetGroupInfo(rows + [x], g) == GetGroupInfo(rows, g)
  {
    if Exists(rows, g) {
      var r :| r in rows && r.id == g && Named(r);
      HeadUnique(rows, nextId, g, r);
      HeadUnique(rows + [x], nextId + 1, g, r);
      RosterAppend(rows, x, r.groupID);
      assert GetGroupInfo(rows, g) == Ok(GroupInfo(r.groupID, r.name.value, r.member, Roster(rows, r.groupID)));
      assert GetGroupInfo(rows + [x], g) == Ok(GroupInfo(r.groupID, r.name.value, r.member, Roster(rows + [x], r.groupID)));
      assert Roster(rows + [x], r.groupID) == Roster(rows, r.groupID);
    } else {
      GetGroupInfoSpec(rows, nextId, g);
      GetGroupInfoSpec(rows + [x], nextId + 1, g);
      assert !Exists(rows + [x], g);
    }
  }

  /**
   * `create` appends a head row under a fresh id: the new group reads back with the
   * creator as its only member, unless the name is empty, and no other group changes.
   */
  lemma CreateSpec(rows: seq<GroupDoc>, nextId: Id, creator: Id, name: string)
    requires Wf(rows, nextId)
    ensures Wf(rows + [HeadRow(nextId, creator, name)], nextId + 1)
    ensures GetGroupInfo(rows + [HeadRow(nextId, creator, name)], nextId) ==
      if name == "" then Err(NotFound) else Ok(GroupInfo(Some(nextId), name, creator, [creator]))
    ensures name != "" ==> IsInGroup(rows + [HeadRow(nextId, creator, name)], nextId, creator) == Ok(HeadRow(nextId, creator, name))
    ensures forall g :: g != nextId ==> GetGroupInfo(rows + [HeadRow(nextId, creator, name)], g) == GetGroupInfo(rows, g)
  {
    var h := HeadRow(nextId, creator, name);
    var rows' := rows + [h];
    DistinctAppend(rows, h, RowId);
    assert Wf(rows', nextId + 1);
    HeadUnique(rows', nextId + 1, nextId, h);
    RosterAppend(rows, h, Some(nextId));
    FreshGroupEmpty(rows, nextId);
    assert Roster(rows', Some(nextId)) == [creator];
    forall g | g != nextId ensures GetGroupInfo(rows', g) == GetGroupInfo(rows, g) {
      AppendKeepsInfo(rows, nextId, h, g);
    }
    if name != "" {
      BelongsFirst(rows', nextId, creator);
      assert RowIs((nextId, creator), rows'[|rows|]);
    }
  }

  /**
   * The two writes of `create`: the row `createOne` inserts is the one
   * `updateOne({ _id })` then finds, and setting its `groupID` gives the head row,
   * which `readOne({ _id })` returns.
   */
  lemma CreateWrites(rows: seq<GroupDoc>, nextId: Id, creator: Id, name: string)
    requires Wf(rows, nextId)
    ensures FirstMatch(rows + [GroupDoc(nextId, None, Some(name), creator)], nextId, IdIs) == Some(|rows|)
    ensures ReadOne(rows + [HeadRow(nextId, creator, name)], nextId, IdIs) == Some(HeadRow(nextId, creator, name))
  {
    var row := GroupDoc(nextId, None, Some(name), creator);
    assert (rows + [row])[|rows|] == row;
    assert forall i :: 0 <= i < |rows| ==> (rows + [row])[i] == rows[i];
    CreateSpec(rows, nextId, creator, name);
    HeadUnique(rows + [HeadRow(nextId, creator, name)], nextId + 1, nextId, HeadRow(nextId, creator, name));
  }

  /** `updateOne({ _id: g }, { name })`: the row whose id is `g` takes the new name. */
  function Renamed(rows: seq<GroupDoc>, g: Id, name: string): (r: seq<GroupDoc>)
    ensures |r| == |rows|
  {
    seq(|rows|, i requires 0 <= i < |rows| => if rows[i].id == g then rows[i].(name := Some(name)) else rows[i])
  }

  /** With distinct ids, renaming the row at `k` is renaming the row whose id is that row's id. */
  lemma RenamedAt(rows: seq<GroupDoc>, nextId: Id, k: nat, name: string)
    requires Wf(rows, nextId) && k < |rows|
    ensures rows[k := rows[k].(name := Some(name))] == Renamed(rows, rows[k].id, name)
  {
    var rows' := rows[k := rows[k].(name := Some(name))];
    forall j | 0 <= j < |rows| ensures rows'[j] == Renamed(rows, rows[k].id, name)[j] {
      assert j != k ==> RowId(rows[j]) != RowId(rows[k]);
    }
  }

  /** Renaming one row leaves every roster as it was. */
  lemma RenameKeepsRoster(rows: seq<GroupDoc>, k: nat, name: string, g: Option<Id>)
    requires k < |rows|
    ensures Roster(rows[k := rows[k].(name := Some(name))], g) == Roster(rows, g)
  {
    RosterIgnoresNames(rows, rows[k := rows[k].(name := Some(name))], g);
  }

  /** Giving a head row a new name keeps the collection well-formed. */
  lemma WfRename(rows: seq<GroupDoc>, nextId: Id, k: nat, name: string)
    requires Wf(rows, nextId) && k < |rows| && rows[k].name.Some?
    ensures Wf(rows[k := rows[k].(name := Some(name))], nextId)
  {
    var rows' := rows[k := rows[k].(name := Some(name))];
    assert forall j :: 0 <= j < |rows| ==> RowId(rows'[j]) == RowId(rows[j]);
    forall r | r in rows'
      ensures r.id < nextId && r.groupID.Some? && r.groupID.value < nextId && (r.name.Some? ==> r.groupID == Some(r.id))
    {
      var j :| 0 <= j < |rows'| && rows'[j] == r;
      assert rows[j] in rows;
    }
  }

  /**
   * Renaming an existing group touches its head row only: the group then reads back
   * with the new name and the same creator and roster, or as missing when the new
   * name is empty.
   */
  lemma RenameSpec(rows: seq<GroupDoc>, nextId: Id, g: Id, name: string)
    requires Wf(rows, nextId)
    requires GetGroupInfo(rows, g).Ok?
    ensures GetGroupInfo(rows, g).value.groupID == Some(g)
    ensures FirstMatch(rows, Some(g), IdIsField).Some?
    ensures rows[FirstMatch(rows, Some(g), IdIsField).value := rows[FirstMatch(rows, Some(g), IdIsField).value].(name := Some(name))]
      == Renamed(rows, g, name)
    ensures Wf(Renamed(rows, g, name), nextId)
    ensures GetGroupInfo(Renamed(rows, g, name), g) ==
      if name == "" then Err(NotFound) else Ok(GetGroupInfo(rows, g).value.(groupName := name))
  {
    var k := HeadAt(rows, nextId, g);
    var rows' := rows[k := rows[k].(name := Some(name))];
    RenamedAt(rows, nextId, k, name);
    WfRename(rows, nextId, k, name);
    RenameKeepsRoster(rows, k, name, Some(g));
    HeadUnique(rows', nextId, g, rows'[k]);
  }

  /** The head row of an existing group is the first row whose id is the group's. */
  lemma HeadAt(rows: seq<GroupDoc>, nextId: Id, g: Id) returns (k: nat)
    requires Wf(rows, nextId)
    requires GetGroupInfo(rows, g).Ok?
    ensures FirstMatch(rows, Some(g), IdIsField) == Some(k) && k < |rows|
    ensures rows[k].id == g && Named(rows[k]) && rows[k].groupID == Some(g)
    ensures GetGroupInfo(rows, g) == Ok(GroupInfo(Some(g), rows[k].name.value, rows[k].member, Roster(rows, Some(g))))
  {
    GetGroupInfoSpec(rows, nextId, g);
    var h :| h in rows && h.id == g && Named(h);
    var i :| 0 <= i < |rows| && rows[i] == h;
    assert IdIsField(Some(g), rows[i]);
    k := FirstMatch(rows, Some(g), IdIsField).value;
    DistinctKeyAt(rows, RowId, k, i);
  }

  /** The row `addMember` inserts. */
  function MemberRow(id: Id, g: Id, u: Id): GroupDoc
  {
    GroupDoc(id, Some(g), None, u)
  }

  /**
   * Adding a member to an existing group puts one more (group, user) row in and
   * the user at the end of the roster; name and creator stay.
   */
  lemma AddMemberSpec(rows: seq<GroupDoc>, nextId: Id, g: Id, u: Id)
    requires Wf(rows, nextId)
    requires GetGroupInfo(rows, g).Ok?
    ensures Wf(rows + [MemberRow(nextId, g, u)], nextId + 1)
    ensures GetGroupInfo(rows + [MemberRow(nextId, g, u)], g) ==
      Ok(GetGroupInfo(rows, g).value.(members := GetGroupInfo(rows, g).value.members + [u]))
    ensures Count(rows + [MemberRow(nextId, g, u)], (g, u), RowIs) == Count(rows, (g, u), RowIs) + 1
  {
    GetGroupInfoSpec(rows, nextId, g);
    var x := MemberRow(nextId, g, u);
    var h :| h in rows && h.id == g && Named(h);
    DistinctAppend(rows, x, RowId);
    HeadUnique(rows + [x], nextId + 1, g, h);
    RosterAppend(rows, x, Some(g));
    SelectAppend(rows, x, (g, u), RowIs);
  }

  /**
   * Removing a non-creator member who has a row removes the first such row: one
   * occurrence of the user leaves the roster, name and creator stay, and the head
   * row survives.
   */
  lemma RemoveMemberSpec(rows: seq<GroupDoc>, nextId: Id, g: Id, u: Id)
    requires Wf(rows, nextId)
    requires GetGroupInfo(rows, g).Ok? && u != GetGroupInfo(rows, g).value.creator
    requires Belongs(rows, g, u)
    ensures FirstMatch(rows, (g, u), RowIs).Some?
    ensures Wf(RemoveFirst(rows, (g, u), RowIs), nextId)
    ensures GetGroupInfo(RemoveFirst(rows, (g, u), RowIs), g) ==
      Ok(GetGroupInfo(rows, g).value.(members := Roster(RemoveFirst(rows, (g, u), RowIs), Some(g))))
    ensures multiset(Roster(RemoveFirst(rows, (g, u), RowIs), Some(g))) + multiset{u} == multiset(Roster(rows, Some(g)))
    ensures Count(RemoveFirst(rows, (g, u), RowIs), (g, u), RowIs) + 1 == Count(rows, (g, u), RowIs)
  {
    GetGroupInfoSpec(rows, nextId, g);
    BelongsFirst(rows, g, u);
    var k := FirstMatch(rows, (g, u), RowIs).value;
    var h :| h in rows && h.id == g && Named(h);
    assert rows[k] != h;
    RemoveAtKeeps(rows, k);
    DistinctRemoveAt(rows, k, RowId);
    HeadUnique(RemoveAt(rows, k), nextId, g, h);
    RosterRemoveAt(rows, k, Some(g));
    SelectRemoveAt(rows, k, (g, u), RowIs);
  }

  /**
   * Deleting a group removes every row of it: the group then reads as missing, and
   * every other group reads as before.
   */
  lemma DeleteSpec(rows: seq<GroupDoc>, nextId: Id, g: Id)
    requires Wf(rows, nextId)
    ensures Wf(Reject(rows, Some(g), GroupIdIs), nextId)
    ensures GetGroupInfo(Reject(rows, Some(g), GroupIdIs), g) == Err(NotFound)
    ensures forall g' :: g' != g ==> GetGroupInfo(Reject(rows, Some(g), GroupIdIs), g') == GetGroupInfo(rows, g')
  {
    var rows' := Reject(rows, Some(g), GroupIdIs);
    DistinctReject(rows, Some(g), GroupIdIs, RowId);
    GetGroupInfoSpec(rows', nextId, g);
    forall g' | g' != g ensures GetGroupInfo(rows', g') == GetGroupInfo(rows, g') {
      GetGroupInfoSpec(rows, nextId, g');
      GetGroupInfoSpec(rows', nextId, g');
      SelectReject(rows, Some(g), GroupIdIs, Some(g'), GroupIdIs);
      if Exists(rows, g') {
        var h :| h in rows && h.id == g' && Named(h);
        HeadUnique(rows, nextId, g', h);
        HeadUnique(rows', nextId, g', h);
      }
    }
  }

  // ---------------------------------------------------------------------------
  // The concept's state and its writes

  class GroupConcept {
    /** The `groups` collection. */
    var groups: seq<GroupDoc>
    /** The next fresh object id. */
    var nextId: Id

    ghost predicate Valid()
      reads this
    {
      Wf(groups, nextId)
    }

    constructor ()
      ensures Valid() && groups == []
    {
      groups := [];
      nextId := 0;
    }

    /**
     * `create`: inserts the head row (`createOne`), sets its `groupID` to its own
     * id (`updateOne`) and reads it back. An empty name is accepted; such a group
     * then reads as missing.
     */
    method Create(creator: Id, name: string) returns (group: GroupDoc)
      requires Valid()
      modifies this
      ensures Valid() && nextId == old(nextId) + 1
      ensures group == HeadRow(old(nextId), creator, name)
      ensures groups == old(groups) + [group]
    {
      CreateSpec(groups, nextId, creator, name);
      CreateWrites(groups, nextId, creator, name);
      var id := nextId;
      nextId := nextId + 1;
      groups := groups + [GroupDoc(id, None, Some(name), creator)];
      var k := FirstMatch(groups, id, IdIs).value;
      groups := groups[k := groups[k].(groupID := Some(id))];
      assert groups == old(groups) + [HeadRow(id, creator, name)];
      group := ReadOne(groups, id, IdIs).value;
    }

    /**
     * `delete`: runs `isInGroup(groupID, user)` and passes its error on; on success
     * every row of the group goes (`deleteMany`).
     */
    method Delete(groupID: Id, user: Id) returns (r: Result<GroupDoc>)
      requires Valid()
      modifies this
      ensures Valid() && nextId == old(nextId)
      ensures r == IsInGroup(old(groups), groupID, user)
      ensures r.Err? ==> groups == old(groups)
      ensures r.Ok? ==> groups == Reject(old(groups), Some(groupID), GroupIdIs)
    {
      r := IsInGroup(groups, groupID, user);
      if r.Ok? {
        DeleteSpec(groups, nextId, groupID);
        groups := Reject(groups, Some(groupID), GroupIdIs);
      }
    }

    /**
     * `updateGroupName`: passes on the NotFound of `getGroupInfo`; otherwise writes
     * the name to the row whose id is the group's `groupID` and reads the group back.
     */
    method UpdateGroupName(groupID: Id, name: string) returns (r: Result<GroupInfo>)
      requires Valid()
      modifies this
      ensures Valid() && nextId == old(nextId)
      ensures GetGroupInfo(old(groups), groupID).Err? ==> r == GetGroupInfo(old(groups), groupID) && groups == old(groups)
      ensures GetGroupInfo(old(groups), groupID).Ok? ==>
        && groups == Renamed(old(groups), groupID, name)
        && r == GetGroupInfo(groups, groupID)
    {
      var info := GetGroupInfo(groups, groupID);
      if info.Err? {
        return Err(info.error);
      }
      RenameSpec(groups, nextId, groupID, name);
      var k := FirstMatch(groups, info.value.groupID, IdIsField).value;
      groups := groups[k := groups[k].(name := Some(name))];
      r := GetGroupInfo(groups, groupID);
    }

    /**
     * `addMember`: passes on the NotFound of `getGroupInfo`; otherwise inserts one
     * more row for (groupID, member), whether or not one is already there, and
     * reads the group back.
     */
    method AddMember(groupID: Id, member: Id) returns (r: Result<GroupInfo>)
      requires Valid()
      modifies this
      ensures Valid()
      ensures GetGroupInfo(old(groups), groupID).Err? ==>
        r == GetGroupInfo(old(groups), groupID) && groups == old(groups) && nextId == old(nextId)
      ensures GetGroupInfo(old(groups), groupID).Ok? ==>
        && nextId == old(nextId) + 1
        && groups == old(groups) + [MemberRow(old(nextId), groupID, member)]
        && r == GetGroupInfo(groups, groupID)
    {
      var creator := GetGroupInfo(groups, groupID);
      if creator.Err? {
        return Err(creator.error);
      }
      AddMemberSpec(groups, nextId, groupID, member);
      groups := groups + [GroupDoc(nextId, Some(groupID), None, member)];
      nextId := nextId + 1;
      r := GetGroupInfo(groups, groupID);
    }

    /**
     * `removeMember`: passes on the NotFound of `getGroupInfo`; NotAllowed when
     * `member` is the creator; NotFound (`GroupMemberNotFound`) when `popOne` finds
     * no row pairing the group with `member`; otherwise that row is gone and the
     * group is read back.
     */
    method RemoveMember(groupID: Id, member: Id) returns (r: Result<GroupInfo>)
      requires Valid()
      modifies this
      ensures Valid() && nextId == old(nextId)
      ensures GetGroupInfo(old(groups), groupID).Err? ==> r == GetGroupInfo(old(groups), groupID) && groups == old(groups)
      ensures GetGroupInfo(old(groups), groupID).Ok? && member == GetGroupInfo(old(groups), groupID).value.creator ==>
        r == Err(NotAllowed) && groups == old(groups)
      ensures GetGroupInfo(old(groups), groupID).Ok? && member != GetGroupInfo(old(groups), groupID).value.creator ==>
        && (!Belongs(old(groups), groupID, member) ==> r == Err(NotFound) && groups == old(groups))
        && (Belongs(old(groups), groupID, member) ==>
              groups == RemoveFirst(old(groups), (groupID, member), RowIs) && r == GetGroupInfo(groups, groupID))
    {
      var originalNode := GetGroupInfo(groups, groupID);
      if originalNode.Err? {
        return Err(originalNode.error);
      }
      if member == originalNode.value.creator {
        return Err(NotAllowed);
      }
      BelongsFirst(groups, groupID, member);
      var k := FirstMatch(groups, (groupID, member), RowIs);
      if k.None? {
        return Err(NotFound);
      }
      RemoveMemberSpec(groups, nextId, groupID, member);
      groups := RemoveFirst(groups, (groupID, member), RowIs);
      r := GetGroupInfo(groups, groupID);
    }
  }
}

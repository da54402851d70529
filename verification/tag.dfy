/**
 * Tags (server/concepts/tag.ts). A tag is an (author, item, name) triple; `add`
 * refuses a missing author, item or name and a triple that is already there, so
 * the collection never holds the same triple twice. `delete` pops the tag with
 * the given triple. The queries return matching tags newest first.
 */
module Tags {
  import opened Store

  /** One row of the `tags` collection; `dateUpdated` is the time `createOne` stamped it with. */
  datatype TagDoc = TagDoc(id: Id, author: Id, item: Id, name: string, dateUpdated: nat)

  /** The filter `{ author, item, name }`. */
  predicate TagIs(key: (Id, Id, string), t: TagDoc)
  {
    t.author == key.0 && t.item == key.1 && t.name == key.2
  }

  /** The filter `{ _id: id }`. */
  predicate TagIdIs(id: Id, t: TagDoc) { t.id == id }

  function TagKey(t: TagDoc): (Id, Id, string) { (t.author, t.item, t.name) }

  function TagStamp(t: TagDoc): nat { t.dateUpdated }

  /** A `getTags` filter: each present field must be equal, absent fields match anything. */
  datatype TagQuery = TagQuery(author: Option<Id>, item: Option<Id>, name: Option<string>)

  predicate TagMatches(q: TagQuery, t: TagDoc)
  {
    && (q.author.Some? ==> t.author == q.author.value)
    && (q.item.Some? ==> t.item == q.item.value)
    && (q.name.Some? ==> t.name == q.name.value)
  }

  /** Ids are below the counter and distinct, and no triple is stored twice. */
  ghost predicate Wf(rows: seq<TagDoc>, nextId: Id)
  {
    && (forall t :: t in rows ==> t.id < nextId)
    && DistinctBy(rows, TagKey)
  }

  // ---------------------------------------------------------------------------
  // Queries

  /** `itemHasTag`: some tag carries this triple. */
  function ItemHasTag(rows: seq<TagDoc>, author: Id, item: Id, name: string): (r: bool)
    ensures r <==> exists t :: t in rows && t.author == author && t.item == item && t.name == name
  {
    ReadOne(rows, (author, item, name), TagIs).Some?
  }

  /**
   * `canCreate`: BadValues for a missing author, then a missing item, then an
   * empty name, all before any lookup; NotAllowed when the triple is already there.
   */
  function CanCreate(rows: seq<TagDoc>, author: Option<Id>, item: Option<Id>, name: string): (r: Outcome)
    ensures r == Fail(BadValues) <==> author.None? || item.None? || name == ""
    ensures r == Fail(NotAllowed) <==>
      author.Some? && item.Some? && name != "" &&
      exists t :: t in rows && t.author == author.value && t.item == item.value && t.name == name
    ensures r == Pass <==>
      author.Some? && item.Some? && name != "" &&
      forall t :: t in rows ==> !(t.author == author.value && t.item == item.value && t.name == name)
  {
    if author.None? then Fail(BadValues)
    else if item.None? then Fail(BadValues)
    else if name == "" then Fail(BadValues)
    else if ItemHasTag(rows, author.value, item.value, name) then Fail(NotAllowed)
    else Pass
  }

  /** `getTags`: the tags matching `q`, newest `dateUpdated` first. */
  function GetTags(rows: seq<TagDoc>, q: TagQuery): (r: seq<TagDoc>)
    ensures NewestFirst(r, TagStamp)
    ensures multiset(r) == multiset(Select(rows, q, TagMatches))
    ensures forall t :: t in r <==> t in rows && TagMatches(q, t)
  {
    var sel := Select(rows, q, TagMatches);
    SortNewestFirstCorrect(sel, TagStamp);
    forall t ensures t in SortNewestFirst(sel, TagStamp) <==> t in sel {
      SortedMembers(sel, TagStamp, t);
    }
    SortNewestFirst(sel, TagStamp)
  }

  /** `getTagsByAuthor`: every tag by `author`, newest first. */
  function GetTagsByAuthor(rows: seq<TagDoc>, author: Id): (r: seq<TagDoc>)
    ensures NewestFirst(r, TagStamp)
    ensures forall t :: t in r <==> t in rows && t.author == author
  {
    GetTags(rows, TagQuery(Some(author), None, None))
  }

  /** `getItemsByTag`: every tag by `author` under `name`, newest first. */
  function GetItemsByTag(rows: seq<TagDoc>, author: Id, name: string): (r: seq<TagDoc>)
    ensures NewestFirst(r, TagStamp)
    ensures forall t :: t in r <==> t in rows && t.author == author && t.name == name
  {
    GetTags(rows, TagQuery(Some(author), None, Some(name)))
  }

  /** `getItemTags`: every tag `author` put on `item`, newest first. */
  function GetItemTags(rows: seq<TagDoc>, author: Id, item: Id): (r: seq<TagDoc>)
    ensures NewestFirst(r, TagStamp)
    ensures forall t :: t in r <==> t in rows && t.author == author && t.item == item
  {
    GetTags(rows, TagQuery(Some(author), Some(item), None))
  }

  // ---------------------------------------------------------------------------
  // What the writes do to the rows

  /** The row `add` inserts. */
  function NewTag(id: Id, author: Id, item: Id, name: string, now: nat): TagDoc
  {
    TagDoc(id, author, item, name, now)
  }

  /** A tag that passes `canCreate` keeps the collection free of repeated triples. */
  lemma AddKeepsWf(rows: seq<TagDoc>, nextId: Id, author: Id, item: Id, name: string, now: nat)
    requires Wf(rows, nextId)
    requires CanCreate(rows, Some(author), Some(item), name) == Pass
    ensures Wf(rows + [NewTag(nextId, author, item, name, now)], nextId + 1)
    ensures ReadOne(rows + [NewTag(nextId, author, item, name, now)], nextId, TagIdIs) == Some(NewTag(nextId, author, item, name, now))
  {
    var x := NewTag(nextId, author, item, name, now);
    forall i | 0 <= i < |rows| ensures TagKey(rows[i]) != TagKey(x) {
      assert rows[i] in rows;
    }
    DistinctAppend(rows, x, TagKey);
    assert (rows + [x])[|rows|] == x;
    assert forall i :: 0 <= i < |rows| ==> (rows + [x])[i] == rows[i];
  }

  /**
   * `delete` after a successful `add` of the same triple pops the tag just added
   * and gives back the collection as it was.
   */
  lemma AddThenDelete(rows: seq<TagDoc>, nextId: Id, author: Id, item: Id, name: string, now: nat)
    requires CanCreate(rows, Some(author), Some(item), name) == Pass
    ensures FirstMatch(rows + [NewTag(nextId, author, item, name, now)], (author, item, name), TagIs) == Some(|rows|)
    ensures RemoveFirst(rows + [NewTag(nextId, author, item, name, now)], (author, item, name), TagIs) == rows
  {
    PopAfterAppend(rows, NewTag(nextId, author, item, name, now), (author, item, name), TagIs);
  }

  /** Since triples are distinct, once `delete` pops a triple no tag with it is left. */
  lemma DeleteSpec(rows: seq<TagDoc>, nextId: Id, author: Id, item: Id, name: string)
    requires Wf(rows, nextId)
    requires FirstMatch(rows, (author, item, name), TagIs).Some?
    ensures Wf(RemoveFirst(rows, (author, item, name), TagIs), nextId)
    ensures !ItemHasTag(RemoveFirst(rows, (author, item, name), TagIs), author, item, name)
    ensures forall t :: t in rows && !TagIs((author, item, name), t) ==> t in RemoveFirst(rows, (author, item, name), TagIs)
  {
    var k := FirstMatch(rows, (author, item, name), TagIs).value;
    RemoveAtKeeps(rows, k);
    DistinctRemoveAt(rows, k, TagKey);
    var rest := RemoveAt(rows, k);
    forall t | t in rest ensures !TagIs((author, item, name), t) {
      var j :| 0 <= j < |rest| && rest[j] == t;
      var j' := if j < k then j else j + 1;
      assert rest[j] == rows[j'] && j' != k;
      assert TagKey(rows[j']) != TagKey(rows[k]);
    }
  }

  // ---------------------------------------------------------------------------
  // The concept's state and its writes

  class TagConcept {
    /** The `tags` collection. */
    var tags: seq<TagDoc>
    /** The next fresh object id. */
    var nextId: Id

    ghost predicate Valid()
      reads this
    {
      Wf(tags, nextId)
    }

    constructor ()
      ensures Valid() && tags == []
    {
      tags := [];
      nextId := 0;
    }

    /**
     * `add`: runs `canCreate` and passes its error on; otherwise inserts one tag
     * stamped `now` and reads it back.
     */
    method Add(author: Option<Id>, item: Option<Id>, name: string, now: nat) returns (r: Result<TagDoc>)
      requires Valid()
      modifies this
      ensures Valid()
      ensures CanCreate(old(tags), author, item, name).Fail? ==>
        r == Err(CanCreate(old(tags), author, item, name).error) && tags == old(tags) && nextId == old(nextId)
      ensures CanCreate(old(tags), author, item, name).Pass? ==>
        && r == Ok(NewTag(old(nextId), author.value, item.value, name, now))
        && tags == old(tags) + [r.value]
        && nextId == old(nextId) + 1
    {
      var c := CanCreate(tags, author, item, name);
      if c.Fail? {
        return Err(c.error);
      }
      AddKeepsWf(tags, nextId, author.value, item.value, name, now);
      var id := nextId;
      tags := tags + [TagDoc(id, author.value, item.value, name, now)];
      nextId := nextId + 1;
      r := Ok(ReadOne(tags, id, TagIdIs).value);
    }

    /**
     * `delete`: pops the tag with this triple and returns it; NotFound
     * (`TagNotFoundError`) when there is none.
     */
    method Delete(author: Id, item: Id, name: string) returns (r: Result<TagDoc>)
      requires Valid()
      modifies this
      ensures Valid() && nextId == old(nextId)
      ensures r.Err? <==> !ItemHasTag(old(tags), author, item, name)
      ensures r.Err? ==> r.error == NotFound && tags == old(tags)
      ensures r.Ok? ==>
        && r.value in old(tags) && TagIs((author, item, name), r.value)
        && tags == RemoveFirst(old(tags), (author, item, name), TagIs)
    {
      var k := FirstMatch(tags, (author, item, name), TagIs);
      if k.None? {
        return Err(NotFound);
      }
      DeleteSpec(tags, nextId, author, item, name);
      r := Ok(tags[k.value]);
      tags := RemoveFirst(tags, (author, item, name), TagIs);
    }
  }
}

# PlantedService concepts, modelled in Dafny

PlantedService is a small social-planting web service. Its server is written as
independent *concepts*, each owning one MongoDB collection: groups of users,
tags on items, a user's canvas of pinned posts, profiles, and map locations. A
browser client turns HTML forms into JSON requests. This project models the
five concepts and the client's form plumbing, and proves what they guarantee.

- `store.dfy` (module `Store`) holds what the concepts share. A collection is
  a sequence of rows in insertion order. `readOne` is the first matching row,
  `readMany` the matching rows, `popOne`/`deleteOne` remove the first match,
  `deleteMany` removes every match, and `sort: { dateUpdated: -1 }` is a stable
  insertion sort, newest first: rows with the same stamp keep store order. The three error classes are `BadValues`,
  `NotFound` and `NotAllowed`.
- Each concept is a module with a class that holds the collection and the next
  fresh object id. The class's methods perform the writes. Read-only queries are
  functions of the rows. Module-level lemmas state what each write does to the
  rows and which invariant (`Wf`) it keeps.
- `form_data.dfy` (module `FormData`) models three parts of the client:
  - the input names `fieldsToHtml` generates;
  - the `:param` substitution of `submitEventHandler`;
  - `prefixedRecordIntoObject`, which turns dotted names into a nested body.

  It proves that un-flattening the generated names gives back the nesting of
  the fields.

Object ids are natural numbers handed out by a counter. A user or post argument
is reduced to its id. The `dateUpdated` stamp the store writes is passed in as
`now`.

## Model

| member | source | states |
|---|---|---|
| Store.Select | server/concepts/tag.ts:21 | `readMany(filter)` returns exactly the rows that match, in store order |
| Store.FirstMatch | server/concepts/tag.ts:49 | `readOne` finds the first matching row, and nothing exactly when no row matches |
| Store.RemoveFirst | server/concepts/tag.ts:40 | `popOne` leaves the rows as they were exactly when none matches, and otherwise leaves one row fewer |
| Store.RemoveFirstReinserts | server/concepts/tag.ts:40 | the row `popOne` removes is the first match: putting it back at its index gives the rows back |
| Store.PopAfterAppend | server/concepts/tag.ts:40 | popping a key whose only row was just appended gives back the earlier collection |
| Store.SelectRemoveAt | server/concepts/group.ts:68 | removing one row lowers the count of a filter by one exactly when that row matched it |
| Store.SortNewestFirstCorrect | server/concepts/tag.ts:21-23 | `sort: { dateUpdated: -1 }` gives a permutation of the rows, ordered newest first |
| Store.InsertInFront | server/concepts/tag.ts:21-23 | a row at least as new as the head of the sorted rows goes in front of it, so of two rows with equal stamps the earlier one stays first |
| Store.SortEqualStampsKeepsOrder | server/concepts/tag.ts:21-23 | rows that all have the same `dateUpdated` come out of the sort in store order |
| Store.SortedMembers | server/concepts/map.ts:29-31 | sorting keeps exactly the same rows |
| Groups.GetGroupInfoSpec | server/concepts/group.ts:26-33 | NotFound exactly when the group has no named head row; otherwise the head's name and creator, and members that are exactly the users with a row in the group, the creator included |
| Groups.GetGroupsOfUser | server/concepts/group.ts:35-37 | the rows whose member is the user, from every group |
| Groups.IsInGroupSpec | server/concepts/group.ts:39-48 | NotFound for a missing group (checked first), NotAllowed for a non-member, and the head row exactly when the group exists and the user belongs to it |
| Groups.CreateSpec | server/concepts/group.ts:14-18 | the new group reads back with the creator as its only member, or as missing when the name is empty; every other group is unchanged |
| Groups.CreateWrites | server/concepts/group.ts:15-17 | the `updateOne({ _id })` finds the row `createOne` inserted, and `readOne` returns the finished head row |
| Groups.RenameSpec | server/concepts/group.ts:50-54 | renaming changes only the head row; the group reads back with the new name and the same creator and members, or as missing when the new name is empty |
| Groups.AddMemberSpec | server/concepts/group.ts:56-60 | one more row for the pair; the user is appended to the members, even when already there |
| Groups.RemoveMemberSpec | server/concepts/group.ts:62-75 | popping a non-creator member removes one occurrence of the user from the members and keeps the name and the creator |
| Groups.DeleteSpec | server/concepts/group.ts:20-24 | after `deleteMany` the group reads as missing, and every other group is unchanged |
| Groups.GroupConcept.Create | server/concepts/group.ts:14-18 | inserts the head row under a fresh id with `groupID` set to that id, and returns it |
| Groups.GroupConcept.Delete | server/concepts/group.ts:20-24 | the `isInGroup` result; on an error nothing changes, otherwise every row of the group is removed |
| Groups.GroupConcept.UpdateGroupName | server/concepts/group.ts:50-54 | passes on `getGroupInfo`'s NotFound unchanged; otherwise renames the head row and returns the group as read back |
| Groups.GroupConcept.AddMember | server/concepts/group.ts:56-60 | passes on NotFound unchanged; otherwise appends a member row and returns the group as read back |
| Groups.GroupConcept.RemoveMember | server/concepts/group.ts:62-75 | NotFound for a missing group; NotAllowed for the creator; NotFound for a non-member; otherwise pops the member's first row and returns the group as read back |
| Tags.ItemHasTag | server/concepts/tag.ts:48-51 | true exactly when some tag carries the (author, item, name) triple |
| Tags.CanCreate | server/concepts/tag.ts:53-66 | BadValues exactly when author, item or name is missing; otherwise NotAllowed exactly when the triple exists, and passes exactly when it does not |
| Tags.GetTags | server/concepts/tag.ts:20-25 | the tags matching the filter, each once, newest first |
| Tags.GetTagsByAuthor | server/concepts/tag.ts:27-29 | exactly the author's tags, newest first |
| Tags.GetItemsByTag | server/concepts/tag.ts:31-33 | exactly the author's tags with that name, newest first |
| Tags.GetItemTags | server/concepts/tag.ts:35-37 | exactly the author's tags on that item, newest first |
| Tags.AddKeepsWf | server/concepts/tag.ts:14-18 | a tag that passes `canCreate` keeps triples distinct and reads back by its id |
| Tags.AddThenDelete | server/concepts/tag.ts:39-46 | deleting the triple just added pops that tag and gives back the earlier collection |
| Tags.DeleteSpec | server/concepts/tag.ts:39-46 | after the pop no tag carries the triple; every other tag stays |
| Tags.TagConcept.Add | server/concepts/tag.ts:14-18 | passes on `canCreate`'s error with nothing written; otherwise appends the new tag and returns it |
| Tags.TagConcept.Delete | server/concepts/tag.ts:39-46 | NotFound exactly when no tag carries the triple; otherwise returns a tag with the triple and pops it |
| Canvases.UserHasPost | server/concepts/canvas.ts:44-47 | true exactly when a row pins the post to the user |
| Canvases.GetCanvas | server/concepts/canvas.ts:38-42 | every row when no id is given, otherwise exactly the user's rows |
| Canvases.AddKeepsWf | server/concepts/canvas.ts:20-27 | a pair that is not yet there keeps pairs distinct and reads back by its id |
| Canvases.AddThenRemove | server/concepts/canvas.ts:29-36 | removing the pair just added gives back the earlier collection |
| Canvases.RemoveSpec | server/concepts/canvas.ts:29-36 | after the pop the pair is gone; every other row stays |
| Canvases.CanvasConcept.DeleteCanvasFilter | server/concepts/canvas.ts:16-18 | removes exactly the rows matching every field the filter gives |
| Canvases.CanvasConcept.AddPost | server/concepts/canvas.ts:20-27 | NotAllowed with nothing written when the pair exists; otherwise appends the pair and returns it |
| Canvases.CanvasConcept.RemovePost | server/concepts/canvas.ts:29-36 | NotAllowed when the pair is absent; otherwise returns a row with that pair and pops it |
| Profiles.CanCreate | server/concepts/profile.ts:47-58 | BadValues exactly for an empty username; NotAllowed exactly when it is taken; passes exactly when it is new |
| Profiles.GetProfiles | server/concepts/profile.ts:28-33 | every profile for a missing or empty username, otherwise exactly those with that username |
| Profiles.ProfileExists | server/concepts/profile.ts:40-45 | NotFound exactly when no profile has the id |
| Profiles.CreateSpec | server/concepts/profile.ts:14-18 | a profile that passes `canCreate` gets a fresh id, reads back by it, and keeps usernames distinct |
| Profiles.UpdateSpec | server/concepts/profile.ts:35-38 | `updateOne({ _id })` patches the one profile with that id, or nothing when there is none; ids stay |
| Profiles.UpdateCanRepeatUsername | server/concepts/profile.ts:35-38 | `update` can give a profile a username another profile already has |
| Profiles.ProfileConcept.Create | server/concepts/profile.ts:14-18 | passes on `canCreate`'s error with nothing written; otherwise appends the profile and returns it |
| Profiles.ProfileConcept.Update | server/concepts/profile.ts:35-38 | the profile with the id is patched with the given fields; every other row stays |
| Locations.IsTargetUnique | server/concepts/map.ts:72-76 | never refuses: the filter is on a field `id` that no location has |
| Locations.CanCreate | server/concepts/map.ts:65-70 | BadValues exactly when the latitude or the longitude is empty, and passes otherwise |
| Locations.GetTargets | server/concepts/map.ts:28-33 | the locations matching the filter, each once, newest first |
| Locations.GetAllByLocation | server/concepts/map.ts:35-37 | exactly the locations with both coordinate strings, newest first |
| Locations.GetTargetLocation | server/concepts/map.ts:39-41 | exactly the target's locations, newest first |
| Locations.SanitizeUpdate | server/concepts/map.ts:55-63 | passes exactly when every key is `latitude` or `longitude`; otherwise NotAllowed |
| Locations.RegisterSpec | server/concepts/map.ts:22-26 | the new location gets a fresh id and reads back by it |
| Locations.RegisterTwice | server/concepts/map.ts:65-76 | registering the same target twice succeeds both times and leaves two locations for it |
| Locations.DeleteSpec | server/concepts/map.ts:50-53 | `deleteOne({ target })` removes one location of the target when there is one, and keeps every other target's |
| Locations.MapConcept.Register | server/concepts/map.ts:22-26 | BadValues with nothing written for an empty coordinate; otherwise appends the location and returns it |
| Locations.MapConcept.Delete | server/concepts/map.ts:50-53 | removes the first location of the target, if any |
| Locations.MapConcept.Update | server/concepts/map.ts:43-48 | NotAllowed exactly when the update carries a key other than `latitude` and `longitude` |
| FormData.Split | public/util.ts:369 | `key.split(".")` gives at least one piece, and no piece holds a dot |
| FormData.SplitJoin | public/util.ts:369 | splitting the dot-joined pieces gives the pieces back |
| FormData.JoinSplit | public/util.ts:369 | joining the pieces of a key with dots gives the key back |
| FormData.SetPathGet | public/util.ts:369-378 | after the walk for a key, the value sits at the key's path |
| FormData.SetPathKeeps | public/util.ts:372-376 | the walk leaves every value whose path parts ways with the key's path where it was |
| FormData.SetPathThrows | public/util.ts:372-378 | the walk throws exactly when a strict prefix of the path holds a non-empty string |
| FormData.SetPathTwice | public/util.ts:378 | walking the same path twice leaves what the second walk alone leaves |
| FormData.PrefixedRecordIntoObject | public/util.ts:363-381 | the loop builds the object the entry-by-entry fold describes, and throws exactly when the fold does |
| FormData.SkippedChangeNothing | public/util.ts:366-368 | entries with an undefined, null or empty value change nothing |
| FormData.LastEntryLands | public/util.ts:369-378 | the last entry's value is at its path; a key without dots lands at the top level |
| FormData.LaterEntryWins | public/util.ts:378 | a later entry with the same key overwrites the earlier value |
| FormData.SharedPrefix | public/util.ts:372-376 | two keys that share a prefix and then part ways both keep their values in the shared object |
| FormData.StepThroughStringThrows | public/util.ts:372-378 | a key that walks through a string set by an earlier entry makes the call throw |
| FormData.WordLength | public/util.ts:389 | the greedy `\w+` match: a run of word characters that stops at a non-word character or at the end |
| FormData.ReplaceParams | public/util.ts:389-393 | the scan loop computes the substituted endpoint and the `reqData` left over |
| FormData.NoPlaceholder | public/util.ts:389-393 | an endpoint without `:` and its `reqData` come back unchanged |
| FormData.SubstituteDeletes | public/util.ts:389-393 | a value named by a placeholder is deleted from `reqData`; every other value remains |
| FormData.SubstituteFills | public/util.ts:389-393 | with no repeated placeholder, each `:name` becomes `reqData[name]` as submitted |
| FormData.PlaceholderWithoutValue | public/util.ts:389-392 | a placeholder whose name has no value in `reqData` becomes "undefined", and `reqData` is left as it was |
| FormData.SubstituteFirstOccurrence | public/util.ts:389-393 | each placeholder becomes its name's value in `reqData` as submitted at the first occurrence of the name, and "undefined" at every later one, since the first one deleted it |
| FormData.MissingPlaceholder | public/util.ts:390-392 | an example: `/:a` with nothing submitted gives `/undefined` |
| FormData.RepeatedPlaceholder | public/util.ts:390-392 | an example: `:a/:a` with `a` set to `1` gives `1/undefined` |
| FormData.FieldNamesShift | public/util.ts:342 | the names under a longer prefix are the names under the shorter one, with the difference in front |
| FormData.FieldsRoundTrip | public/util.ts:335-347 | the inputs `fieldsToHtml` names, filled in and un-flattened into an object, add the nested object the fields describe |
| FormData.FormRoundTrip | public/util.ts:342 | un-flattening a filled-in form gives back exactly the nesting of its `Fields` tree |

## Left out

- `server/routes.ts`, `server/app.ts` and the framework code (`DocCollection`, the error classes, sessions) are not modelled. The store operations are reduced to their effect on a sequence of rows. Error messages are dropped; only the error class is kept.
- Concurrency is not modelled. Each operation runs alone, so the gap between the two writes of group creation, and between a check and a write, cannot be observed.
- MongoDB's order among rows with the same `dateUpdated` is unspecified. The model keeps store order (`Store.SortEqualStampsKeepsOrder`).
- Tags.GetTags and Locations.GetTargets: a filter is a conjunction of equalities on the listed fields (`TagQuery`, `LocationQuery`). MongoDB's other `Filter` operators (`$in`, `$gt`, `$or`, …) are not modelled. The concepts' own queries (`getTagsByAuthor`, `getItemsByTag`, `getItemTags`, `getAllByLocation`, `getTargetLocation`) pass only such filters; what a route passes is not part of this model.
- `_id`s come from a counter, and timestamps are a parameter `now`.
- User and post objects are reduced to their ids.
- Tags.TagConcept.Add: a falsy `author` or `item` is modelled as a missing id. An empty name is the only falsy string.
- Profiles.ProfileConcept.Update: the patch covers `username`, `displayName` and `photo`. A patch of `_id` or of the timestamps is not modelled.
- Locations.MapConcept.Update: only the `sanitizeUpdate` guard is modelled, and the method changes nothing. The `updateOne` that follows filters on `_id` bound to the array `getTargetLocation` returns, not an id. Its effect depends on how MongoDB matches an array against an id.
- Locations.SanitizeUpdate takes the keys of the update as a sequence. JavaScript's `for … in` key order is not modelled, and it does not change the verdict.
- FormData.PrefixedRecordIntoObject: the entries are taken in the order given. JavaScript puts integer-like keys first in `Object.entries`; that reordering is not modelled.
- FormData.PrefixedRecordIntoObject: the inner cursor loop is modelled by the recursive `SetPath` on values, not as an aliasing cursor into one mutable object.
- FormData.PrefixedRecordIntoObject: the module code is taken to run in strict mode. There, assigning into a string throws, which is modelled as None. Keys that reach `Object.prototype` members (`__proto__`, `constructor`, …) are not modelled.
- FormData.Substitute: `reqData` is a list of distinct names. A name that only exists on `Object.prototype` is treated as missing.
- FormData.FormRoundTrip assumes every input is filled in. Empty inputs are dropped (`SkippedChangeNothing`), so a group whose inputs are all empty leaves no key behind.
- In `submitEventHandler`, these are not modelled: the `JSON.parse` of `json` fields, the extra removal of empty values before un-flattening, the lookup of the operation, the request itself and the choice of no body for an empty object.
- Outside `submitEventHandler`, these are not modelled: the DOM, `fetch`, the HTML text of the forms and the static `operations` table.

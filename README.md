# Relationship-based membership visibility, modelled in Dafny

This project models the membership visibility filter of the CiviCRM extension
`relationshipMembershipACL` (class `RelationshipMembershipACLWorker`). The filter
decides which memberships a logged-in user may see.

- Each membership type is owned by an organisation contact (`member_of_contact_id`).
- The user may see a membership when the owner of its type is among the contacts
  the user may edit through relationships.
- The worker applies this rule in three places. The Contact Membership tab has
  `activeMembers`, keyed by membership id. The Membership search and the Membership
  dashboard have `rows`, keyed by row index. In each place it removes the entries
  that are not visible and leaves the others untouched.

Files:

- `wrappers.dfy`: `Option`, used wherever PHP has `null`.
- `php_arrays.dfy` (module `PhpArrays`): PHP arrays as ordered sequences of
  `key => value` slots with unique keys.
  - `Lookup` reads `$a[$k]`, `Unset` is `unset($a[$k])`, `Assign` is `$a[$k] = $v`.
  - `Filter` specifies a `foreach`/`unset` loop, and `Load` specifies a
    `while ($dao->fetch())` loop that fills an array.
  - `UnsetWhere` and `FetchKeyed` are those two loops. They are proved against
    `Filter` and `Load`.
- `membership_acl.dfy` (module `MembershipAcl`): the visibility rule and the worker.
  - The rule is `OwnerOf`, `TypeAllowed` and `MembershipVisible`.
  - `VisibleActive` and `VisibleRows` say what each screen should show.
  - The worker's five operations are methods proved against those functions.
- `membership_acl_properties.dfy` (module `MembershipAclProperties`): what the rule
  promises.
  - The results are sub-maps and keep their order.
  - A second filter changes nothing.
  - Missing or ownerless data is never shown.
  - The rule gives exact answers against the tables.
  - A worked example.

What comes from outside is passed in as a value:

- The rows the two SELECTs return form a `Database`. A NULL `member_of_contact_id`
  is `None`.
- The contacts the current user may edit, as the relationship closure computes them,
  form a `set<int>`.
- A template variable is a `TemplateVar`. It is either `NotAnArray` or an
  `ArrayValue` of slots. Each filter method returns the value that is assigned back
  to the template.

## Model

| member | source | states |
|---|---|---|
| PhpArrays.UnsetWhere | RelationshipMembershipACLWorker.php:60-66 | A `foreach`/`unset` pass keeps exactly the slots its test accepts, in their order. It never adds a slot, and the keys stay unique. |
| PhpArrays.UnsetStep | RelationshipMembershipACLWorker.php:63-65 | One turn of a `foreach`/`unset` pass drops the current slot or keeps it. The slots already visited and the slots still to come are unchanged. |
| PhpArrays.UnsetOnlySlot | RelationshipMembershipACLWorker.php:64 | `unset` of a key that only one slot holds removes just that slot. |
| PhpArrays.UnsetMissingKey | RelationshipMembershipACLWorker.php:64 | `unset` of a key the array does not hold changes nothing. |
| PhpArrays.FetchKeyed | RelationshipMembershipACLWorker.php:167-172 | The fetch loop gives an array with one slot per distinct id of the result set. Each slot holds the value of the last row with that id. |
| PhpArrays.LoadSpec | RelationshipMembershipACLWorker.php:168-170 | Assigning rows one by one gives unique keys, exactly the ids of the rows, and for each id the last row's value. |
| PhpArrays.AssignSpec | RelationshipMembershipACLWorker.php:169 | `$a[$k] = $v` makes `$a[$k]` equal to v and leaves every other key's value alone. The key set gains k, and the keys stay unique. |
| PhpArrays.LookupFindsKey | RelationshipMembershipACLWorker.php:118 | `$a[$k]` is non-null exactly when k is a key of the array. |
| PhpArrays.LookupAt | RelationshipMembershipACLWorker.php:118 | In an array with unique keys, `$a[$k]` is the value of the slot that holds k. |
| PhpArrays.LookupIsSlot | RelationshipMembershipACLWorker.php:118 | In a PHP array, `$a[$k] == v` exactly when the array holds the slot `k => v`. |
| PhpArrays.FilterMember | RelationshipMembershipACLWorker.php:60-66 | A slot is in the filtered array exactly when it was in the input and passes the test. |
| PhpArrays.FilterKeySet | RelationshipMembershipACLWorker.php:145-150 | Filtering never adds a key. |
| PhpArrays.FilterUnique | RelationshipMembershipACLWorker.php:145-150 | Filtering keeps the keys unique. |
| PhpArrays.FilterLookup | RelationshipMembershipACLWorker.php:145-150 | Filtering gives a sub-map. A key survives exactly when its slot passes the test, and a surviving key keeps its value. |
| PhpArrays.FilterKeepsNone | RelationshipMembershipACLWorker.php:145-150 | A test that rejects every slot leaves the empty array. |
| PhpArrays.FilterIsSubsequence | RelationshipMembershipACLWorker.php:95-101 | The filtered array is a subsequence of the input: the surviving slots keep their relative order. |
| PhpArrays.FilterIdempotent | RelationshipMembershipACLWorker.php:95-101 | Filtering twice with the same test gives the same result as filtering once. |
| PhpArrays.FilterKeyInLookup | RelationshipMembershipACLWorker.php:188-192 | `WHERE id IN (list)` keeps the lookup of every listed id as it was and makes every other id missing. |
| PhpArrays.KeysOfSubsequence | RelationshipMembershipACLWorker.php:152 | `array_keys` (`Keys`) of a subsequence is a subsequence of the input's keys. |
| PhpArrays.ListOf | RelationshipMembershipACLWorker.php:89 | The array built by `$l[] = v` from an empty array: slot i holds `i => vs[i]`, and the keys are unique. |
| MembershipAcl.OwnerInAgrees | RelationshipMembershipACLWorker.php:145-152 | The owner test `in_array($ownerContactId, $allowedContactIDs)` (`OwnerIn`), unsetting over the loaded type table, leaves a type's key exactly when the type is allowed. A NULL owner matches no contact. |
| MembershipAcl.TypeIdInAgrees | RelationshipMembershipACLWorker.php:61-63 | When the list holds exactly the allowed types, the tab's test `in_array($membershiptTypeId, $allowedMembershipTypeIds)` (`TypeIdIn`) agrees with the visibility rule on every record. |
| MembershipAcl.LookedUpTypeInAgrees | RelationshipMembershipACLWorker.php:118-120 | The test of getAllowedMembershipIds (`LookedUpTypeIn`) looks up the id's type and searches the allowed list for it. It agrees with the visibility rule when the list holds exactly the allowed types and the lookup answers as the membership table does. A missing lookup matches no type. |
| MembershipAcl.RowIdInAgrees | RelationshipMembershipACLWorker.php:96-98 | The second loop's test `in_array((int) $row["membership_id"], $allowedMembershipIds)` (`RowIdIn`) agrees with the visibility rule for a row whose cast id is in the list. This holds when the allowed ids are exactly the listed ids whose membership is visible. |
| MembershipAcl.AllowedMembershipTypeIds | RelationshipMembershipACLWorker.php:134-153 | A type id is in the result exactly when the owner of that type is a contact the user may edit. NULL owners and unknown types are excluded. Each id appears once, in type-table order. |
| MembershipAcl.MembershipTypeIdsForMembershipIds | RelationshipMembershipACLWorker.php:180-201 | `is_numeric` (`IsNumeric`) drops the non-numeric ids. The query runs exactly when a numeric id remains; otherwise the result is empty. The result maps each id in the `IN (...)` list (`NumericIds`) that names a membership to that membership's type, and it holds no other key. |
| MembershipAcl.AllowedMembershipIds | RelationshipMembershipACLWorker.php:113-126 | The result is the id list with every invisible id removed. The remaining ids keep their original index and order. An id remains exactly when it is listed and its membership is visible. |
| MembershipAcl.VisibleIdsOfList | RelationshipMembershipACLWorker.php:117-125 | `in_array($id, $allowedMembershipIds)` searches the values (`Values`) of the filtered list. An id is among those values exactly when it was listed and its membership exists with an allowed type. |
| MembershipAcl.CollectMembershipIds | RelationshipMembershipACLWorker.php:87-90 | The id list has one entry per row, in row order. Each entry is that row's `membership_id` under the `(int)` cast (`IntCast`). A wholly numeric value keeps its integer, and any other value becomes 0. |
| MembershipAcl.FilterMemberships | RelationshipMembershipACLWorker.php:77-104 | A `rows` value that is no array comes back unchanged. Otherwise the result keeps exactly the rows whose membership is visible, with their indexes, values and order. |
| MembershipAcl.FilterActiveMemberships | RelationshipMembershipACLWorker.php:54-69 | A value that is no array comes back unchanged. Otherwise the result keeps exactly the memberships whose type is allowed, under their own ids and in their order. |
| MembershipAclProperties.VisibleActiveIsSubMap | RelationshipMembershipACLWorker.php:60-68 | The tab's result is a sub-map of its input: no key is added, and the keys stay unique. A membership keeps its unchanged record exactly when its type is allowed. |
| MembershipAclProperties.VisibleActiveKeepsOrder | RelationshipMembershipACLWorker.php:60-66 | The tab's surviving memberships keep their relative order. |
| MembershipAclProperties.VisibleRowsAreSubsequence | RelationshipMembershipACLWorker.php:95-101 | The search and dashboard filters only remove rows. The kept rows keep their order, and a row is kept exactly when the membership its cast id names is visible. |
| MembershipAclProperties.VisibleRowsIdempotent | RelationshipMembershipACLWorker.php:95-101 | Filtering the search rows twice gives the same result as filtering once. |
| MembershipAclProperties.VisibleActiveIdempotent | RelationshipMembershipACLWorker.php:60-66 | Filtering the tab twice gives the same result as filtering once. |
| MembershipAclProperties.EmptyClosureSeesNothing | RelationshipMembershipACLWorker.php:137-150 | A user who may edit no contact is allowed no type and sees no row or tab entry. |
| MembershipAclProperties.OwnerlessTypeFailsClosed | RelationshipMembershipACLWorker.php:145-149 | With type ids unique, a type whose table row has a NULL owner, or that has no row at all, is allowed for no set of editable contacts. Its memberships are visible to nobody. |
| MembershipAclProperties.UnknownMembershipFailsClosed | RelationshipMembershipACLWorker.php:118-121 | An id that names no membership is visible to nobody. |
| MembershipAclProperties.MalformedRowIdFailsClosed | RelationshipMembershipACLWorker.php:96-99 | A row whose `membership_id` is a value that casts to 0 (`NonNumeric`) never survives, because no membership has id 0. |
| MembershipAclProperties.TypeAllowedByTable | RelationshipMembershipACLWorker.php:142-152 | With type ids unique, a type is allowed exactly when the table has a row for it whose owner the user may edit. |
| MembershipAclProperties.MembershipVisibleByTable | RelationshipMembershipACLWorker.php:113-125 | With both tables keyed uniquely, a membership is visible exactly when its row names a type whose owner the user may edit. |
| MembershipAclProperties.OneOfTwoRowsVisible | RelationshipMembershipACLWorker.php:77-104 | Types 1 and 2 are owned by organisations 7 and 9. The user may edit organisation 7. Of the rows for memberships 10 (type 1) and 11 (type 2), only row 10 is kept, at its index 0. |

## Left out

- SQL execution and DAO fetching (RelationshipMembershipACLWorker.php:161-165, 188-193). The rows the queries return are a `Database` value. The `WHERE id IN (...)` clause is modelled as a filter of the membership rows by id.
- The relationship closure `RelationshipACLQueryWorker::getContactIDsWithEditPermissions` and its version check (lines 7-10, 138-139). RelationshipACLQueryWorker.php is not part of this model. Its result for the current user is the `editable` set.
- `getCurrentUserContactID` (lines 208-221). It reads the global `$user` and calls the CiviCRM API. The contact it finds matters only through `editable`.
- Template plumbing (`getTemplate`, `get_template_vars`, `assign`), the pager script added by `addScriptFile` (line 36) and the three `*AlterTemplateFileHook` delegators (lines 23-46). A filter's input and result stand for the template variable before and after.
- relationshipMembershipACL.php: the install hook that creates the config table, the `instanceof` dispatch to the worker, and the post-save hook. The post-save hook calls `membershipPostSaveHook`, which the worker file does not define. The relationship synchroniser and the single-membership edit check are therefore not modelled.
- PHP loose comparison in `in_array`. All ids are integers and membership tests are exact. Under loose comparison a NULL owner or a missing type would equal 0. Contact and type ids are positive, so the model treats NULL and missing as matching nothing.
- PHP's `(int)` cast and `is_numeric` on strings. PHP casts a partly numeric string such as `"12abc"` to its leading integer (12), although `is_numeric` rejects it, so in the source such a row can still match an allowed id at lines 96-98. The model represents only values that are wholly numeric (`Numeric`) or that cast to 0 (`NonNumeric`). MalformedRowIdFailsClosed therefore covers only values that cast to 0.
- PHP notices are logging effects and are not modelled. One is the undefined-index notice for an id with no membership row (line 118); the model reads it as a missing type. The other is the notice for a row without `membership_id` (lines 89 and 96); the model reads that as a value that casts to 0 (`NonNumeric`).
- FilterActiveMemberships: the source has no guard for an `activeMembers` value that is no array. PHP's `foreach` then skips with a warning, and the same value is assigned back. The model returns such a value unchanged.

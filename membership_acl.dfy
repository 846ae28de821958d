/**
 * The membership visibility filter of RelationshipMembershipACLWorker.
 *
 * A user may see a membership when the organisation that owns the membership's
 * type is among the contacts the user may edit through relationships. The
 * worker applies that rule to the Contact Membership tab (`activeMembers`,
 * keyed by membership id) and to the Membership search and dashboard (`rows`,
 * keyed by row index), removing entries in place and leaving the rest as they
 * were.
 *
 * What the worker reads from outside comes in as values:
 *  - `Database`: what its two SELECTs return;
 *  - `editable`: the contacts the current user may edit, as the relationship
 *    closure computes them for the logged-in contact;
 *  - `TemplateVar`: the template variable before filtering; the method result
 *    is the value assigned back.
 */
module MembershipAcl {
  import opened Wrappers
  import opened PhpArrays

  /**
   * The result sets the worker reads:
   *  - membershipTypes: `SELECT id, member_of_contact_id FROM civicrm_membership_type`,
   *    the owner being None where the column is NULL;
   *  - memberships: (id, membership_type_id) of the rows of `civicrm_membership`.
   */
  datatype Database = Database(
    membershipTypes: seq<Entry<int, Option<int>>>,
    memberships: seq<Entry<int, int>>)

  /**
   * A membership id as a template row holds it: a wholly numeric value, or a value
   * that `(int)` turns into 0 (partly numeric strings are not represented).
   */
  datatype IdValue = Numeric(n: int) | NonNumeric

  /** PHP's `(int)` cast on the values `IdValue` represents. */
  function IntCast(v: IdValue): int
  {
    match v
    case Numeric(n) => n
    case NonNumeric => 0
  }

  /** One row of the search or dashboard results; `columns` are the other fields, never looked at. */
  datatype SearchRow = SearchRow(membershipId: IdValue, columns: map<string, string>)

  /** One record of the Contact Membership tab. */
  datatype ActiveMembership = ActiveMembership(membershipTypeId: int, columns: map<string, string>)

  /** A template variable that should hold an array: before a search, `rows` holds no array at all. */
  datatype TemplateVar<V> = NotAnArray | ArrayValue(entries: PArray<int, V>)

  predicate WellFormed<V>(t: TemplateVar<V>)
  {
    t.ArrayValue? ==> UniqueKeys(t.entries)
  }

  // ---------------------------------------------------------------------------
  // The visibility rule

  /** The owner organisation the type table gives for type t; None for a NULL owner or an unknown type. */
  function OwnerOf(db: Database, t: int): Option<int>
  {
    match Lookup(db.membershipTypes, t)
    case Some(owner) => owner
    case None => None
  }

  /** Type t is allowed when its owner is a contact the user may edit. */
  predicate TypeAllowed(db: Database, editable: set<int>, t: int)
  {
    match OwnerOf(db, t)
    case Some(c) => c in editable
    case None => false
  }

  /** Membership m is visible when it exists and its type is allowed. */
  predicate MembershipVisible(db: Database, editable: set<int>, m: int)
  {
    match Lookup(db.memberships, m)
    case Some(t) => TypeAllowed(db, editable, t)
    case None => false
  }

  function ActiveTypeAllowed(db: Database, editable: set<int>): Entry<int, ActiveMembership> -> bool
  {
    (e: Entry<int, ActiveMembership>) => TypeAllowed(db, editable, e.value.membershipTypeId)
  }

  function RowVisible(db: Database, editable: set<int>): Entry<int, SearchRow> -> bool
  {
    (e: Entry<int, SearchRow>) => MembershipVisible(db, editable, IntCast(e.value.membershipId))
  }

  function IdVisible(db: Database, editable: set<int>): Entry<int, int> -> bool
  {
    (e: Entry<int, int>) => MembershipVisible(db, editable, e.value)
  }

  /** What the Contact Membership tab should show. */
  function VisibleActive(active: PArray<int, ActiveMembership>, db: Database, editable: set<int>): PArray<int, ActiveMembership>
  {
    Filter(active, ActiveTypeAllowed(db, editable))
  }

  /** What the search and dashboard should show. */
  function VisibleRows(rows: PArray<int, SearchRow>, db: Database, editable: set<int>): PArray<int, SearchRow>
  {
    Filter(rows, RowVisible(db, editable))
  }

  // ---------------------------------------------------------------------------
  // The tests the worker's loops apply

  /** `in_array($ownerContactId, $allowedContactIDs)`; a NULL owner matches no contact. */
  function OwnerIn(editable: set<int>): Entry<int, Option<int>> -> bool
  {
    (e: Entry<int, Option<int>>) => match e.value case Some(c) => c in editable case None => false
  }

  /** `in_array($activeMember["membership_type_id"], $allowedMembershipTypeIds)` */
  function TypeIdIn(allowedTypeIds: seq<int>): Entry<int, ActiveMembership> -> bool
  {
    (e: Entry<int, ActiveMembership>) => e.value.membershipTypeId in allowedTypeIds
  }

  /** `in_array($membershipTypeIdForMembershipId[$membershipId], $allowedMembershipTypeIds)`; a missing id matches nothing. */
  function LookedUpTypeIn(typeFor: PArray<int, int>, allowedTypeIds: seq<int>): Entry<int, int> -> bool
  {
    (e: Entry<int, int>) => match Lookup(typeFor, e.value) case Some(t) => t in allowedTypeIds case None => false
  }

  /** `in_array((int) $row["membership_id"], $allowedMembershipIds)` */
  function RowIdIn(allowedIds: seq<int>): Entry<int, SearchRow> -> bool
  {
    (e: Entry<int, SearchRow>) => IntCast(e.value.membershipId) in allowedIds
  }

  /** `array_filter($ids, "is_numeric")` keeps these slots. */
  function IsNumeric(): Entry<int, IdValue> -> bool
  {
    (e: Entry<int, IdValue>) => e.value.Numeric?
  }

  /** The integers the numeric slots of ids hold: the list that goes into `WHERE id IN (...)`. */
  function NumericIds(ids: PArray<int, IdValue>): set<int>
  {
    set i | 0 <= i < |ids| && ids[i].value.Numeric? :: ids[i].value.n
  }

  // ---------------------------------------------------------------------------
  // Each test agrees with the visibility rule on the slots it is applied to

  /**
   * Unsetting, from the loaded type table, every type whose owner is not an editable
   * contact leaves exactly the allowed types.
   */
  lemma OwnerInAgrees(db: Database, editable: set<int>, t: int)
    ensures t in KeySet(Filter(Load(db.membershipTypes), OwnerIn(editable))) <==> TypeAllowed(db, editable, t)
  {
    LoadSpec(db.membershipTypes);
    FilterLookup(Load(db.membershipTypes), OwnerIn(editable), t);
    LookupFindsKey(Filter(Load(db.membershipTypes), OwnerIn(editable)), t);
  }

  /** Against the allowed type list, the tab's `in_array` test is the visibility rule. */
  lemma TypeIdInAgrees(db: Database, editable: set<int>, allowedTypeIds: seq<int>, e: Entry<int, ActiveMembership>)
    requires forall t :: t in allowedTypeIds <==> TypeAllowed(db, editable, t)
    ensures TypeIdIn(allowedTypeIds)(e) == ActiveTypeAllowed(db, editable)(e)
  {
  }

  /**
   * Against the allowed type list and a batch lookup that answers for the id as the
   * membership table does, the test of getAllowedMembershipIds is the visibility rule.
   */
  lemma LookedUpTypeInAgrees(db: Database, editable: set<int>, typeFor: PArray<int, int>, allowedTypeIds: seq<int>,
                             e: Entry<int, int>)
    requires forall t :: t in allowedTypeIds <==> TypeAllowed(db, editable, t)
    requires Lookup(typeFor, e.value) == Lookup(db.memberships, e.value)
    ensures LookedUpTypeIn(typeFor, allowedTypeIds)(e) == IdVisible(db, editable)(e)
  {
  }

  /**
   * Against the allowed ids of a list that holds the row's cast id, the second loop
   * of filterMemberships applies the visibility rule.
   */
  lemma RowIdInAgrees(db: Database, editable: set<int>, ids: seq<int>, allowedIds: seq<int>, e: Entry<int, SearchRow>)
    requires forall m :: m in allowedIds <==> m in ids && MembershipVisible(db, editable, m)
    requires IntCast(e.value.membershipId) in ids
    ensures RowIdIn(allowedIds)(e) == RowVisible(db, editable)(e)
  {
  }

  // ---------------------------------------------------------------------------
  // The worker

  /**
   * getAllowedMembershipTypeIds: the ids of the types whose owner the user may edit,
   * in the order the type table lists them, each once.
   */
  method AllowedMembershipTypeIds(db: Database, editable: set<int>) returns (typeIds: seq<int>)
    ensures forall t :: t in typeIds <==> TypeAllowed(db, editable, t)
    ensures forall i, j :: 0 <= i < j < |typeIds| ==> typeIds[i] != typeIds[j]
    ensures IsSubsequence(typeIds, Keys(Load(db.membershipTypes)))
  {
    var owners := FetchKeyed(db.membershipTypes);
    var kept := UnsetWhere(owners, OwnerIn(editable));
    typeIds := Keys(kept);
    forall t ensures t in typeIds <==> TypeAllowed(db, editable, t) {
      OwnerInAgrees(db, editable, t);
      assert t in typeIds <==> t in KeySet(kept) by {
        if t in typeIds {
          var i :| 0 <= i < |typeIds| && typeIds[i] == t;
          assert kept[i].key == t;
        }
        if t in KeySet(kept) {
          var i :| 0 <= i < |kept| && kept[i].key == t;
          assert typeIds[i] == t;
        }
      }
    }
    FilterIsSubsequence(owners, OwnerIn(editable));
    KeysOfSubsequence(kept, owners);
  }

  /**
   * getMembershipTypeIdsForMembershipIds: the type of each numeric id that names a
   * membership. Without a numeric id there is no query and the answer is empty.
   */
  method MembershipTypeIdsForMembershipIds(ids: PArray<int, IdValue>, db: Database)
    returns (typeFor: PArray<int, int>, queried: bool)
    requires UniqueKeys(ids)
    ensures queried <==> exists i :: 0 <= i < |ids| && ids[i].value.Numeric?
    ensures !queried ==> typeFor == []
    ensures UniqueKeys(typeFor)
    ensures forall m :: Lookup(typeFor, m) == if m in NumericIds(ids) then Lookup(db.memberships, m) else None
    ensures forall m :: m in KeySet(typeFor) <==> m in NumericIds(ids) && m in KeySet(db.memberships)
  {
    var numeric := Filter(ids, IsNumeric());
    FilterUnique(ids, IsNumeric());
    assert numeric == [] <==> forall i :: 0 <= i < |ids| ==> !ids[i].value.Numeric? by {
      forall i | 0 <= i < |ids| {
        FilterMember(ids, IsNumeric(), ids[i]);
      }
      if numeric != [] {
        FilterMember(ids, IsNumeric(), numeric[0]);
      }
    }
    if |numeric| == 0 {
      typeFor, queried := [], false;
      assert NumericIds(ids) == {};
      return;
    }
    var inList := set e | e in numeric :: IntCast(e.value);
    assert inList == NumericIds(ids) by {
      forall e | e in numeric ensures IntCast(e.value) in NumericIds(ids) {
        FilterMember(ids, IsNumeric(), e);
      }
      forall i | 0 <= i < |ids| && ids[i].value.Numeric? ensures ids[i].value.n in inList {
        FilterMember(ids, IsNumeric(), ids[i]);
      }
    }
    var fetched := Filter(db.memberships, KeyIn(inList));
    typeFor := FetchKeyed(fetched);
    queried := true;
    forall m ensures Lookup(typeFor, m) == if m in NumericIds(ids) then Lookup(db.memberships, m) else None {
      FilterKeyInLookup(db.memberships, inList, m);
    }
    forall m ensures m in KeySet(typeFor) <==> m in NumericIds(ids) && m in KeySet(db.memberships) {
      LookupFindsKey(typeFor, m);
      LookupFindsKey(db.memberships, m);
    }
  }

  /**
   * getAllowedMembershipIds: the slots of the id list whose membership is visible,
   * keeping their original indexes and order.
   */
  method AllowedMembershipIds(ids: seq<int>, db: Database, editable: set<int>) returns (allowed: PArray<int, int>)
    ensures allowed == Filter(ListOf(ids), IdVisible(db, editable))
    ensures forall m :: m in Values(allowed) <==> m in ids && MembershipVisible(db, editable, m)
  {
    var allowedTypeIds := AllowedMembershipTypeIds(db, editable);
    var asValues := ListOf(seq(|ids|, i requires 0 <= i < |ids| => Numeric(ids[i])));
    var typeFor, _ := MembershipTypeIdsForMembershipIds(asValues, db);
    allowed := UnsetWhere(ListOf(ids), LookedUpTypeIn(typeFor, allowedTypeIds));
    forall e | e in ListOf(ids)
      ensures LookedUpTypeIn(typeFor, allowedTypeIds)(e) == IdVisible(db, editable)(e)
    {
      var i :| 0 <= i < |ids| && ListOf(ids)[i] == e;
      assert asValues[i].value.n == e.value;
      LookedUpTypeInAgrees(db, editable, typeFor, allowedTypeIds, e);
    }
    FilterCongruence(ListOf(ids), LookedUpTypeIn(typeFor, allowedTypeIds), IdVisible(db, editable));
    VisibleIdsOfList(ids, db, editable);
  }

  /** The ids left in the filtered id list are the listed ids whose membership is visible. */
  lemma VisibleIdsOfList(ids: seq<int>, db: Database, editable: set<int>)
    ensures forall m :: m in Values(Filter(ListOf(ids), IdVisible(db, editable))) <==>
                        m in ids && MembershipVisible(db, editable, m)
  {
    var r := Filter(ListOf(ids), IdVisible(db, editable));
    forall m ensures m in Values(r) <==> m in ids && MembershipVisible(db, editable, m) {
      if m in Values(r) {
        var i :| 0 <= i < |r| && Values(r)[i] == m;
        FilterMember(ListOf(ids), IdVisible(db, editable), r[i]);
        var j :| 0 <= j < |ids| && ListOf(ids)[j] == r[i];
        assert ids[j] == m;
      }
      if m in ids && MembershipVisible(db, editable, m) {
        var j :| 0 <= j < |ids| && ids[j] == m;
        assert ListOf(ids)[j] == Entry(j, m);
        FilterMember(ListOf(ids), IdVisible(db, editable), Entry(j, m));
        var i :| 0 <= i < |r| && r[i] == Entry(j, m);
        assert Values(r)[i] == m;
      }
    }
  }

  /** The first loop of filterMemberships: `$membershipIds[] = (int) $row["membership_id"]` for each row. */
  method CollectMembershipIds(rows: PArray<int, SearchRow>) returns (ids: seq<int>)
    ensures |ids| == |rows|
    ensures forall i :: 0 <= i < |rows| ==> ids[i] == IntCast(rows[i].value.membershipId)
  {
    ids := [];
    var i := 0;
    while i < |rows|
      invariant 0 <= i <= |rows| && |ids| == i
      invariant forall j :: 0 <= j < i ==> ids[j] == IntCast(rows[j].value.membershipId)
    {
      ids := ids + [IntCast(rows[i].value.membershipId)];
      i := i + 1;
    }
  }

  /**
   * filterMemberships: before a search `rows` is no array and is left alone;
   * otherwise the rows whose membership is not visible are removed.
   */
  method FilterMemberships(rows: TemplateVar<SearchRow>, db: Database, editable: set<int>)
    returns (result: TemplateVar<SearchRow>)
    requires WellFormed(rows)
    ensures rows.NotAnArray? ==> result == rows
    ensures rows.ArrayValue? ==> result == ArrayValue(VisibleRows(rows.entries, db, editable))
  {
    if rows.NotAnArray? {
      return rows;
    }
    var ids := CollectMembershipIds(rows.entries);
    var allowed := AllowedMembershipIds(ids, db, editable);
    var kept := UnsetWhere(rows.entries, RowIdIn(Values(allowed)));
    forall e | e in rows.entries ensures RowIdIn(Values(allowed))(e) == RowVisible(db, editable)(e) {
      var i :| 0 <= i < |rows.entries| && rows.entries[i] == e;
      assert ids[i] == IntCast(e.value.membershipId);
      RowIdInAgrees(db, editable, ids, Values(allowed), e);
    }
    FilterCongruence(rows.entries, RowIdIn(Values(allowed)), RowVisible(db, editable));
    result := ArrayValue(kept);
  }

  /**
   * filterActiveMemberships: the memberships of an allowed type stay, under their
   * own ids; a value that is no array is assigned back as it was.
   */
  method FilterActiveMemberships(active: TemplateVar<ActiveMembership>, db: Database, editable: set<int>)
    returns (result: TemplateVar<ActiveMembership>)
    requires WellFormed(active)
    ensures active.NotAnArray? ==> result == active
    ensures active.ArrayValue? ==> result == ArrayValue(VisibleActive(active.entries, db, editable))
  {
    var allowedTypeIds := AllowedMembershipTypeIds(db, editable);
    if active.NotAnArray? {
      return active;
    }
    var kept := UnsetWhere(active.entries, TypeIdIn(allowedTypeIds));
    forall e | e in active.entries ensures TypeIdIn(allowedTypeIds)(e) == ActiveTypeAllowed(db, editable)(e) {
      TypeIdInAgrees(db, editable, allowedTypeIds, e);
    }
    FilterCongruence(active.entries, TypeIdIn(allowedTypeIds), ActiveTypeAllowed(db, editable));
    result := ArrayValue(kept);
  }
}

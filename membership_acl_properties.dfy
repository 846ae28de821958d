/**
 * What the visibility rule promises, stated about the specification functions
 * that the worker's methods are proved to compute.
 */
module MembershipAclProperties {
  import opened Wrappers
  import opened PhpArrays
  import opened MembershipAcl

  /**
   * The Contact Membership tab keeps a sub-map of its input: no key is added, and a
   * membership stays, with its record unchanged, exactly when its type is allowed.
   */
  lemma VisibleActiveIsSubMap(active: PArray<int, ActiveMembership>, db: Database, editable: set<int>)
    requires UniqueKeys(active)
    ensures UniqueKeys(VisibleActive(active, db, editable))
    ensures KeySet(VisibleActive(active, db, editable)) <= KeySet(active)
    ensures forall m :: Lookup(VisibleActive(active, db, editable), m) ==
                        match Lookup(active, m)
                        case Some(r) => if TypeAllowed(db, editable, r.membershipTypeId) then Some(r) else None
                        case None => None
  {
    FilterUnique(active, ActiveTypeAllowed(db, editable));
    FilterKeySet(active, ActiveTypeAllowed(db, editable));
    forall m ensures Lookup(VisibleActive(active, db, editable), m) ==
                     match Lookup(active, m)
                     case Some(r) => if TypeAllowed(db, editable, r.membershipTypeId) then Some(r) else None
                     case None => None
    {
      FilterLookup(active, ActiveTypeAllowed(db, editable), m);
    }
  }

  /** The memberships the tab keeps stay in the order the tab listed them. */
  lemma VisibleActiveKeepsOrder(active: PArray<int, ActiveMembership>, db: Database, editable: set<int>)
    ensures IsSubsequence(VisibleActive(active, db, editable), active)
  {
    FilterIsSubsequence(active, ActiveTypeAllowed(db, editable));
  }

  /**
   * Search and dashboard filtering only removes rows: the survivors keep their index
   * and their relative order, and a row survives exactly when its membership is visible.
   */
  lemma VisibleRowsAreSubsequence(rows: PArray<int, SearchRow>, db: Database, editable: set<int>)
    ensures IsSubsequence(VisibleRows(rows, db, editable), rows)
    ensures forall e :: e in VisibleRows(rows, db, editable) <==>
                        e in rows && MembershipVisible(db, editable, IntCast(e.value.membershipId))
  {
    FilterIsSubsequence(rows, RowVisible(db, editable));
    forall e ensures e in VisibleRows(rows, db, editable) <==>
                     e in rows && MembershipVisible(db, editable, IntCast(e.value.membershipId))
    {
      FilterMember(rows, RowVisible(db, editable), e);
    }
  }

  /** Filtering the search rows a second time changes nothing. */
  lemma VisibleRowsIdempotent(rows: PArray<int, SearchRow>, db: Database, editable: set<int>)
    ensures VisibleRows(VisibleRows(rows, db, editable), db, editable) == VisibleRows(rows, db, editable)
  {
    FilterIdempotent(rows, RowVisible(db, editable));
  }

  /** Filtering the tab a second time changes nothing. */
  lemma VisibleActiveIdempotent(active: PArray<int, ActiveMembership>, db: Database, editable: set<int>)
    ensures VisibleActive(VisibleActive(active, db, editable), db, editable) == VisibleActive(active, db, editable)
  {
    FilterIdempotent(active, ActiveTypeAllowed(db, editable));
  }

  /** A user who may edit no contact is allowed no type and sees no membership anywhere. */
  lemma EmptyClosureSeesNothing(db: Database, rows: PArray<int, SearchRow>, active: PArray<int, ActiveMembership>)
    ensures forall t :: !TypeAllowed(db, {}, t)
    ensures VisibleRows(rows, db, {}) == []
    ensures VisibleActive(active, db, {}) == []
  {
    FilterKeepsNone(rows, RowVisible(db, {}));
    FilterKeepsNone(active, ActiveTypeAllowed(db, {}));
  }

  /**
   * A type whose row in the type table has a NULL owner, or that has no row at all,
   * is allowed to nobody, whatever contacts the user may edit, and so are its
   * memberships.
   */
  lemma OwnerlessTypeFailsClosed(db: Database, t: int, m: int)
    requires UniqueKeys(db.membershipTypes)
    requires Entry(t, None) in db.membershipTypes || t !in KeySet(db.membershipTypes)
    ensures forall editable: set<int> :: !TypeAllowed(db, editable, t)
    ensures Lookup(db.memberships, m) == Some(t) ==> forall editable: set<int> :: !MembershipVisible(db, editable, m)
  {
    LookupFindsKey(db.membershipTypes, t);
    if Entry(t, None) in db.membershipTypes {
      LookupIsSlot(db.membershipTypes, t, None);
    }
  }

  /** An id that names no membership is visible to nobody. */
  lemma UnknownMembershipFailsClosed(db: Database, m: int)
    requires m !in KeySet(db.memberships)
    ensures forall editable: set<int> :: !MembershipVisible(db, editable, m)
  {
    LookupFindsKey(db.memberships, m);
  }

  /**
   * A row whose membership id is a value that casts to 0 never survives, since no
   * membership has id 0.
   */
  lemma MalformedRowIdFailsClosed(db: Database, editable: set<int>, rows: PArray<int, SearchRow>, e: Entry<int, SearchRow>)
    requires e.value.membershipId == NonNumeric
    requires 0 !in KeySet(db.memberships)
    ensures e !in VisibleRows(rows, db, editable)
  {
    LookupFindsKey(db.memberships, 0);
    FilterMember(rows, RowVisible(db, editable), e);
  }

  /**
   * With the type table keyed by its primary key, a type is allowed exactly when the
   * table has a row for it whose owner the user may edit: no false positives, no false
   * negatives.
   */
  lemma TypeAllowedByTable(db: Database, editable: set<int>, t: int)
    requires UniqueKeys(db.membershipTypes)
    ensures TypeAllowed(db, editable, t) <==>
            exists c :: Entry(t, Some(c)) in db.membershipTypes && c in editable
  {
    if TypeAllowed(db, editable, t) {
      var c := OwnerOf(db, t).value;
      LookupIsSlot(db.membershipTypes, t, Some(c));
    }
    forall c | Entry(t, Some(c)) in db.membershipTypes && c in editable
      ensures TypeAllowed(db, editable, t)
    {
      LookupIsSlot(db.membershipTypes, t, Some(c));
    }
  }

  /**
   * With both tables keyed by their primary keys, membership m is visible exactly when
   * its row names a type whose owner the user may edit.
   */
  lemma MembershipVisibleByTable(db: Database, editable: set<int>, m: int)
    requires UniqueKeys(db.membershipTypes) && UniqueKeys(db.memberships)
    ensures MembershipVisible(db, editable, m) <==>
            exists t, c :: Entry(m, t) in db.memberships && Entry(t, Some(c)) in db.membershipTypes && c in editable
  {
    if MembershipVisible(db, editable, m) {
      var t := Lookup(db.memberships, m).value;
      LookupIsSlot(db.memberships, m, t);
      TypeAllowedByTable(db, editable, t);
    }
    forall t, c | Entry(m, t) in db.memberships && Entry(t, Some(c)) in db.membershipTypes && c in editable
      ensures MembershipVisible(db, editable, m)
    {
      LookupIsSlot(db.memberships, m, t);
      TypeAllowedByTable(db, editable, t);
    }
  }

  /**
   * Types 1 and 2 are owned by organisations 7 and 9, memberships 10 and 11 are of
   * those types, and the user may edit organisation 7: of the two result rows only
   * the one for membership 10 stays, at its original index.
   */
  lemma OneOfTwoRowsVisible()
    ensures
      var db := Database([Entry(1, Some(7)), Entry(2, Some(9))], [Entry(10, 1), Entry(11, 2)]);
      var row10 := SearchRow(Numeric(10), map[]);
      var row11 := SearchRow(Numeric(11), map[]);
      VisibleRows([Entry(0, row10), Entry(1, row11)], db, {7}) == [Entry(0, row10)]
  {
  }
}

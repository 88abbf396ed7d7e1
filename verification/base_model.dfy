/** The lifecycle-metadata record that domain entities embed: an identifier,
    a creation time and two optional times for the last update and the soft
    delete. The clock reading and the fresh identifier that the Go methods
    fetch for themselves are parameters here, so each mutator is a pure
    function from the old record to the new one. */
module BaseModel {
  import opened Wrappers
  import ObjectId

  /** An instant, counted from Go's zero time; only its order is used. */
  type Time = int

  /** The zero time a record's creation time holds before insert. */
  const ZeroTime: Time := 0

  datatype BaseCollection = BaseCollection(
    oid: ObjectId.ObjectID,
    createdAt: Time,
    updatedAt: Option<Time>,
    deletedAt: Option<Time>)

  /** The record as declared, before any mutator has run. */
  const Zero: BaseCollection := BaseCollection(ObjectId.Nil, ZeroTime, None, None)

  /** True when the record carries a soft-delete time. */
  predicate IsDeleted(b: BaseCollection) {
    b.deletedAt.Some?
  }

  /** The identifier as 24 lower-case hexadecimal digits. */
  function GetID(b: BaseCollection): (s: string)
    ensures |s| == 24
    ensures s == ObjectId.NilHex <==> ObjectId.IsZero(b.oid)
  {
    ObjectId.ToHexIsNilHexIff(b.oid);
    ObjectId.ToHex(b.oid)
  }

  function GetCreatedAt(b: BaseCollection): Time {
    b.createdAt
  }

  function GetUpdatedAt(b: BaseCollection): Option<Time> {
    b.updatedAt
  }

  /** The soft-delete time; present exactly when the record is deleted. */
  function GetDeletedAt(b: BaseCollection): (t: Option<Time>)
    ensures t.Some? <==> IsDeleted(b)
  {
    b.deletedAt
  }

  /** Stamps the record for insertion with identifier `newId` at time `now`.
      The optional times are left as they were, so a second call replaces
      identifier and creation time but keeps any update or delete time. */
  function SetInsertMeta(b: BaseCollection, now: Time, newId: ObjectId.ObjectID): (r: BaseCollection)
    ensures r.oid == newId
    ensures GetCreatedAt(r) == now
    ensures GetUpdatedAt(r) == GetUpdatedAt(b)
    ensures GetDeletedAt(r) == GetDeletedAt(b)
    ensures IsDeleted(r) <==> IsDeleted(b)
  {
    b.(oid := newId, createdAt := now)
  }

  /** Stamps the record with the update time `now`. */
  function SetUpdateMeta(b: BaseCollection, now: Time): (r: BaseCollection)
    ensures GetUpdatedAt(r) == Some(now)
    ensures r.oid == b.oid
    ensures GetCreatedAt(r) == GetCreatedAt(b)
    ensures GetDeletedAt(r) == GetDeletedAt(b)
    ensures IsDeleted(r) <==> IsDeleted(b)
  {
    b.(updatedAt := Some(now))
  }

  /** Stamps the record as soft-deleted at `now`; a second call only moves
      the delete time. */
  function SetDeleteMeta(b: BaseCollection, now: Time): (r: BaseCollection)
    ensures IsDeleted(r)
    ensures GetDeletedAt(r) == Some(now)
    ensures r.oid == b.oid
    ensures GetCreatedAt(r) == GetCreatedAt(b)
    ensures GetUpdatedAt(r) == GetUpdatedAt(b)
  {
    b.(deletedAt := Some(now))
  }

  /** The zero record reads as never inserted, updated or deleted. */
  lemma ZeroState()
    ensures GetID(Zero) == ObjectId.NilHex
    ensures GetCreatedAt(Zero) == ZeroTime
    ensures GetUpdatedAt(Zero) == None && GetDeletedAt(Zero) == None
    ensures !IsDeleted(Zero)
  {
  }

  /** A second insert overwrites the first one's identifier and time. */
  lemma InsertOverwrites(b: BaseCollection, t1: Time, id1: ObjectId.ObjectID, t2: Time, id2: ObjectId.ObjectID)
    ensures SetInsertMeta(SetInsertMeta(b, t1, id1), t2, id2) == SetInsertMeta(b, t2, id2)
    ensures id1 != id2 ==> GetID(SetInsertMeta(b, t1, id1)) != GetID(SetInsertMeta(b, t2, id2))
  {
    ObjectId.ToHexInjective(id1, id2);
  }

  /** A second update or delete only refreshes its own time. */
  lemma RepeatRefreshes(b: BaseCollection, t1: Time, t2: Time)
    ensures SetUpdateMeta(SetUpdateMeta(b, t1), t2) == SetUpdateMeta(b, t2)
    ensures SetDeleteMeta(SetDeleteMeta(b, t1), t2) == SetDeleteMeta(b, t2)
  {
  }

  /** The three mutators write disjoint fields, so any two of them commute. */
  lemma MutatorsCommute(b: BaseCollection, t1: Time, t2: Time, id: ObjectId.ObjectID)
    ensures SetUpdateMeta(SetDeleteMeta(b, t1), t2) == SetDeleteMeta(SetUpdateMeta(b, t2), t1)
    ensures SetInsertMeta(SetUpdateMeta(b, t1), t2, id) == SetUpdateMeta(SetInsertMeta(b, t2, id), t1)
    ensures SetInsertMeta(SetDeleteMeta(b, t1), t2, id) == SetDeleteMeta(SetInsertMeta(b, t2, id), t1)
  {
  }

  /** The identifier reads back through the driver's parser. */
  lemma GetIDRoundTrip(b: BaseCollection)
    ensures ObjectId.FromHex(GetID(b)) == Some(b.oid)
  {
    ObjectId.FromHexToHex(b.oid);
  }

  /** After insert the record reads as the new identifier's rendering, which
      is the zero rendering exactly when the new identifier is zero. */
  lemma InsertedIDRendering(b: BaseCollection, now: Time, newId: ObjectId.ObjectID)
    ensures GetID(SetInsertMeta(b, now, newId)) == ObjectId.ToHex(newId)
    ensures GetID(SetInsertMeta(b, now, newId)) == ObjectId.NilHex <==> ObjectId.IsZero(newId)
  {
    ObjectId.ToHexIsNilHexIff(newId);
  }
}

/** Sequences of the record's three mutators, each carrying the clock reading
    (and, for insert, the identifier) that the call would have fetched, and
    the lifecycle invariants such sequences keep. */
module Lifecycle {
  import opened Wrappers
  import ObjectId
  import opened BaseModel

  /** One mutator call with its ambient inputs made explicit. */
  datatype Op =
    | Insert(now: Time, id: ObjectId.ObjectID)
    | Update(now: Time)
    | Delete(now: Time)

  /** The record's fields, for stating which ones a call writes. */
  datatype Field = Oid | CreatedAt | UpdatedAt | DeletedAt

  /** The fields each mutator assigns. */
  function Writes(op: Op): set<Field> {
    match op
    case Insert(_, _) => {Oid, CreatedAt}
    case Update(_) => {UpdatedAt}
    case Delete(_) => {DeletedAt}
  }

  /** True when `a` and `b` hold the same value in field `f`. */
  predicate SameField(a: BaseCollection, b: BaseCollection, f: Field) {
    match f
    case Oid => a.oid == b.oid
    case CreatedAt => a.createdAt == b.createdAt
    case UpdatedAt => a.updatedAt == b.updatedAt
    case DeletedAt => a.deletedAt == b.deletedAt
  }

  /** Performs one call. Only a delete can change whether the record is deleted. */
  function Apply(b: BaseCollection, op: Op): (r: BaseCollection)
    ensures IsDeleted(r) <==> IsDeleted(b) || op.Delete?
    ensures b.updatedAt.Some? ==> r.updatedAt.Some?
  {
    match op
    case Insert(now, id) => SetInsertMeta(b, now, id)
    case Update(now) => SetUpdateMeta(b, now)
    case Delete(now) => SetDeleteMeta(b, now)
  }

  /** Each call writes its own fields and leaves every other field alone. */
  lemma ApplyWritesOnly(b: BaseCollection, op: Op)
    ensures forall f :: f !in Writes(op) ==> SameField(Apply(b, op), b, f)
    ensures op.Insert? ==> Apply(b, op).oid == op.id && Apply(b, op).createdAt == op.now
    ensures op.Update? ==> Apply(b, op).updatedAt == Some(op.now)
    ensures op.Delete? ==> Apply(b, op).deletedAt == Some(op.now)
  {
  }

  /** True when one of the first `k` calls in `ops` is a delete. */
  predicate DeleteAmongFirst(ops: seq<Op>, k: int)
    requires 0 <= k <= |ops|
  {
    exists i :: 0 <= i < k && ops[i].Delete?
  }

  /** The first `k` calls hold a delete when the first `k - 1` do or call `k` is one. */
  lemma DeleteAmongFirstStep(ops: seq<Op>, k: int)
    requires 1 <= k <= |ops|
    ensures DeleteAmongFirst(ops, k) <==> DeleteAmongFirst(ops, k - 1) || ops[k - 1].Delete?
  {
    if DeleteAmongFirst(ops, k) && !ops[k - 1].Delete? {
      var i :| 0 <= i < k && ops[i].Delete?;
      assert 0 <= i < k - 1;
    }
  }

  /** The record after the first `k` calls of `ops`, in order. It is deleted
      exactly when it was before or one of those calls was a delete, and a
      present update time is never cleared. */
  function Run(b: BaseCollection, ops: seq<Op>, k: int): (r: BaseCollection)
    requires 0 <= k <= |ops|
    ensures IsDeleted(r) <==> IsDeleted(b) || DeleteAmongFirst(ops, k)
    ensures b.updatedAt.Some? ==> r.updatedAt.Some?
    decreases k
  {
    if k == 0 then b
    else
      DeleteAmongFirstStep(ops, k);
      Apply(Run(b, ops, k - 1), ops[k - 1])
  }

  /** The index of the last call among the first `k` that writes field `f`,
      or `None` when none of them does. */
  function LastWrite(ops: seq<Op>, k: int, f: Field): (r: Option<nat>)
    requires 0 <= k <= |ops|
    ensures r.Some? ==> r.value < k && f in Writes(ops[r.value])
    ensures r.Some? ==> forall j :: r.value < j < k ==> f !in Writes(ops[j])
    ensures r.None? ==> forall j :: 0 <= j < k ==> f !in Writes(ops[j])
    decreases k
  {
    if k == 0 then None
    else if f in Writes(ops[k - 1]) then Some(k - 1)
    else LastWrite(ops, k - 1, f)
  }

  /** The value an optional time holds after the first `k` calls: the reading
      of the last call that wrote it, or `start` when none did. */
  function LastStamp(ops: seq<Op>, k: int, f: Field, start: Option<Time>): Option<Time>
    requires 0 <= k <= |ops|
  {
    match LastWrite(ops, k, f)
    case Some(i) => Some(ops[i].now)
    case None => start
  }

  /** After the first `k` calls, the update time is the reading of the last
      update among them and the delete time that of the last delete; a time
      no call wrote keeps its starting value. So the update time is present
      exactly when it was at the start or an update ran. */
  lemma {:induction false} RunOptionalTimes(b: BaseCollection, ops: seq<Op>, k: int)
    requires 0 <= k <= |ops|
    ensures Run(b, ops, k).updatedAt == LastStamp(ops, k, UpdatedAt, b.updatedAt)
    ensures Run(b, ops, k).deletedAt == LastStamp(ops, k, DeletedAt, b.deletedAt)
    ensures Run(b, ops, k).updatedAt.Some? <==>
      b.updatedAt.Some? || exists i :: 0 <= i < k && ops[i].Update?
    decreases k
  {
    if k > 0 {
      RunOptionalTimes(b, ops, k - 1);
      var w := LastWrite(ops, k, UpdatedAt);
      if w.Some? {
        assert ops[w.value].Update?;
      } else {
        assert forall j :: 0 <= j < k ==> !ops[j].Update?;
      }
    }
  }

  /** One insert first, then only updates and deletes. */
  predicate IsLifecycle(ops: seq<Op>) {
    |ops| >= 1 && ops[0].Insert? && forall i :: 1 <= i < |ops| ==> !ops[i].Insert?
  }

  /** The clock readings never go backwards along the sequence. */
  predicate NonDecreasingClock(ops: seq<Op>) {
    forall i, j :: 0 <= i < j < |ops| ==> ops[i].now <= ops[j].now
  }

  /** Every reading is strictly later than the one before. */
  predicate IncreasingClock(ops: seq<Op>) {
    forall i, j :: 0 <= i < j < |ops| ==> ops[i].now < ops[j].now
  }

  /** The record has neither optional time, as before its first insert. */
  predicate Unstamped(b: BaseCollection) {
    b.updatedAt.None? && b.deletedAt.None?
  }

  /** Every present time lies between the creation time and `last`. */
  predicate StampsWithin(b: BaseCollection, last: Time) {
    && b.createdAt <= last
    && (b.updatedAt.Some? ==> b.createdAt <= b.updatedAt.value <= last)
    && (b.deletedAt.Some? ==> b.createdAt <= b.deletedAt.value <= last)
  }

  /** After the insert, identifier and creation time keep the insert's values. */
  lemma {:induction false} IdentityKept(b: BaseCollection, ops: seq<Op>, k: int)
    requires IsLifecycle(ops)
    requires 1 <= k <= |ops|
    ensures Run(b, ops, k).oid == ops[0].id
    ensures Run(b, ops, k).createdAt == ops[0].now
    decreases k
  {
    if k > 1 {
      IdentityKept(b, ops, k - 1);
      assert !ops[k - 1].Insert?;
    }
  }

  /** Under a clock that never goes backwards, a lifecycle that starts from an
      unstamped record keeps every present time between the creation time and
      the latest reading. */
  lemma {:induction false} StampsOrdered(b: BaseCollection, ops: seq<Op>, k: int)
    requires IsLifecycle(ops) && NonDecreasingClock(ops) && Unstamped(b)
    requires 1 <= k <= |ops|
    ensures StampsWithin(Run(b, ops, k), ops[k - 1].now)
    decreases k
  {
    if k > 1 {
      StampsOrdered(b, ops, k - 1);
      IdentityKept(b, ops, k);
      assert ops[0].now <= ops[k - 1].now;
      assert ops[k - 2].now <= ops[k - 1].now;
    }
  }

  /** One more call never removes the update time nor moves it backwards. */
  lemma UpdatedAtStep(b: BaseCollection, ops: seq<Op>, k: int)
    requires IsLifecycle(ops) && NonDecreasingClock(ops) && Unstamped(b)
    requires 2 <= k <= |ops|
    requires Run(b, ops, k - 1).updatedAt.Some?
    ensures Run(b, ops, k).updatedAt.Some?
    ensures Run(b, ops, k - 1).updatedAt.value <= Run(b, ops, k).updatedAt.value
  {
    StampsOrdered(b, ops, k - 1);
    assert ops[k - 2].now <= ops[k - 1].now;
  }

  /** The update time never moves backwards: once present at step `i` it is
      still present at any later step `j`, and its value at `j` is no earlier
      than at `i`. */
  lemma {:induction false} UpdatedAtNonDecreasing(b: BaseCollection, ops: seq<Op>, i: int, j: int)
    requires IsLifecycle(ops) && NonDecreasingClock(ops) && Unstamped(b)
    requires 1 <= i <= j <= |ops|
    requires Run(b, ops, i).updatedAt.Some?
    ensures Run(b, ops, j).updatedAt.Some?
    ensures Run(b, ops, i).updatedAt.value <= Run(b, ops, j).updatedAt.value
    decreases j - i
  {
    if j > i {
      UpdatedAtNonDecreasing(b, ops, i, j - 1);
      UpdatedAtStep(b, ops, j);
    }
  }

  /** Under a strictly increasing clock, each update's time is strictly after
      the creation time and strictly after any earlier update's time. */
  lemma UpdateStrictlyAfter(b: BaseCollection, ops: seq<Op>, i: int, j: int)
    requires IsLifecycle(ops) && IncreasingClock(ops)
    requires 1 <= i < j < |ops|
    requires ops[i].Update? && ops[j].Update?
    ensures Run(b, ops, i + 1).updatedAt.Some?
    ensures Run(b, ops, i + 1).createdAt < Run(b, ops, i + 1).updatedAt.value
    ensures Run(b, ops, j + 1).updatedAt.Some?
    ensures Run(b, ops, i + 1).updatedAt.value < Run(b, ops, j + 1).updatedAt.value
  {
    IdentityKept(b, ops, i + 1);
    assert ops[0].now < ops[i].now < ops[j].now;
  }

  /** There is no undelete: once deleted, a record stays deleted. This
      follows from `Run`'s contract, since a delete among the first `i`
      calls is also among the first `j`. */
  lemma StaysDeleted(b: BaseCollection, ops: seq<Op>, i: int, j: int)
    requires 0 <= i <= j <= |ops|
    requires IsDeleted(Run(b, ops, i))
    ensures IsDeleted(Run(b, ops, j))
  {
  }

  /** Insert, two updates and a delete under an increasing clock: the
      identifier and creation time survive, the second update is later than
      the first, and the record is deleted only after the delete. */
  lemma FullLifecycle(b: BaseCollection, t0: Time, t1: Time, t2: Time, t3: Time, id: ObjectId.ObjectID)
    requires t0 < t1 < t2 < t3
    ensures var ops := [Insert(t0, id), Update(t1), Update(t2), Delete(t3)];
            && Run(b, ops, 4).oid == id && Run(b, ops, 4).createdAt == t0
            && Run(b, ops, 2).updatedAt == Some(t1)
            && Run(b, ops, 3).updatedAt == Some(t2)
            && (IsDeleted(Run(b, ops, 3)) <==> IsDeleted(b))
            && IsDeleted(Run(b, ops, 4))
  {
    var ops := [Insert(t0, id), Update(t1), Update(t2), Delete(t3)];
    assert IsLifecycle(ops);
    IdentityKept(b, ops, 4);
  }
}

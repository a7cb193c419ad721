/** The scheduler's bookkeeping: the snapshot of records, the in-flight list
    of record ids, the job queue, and the two polling ticks that read and
    update them (`check_records` and `add_posts_to_cache`). */
module Scheduler {
  import opened Common
  import opened Timestamps
  import opened Records

  // ---------------------------------------------------------------------
  // What one admission tick decides

  /** The tests `check_records` makes of a record once it knows the record is
      not in flight: Date and Time present and non-empty, the two parse,
      `Scheduled?` is truthy and the post time is due at `now`. */
  predicate Due(r: Record, now: int) {
    && HasText(r.fields.date)
    && HasText(r.fields.time)
    && var t := ParseDateTime(r.fields.date.value, r.fields.time.value);
       t.Some? && r.fields.scheduled && ShouldPostNow(t.value, now)
  }

  /** The due test at instant `now`, as the value the pass is defined over. */
  function DueAt(now: int): Record -> bool {
    r => Due(r, now)
  }

  /** A record the tick queues when the in-flight list is `inFlight`. */
  predicate Admissible(r: Record, inFlight: seq<RecordId>, due: Record -> bool) {
    r.id !in inFlight && due(r)
  }

  /** The records one pass over `rs` queues, in snapshot order; each
      admission adds its id to the in-flight list the rest of the pass sees. */
  function Admitted(rs: seq<Record>, inFlight: seq<RecordId>, due: Record -> bool): seq<Record>
  {
    if rs == [] then []
    else if Admissible(rs[0], inFlight, due) then [rs[0]] + Admitted(rs[1..], inFlight + [rs[0].id], due)
    else Admitted(rs[1..], inFlight, due)
  }

  /** The reference definition: the records of `rs` that are admissible
      against the in-flight list as it stood before the pass. */
  function Selected(rs: seq<Record>, inFlight: seq<RecordId>, due: Record -> bool): seq<Record>
  {
    if rs == [] then []
    else (if Admissible(rs[0], inFlight, due) then [rs[0]] else []) + Selected(rs[1..], inFlight, due)
  }

  // ---------------------------------------------------------------------
  // What one reconciliation tick decides

  /** `xs.remove(x)` on a list: its first occurrence of `x` dropped; a list
      without `x` is left as it is. */
  function Remove(xs: seq<RecordId>, x: RecordId): seq<RecordId>
  {
    if xs == [] then []
    else if xs[0] == x then xs[1..]
    else [xs[0]] + Remove(xs[1..], x)
  }

  /** The in-flight list after going through the fetched records `rs` in
      order, removing one occurrence of the id of every record whose
      `Scheduled?` is truthy and whose id is still in the list. */
  function Prune(inFlight: seq<RecordId>, rs: seq<Record>): seq<RecordId>
    decreases |rs|
  {
    if rs == [] then inFlight
    else
      var next := if rs[0].fields.scheduled && rs[0].id in inFlight then Remove(inFlight, rs[0].id) else inFlight;
      Prune(next, rs[1..])
  }

  /** The number of records of `rs` with id `x` and a truthy `Scheduled?`. */
  function ScheduledWithId(rs: seq<Record>, x: RecordId): nat
  {
    if rs == [] then 0
    else (if rs[0].fields.scheduled && rs[0].id == x then 1 else 0) + ScheduledWithId(rs[1..], x)
  }

  /** Subtraction that stops at zero. */
  function Monus(a: nat, b: nat): nat {
    if a <= b then 0 else a - b
  }

  // ---------------------------------------------------------------------
  // The shared state and the ticks

  /** RECORDS, POSTS_ON_WORK and post_cache, and the `Scheduled?`-clearing
      updates the admission tick sends to the record store (with the id of
      the record each one names). */
  class SchedulerState {
    var records: seq<Record>
    var postsOnWork: seq<RecordId>
    var postCache: seq<Record>
    var updates: seq<RecordId>

    /** At most one entry per record id is in flight. */
    ghost predicate Valid()
      reads this
    {
      Distinct(postsOnWork)
    }

    /** The state at start-up: everything empty. */
    constructor ()
      ensures Valid()
      ensures records == [] && postsOnWork == [] && postCache == [] && updates == []
    {
      records := [];
      postsOnWork := [];
      postCache := [];
      updates := [];
    }

    /** One pass of `check_records` over the snapshot at instant `now`. */
    method CheckRecordsTick(now: int)
      modifies this
      ensures old(Valid()) ==> Valid()
      ensures records == old(records)
      ensures postCache == old(postCache) + Admitted(old(records), old(postsOnWork), DueAt(now))
      ensures postsOnWork == old(postsOnWork) + Ids(Admitted(old(records), old(postsOnWork), DueAt(now)))
      ensures updates == old(updates) + Ids(Admitted(old(records), old(postsOnWork), DueAt(now)))
    {
      AdmitPass(DueAt(now));
    }

    /** The loop of the tick: every record of the snapshot that is not in
        flight and passes `due` is queued, marked in flight and has its flag
        cleared in the store. */
    method AdmitPass(due: Record -> bool)
      modifies this
      ensures old(Valid()) ==> Valid()
      ensures records == old(records)
      ensures postCache == old(postCache) + Admitted(old(records), old(postsOnWork), due)
      ensures postsOnWork == old(postsOnWork) + Ids(Admitted(old(records), old(postsOnWork), due))
      ensures updates == old(updates) + Ids(Admitted(old(records), old(postsOnWork), due))
    {
      ghost var admitted: seq<Record> := [];
      for i := 0 to |records|
        invariant records == old(records)
        invariant postCache == old(postCache) + admitted
        invariant postsOnWork == old(postsOnWork) + Ids(admitted)
        invariant updates == old(updates) + Ids(admitted)
        invariant admitted + Admitted(records[i..], postsOnWork, due) == Admitted(records, old(postsOnWork), due)
        invariant old(Valid()) ==> Distinct(postsOnWork)
      {
        var record := records[i];
        PassStep(records, i, postsOnWork, admitted, Admitted(records, old(postsOnWork), due), due);
        if record.id in postsOnWork {
          continue;
        }
        if due(record) {
          AppendFresh(postsOnWork, record.id);
          IdsAppend(admitted, record);
          postCache := postCache + [record];
          postsOnWork := postsOnWork + [record.id];
          updates := updates + [record.id];
          admitted := admitted + [record];
        }
      }
      assert records[|records|..] == [];
    }

    /** One pass of `add_posts_to_cache` with the list the record store
        returned (the empty list when the read failed). */
    method AddPostsToCacheTick(fetched: seq<Record>)
      modifies this
      ensures old(Valid()) ==> Valid()
      ensures fetched == old(records) ==> records == old(records) && postsOnWork == old(postsOnWork)
      ensures fetched != old(records) ==> records == fetched && postsOnWork == Prune(old(postsOnWork), fetched)
      ensures postCache == old(postCache) && updates == old(updates)
    {
      if fetched != records {
        records := fetched;
        for i := 0 to |records|
          invariant records == fetched
          invariant postCache == old(postCache) && updates == old(updates)
          invariant Prune(postsOnWork, records[i..]) == Prune(old(postsOnWork), fetched)
          invariant old(Valid()) ==> Distinct(postsOnWork)
        {
          assert records[i..][1..] == records[i + 1..];
          var record := records[i];
          if record.fields.scheduled && record.id in postsOnWork {
            if Distinct(postsOnWork) {
              RemoveDistinct(postsOnWork, record.id);
            }
            postsOnWork := Remove(postsOnWork, record.id);
          }
        }
        assert records[|records|..] == [];
      }
    }

    /** `post_cache.get()` when the queue is not empty: the oldest job. */
    method TakeJob() returns (job: Option<Record>)
      modifies this
      ensures old(postCache) == [] ==> job == None && postCache == []
      ensures old(postCache) != [] ==> job == Some(old(postCache)[0]) && postCache == old(postCache)[1..]
      ensures records == old(records) && postsOnWork == old(postsOnWork) && updates == old(updates)
    {
      if postCache == [] {
        job := None;
      } else {
        job := Some(postCache[0]);
        postCache := postCache[1..];
      }
    }
  }

  // ---------------------------------------------------------------------
  // Helpers of the loop proofs

  /** The admission invariant carried over one record of the pass. */
  lemma PassStep(rs: seq<Record>, i: nat, inFlight: seq<RecordId>, admitted: seq<Record>, target: seq<Record>,
                 due: Record -> bool)
    requires i < |rs| && admitted + Admitted(rs[i..], inFlight, due) == target
    ensures Admissible(rs[i], inFlight, due) ==> (admitted + [rs[i]]) + Admitted(rs[i + 1..], inFlight + [rs[i].id], due) == target
    ensures !Admissible(rs[i], inFlight, due) ==> admitted + Admitted(rs[i + 1..], inFlight, due) == target
  {
    assert rs[i..][1..] == rs[i + 1..];
    assert rs[i..][0] == rs[i];
  }

  lemma IdsAppend(rs: seq<Record>, r: Record)
    ensures Ids(rs + [r]) == Ids(rs) + [r.id]
  {
  }

  lemma IdsCons(r: Record, rs: seq<Record>)
    ensures Ids([r] + rs) == [r.id] + Ids(rs)
  {
    assert ([r] + rs)[1..] == rs;
  }

  /** Helper: concatenation regrouped, kept out of the caller's proof context. */
  lemma Regroup(xs: seq<RecordId>, x: RecordId, ys: seq<RecordId>)
    ensures xs + ([x] + ys) == (xs + [x]) + ys
  {
  }

  /** Helper: the tail of a duplicate-free list. */
  lemma DistinctTail(xs: seq<RecordId>)
    requires Distinct(xs) && xs != []
    ensures Distinct(xs[1..]) && xs[0] !in xs[1..]
  {
  }

  lemma AppendFresh(xs: seq<RecordId>, x: RecordId)
    ensures Distinct(xs) && x !in xs ==> Distinct(xs + [x])
  {
  }

  lemma {:induction false} RemoveSubset(xs: seq<RecordId>, x: RecordId, y: RecordId)
    requires y in Remove(xs, x)
    ensures y in xs
  {
    if xs != [] && xs[0] != x && y != xs[0] {
      RemoveSubset(xs[1..], x, y);
    }
  }

  /** Removing an id keeps the list free of duplicates. */
  lemma {:induction false} RemoveDistinct(xs: seq<RecordId>, x: RecordId)
    requires Distinct(xs)
    ensures Distinct(Remove(xs, x))
  {
    if xs != [] && xs[0] != x {
      RemoveDistinct(xs[1..], x);
      if xs[0] in Remove(xs[1..], x) {
        RemoveSubset(xs[1..], x, xs[0]);
      }
    }
  }

  // ---------------------------------------------------------------------
  // Properties of the admission tick

  /** Every queued record comes from the snapshot, was not in flight when the
      tick began, and passed all of the tick's tests. */
  lemma {:induction false} AdmittedOnlyAdmissible(rs: seq<Record>, inFlight: seq<RecordId>, due: Record -> bool)
    ensures forall r :: r in Admitted(rs, inFlight, due) ==> r in rs && r.id !in inFlight && due(r)
  {
    if rs != [] {
      if Admissible(rs[0], inFlight, due) {
        AdmittedOnlyAdmissible(rs[1..], inFlight + [rs[0].id], due);
      } else {
        AdmittedOnlyAdmissible(rs[1..], inFlight, due);
      }
    }
  }

  /** At most once: a pass never queues an id twice nor one that is already
      in flight, so the in-flight list stays free of duplicates even when the
      snapshot repeats an id. */
  lemma {:induction false} AdmittedKeepsDistinct(rs: seq<Record>, inFlight: seq<RecordId>, due: Record -> bool)
    requires Distinct(inFlight)
    ensures Distinct(inFlight + Ids(Admitted(rs, inFlight, due)))
  {
    if rs == [] {
      assert inFlight + [] == inFlight;
    } else if Admissible(rs[0], inFlight, due) {
      var next := inFlight + [rs[0].id];
      AppendFresh(inFlight, rs[0].id);
      AdmittedKeepsDistinct(rs[1..], next, due);
      var rest := Admitted(rs[1..], next, due);
      assert Admitted(rs, inFlight, due) == [rs[0]] + rest;
      IdsCons(rs[0], rest);
      Regroup(inFlight, rs[0].id, Ids(rest));
    } else {
      AdmittedKeepsDistinct(rs[1..], inFlight, due);
    }
  }

  /** When the snapshot's ids are distinct, a pass queues exactly the records
      admissible against the in-flight list at its start. */
  lemma {:induction false} AdmittedIsSelected(rs: seq<Record>, inFlight: seq<RecordId>, extra: seq<RecordId>, due: Record -> bool)
    requires Distinct(Ids(rs))
    requires forall x :: x in extra ==> x !in Ids(rs)
    ensures Admitted(rs, inFlight + extra, due) == Selected(rs, inFlight, due)
  {
    if rs != [] {
      var r := rs[0];
      IdsCons(r, rs[1..]);
      assert [r] + rs[1..] == rs;
      assert r.id !in extra;
      assert (r.id in inFlight + extra) == (r.id in inFlight);
      assert forall x :: x in Ids(rs[1..]) ==> x in Ids(rs);
      assert r.id !in Ids(rs[1..]);
      DistinctTail(Ids(rs));
      if Admissible(r, inFlight, due) {
        assert forall x :: x in extra + [r.id] ==> x !in Ids(rs[1..]);
        AdmittedIsSelected(rs[1..], inFlight, extra + [r.id], due);
        assert inFlight + extra + [r.id] == inFlight + (extra + [r.id]);
      } else {
        AdmittedIsSelected(rs[1..], inFlight, extra, due);
      }
    }
  }

  lemma {:induction false} SelectedMembers(rs: seq<Record>, inFlight: seq<RecordId>, due: Record -> bool, r: Record)
    ensures r in Selected(rs, inFlight, due) <==> r in rs && Admissible(r, inFlight, due)
  {
    if rs != [] {
      SelectedMembers(rs[1..], inFlight, due, r);
      assert rs == [rs[0]] + rs[1..];
    }
  }

  /** Admission, both directions: with distinct snapshot ids, a record is
      queued iff it is in the snapshot, not in flight, has Date and Time that
      parse, is flagged and is due. */
  lemma AdmittedIff(rs: seq<Record>, inFlight: seq<RecordId>, due: Record -> bool, r: Record)
    requires Distinct(Ids(rs))
    ensures r in Admitted(rs, inFlight, due) <==> r in rs && r.id !in inFlight && due(r)
  {
    AdmittedIsSelected(rs, inFlight, [], due);
    assert inFlight + [] == inFlight;
    SelectedMembers(rs, inFlight, due, r);
  }

  /** The queue receives the admitted records in snapshot order. */
  lemma {:induction false} AdmittedInOrder(rs: seq<Record>, inFlight: seq<RecordId>, due: Record -> bool)
    ensures IsSubsequence(Admitted(rs, inFlight, due), rs)
  {
    if rs != [] {
      if Admissible(rs[0], inFlight, due) {
        AdmittedInOrder(rs[1..], inFlight + [rs[0].id], due);
      } else {
        AdmittedInOrder(rs[1..], inFlight, due);
      }
    }
  }

  // ---------------------------------------------------------------------
  // Properties of the reconciliation tick

  /** `remove` takes away one occurrence of `x`, if there is one, and
      nothing else. */
  lemma {:induction false} RemoveCount(xs: seq<RecordId>, x: RecordId)
    ensures multiset(Remove(xs, x)) == multiset(xs) - multiset{x}
  {
    if xs != [] {
      assert xs == [xs[0]] + xs[1..];
      if xs[0] != x {
        RemoveCount(xs[1..], x);
        assert Remove(xs, x) == [xs[0]] + Remove(xs[1..], x);
      }
    }
  }

  /** After reconciliation an id is in flight as many times as before, less
      one for every fetched record that carries it with a truthy
      `Scheduled?` (never below zero). */
  lemma {:induction false} PruneCount(inFlight: seq<RecordId>, rs: seq<Record>, x: RecordId)
    ensures multiset(Prune(inFlight, rs))[x] == Monus(multiset(inFlight)[x], ScheduledWithId(rs, x))
    decreases |rs|
  {
    if rs != [] {
      var r := rs[0];
      var next := if r.fields.scheduled && r.id in inFlight then Remove(inFlight, r.id) else inFlight;
      PruneCount(next, rs[1..], x);
      if r.fields.scheduled && r.id in inFlight {
        RemoveCount(inFlight, r.id);
      }
    }
  }

  /** Ids that no fetched record re-flags stay in flight exactly as often as
      before: clearing a record's flag in the store never releases it. */
  lemma PruneKeepsOthers(inFlight: seq<RecordId>, rs: seq<Record>, x: RecordId)
    requires ScheduledWithId(rs, x) == 0
    ensures multiset(Prune(inFlight, rs))[x] == multiset(inFlight)[x]
  {
    PruneCount(inFlight, rs, x);
  }

  lemma {:induction false} DistinctCount(xs: seq<RecordId>, x: RecordId)
    requires Distinct(xs)
    ensures multiset(xs)[x] <= 1
  {
    if xs != [] {
      assert xs == [xs[0]] + xs[1..];
      DistinctCount(xs[1..], x);
    }
  }

  lemma {:induction false} PruneDistinct(inFlight: seq<RecordId>, rs: seq<Record>)
    requires Distinct(inFlight)
    ensures Distinct(Prune(inFlight, rs))
    decreases |rs|
  {
    if rs != [] {
      if rs[0].fields.scheduled && rs[0].id in inFlight {
        RemoveDistinct(inFlight, rs[0].id);
        PruneDistinct(Remove(inFlight, rs[0].id), rs[1..]);
      } else {
        PruneDistinct(inFlight, rs[1..]);
      }
    }
  }

  /** With no duplicates in flight, reconciliation releases exactly the ids
      that some fetched record shows with a truthy `Scheduled?` again. */
  lemma PruneIff(inFlight: seq<RecordId>, rs: seq<Record>, x: RecordId)
    requires Distinct(inFlight)
    ensures Distinct(Prune(inFlight, rs))
    ensures x in Prune(inFlight, rs) <==> x in inFlight && ScheduledWithId(rs, x) == 0
  {
    PruneDistinct(inFlight, rs);
    PruneCount(inFlight, rs, x);
    DistinctCount(inFlight, x);
  }

  /** Pruning reads only each record's id and `Scheduled?`: two fetched
      lists that differ elsewhere (in `createdTime` or another column the
      scheduler does not read) release the same in-flight records. */
  lemma {:induction false} PruneReadsIdAndScheduled(inFlight: seq<RecordId>, rs: seq<Record>, rs2: seq<Record>)
    requires |rs| == |rs2|
    requires forall k :: 0 <= k < |rs| ==> rs[k].id == rs2[k].id && rs[k].fields.scheduled == rs2[k].fields.scheduled
    ensures Prune(inFlight, rs) == Prune(inFlight, rs2)
    decreases |rs|
  {
    if rs != [] {
      var next := if rs[0].fields.scheduled && rs[0].id in inFlight then Remove(inFlight, rs[0].id) else inFlight;
      PruneReadsIdAndScheduled(next, rs[1..], rs2[1..]);
    }
  }

  lemma {:induction false} RemoveLast(xs: seq<RecordId>, x: RecordId)
    requires x !in xs
    ensures Remove(xs + [x], x) == xs
  {
    if xs != [] {
      assert (xs + [x])[1..] == xs[1..] + [x];
      RemoveLast(xs[1..], x);
      assert [xs[0]] + xs[1..] == xs;
    }
  }

  /** The re-arm path. A due record is queued once; while it is in flight a
      second pass leaves it alone; a fetch that shows it unflagged keeps it
      in flight; a fetch that shows it flagged again releases it, and the
      next pass queues it a second time. */
  lemma ReArm(r: Record, inFlight: seq<RecordId>, due: Record -> bool)
    requires r.id !in inFlight && due(r) && r.fields.scheduled
    ensures Admitted([r], inFlight, due) == [r]
    ensures Admitted([r], inFlight + [r.id], due) == []
    ensures Prune(inFlight + [r.id], [r.(fields := r.fields.(scheduled := false))]) == inFlight + [r.id]
    ensures Prune(inFlight + [r.id], [r]) == inFlight
    ensures Admitted([r], Prune(inFlight + [r.id], [r]), due) == [r]
  {
    RemoveLast(inFlight, r.id);
  }

  // ---------------------------------------------------------------------
  // A worked example

  lemma HalfPastText(dt: DateTime)
    requires dt == DateTime(2024, 12, 10, 14, 30, 0)
    ensures Valid(dt) && DateText(dt, true, Wide) == "2024-12-10" && TimeText(dt, true, true) == "14:30"
  {
  }

  lemma ParsesHalfPast(dt: DateTime, date: string, time: string)
    requires dt == DateTime(2024, 12, 10, 14, 30, 0)
    requires date == "2024-12-10" && time == " 14:30 "
    ensures ParseDateTime(date, time) == Some(dt)
  {
    HalfPastText(dt);
    var x := "" + DateText(dt, true, Wide) + "";
    var y := " " + TimeText(dt, true, true) + " ";
    assert x == date && y == time;
    ParseDateTimeOfPadded(dt, true, Wide, true, true, "", "", " ", " ");
    assert ParseDateTime(x, y) == Some(dt);
  }

  /** A flagged record not in flight whose Date and Time parse to `dt` is
      queued by a pass at `now` exactly when `now` lies in the minute of
      `dt`: for 2024-12-10 14:30, a pass at 14:30:10 queues it and one at
      14:29:00 does not. */
  lemma QueuedInItsMinute(r: Record, inFlight: seq<RecordId>, dt: DateTime, now: int)
    requires HasText(r.fields.date) && HasText(r.fields.time) && r.fields.scheduled
    requires ParseDateTime(r.fields.date.value, r.fields.time.value) == Some(dt)
    requires r.id !in inFlight
    ensures Admitted([r], inFlight, DueAt(now)) == [r] <==> Seconds(dt) <= now < Seconds(dt) + 60
    ensures Admitted([r], inFlight, DueAt(now)) != [r] ==> Admitted([r], inFlight, DueAt(now)) == []
  {
    DueIffSameMinute(dt, now);
    AdmittedSingle(r, inFlight, DueAt(now));
  }

  lemma AdmittedSingle(r: Record, inFlight: seq<RecordId>, due: Record -> bool)
    ensures Admitted([r], inFlight, due) == if r.id !in inFlight && due(r) then [r] else []
  {
    assert [r][0] == r && [r][1..] == [];
  }
}

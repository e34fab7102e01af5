/**
 * The tracker's in-memory document and one run of the program over it:
 * sort the routines by cooldown, decay every cooldown by the elapsed whole
 * days, list the due routines, resolve the user's line and complete the
 * chosen routine. Loading and writing the document, the clock and the
 * console are not part of this model: the elapsed day count, the new
 * timestamp and the input line arrive as parameters, and the single write
 * is reported as a flag.
 */
module Tracker {
  import opened MachineInts
  import opened Training

  /**
   * Midway through inserting the record that started at `i`: it now sits at
   * `j`, the records up to `i` other than it are in order, and those it has
   * moved past all have a longer cooldown.
   */
  ghost predicate Inserting(s: seq<TrainingDetails>, i: nat, j: nat)
    requires j <= i < |s|
  {
    (forall p, q :: 0 <= p < q <= i && p != j && q != j ==>
       s[p].restDaysRemaining <= s[q].restDaysRemaining) &&
    (forall q :: j < q <= i ==> s[j].restDaysRemaining < s[q].restDaysRemaining)
  }

  /** Swapping the inserted record with a longer-cooldown left neighbour keeps the insertion going. */
  lemma InsertingStep(s: seq<TrainingDetails>, i: nat, j: nat)
    requires 0 < j <= i < |s| && Inserting(s, i, j)
    requires s[j - 1].restDaysRemaining > s[j].restDaysRemaining
    ensures Inserting(s[j - 1 := s[j]][j := s[j - 1]], i, j - 1)
  {
  }

  /** When the inserted record has stopped moving, the first `i + 1` records are in order. */
  lemma InsertingDone(s: seq<TrainingDetails>, i: nat, j: nat)
    requires j <= i < |s| && Inserting(s, i, j)
    requires j == 0 || s[j - 1].restDaysRemaining <= s[j].restDaysRemaining
    ensures SortedUpTo(s, i + 1)
  {
  }

  /** The stored document: when the program last ran, and the routines. */
  class TrainingDb {
    /** The timestamp of the previous run; its calendar value is opaque here. */
    var lastRun: int
    var trainings: array<TrainingDetails>

    /** A document as loaded from the store. */
    constructor (lastRun: int, records: seq<TrainingDetails>)
      ensures this.lastRun == lastRun
      ensures fresh(trainings) && trainings[..] == records
    {
      this.lastRun := lastRun;
      trainings := new TrainingDetails[|records|](i requires 0 <= i < |records| => records[i]);
    }

    /** The document used when there is no store yet: stamped now, with no routines. */
    constructor Default(now: int)
      ensures lastRun == now
      ensures fresh(trainings) && trainings[..] == []
    {
      lastRun := now;
      trainings := new TrainingDetails[0];
    }

    /**
     * Sorts the routines in place by cooldown, soonest due first. The
     * program's comparator never reports two routines as equal, so nothing
     * is promised about the order among equal cooldowns.
     */
    method SortByRestDays()
      modifies trainings
      ensures SortedByRestDays(trainings[..])
      ensures multiset(trainings[..]) == old(multiset(trainings[..]))
    {
      var i := 0;
      while i < trainings.Length
        invariant 0 <= i <= trainings.Length
        invariant SortedUpTo(trainings[..], i)
        invariant multiset(trainings[..]) == old(multiset(trainings[..]))
      {
        InsertIntoSorted(i);
        i := i + 1;
      }
    }

    /** Moves the routine at `i` left past every routine with a longer cooldown. */
    method InsertIntoSorted(i: nat)
      requires i < trainings.Length && SortedUpTo(trainings[..], i)
      modifies trainings
      ensures SortedUpTo(trainings[..], i + 1)
      ensures multiset(trainings[..]) == old(multiset(trainings[..]))
      ensures trainings[i + 1..] == old(trainings[i + 1..])
    {
      var a := trainings;
      var j := i;
      while 0 < j && a[j - 1].restDaysRemaining > a[j].restDaysRemaining
        invariant 0 <= j <= i
        invariant Inserting(a[..], i, j)
        invariant multiset(a[..]) == old(multiset(a[..]))
        invariant a[i + 1..] == old(a[i + 1..])
      {
        ghost var before := a[..];
        Swap(a, j - 1, j);
        InsertingStep(before, i, j);
        j := j - 1;
      }
      InsertingDone(a[..], i, j);
    }

    /** Exchanges two routines. */
    static method Swap(a: array<TrainingDetails>, i: nat, j: nat)
      requires i < j < a.Length
      modifies a
      ensures a[..] == old(a[..])[i := old(a[j])][j := old(a[i])]
      ensures multiset(a[..]) == old(multiset(a[..]))
    {
      a[i], a[j] := a[j], a[i];
    }

    /** Lowers every routine's cooldown by `reduceBy` days, floored at zero. */
    method ReduceRestDaysRemainingBy(reduceBy: u8)
      modifies trainings
      ensures trainings[..] == DecayAll(old(trainings[..]), reduceBy)
    {
      var a := trainings;
      for i := 0 to a.Length
        invariant forall p :: 0 <= p < i ==> a[p] == Decayed(old(a[p]), reduceBy)
        invariant forall p :: i <= p < a.Length ==> a[p] == old(a[p])
      {
        a[i] := a[i].(restDaysRemaining := SaturatingSub(a[i].restDaysRemaining, reduceBy));
      }
    }

    /** Marks the routine at `index` as done today; every other routine is left alone. */
    method CompleteAt(index: nat)
      requires index < trainings.Length
      modifies trainings
      ensures trainings[..] == old(trainings[..])[index := Completed(old(trainings[index]))]
    {
      var t := trainings[index];
      trainings[index] := t.(restDaysRemaining := t.defaultRestDays,
                             doneCount := SaturatingAdd(t.doneCount, 1));
    }

    /**
     * One run of the program. `elapsedDays` is the signed whole-day count
     * between the stored timestamp and `now`; it is cast to `u8` as is, so it
     * wraps modulo 256. `listed` is the decayed list as shown, `due` the due
     * routines as shown, and `written` says whether the document is written
     * back, which happens only when a routine was completed. `ordered` is the
     * list right after sorting.
     */
    method RunOnce(now: int, elapsedDays: int, input: string)
      returns (listed: seq<TrainingDetails>, due: seq<TrainingDetails>,
               outcome: Selection, written: bool, ghost ordered: seq<TrainingDetails>)
      modifies this, trainings
      ensures trainings == old(trainings) && lastRun == now
      ensures multiset(ordered) == old(multiset(trainings[..])) && SortedByRestDays(ordered)
      ensures listed == DecayAll(ordered, TruncateToU8(elapsedDays))
      ensures multiset(listed) == multiset(DecayAll(old(trainings[..]), TruncateToU8(elapsedDays)))
      ensures SortedByRestDays(listed)
      ensures due == Due(listed) && due == listed[..|due|]
      ensures outcome == Resolve(listed, input)
      ensures trainings[..] == ApplySelection(listed, outcome)
      ensures written <==> outcome.Resolved?
    {
      ghost var loaded := trainings[..];
      SortByRestDays();
      ordered := trainings[..];
      lastRun := now;
      var reduceBy := TruncateToU8(elapsedDays);
      ReduceRestDaysRemainingBy(reduceBy);
      listed := trainings[..];
      DecayPermutation(loaded, ordered, reduceBy);
      DecayPreservesSorted(ordered, reduceBy);
      due := Due(listed);
      DueOfSortedIsPrefix(listed);
      outcome := Resolve(listed, input);
      written := false;
      match outcome {
        case NoSelection =>
        case UnknownSelection(_) =>
        case Resolved(index) =>
          CompleteAt(index);
          written := true;
      }
    }
  }

  /**
   * Two routines, "Chest" with five days left and "Abs" with two, three days
   * after the last run, and an empty line: the list is shown as Abs then
   * Chest with cooldowns 0 and 2, only Abs is due, and nothing is written.
   */
  method ScenarioChestAbs(now: int, previous: int)
  {
    var chest := TrainingDetails("Chest", 5, 5, 0);
    var abs := TrainingDetails("Abs", 2, 2, 0);
    var db := new TrainingDb(previous, [chest, abs]);
    var listed, due, outcome, written, ordered := db.RunOnce(now, 3, "");
    assert |ordered| == 2 by {
      assert |multiset(ordered)| == |multiset([chest, abs])|;
    }
    assert ordered[0] in multiset([chest, abs]) && ordered[1] in multiset([chest, abs]);
    assert ordered == [abs, chest];
    assert listed == [abs.(restDaysRemaining := 0), chest.(restDaysRemaining := 2)];
    assert due == [abs.(restDaysRemaining := 0)];
    assert outcome == NoSelection && !written;
    assert db.trainings[..] == listed;
  }
}

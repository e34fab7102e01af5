/**
 * The value-level logic of the workout tracker: one routine's record, the
 * rest-day decay applied to every record, the "due" filter, the resolution
 * of the user's input line against the record list, and the completion
 * update of a chosen record.
 */
module Training {
  import opened MachineInts

  /** One training routine, as stored in the tracker's document. */
  datatype TrainingDetails = TrainingDetails(
    name: string,
    restDaysRemaining: u8,
    defaultRestDays: u8,
    doneCount: usize)

  datatype Option<T> = None | Some(value: T)

  /** The three outcomes of reading the user's selection line. */
  datatype Selection =
    | NoSelection                     // empty line: abort without a write
    | Resolved(index: nat)            // position of the record to complete
    | UnknownSelection(input: string) // no record has that name: abort without a write

  /** The first `n` records are non-decreasing in `restDaysRemaining`. */
  predicate SortedUpTo(s: seq<TrainingDetails>, n: nat)
    requires n <= |s|
  {
    forall p, q :: 0 <= p < q < n ==> s[p].restDaysRemaining <= s[q].restDaysRemaining
  }

  /** Non-decreasing in `restDaysRemaining`: routines due soonest come first. */
  predicate SortedByRestDays(s: seq<TrainingDetails>)
  {
    SortedUpTo(s, |s|)
  }

  /** `r` can be obtained from `s` by deleting elements, keeping the rest in order. */
  predicate IsSubsequence(r: seq<TrainingDetails>, s: seq<TrainingDetails>)
    decreases |s|
  {
    r == [] ||
    (s != [] &&
     ((r[0] == s[0] && IsSubsequence(r[1..], s[1..])) || IsSubsequence(r, s[1..])))
  }

  /** No two records share a name (the store is meant to keep names unique). */
  predicate UniqueNames(s: seq<TrainingDetails>)
  {
    forall p, q :: 0 <= p < q < |s| ==> s[p].name != s[q].name
  }

  // ---------------------------------------------------------------- decay

  /** One record after `k` days have passed: only the cooldown changes, floored at zero. */
  function Decayed(t: TrainingDetails, k: u8): (r: TrainingDetails)
    ensures r.restDaysRemaining as int == Max(0, t.restDaysRemaining as int - k as int)
    ensures r.name == t.name && r.defaultRestDays == t.defaultRestDays && r.doneCount == t.doneCount
  {
    t.(restDaysRemaining := SaturatingSub(t.restDaysRemaining, k))
  }

  /** Every record after `k` days have passed; the list keeps its length and order. */
  function DecayAll(s: seq<TrainingDetails>, k: u8): (r: seq<TrainingDetails>)
    ensures |r| == |s|
    ensures forall i :: 0 <= i < |s| ==>
      r[i].restDaysRemaining as int == Max(0, s[i].restDaysRemaining as int - k as int) &&
      r[i].name == s[i].name &&
      r[i].defaultRestDays == s[i].defaultRestDays &&
      r[i].doneCount == s[i].doneCount
  {
    seq(|s|, i requires 0 <= i < |s| => Decayed(s[i], k))
  }

  /** Decaying by zero days changes nothing. */
  lemma DecayByZero(s: seq<TrainingDetails>)
    ensures DecayAll(s, 0) == s
  {
  }

  /** Decaying by `a` then by `b` is decaying once by their sum, capped at 255. */
  lemma DecayCompose(s: seq<TrainingDetails>, a: u8, b: u8)
    ensures DecayAll(DecayAll(s, a), b) == DecayAll(s, Min(U8_MAX, a as int + b as int) as u8)
  {
  }

  /** Decay is monotone, so a list sorted by cooldown stays sorted after it. */
  lemma DecayPreservesSorted(s: seq<TrainingDetails>, k: u8)
    requires SortedByRestDays(s)
    ensures SortedByRestDays(DecayAll(s, k))
  {
  }

  /** Decay distributes over concatenation. */
  lemma DecayAppend(s: seq<TrainingDetails>, t: seq<TrainingDetails>, k: u8)
    ensures DecayAll(s + t, k) == DecayAll(s, k) + DecayAll(t, k)
  {
  }

  /** Taking one record out before decay takes its decayed image out after decay. */
  lemma DecayRemove(p: seq<TrainingDetails>, i: nat, k: u8)
    requires i < |p|
    ensures multiset(DecayAll(p, k)) ==
      multiset(DecayAll(p[..i] + p[i + 1..], k)) + multiset{Decayed(p[i], k)}
  {
    assert p == p[..i] + [p[i]] + p[i + 1..];
    DecayAppend(p[..i] + [p[i]], p[i + 1..], k);
    DecayAppend(p[..i], [p[i]], k);
    DecayAppend(p[..i], p[i + 1..], k);
    assert DecayAll([p[i]], k) == [Decayed(p[i], k)];
  }

  /** Decaying a non-empty list decays its head and its tail. */
  lemma DecayCons(s: seq<TrainingDetails>, k: u8)
    requires s != []
    ensures multiset(DecayAll(s, k)) == multiset(DecayAll(s[1..], k)) + multiset{Decayed(s[0], k)}
  {
    assert s == [s[0]] + s[1..];
    DecayAppend([s[0]], s[1..], k);
    assert DecayAll([s[0]], k) == [Decayed(s[0], k)];
  }

  /** Removing the same record from two permutations of each other leaves permutations of each other. */
  lemma RemoveMatching(p: seq<TrainingDetails>, s: seq<TrainingDetails>, i: nat)
    requires multiset(p) == multiset(s) && s != [] && i < |p| && p[i] == s[0]
    ensures multiset(p[..i] + p[i + 1..]) == multiset(s[1..])
  {
    assert p == p[..i] + [p[i]] + p[i + 1..];
    assert s == [s[0]] + s[1..];
    assert multiset(s[1..]) == multiset(s) - multiset([s[0]]);
    assert multiset(p[..i] + p[i + 1..]) == multiset(p) - multiset([p[i]]);
  }

  /** Decay maps permutations to permutations: the decayed multiset of records does not depend on their order. */
  lemma {:induction false} DecayPermutation(s: seq<TrainingDetails>, p: seq<TrainingDetails>, k: u8)
    requires multiset(p) == multiset(s)
    ensures multiset(DecayAll(p, k)) == multiset(DecayAll(s, k))
    decreases |s|
  {
    if s == [] {
      assert |p| == |multiset(p)| == 0;
    } else {
      var x := s[0];
      assert x in multiset(p);
      var i :| 0 <= i < |p| && p[i] == x;
      var rest := p[..i] + p[i + 1..];
      RemoveMatching(p, s, i);
      DecayPermutation(s[1..], rest, k);
      DecayRemove(p, i, k);
      assert multiset(DecayAll(p, k)) == multiset(DecayAll(s[1..], k)) + multiset{Decayed(x, k)};
      DecayCons(s, k);
    }
  }

  // ----------------------------------------------------------------- due

  /** The records whose cooldown has reached zero, in list order. */
  function Due(s: seq<TrainingDetails>): (r: seq<TrainingDetails>)
    ensures |r| <= |s|
    ensures forall i :: 0 <= i < |r| ==> r[i].restDaysRemaining == 0
  {
    if s == [] then []
    else if s[0].restDaysRemaining == 0 then [s[0]] + Due(s[1..])
    else Due(s[1..])
  }

  /**
   * Every record with a zero cooldown occurs in the due list as often as in
   * the list itself, and no other record occurs in it at all.
   */
  lemma {:induction false} DueCounts(s: seq<TrainingDetails>)
    ensures forall x :: multiset(Due(s))[x] == if x.restDaysRemaining == 0 then multiset(s)[x] else 0
  {
    if s != [] {
      DueCounts(s[1..]);
      assert s == [s[0]] + s[1..];
    }
  }

  /** A record is due exactly when it is in the list with a zero cooldown. */
  lemma DueMembership(s: seq<TrainingDetails>, x: TrainingDetails)
    ensures x in Due(s) <==> x in s && x.restDaysRemaining == 0
  {
  }

  /** The due records keep their relative order from the list. */
  lemma {:induction false} DueIsSubsequence(s: seq<TrainingDetails>)
    ensures IsSubsequence(Due(s), s)
  {
    if s != [] {
      DueIsSubsequence(s[1..]);
      if s[0].restDaysRemaining == 0 {
        assert Due(s)[1..] == Due(s[1..]);
      }
    }
  }

  /** A list without a zero cooldown has nothing due. */
  lemma NoneDue(s: seq<TrainingDetails>)
    requires forall j :: 0 <= j < |s| ==> s[j].restDaysRemaining > 0
    ensures Due(s) == []
  {
  }

  /** In a list sorted by cooldown the due records are exactly a prefix. */
  lemma {:induction false} DueOfSortedIsPrefix(s: seq<TrainingDetails>)
    requires SortedByRestDays(s)
    ensures Due(s) == s[..|Due(s)|]
    ensures forall i :: 0 <= i < |s| ==> (i < |Due(s)| <==> s[i].restDaysRemaining == 0)
  {
    if s == [] {
    } else if s[0].restDaysRemaining == 0 {
      var tail := s[1..];
      assert SortedByRestDays(tail);
      DueOfSortedIsPrefix(tail);
      var n := |Due(tail)|;
      assert Due(s) == s[..n + 1] by {
        assert Due(s) == [s[0]] + tail[..n];
      }
      forall i | 0 <= i < |s| ensures i < n + 1 <==> s[i].restDaysRemaining == 0 {
        if i > 0 { assert s[i] == tail[i - 1]; }
      }
    } else {
      NoneDue(s);
    }
  }

  // ----------------------------------------------------------- selection

  /** Position of the first record named `name`, like `iter_mut().find`. */
  function FirstWithName(s: seq<TrainingDetails>, name: string): (r: Option<nat>)
    ensures r.Some? ==>
      r.value < |s| && s[r.value].name == name &&
      forall j :: 0 <= j < r.value ==> s[j].name != name
    ensures r.None? <==> forall j :: 0 <= j < |s| ==> s[j].name != name
  {
    if s == [] then None
    else if s[0].name == name then Some(0)
    else match FirstWithName(s[1..], name)
      case None => None
      case Some(i) => Some(i + 1)
  }

  /**
   * The decision on the input line: an empty line aborts, a line equal to
   * some record's name (exactly, case-sensitively) selects the first such
   * record, anything else aborts as unknown.
   */
  function Resolve(s: seq<TrainingDetails>, input: string): (r: Selection)
    ensures r.NoSelection? <==> input == []
    ensures r.UnknownSelection? <==>
      input != [] && forall j :: 0 <= j < |s| ==> s[j].name != input
    ensures r.UnknownSelection? ==> r.input == input
    ensures r.Resolved? ==>
      input != [] && r.index < |s| && s[r.index].name == input &&
      forall j :: 0 <= j < r.index ==> s[j].name != input
  {
    if input == [] then NoSelection
    else match FirstWithName(s, input)
      case Some(i) => Resolved(i)
      case None => UnknownSelection(input)
  }

  /** With unique names, a non-empty input naming a record resolves to that very record. */
  lemma ResolveUnique(s: seq<TrainingDetails>, i: nat, input: string)
    requires UniqueNames(s) && i < |s| && s[i].name == input && input != []
    ensures Resolve(s, input) == Resolved(i)
  {
  }

  // ---------------------------------------------------------- completion

  /** The chosen record marked as done today: cooldown reset, counter bumped (saturating). */
  function Completed(t: TrainingDetails): (r: TrainingDetails)
    ensures r.restDaysRemaining == t.defaultRestDays
    ensures r.doneCount as int == Min(USIZE_MAX, t.doneCount as int + 1)
    ensures t.doneCount as int < USIZE_MAX ==> r.doneCount as int == t.doneCount as int + 1
    ensures r.name == t.name && r.defaultRestDays == t.defaultRestDays
  {
    t.(restDaysRemaining := t.defaultRestDays, doneCount := SaturatingAdd(t.doneCount, 1))
  }

  /** The records after the decision: only a resolved record changes, everything else is kept. */
  function ApplySelection(s: seq<TrainingDetails>, sel: Selection): (r: seq<TrainingDetails>)
    requires sel.Resolved? ==> sel.index < |s|
    ensures |r| == |s|
    ensures forall j :: 0 <= j < |s| && !(sel.Resolved? && j == sel.index) ==> r[j] == s[j]
    ensures sel.Resolved? ==>
      r[sel.index].name == s[sel.index].name &&
      r[sel.index].restDaysRemaining == s[sel.index].defaultRestDays &&
      r[sel.index].defaultRestDays == s[sel.index].defaultRestDays &&
      r[sel.index].doneCount as int == Min(USIZE_MAX, s[sel.index].doneCount as int + 1)
  {
    if sel.Resolved? then s[sel.index := Completed(s[sel.index])] else s
  }

  /**
   * The whole decision on one input line: an empty or unknown line leaves
   * every record as it was; otherwise exactly the first record with that
   * name is completed.
   */
  lemma SelectFirstOnly(s: seq<TrainingDetails>, input: string)
    ensures var r := ApplySelection(s, Resolve(s, input));
      (input == [] ==> r == s) &&
      ((forall j :: 0 <= j < |s| ==> s[j].name != input) ==> r == s) &&
      forall i :: 0 <= i < |s| && input != [] && s[i].name == input &&
                  (forall j :: 0 <= j < i ==> s[j].name != input) ==>
        r == s[i := Completed(s[i])]
  {
  }

  /** Neither decay nor completion changes any name, so unique names stay unique. */
  lemma RunPreservesUniqueNames(s: seq<TrainingDetails>, k: u8, input: string)
    requires UniqueNames(s)
    ensures var d := DecayAll(s, k); UniqueNames(ApplySelection(d, Resolve(d, input)))
  {
  }

  // ----------------------------------------------------------- scenarios

  /** A clock set back by one day casts to 255 days of decay: every routine becomes due. */
  lemma BackwardClockMakesAllDue(s: seq<TrainingDetails>)
    ensures Due(DecayAll(s, TruncateToU8(-1))) == DecayAll(s, TruncateToU8(-1))
    ensures forall i :: 0 <= i < |s| ==> DecayAll(s, TruncateToU8(-1))[i].restDaysRemaining == 0
  {
    var d := DecayAll(s, TruncateToU8(-1));
    assert TruncateToU8(-1) == 255;
    assert forall i :: 0 <= i < |d| ==> d[i].restDaysRemaining == 0;
    assert SortedByRestDays(d);
    DueOfSortedIsPrefix(d);
    if d != [] {
      assert d[|d| - 1].restDaysRemaining == 0;
    }
    assert d[..|d|] == d;
  }

  /** An absence of exactly 256 days casts to zero days of decay: nothing changes. */
  lemma FullWrapDecaysNothing(s: seq<TrainingDetails>)
    ensures DecayAll(s, TruncateToU8(256)) == s
  {
    DecayByZero(s);
  }

  /**
   * One routine "Back" with no rest left, default cooldown 3, done twice;
   * two days pass. It stays at zero, is due, and selecting it resets it to
   * three days and counts a third completion. "Legs" names nothing.
   */
  lemma ScenarioBack()
    ensures var back := TrainingDetails("Back", 0, 3, 2);
      var listed := DecayAll([back], TruncateToU8(2));
      listed == [back] && Due(listed) == [back] &&
      Resolve(listed, "Back") == Resolved(0) &&
      ApplySelection(listed, Resolve(listed, "Back")) == [TrainingDetails("Back", 3, 3, 3)] &&
      Resolve(listed, "Legs") == UnknownSelection("Legs") &&
      ApplySelection(listed, Resolve(listed, "Legs")) == listed &&
      Resolve(listed, "") == NoSelection
  {
  }
}

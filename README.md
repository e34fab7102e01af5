# Trainingtracker core in Dafny

A model of the workout scheduler in `src/main.rs` of Trainingtracker. The program
keeps a list of training routines (`TrainingDetails`). Each routine has a name, a
`u8` count of rest days still to wait, a `u8` default cooldown, and a `usize`
count of how often it was done. It also stores the timestamp of the last run. One
run of the program does five things:

1. It sorts the routines by remaining rest days.
2. It lowers every cooldown by the number of whole days since the last run. The
   day count is cast to `u8`, and the subtraction saturates at zero.
3. It lists the routines and the due ones, meaning those with a zero cooldown.
4. It reads one line. An empty line aborts. A line equal to a routine's name
   selects the first routine with that name. Any other line aborts as unknown.
5. For a selected routine, it resets the cooldown to the default and adds one to
   the counter, saturating. Then it writes the document back.

Files:

- `machine_ints.dfy` (module `MachineInts`): the `u8` and `usize` types, the
  saturating subtraction and addition, and the `as u8` cast of the day count.
- `training.dfy` (module `Training`): the record as a datatype. Decay, the due
  filter, name lookup, the three-way resolution and completion are functions on
  values, with lemmas about them.
- `tracker.dfy` (module `Tracker`): the document as a class `TrainingDb` over an
  array of records. It has an in-place insertion sort, the in-place decay loop,
  in-place completion, and `RunOnce`, which is one pass of `main` without I/O.
  The client method `ScenarioChestAbs` runs `RunOnce` on "Chest" (5 days left)
  and "Abs" (2 days left) after three days, with an empty line. It proves that
  the shown list is Abs at 0 then Chest at 2, that only Abs is due, and that
  nothing is written.

### Behaviour of the code worth knowing

- **Negative day counts.** A negative day count (the clock was set back) is not
  clamped to zero. `whole_days() as u8` keeps the low eight bits, so a count of
  -1 lowers every cooldown by 255, and every routine becomes due. A count of 256
  or more also wraps: 256 days lower nothing. `MachineInts.TruncateToU8`
  states this.
- **Order among equal cooldowns.** The sort comparator never answers `Equal`, so
  the order among routines with equal cooldowns is not promised. The model
  promises only a sorted permutation.
- **One write per run.** The document is written once, and only after a
  completion (`src/main.rs:104`). The decayed cooldowns and the new `last_run`
  are lost when the line is empty or unknown. `RunOnce` reports this with its
  `written` flag.

## Model

| member | source | states |
|---|---|---|
| `MachineInts.SaturatingSub` | src/main.rs:109 | `saturating_sub` on `u8` gives `max(0, a - b)`. The result is never above `a`, and it is zero exactly when `a <= b`. |
| `MachineInts.SaturatingAdd` | src/main.rs:103 | `saturating_add` on `usize` gives `min(usize::MAX, a + b)` and never decreases. |
| `MachineInts.TruncateToU8` | src/main.rs:71-75 | The amount passed to decay agrees with the day count modulo 256. Counts 0..255 pass unchanged. Negative counts and counts of 256 or more wrap and are not clamped. |
| `MachineInts.TruncatePeriodic` | src/main.rs:75 | Day counts that differ by a multiple of 256 decay by the same amount. |
| `Training.Decayed` | src/main.rs:108-110 | One record after decay by `k`: the cooldown is `max(0, old - k)`. The name, default cooldown and counter are unchanged. |
| `Training.DecayAll` | src/main.rs:107-111 | Decay of the whole list keeps its length and order. Each record's cooldown becomes `max(0, old - k)`, and every other field is kept. |
| `Training.DecayByZero` | src/main.rs:109 | Decaying by zero days leaves the list identical. |
| `Training.DecayCompose` | src/main.rs:109 | Decaying by `a` and then by `b` equals decaying once by `min(255, a + b)`. |
| `Training.DecayPreservesSorted` | src/main.rs:107-111 | Decay is monotone, so a list sorted by cooldown (lines 57-63) is still sorted after it. |
| `Training.DecayPermutation` | src/main.rs:107-111 | Decaying a reordering of the list gives a reordering of the decayed list. So sorting before decay shows the same records as decaying the loaded list. |
| `Training.Due` | src/main.rs:81-84 | The due list is no longer than the list, and every record in it has a zero cooldown. |
| `Training.DueCounts` | src/main.rs:81-84 | Every record with a zero cooldown occurs in the due list exactly as often as in the list. No other record occurs in it. |
| `Training.DueMembership` | src/main.rs:81-84 | A record is due if and only if it is in the list and its cooldown is zero. |
| `Training.DueIsSubsequence` | src/main.rs:81-84 | The due records keep their relative order from the list. |
| `Training.NoneDue` | src/main.rs:81-84 | If no cooldown is zero, the due list is empty. |
| `Training.DueOfSortedIsPrefix` | src/main.rs:81-84 | In a list sorted by cooldown, the due records are exactly the leading records with a zero cooldown. |
| `Training.FirstWithName` | src/main.rs:91-95 | The lookup (`iter_mut().find`) returns the first index whose name equals the line exactly, or nothing if and only if no name matches. |
| `Training.Resolve` | src/main.rs:88-100 | The three-way decision. Empty line if and only if `NoSelection`. Non-empty line matching no name if and only if `UnknownSelection` carrying the line. Otherwise `Resolved` at the first record with that name. |
| `Training.ResolveUnique` | src/main.rs:91-95 | When names are unique, a non-empty line equal to a record's name resolves to that record. |
| `Training.Completed` | src/main.rs:102-103 | Completion sets the cooldown to the default cooldown. It raises the counter by one, or keeps it at `usize::MAX`. The name and default cooldown are unchanged. |
| `Training.ApplySelection` | src/main.rs:88-103 | After the decision, only a resolved record changes, and it changes as completion says. Every other record is kept. |
| `Training.SelectFirstOnly` | src/main.rs:88-103 | An empty line leaves every record unchanged, and so does a line matching no name. Otherwise exactly the first record with that name is completed. |
| `Training.RunPreservesUniqueNames` | src/main.rs:75-103 | Decay and completion change no name, so names that were unique stay unique. |
| `Training.BackwardClockMakesAllDue` | src/main.rs:71-75 | A day count of -1 (clock set back one day) casts to 255 days of decay. Every cooldown becomes zero, and the due list is the whole list. |
| `Training.FullWrapDecaysNothing` | src/main.rs:71-75 | A day count of exactly 256 casts to zero days of decay, so the list is unchanged. |
| `Training.ScenarioBack` | src/main.rs:81-103 | Take "Back" with cooldown 0, default 3 and done 2, after two days. It stays at 0 and is due. Selecting it yields cooldown 3 and done 3. The line "Legs" is unknown and changes nothing. The empty line is no selection. |
| `Tracker.InsertingStep` | src/main.rs:57-63 | One swap of the insertion sort keeps its invariant: the other records up to `i` are in order, and the records passed so far have longer cooldowns. |
| `Tracker.InsertingDone` | src/main.rs:57-63 | When the inserted record stops moving, the first `i + 1` records are in cooldown order. |
| `Tracker.TrainingDb.constructor` | src/main.rs:20-24 | A loaded document holds the given timestamp and records. |
| `Tracker.TrainingDb.Default` | src/main.rs:26-33 | The document used when no store exists is stamped `now` and has no routines. |
| `Tracker.TrainingDb.SortByRestDays` | src/main.rs:57-63 | The sort leaves the routines non-decreasing by cooldown, and they are a permutation of the routines before it. |
| `Tracker.TrainingDb.InsertIntoSorted` | src/main.rs:57-63 | One insertion step extends the sorted prefix by one record, keeps the same multiset of routines, and leaves every routine after index `i` where it was. |
| `Tracker.TrainingDb.ReduceRestDaysRemainingBy` | src/main.rs:107-111 | The in-place loop leaves the array equal to `DecayAll` of its old contents. |
| `Tracker.TrainingDb.CompleteAt` | src/main.rs:102-103 | In-place completion changes only the chosen element, which becomes `Completed` of its old value. |
| `Tracker.TrainingDb.RunOnce` | src/main.rs:57-105 | One pass of `main`: the routines are sorted, `last_run` becomes `now`, and every cooldown is decayed by the day count cast to `u8`. The shown list is sorted and is a permutation of the decayed loaded list. The due list is its leading zero-cooldown part. The line is resolved against the shown list, and only a resolved routine is completed. The document is written if and only if a routine was completed. |

## Left out

- Persistence through the `json_store_rs` library is not modelled: `load`, `setup`, `write`, the path
  lookup via `home_dir` and the panics on unreadable content (`src/main.rs:1-3,
  35-56, 104`). These are library calls and file I/O. A loaded document is taken
  as constructor input, and the write is reported as the `written` flag.
- The clock is not modelled: `now_local`, `replace_time` and the subtraction of
  two `OffsetDateTime` values into whole days (`src/main.rs:29, 65-67, 71`).
  Timestamps are opaque integers. The whole-day count is a parameter of
  `RunOnce`, and its tie to the two timestamps is not modelled. Nor is the
  signed 64-bit range of that count.
- Console I/O is not modelled: the prints, the flush, and the read of one line
  from standard input with its panic on a closed stream. The shown lists are
  returned instead, and the line is a parameter.
- The unused local `path` (`src/main.rs:44-45`) and the Serde derives are not
  modelled.
- The algorithm behind the library `sort_by` is not modelled, because it is
  library code. The model uses its own insertion sort, which moves a routine
  left only while the comparator says `Greater`. Its contract promises a sorted
  permutation and nothing about the order among equal cooldowns.
- `usize` is taken to be 64 bits wide.

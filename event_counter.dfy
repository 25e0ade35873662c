/**
  `issue_event_id` over the one-slot `EVENT_ID` array.

  Line 28 of main.rs writes `*current = *current.wrapping_add(1);`. Method-call
  binds tighter than `*`, so `wrapping_add(1)` advances the pointer by one
  `u64` and the slot receives whatever eight bytes follow it, not its own
  value plus one. `IssueAsWritten` models that line; the rest of the model
  uses `Issue`, the evidently intended wrapping increment. The slot lookup
  `get_ptr_mut(0)` on a one-entry array cannot fail and is not modelled as
  an error path.
 */
module EventCounter {
  import opened MachineInts

  /** Intended behaviour: the slot becomes `old + 1` (mod 2^64) and is returned. */
  function Issue(slot: u64): (id: u64)
    ensures slot < U64_MAX ==> id == slot + 1
    ensures slot == U64_MAX ==> id == 0
  {
    WrappingAdd(slot, 1)
  }

  /**
    Behaviour as written: the slot becomes, and the call returns, the `u64`
    stored just after the slot (`adjacent`), whatever the slot held.
   */
  function IssueAsWritten(slot: u64, adjacent: u64): u64
  {
    adjacent
  }

  /**
    As written, two successive issuances with unchanged neighbouring memory
    hand out the same id, and the id never depends on the counter.
   */
  lemma IssueAsWrittenRepeats(slot: u64, other: u64, adjacent: u64)
    ensures IssueAsWritten(IssueAsWritten(slot, adjacent), adjacent) == IssueAsWritten(slot, adjacent)
    ensures IssueAsWritten(slot, adjacent) == IssueAsWritten(other, adjacent)
  {
  }

  /** A concrete instance: from a zeroed slot followed by zeroed memory, id 0 is issued twice. */
  lemma IssueAsWrittenFromZero()
    ensures IssueAsWritten(0, 0) == 0 && IssueAsWritten(IssueAsWritten(0, 0), 0) == 0
    ensures Issue(0) == 1 && Issue(Issue(0)) == 2
  {
  }

  /** The ids `n` successive intended issuances return, starting from `slot`. */
  function IssueMany(slot: u64, n: nat): (ids: seq<u64>)
    ensures |ids| == n
    decreases n
  {
    if n == 0 then [] else [Issue(slot)] + IssueMany(Issue(slot), n - 1)
  }

  /**
    Until the 64-bit boundary, successive issuances return `slot + 1`,
    `slot + 2`, ...: strictly increasing, hence pairwise distinct.
   */
  lemma {:induction false} IssueManyIncreasing(slot: u64, n: nat)
    requires slot + n <= U64_MAX
    ensures forall i :: 0 <= i < n ==> IssueMany(slot, n)[i] == slot + i + 1
    ensures forall i, j :: 0 <= i < j < n ==> IssueMany(slot, n)[i] < IssueMany(slot, n)[j]
    decreases n
  {
    if n > 0 {
      IssueManyIncreasing(slot + 1, n - 1);
      var ids := IssueMany(slot, n);
      assert ids[1..] == IssueMany(slot + 1, n - 1);
      forall i | 0 <= i < n ensures ids[i] == slot + i + 1 {
        if i > 0 { assert ids[i] == ids[1..][i - 1]; }
      }
    }
  }
}

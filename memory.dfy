/**
 * The memory registers: a list of slots plus the index of the active slot,
 * which is the default target of the single-operand memory keys. Writes to
 * an existing slot change that slot only; writes past the end grow the list
 * with empty slots while it holds fewer than 10.
 */
module Memory {
  import opened Wrappers
  import opened Types

  const MaxMemorySlots: nat := 10

  /** The slot the padding loop pushes: value 0, no label. */
  const EmptySlot: MemorySlot := MemorySlot(0.0, None)

  function Zeros(n: nat): (z: seq<MemorySlot>)
    ensures |z| == n && forall i :: 0 <= i < n ==> z[i] == EmptySlot
  {
    seq(n, _ => EmptySlot)
  }

  /**
   * The copy-then-grow step of add, subtract and store: push empty slots
   * until the list reaches the target index, then push the new slot there.
   */
  method PadAndPush(prev: seq<MemorySlot>, target: nat, last: MemorySlot) returns (updated: seq<MemorySlot>)
    requires |prev| <= target
    ensures |updated| == target + 1
    ensures updated[..|prev|] == prev
    ensures forall i :: |prev| <= i < target ==> updated[i] == EmptySlot
    ensures updated[target] == last
    ensures updated == prev + Zeros(target - |prev|) + [last]
  {
    updated := prev;
    while |updated| < target
      invariant |prev| <= |updated| <= target
      invariant updated == prev + Zeros(|updated| - |prev|)
    {
      updated := updated + [EmptySlot];
    }
    updated := updated + [last];
  }

  /** The list after a write that misses every slot: grown when it is short, else as it was. */
  function Grown(prev: seq<MemorySlot>, target: nat, last: MemorySlot): (s: seq<MemorySlot>)
    requires target >= |prev|
  {
    if |prev| < MaxMemorySlots then prev + Zeros(target - |prev|) + [last] else prev
  }

  /** The capacity guard looks at the old length only: one write can take a short list past 10 slots. */
  lemma GrownLength(prev: seq<MemorySlot>, target: nat, last: MemorySlot)
    requires target >= |prev|
    ensures |prev| < MaxMemorySlots ==> |Grown(prev, target, last)| == target + 1
    ensures |prev| >= MaxMemorySlots ==> Grown(prev, target, last) == prev
    ensures Grown(prev, target, last)[..|prev|] == prev
    ensures |prev| < MaxMemorySlots && target >= MaxMemorySlots ==> |Grown(prev, target, last)| > MaxMemorySlots
  {
  }

  class MemoryState {
    var slots: seq<MemorySlot>
    var activeSlot: nat

    /** The slots come from storage; the active slot starts at 0. */
    constructor (saved: seq<MemorySlot>)
      ensures slots == saved && activeSlot == 0
    {
      slots := saved;
      activeSlot := 0;
    }

    /** `slotIndex ?? activeSlot`: an omitted index means the active slot. */
    function Target(slotIndex: Option<nat>): (t: nat)
      reads this
      ensures slotIndex.Some? ==> t == slotIndex.value
      ensures slotIndex.None? ==> t == activeSlot
    {
      if slotIndex.Some? then slotIndex.value else activeSlot
    }

    /** Add value to the target slot, keeping its label; or grow the list ending in value. */
    method MemoryAdd(value: real, slotIndex: Option<nat>)
      modifies this
      ensures var t := old(Target(slotIndex));
              if t < |old(slots)| then
                slots == old(slots)[t := old(slots)[t].(value := old(slots)[t].value + value)]
              else
                slots == Grown(old(slots), t, MemorySlot(value, None))
      ensures activeSlot == old(activeSlot)
    {
      var targetSlot := Target(slotIndex);
      var updated := slots;
      if targetSlot < |updated| {
        updated := updated[targetSlot := updated[targetSlot].(value := updated[targetSlot].value + value)];
      } else if |slots| < MaxMemorySlots {
        updated := PadAndPush(updated, targetSlot, MemorySlot(value, None));
      }
      slots := updated;
    }

    /** Subtract value from the target slot, keeping its label; or grow the list ending in -value. */
    method MemorySubtract(value: real, slotIndex: Option<nat>)
      modifies this
      ensures var t := old(Target(slotIndex));
              if t < |old(slots)| then
                slots == old(slots)[t := old(slots)[t].(value := old(slots)[t].value - value)]
              else
                slots == Grown(old(slots), t, MemorySlot(-value, None))
      ensures activeSlot == old(activeSlot)
    {
      var targetSlot := Target(slotIndex);
      var updated := slots;
      if targetSlot < |updated| {
        updated := updated[targetSlot := updated[targetSlot].(value := updated[targetSlot].value - value)];
      } else if |slots| < MaxMemorySlots {
        updated := PadAndPush(updated, targetSlot, MemorySlot(-value, None));
      }
      slots := updated;
    }

    /** Replace the target slot by a bare {value}, dropping its label; or grow the list ending in it. */
    method MemoryStore(value: real, slotIndex: Option<nat>)
      modifies this
      ensures var t := old(Target(slotIndex));
              if t < |old(slots)| then
                slots == old(slots)[t := MemorySlot(value, None)]
              else
                slots == Grown(old(slots), t, MemorySlot(value, None))
      ensures activeSlot == old(activeSlot)
    {
      var targetSlot := Target(slotIndex);
      var updated := slots;
      if targetSlot < |updated| {
        updated := updated[targetSlot := MemorySlot(value, None)];
      } else if |slots| < MaxMemorySlots {
        updated := PadAndPush(updated, targetSlot, MemorySlot(value, None));
      }
      slots := updated;
    }

    /** The target slot's value, or 0 when there is no such slot. */
    function MemoryRecall(slotIndex: Option<nat>): (v: real)
      reads this
      ensures Target(slotIndex) < |slots| ==> v == slots[Target(slotIndex)].value
      ensures Target(slotIndex) >= |slots| ==> v == 0.0
    {
      var targetSlot := Target(slotIndex);
      if targetSlot < |slots| then slots[targetSlot].value else 0.0
    }

    /**
     * No index: empty the list and make slot 0 active. An index: splice out that slot
     * when it exists, and step the active slot back when it was at or past the old
     * last index (whether or not anything was removed).
     */
    method MemoryClear(slotIndex: Option<nat>)
      modifies this
      ensures slotIndex.None? ==> slots == [] && activeSlot == 0
      ensures slotIndex.Some? && slotIndex.value < |old(slots)| ==>
                slots == old(slots)[..slotIndex.value] + old(slots)[slotIndex.value + 1..]
      ensures slotIndex.Some? && slotIndex.value >= |old(slots)| ==> slots == old(slots)
      ensures slotIndex.Some? ==>
                activeSlot == if old(activeSlot) >= |old(slots)| - 1 && old(activeSlot) > 0
                              then old(activeSlot) - 1 else old(activeSlot)
    {
      if slotIndex.None? {
        slots := [];
        activeSlot := 0;
      } else {
        var i := slotIndex.value;
        var oldLength := |slots|;
        if i < |slots| {
          slots := slots[..i] + slots[i + 1..];
        }
        if activeSlot >= oldLength - 1 && activeSlot > 0 {
          activeSlot := activeSlot - 1;
        }
      }
    }

    /** Append a slot and make it active, only while there are fewer than 10. */
    method MemoryAddSlot(value: real)
      modifies this
      ensures |old(slots)| < MaxMemorySlots ==>
                slots == old(slots) + [MemorySlot(value, None)] && activeSlot == |old(slots)|
      ensures |old(slots)| >= MaxMemorySlots ==> slots == old(slots) && activeSlot == old(activeSlot)
    {
      if |slots| < MaxMemorySlots {
        var oldLength := |slots|;
        slots := slots + [MemorySlot(value, None)];
        activeSlot := oldLength;
      }
    }

    /** Select an existing slot; any other index is ignored. */
    method SetMemorySlot(index: int)
      modifies this
      ensures 0 <= index < |old(slots)| ==> activeSlot == index
      ensures !(0 <= index < |old(slots)|) ==> activeSlot == old(activeSlot)
      ensures slots == old(slots)
    {
      if 0 <= index < |slots| {
        activeSlot := index;
      }
    }
  }

  /** Storing into slot 12 of an empty list yields 13 slots: more than the capacity of 10. */
  method StorePastCapacity() returns (length: nat, recalled: real)
    ensures length == 13 && recalled == 7.0
  {
    var m := new MemoryState([]);
    m.MemoryStore(7.0, Some(12));
    length := |m.slots|;
    recalled := m.MemoryRecall(Some(12));
  }

  /** A full list ignores writes past its end, and a recall there reads 0. */
  method FullListIgnoresGrowth(saved: seq<MemorySlot>) returns (kept: bool, recalled: real)
    requires |saved| == MaxMemorySlots
    ensures kept && recalled == 0.0
  {
    var m := new MemoryState(saved);
    m.MemoryAdd(3.0, Some(10));
    kept := m.slots == saved;
    recalled := m.MemoryRecall(Some(10));
  }
}

/** Counting graph shapes while rows are appended: run slots per batch, the hash map behind them and its
    spill tables (`native.rs`). */
module ShapeCounting {
  import opened Results
  import opened ShapeQueries

  /** The largest count: the tables and counters hold signed 64-bit integers. */
  const MAX_COUNT: nat := 0x7FFF_FFFF_FFFF_FFFF

  ghost predicate Positive(counts: Counts) {
    forall key | key in counts :: counts[key] > 0
  }

  /** The authoritative counts: `entries` in memory, `spilled` in the four tables, whose primary keys are
      the fields of a key. */
  class ShapeCounts {
    var entries: Counts
    var spilled: Counts
    const maxEntries: nat

    ghost predicate Valid()
      reads this
    {
      && maxEntries > 0 && |entries| <= maxEntries && Positive(entries) && Positive(spilled)
      && forall key | key in entries :: entries[key] <= MAX_COUNT
    }

    ghost function Total(key: ShapeKey): nat
      reads this
    {
      Get(entries, key) + Get(spilled, key)
    }

    constructor (maxEntries: nat)
      requires maxEntries > 0
      ensures Valid() && entries == map[] && spilled == map[]
    {
      this.maxEntries := maxEntries;
      entries, spilled := map[], map[];
    }

    method AddCount(key: ShapeKey, added: nat) returns (ok: bool)
      requires Valid() && 0 < added <= MAX_COUNT
      modifies this
      ensures Valid()
      ensures ok <==> Get(old(entries), key) + added <= MAX_COUNT
      ensures !ok ==> entries == old(entries) && spilled == old(spilled)
      ensures ok ==> forall k :: Total(k) == old(Total(k)) + if k == key then added else 0
    {
      if key in entries {
        if entries[key] + added > MAX_COUNT {
          return false;
        }
        entries := entries[key := entries[key] + added];
        return true;
      }
      if |entries| >= maxEntries {
        Flush();
      }
      entries := entries[key := added];
      return true;
    }

    /** Every entry into its table, in any order, by inserting or adding. */
    method Flush()
      requires Valid()
      modifies this
      ensures Valid() && entries == map[]
      ensures forall k :: Total(k) == old(Total(k))
    {
      while entries != map[]
        invariant Valid()
        invariant forall k :: Total(k) == old(Total(k))
        decreases |entries|
      {
        var key :| key in entries;
        label before:
        spilled := spilled[key := Get(spilled, key) + entries[key]];
        entries := entries - {key};
        assert |entries| == |old@before(entries)| - 1 by {
          assert entries.Keys == old@before(entries).Keys - {key};
        }
      }
    }
  }

  type Slot = Option<(ShapeKey, nat)>

  function InSlot(slot: Slot, key: ShapeKey): nat {
    if slot.Some? && slot.value.0 == key then slot.value.1 else 0
  }

  function InSlots(slots: seq<Slot>, key: ShapeKey): nat {
    if slots == [] then 0 else InSlots(slots[..|slots| - 1], key) + InSlot(slots[|slots| - 1], key)
  }

  lemma {:induction false} SlotChanges(slots: seq<Slot>, i: nat, slot: Slot, key: ShapeKey)
    requires i < |slots|
    ensures InSlots(slots[i := slot], key) + InSlot(slots[i], key) == InSlots(slots, key) + InSlot(slot, key)
  {
    var n := |slots| - 1;
    if i < n {
      assert slots[i := slot][..n] == slots[..n][i := slot];
      SlotChanges(slots[..n], i, slot, key);
    } else {
      assert slots[i := slot][..n] == slots[..n];
    }
  }

  lemma {:induction false} SlotIsCounted(slots: seq<Slot>, i: nat, key: ShapeKey)
    requires i < |slots|
    ensures InSlot(slots[i], key) <= InSlots(slots, key)
  {
    if i < |slots| - 1 {
      SlotIsCounted(slots[..|slots| - 1], i, key);
    }
  }

  lemma {:induction false} EmptySlots(slots: seq<Slot>, key: ShapeKey)
    requires forall i | 0 <= i < |slots| :: slots[i] == None
    ensures InSlots(slots, key) == 0
  {
    if slots != [] {
      EmptySlots(slots[..|slots| - 1], key);
    }
  }

  /** Some count has reached the limit. */
  ghost predicate Full(counts: ShapeCounts, batch: BatchShapeCounts)
    reads counts, batch, batch.slots
  {
    exists key :: counts.Total(key) + batch.Held(key) >= MAX_COUNT
  }

  /** One run counter per property column, and one for the node or edge itself. */
  class BatchShapeCounts {
    const slots: array<Slot>

    ghost predicate Valid()
      reads this, slots
    {
      forall i | 0 <= i < slots.Length :: slots[i].Some? ==> 0 < slots[i].value.1 <= MAX_COUNT
    }

    ghost function Held(key: ShapeKey): nat
      reads this, slots
    {
      InSlots(slots[..], key)
    }

    constructor (properties: nat)
      ensures Valid() && fresh(slots) && slots.Length == properties + 1
      ensures forall key :: Held(key) == 0
    {
      slots := new Slot[properties + 1](_ => None);
      new;
      forall key ensures Held(key) == 0 {
        EmptySlots(slots[..], key);
      }
    }

    /** Takes a slot's run over into the authoritative counts. */
    method Release(counts: ShapeCounts, slot: nat) returns (ok: bool)
      requires Valid() && counts.Valid() && slot < slots.Length
      modifies counts, slots
      ensures Valid() && counts.Valid() && slots[..] == old(slots[..])[slot := None]
      ensures ok ==> forall k :: counts.Total(k) + Held(k) == old(counts.Total(k) + Held(k))
      ensures !ok ==> old(Full(counts, this))
    {
      hide InSlots, Get;
      ghost var was := slots[..];
      var cached := slots[slot];
      ok := true;
      slots[slot] := None;
      assert slots[..] == was[slot := None];
      if cached.Some? {
        ok := counts.AddCount(cached.value.0, cached.value.1);
        SlotIsCounted(was, slot, cached.value.0);
        assert !ok ==> old(counts.Total(cached.value.0) + Held(cached.value.0)) >= MAX_COUNT;
      }
      forall k ensures ok ==> counts.Total(k) + Held(k) == old(counts.Total(k) + Held(k)) {
        SlotChanges(was, slot, None, k);
      }
    }

    /** Spilled, hashed and held counts together grow by this one key; it fails only when a count has
        reached its limit. */
    method Increment(counts: ShapeCounts, slot: nat, key: ShapeKey) returns (ok: bool)
      requires Valid() && counts.Valid() && slot < slots.Length
      modifies counts, slots
      ensures Valid() && counts.Valid()
      ensures ok ==> forall k :: counts.Total(k) + Held(k) == old(counts.Total(k) + Held(k)) + if k == key then 1 else 0
      ensures !ok ==> old(Full(counts, this))
    {
      hide InSlots, ShapeCounts.Total, ShapeCounts.Valid;
      var cached, count := slots[slot], 1;
      if cached.Some? && cached.value.0 == key {
        if cached.value.1 + 1 > MAX_COUNT {
          SlotIsCounted(slots[..], slot, key);
          assert old(counts.Total(key) + Held(key)) >= MAX_COUNT;
          return false;
        }
        count := cached.value.1 + 1;
      } else {
        ok := Release(counts, slot);
        if !ok {
          return;
        }
      }
      ghost var was := slots[..];
      assert was[slot] == slots[slot] && count == InSlot(was[slot], key) + 1;
      slots[slot] := Some((key, count));
      assert slots[..] == was[slot := slots[slot]];
      forall k ensures InSlots(slots[..], k) == InSlots(was, k) + if k == key then 1 else 0 {
        SlotChanges(was, slot, slots[slot], k);
      }
      return true;
    }

    method Flush(counts: ShapeCounts) returns (ok: bool)
      requires Valid() && counts.Valid()
      modifies counts, slots
      ensures counts.Valid()
      ensures ok ==> forall k :: counts.Total(k) == old(counts.Total(k) + Held(k))
      ensures !ok ==> old(Full(counts, this))
    {
      hide InSlots, ShapeCounts.Total, ShapeCounts.Valid;
      var i := 0;
      while i < slots.Length
        invariant 0 <= i <= slots.Length && Valid() && counts.Valid()
        invariant forall j | 0 <= j < i :: slots[j] == None
        invariant forall k :: counts.Total(k) + Held(k) == old(counts.Total(k) + Held(k))
      {
        label before:
        assert forall j | 0 <= j < i :: slots[..][j] == None;
        ok := Release(counts, i);
        if !ok {
          return;
        }
        assert forall j | 0 <= j < i :: slots[j] == slots[..][j] == old@before(slots[..])[j];
        assert slots[i] == slots[..][i];
        i := i + 1;
      }
      forall k ensures Held(k) == 0 {
        EmptySlots(slots[..], k);
      }
      return true;
    }
  }
}

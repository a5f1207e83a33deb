/**
 * The open-addressed table of (domain name, address) items: the probe
 * sequence, the probe-and-place step of insert as a function of the slots,
 * the rehash done by grow, and the HashTable class that runs them in place.
 */
module HashTables {
  import opened Arith
  import opened RollingHash
  import opened Primes

  /** Table_Item: a key (domain name) and a value (address). A slot is free when its key is empty. */
  datatype Item = Item(key: string, value: string)

  /** What a freshly allocated slot holds: empty key and empty value. */
  const EmptyItem := Item("", "")

  /** Table_Item::operator==: two items are equal when both their keys and their values match. */
  function ItemEquals(a: Item, b: Item): (r: bool)
    ensures r <==> a == b
  {
    a.key == b.key && a.value == b.value
  }

  /** Every key stored in the slots can be hashed. */
  ghost predicate AllHashable(s: seq<Item>) {
    forall i :: 0 <= i < |s| ==> HashableKey(s[i].key)
  }

  function EmptySlots(n: nat): (s: seq<Item>)
    ensures |s| == n && forall i :: 0 <= i < n ==> s[i].key == ""
  {
    seq(n, _ => EmptyItem)
  }

  /** Number of occupied slots (slots with a nonempty key). */
  function CountOccupied(s: seq<Item>): nat {
    if s == [] then 0
    else CountOccupied(s[..|s| - 1]) + (if s[|s| - 1].key != "" then 1 else 0)
  }

  // ---------------------------------------------------------------------
  // The probe sequence

  function SumSquares(j: nat): nat {
    if j == 0 then 0 else SumSquares(j - 1) + j * j
  }

  /**
   * The slot visited by probe j for hash h in a table of n slots: probe 0 is
   * the home slot h % n, and probe j adds j*j to the slot of probe j - 1.
   */
  function ProbeIndex(h: nat, j: nat, n: nat): (r: nat)
    requires n > 0
    ensures r < n
  {
    if j == 0 then h % n else (ProbeIndex(h, j - 1, n) + j * j) % n
  }

  /** 1^2 + 2^2 + ... + j^2 == j(j+1)(2j+1)/6. */
  lemma {:induction false} SumSquaresClosedForm(j: nat)
    ensures 6 * SumSquares(j) == j * (j + 1) * (2 * j + 1)
  {
    if j > 0 {
      SumSquaresClosedForm(j - 1);
      SumSquaresStep(j - 1);
    }
  }

  lemma SumSquaresStep(k: nat)
    ensures k * (k + 1) * (2 * k + 1) + 6 * ((k + 1) * (k + 1)) == (k + 1) * (k + 2) * (2 * k + 3)
  {
    calc {
      k * (k + 1) * (2 * k + 1) + 6 * ((k + 1) * (k + 1));
      { Distribute(k + 1, k * (2 * k + 1), 6 * (k + 1)); }
      (k + 1) * (k * (2 * k + 1) + 6 * (k + 1));
      (k + 1) * (2 * k * k + 7 * k + 6);
      { assert 2 * k * k + 7 * k + 6 == (k + 2) * (2 * k + 3); }
      (k + 1) * ((k + 2) * (2 * k + 3));
    }
  }

  lemma Distribute(a: int, b: int, c: int)
    ensures a * (b + c) == a * b + a * c
  {
  }

  /**
   * The steps accumulate: probe j lands on home + 1^2 + 2^2 + ... + j^2
   * modulo n, not on home + j^2.
   */
  lemma {:induction false} ProbeIndexCumulative(h: nat, j: nat, n: nat)
    requires n > 0
    ensures ProbeIndex(h, j, n) == (h + SumSquares(j)) % n
  {
    if j > 0 {
      var a, b := h + SumSquares(j - 1), j * j;
      var p := ProbeIndex(h, j - 1, n);
      assert ProbeIndex(h, j, n) == (p + b) % n;
      ProbeIndexCumulative(h, j - 1, n);
      assert p == a % n;
      ModAddLeft(a, b, n);
      assert a + b == h + SumSquares(j);
    }
  }

  /** In closed form, probe j lands on h + j(j+1)(2j+1)/6 modulo n. */
  lemma ProbeIndexClosedForm(h: nat, j: nat, n: nat)
    requires n > 0
    ensures ProbeIndex(h, j, n) == (h + j * (j + 1) * (2 * j + 1) / 6) % n
  {
    ProbeIndexCumulative(h, j, n);
    SumSquaresClosedForm(j);
    ModUnique(j * (j + 1) * (2 * j + 1), 6, SumSquares(j), 0);
  }

  /**
   * The first probe number at or after j whose slot is free, or |s| when
   * probes j .. |s| - 1 all meet occupied slots.
   */
  function FirstFreeProbe(s: seq<Item>, h: nat, j: nat): (r: nat)
    requires |s| > 0 && j <= |s|
    ensures j <= r <= |s|
    ensures r < |s| ==> s[ProbeIndex(h, r, |s|)].key == ""
    ensures forall k :: j <= k < r ==> s[ProbeIndex(h, k, |s|)].key != ""
    decreases |s| - j
  {
    if j == |s| then j
    else if s[ProbeIndex(h, j, |s|)].key == "" then j
    else FirstFreeProbe(s, h, j + 1)
  }

  // ---------------------------------------------------------------------
  // The probe-and-place step of insert, as a function of the slots

  /**
   * The slots and the index that insert leaves for an item whose key hashes
   * to h: the item goes into the slot of the first free probe among probes
   * 0 .. |s| - 1 and that slot's index is returned; when every probe meets an
   * occupied slot nothing is written and the index of the last probe is
   * returned. Every slot either keeps its item or receives the new one.
   */
  function Placement(s: seq<Item>, h: nat, item: Item): (r: (seq<Item>, nat))
    requires |s| > 0
    ensures |r.0| == |s| && r.1 < |s|
    ensures forall k :: 0 <= k < |s| ==> r.0[k] == s[k] || r.0[k] == item
  {
    var f := FirstFreeProbe(s, h, 0);
    if f < |s| then
      var i := ProbeIndex(h, f, |s|);
      (s[i := item], i)
    else
      (s, ProbeIndex(h, |s| - 1, |s|))
  }

  /** A free home slot receives the item and its index is returned. */
  lemma PlacementAtHome(s: seq<Item>, h: nat, item: Item)
    requires |s| > 0 && s[h % |s|].key == ""
    ensures Placement(s, h, item) == (s[h % |s| := item], h % |s|)
  {
  }

  /**
   * When probes 0 .. j - 1 meet occupied slots and probe j a free one, the
   * item is written at probe j's slot, and that index is returned.
   */
  lemma PlacementAtFirstFree(s: seq<Item>, h: nat, item: Item, j: nat)
    requires |s| > 0 && j < |s|
    requires forall k :: 0 <= k < j ==> s[ProbeIndex(h, k, |s|)].key != ""
    requires s[ProbeIndex(h, j, |s|)].key == ""
    ensures Placement(s, h, item) == (s[ProbeIndex(h, j, |s|) := item], ProbeIndex(h, j, |s|))
  {
    var f := FirstFreeProbe(s, h, 0);
    assert f == j;
  }

  /** When all |s| probes meet occupied slots, nothing is written and the last probe's index is returned. */
  lemma PlacementWhenProbesFull(s: seq<Item>, h: nat, item: Item)
    requires |s| > 0
    requires forall k :: 0 <= k < |s| ==> s[ProbeIndex(h, k, |s|)].key != ""
    ensures Placement(s, h, item) == (s, ProbeIndex(h, |s| - 1, |s|))
  {
  }

  /**
   * The item is written exactly when some probe meets a free slot, and then
   * it lands in a slot that was free.
   */
  lemma PlacementWritesIffFreeProbe(s: seq<Item>, h: nat, item: Item)
    requires |s| > 0
    ensures (exists j :: 0 <= j < |s| && s[ProbeIndex(h, j, |s|)].key == "")
      <==> (s[Placement(s, h, item).1].key == "" &&
            Placement(s, h, item).0 == s[Placement(s, h, item).1 := item])
  {
    var n := |s|;
    var r := Placement(s, h, item);
    var f := FirstFreeProbe(s, h, 0);
    if f == n {
      assert s[ProbeIndex(h, n - 1, n)].key != "";
      assert r.1 == ProbeIndex(h, n - 1, n);
      assert forall j :: 0 <= j < n ==> s[ProbeIndex(h, j, n)].key != "";
    } else {
      assert s[ProbeIndex(h, f, n)].key == "";
      assert r == (s[ProbeIndex(h, f, n) := item], ProbeIndex(h, f, n));
    }
  }

  /**
   * No occupied slot is ever overwritten, not even one holding the same key,
   * and every slot other than the returned index is unchanged.
   */
  lemma PlacementKeepsOtherSlots(s: seq<Item>, h: nat, item: Item)
    requires |s| > 0
    ensures forall k :: 0 <= k < |s| && k != Placement(s, h, item).1 ==> Placement(s, h, item).0[k] == s[k]
    ensures forall k :: 0 <= k < |s| && s[k].key != "" ==> Placement(s, h, item).0[k] == s[k]
  {
  }

  lemma {:induction false} CountOccupiedUpdate(s: seq<Item>, k: nat, x: Item)
    requires k < |s|
    ensures CountOccupied(s[k := x]) ==
      CountOccupied(s) - (if s[k].key != "" then 1 else 0) + (if x.key != "" then 1 else 0)
  {
    var t := s[k := x];
    if k < |s| - 1 {
      assert t[..|t| - 1] == s[..|s| - 1][k := x];
      CountOccupiedUpdate(s[..|s| - 1], k, x);
    } else {
      assert t[..|t| - 1] == s[..|s| - 1];
    }
  }

  /** Placing one item adds at most one occupied slot and never frees one. */
  lemma PlacementCount(s: seq<Item>, h: nat, item: Item)
    requires |s| > 0
    ensures CountOccupied(s) <= CountOccupied(Placement(s, h, item).0) <= CountOccupied(s) + 1
  {
    var f := FirstFreeProbe(s, h, 0);
    if f < |s| {
      CountOccupiedUpdate(s, ProbeIndex(h, f, |s|), item);
    }
  }

  /**
   * With 13 slots and a home slot of 0, the 13 probes visit only slots
   * 0, 1, 3, 4, 5, 8, 9, 10 and 12. When those are occupied, insert writes
   * nothing and returns 0, although slots 2, 6, 7 and 11 may be free.
   */
  lemma ProbesMissFreeSlotsAtThirteen(s: seq<Item>, h: nat, item: Item)
    requires |s| == 13 && h % 13 == 0
    requires s[0].key != "" && s[1].key != "" && s[3].key != "" && s[4].key != ""
    requires s[5].key != "" && s[8].key != "" && s[9].key != "" && s[10].key != ""
    requires s[12].key != ""
    ensures Placement(s, h, item) == (s, 0)
  {
    assert ProbeIndex(h, 0, 13) == 0;
    assert ProbeIndex(h, 1, 13) == 1;
    assert ProbeIndex(h, 2, 13) == 5;
    assert ProbeIndex(h, 3, 13) == 1;
    assert ProbeIndex(h, 4, 13) == 4;
    assert ProbeIndex(h, 5, 13) == 3;
    assert ProbeIndex(h, 6, 13) == 0;
    assert ProbeIndex(h, 7, 13) == 10;
    assert ProbeIndex(h, 8, 13) == 9;
    assert ProbeIndex(h, 9, 13) == 12;
    assert ProbeIndex(h, 10, 13) == 8;
    assert ProbeIndex(h, 11, 13) == 12;
    assert ProbeIndex(h, 12, 13) == 0;
    PlacementWhenProbesFull(s, h, item);
  }

  // ---------------------------------------------------------------------
  // Every stored item lies on its own key's probe path

  /** Slot k is visited by one of the |s| probes for the key stored in it. */
  ghost predicate OnOwnProbePath(s: seq<Item>, k: nat)
    requires k < |s| && HashableKey(s[k].key)
  {
    exists j :: 0 <= j < |s| && ProbeIndex(HashSpec(s[k].key), j, |s|) == k
  }

  /**
   * The table's placement invariant: every key can be hashed, and every
   * occupied slot is reached by the probe sequence of the key it holds.
   */
  ghost predicate ProbePathsHold(s: seq<Item>) {
    AllHashable(s) &&
    forall k :: 0 <= k < |s| && s[k].key != "" ==> OnOwnProbePath(s, k)
  }

  /** A table of empty slots satisfies the placement invariant. */
  lemma EmptySlotsOnProbePaths(n: nat)
    ensures ProbePathsHold(EmptySlots(n))
  {
  }

  /**
   * Probe-and-place keeps the placement invariant: the item is written only
   * at a probe of its own key, and every other slot keeps its item.
   */
  lemma PlacementKeepsProbePaths(s: seq<Item>, item: Item)
    requires |s| > 0 && ProbePathsHold(s) && HashableKey(item.key)
    ensures ProbePathsHold(Placement(s, HashSpec(item.key), item).0)
  {
    var h := HashSpec(item.key);
    var f := FirstFreeProbe(s, h, 0);
    if f < |s| {
      var i := ProbeIndex(h, f, |s|);
      var t := s[i := item];
      assert Placement(s, h, item).0 == t;
      forall k | 0 <= k < |t| && t[k].key != ""
        ensures HashableKey(t[k].key) && OnOwnProbePath(t, k)
      {
        if k == i {
          assert ProbeIndex(HashSpec(t[k].key), f, |t|) == k;
        } else {
          assert t[k] == s[k] && OnOwnProbePath(s, k);
        }
      }
    }
  }

  // ---------------------------------------------------------------------
  // The rehash done by grow

  /**
   * The slots of a fresh n-slot table after placing, in order, the item of
   * every occupied slot of olds.
   */
  function Rehash(olds: seq<Item>, n: nat): (r: seq<Item>)
    requires n > 0 && AllHashable(olds)
    ensures |r| == n && AllHashable(r)
  {
    if olds == [] then EmptySlots(n)
    else
      var s := Rehash(olds[..|olds| - 1], n);
      var last := olds[|olds| - 1];
      if last.key == "" then s else Placement(s, HashSpec(last.key), last).0
  }

  /** One more old slot: an occupied one is placed into the slots built so far, a free one is skipped. */
  lemma RehashStep(olds: seq<Item>, i: nat, n: nat)
    requires n > 0 && AllHashable(olds) && i < |olds|
    ensures Rehash(olds[..i + 1], n) ==
      if olds[i].key == "" then Rehash(olds[..i], n)
      else Placement(Rehash(olds[..i], n), HashSpec(olds[i].key), olds[i]).0
  {
    assert olds[..i + 1][..i] == olds[..i];
  }

  /** Every occupied slot after a rehash holds an item taken from an occupied slot of the old table. */
  lemma {:induction false} RehashTakesOldItems(olds: seq<Item>, n: nat)
    requires n > 0 && AllHashable(olds)
    ensures forall k :: 0 <= k < n && Rehash(olds, n)[k].key != "" ==> Rehash(olds, n)[k] in olds
  {
    if olds != [] {
      var prefix := olds[..|olds| - 1];
      RehashTakesOldItems(prefix, n);
      forall k | 0 <= k < n && Rehash(olds, n)[k].key != ""
        ensures Rehash(olds, n)[k] in olds
      {
        var r := Rehash(olds, n);
        if r[k] != olds[|olds| - 1] {
          assert r[k] == Rehash(prefix, n)[k];
          assert r[k] in prefix;
        }
      }
    }
  }

  /** A rehash never increases the number of occupied slots. */
  lemma {:induction false} RehashCount(olds: seq<Item>, n: nat)
    requires n > 0 && AllHashable(olds)
    ensures CountOccupied(Rehash(olds, n)) <= CountOccupied(olds)
  {
    if olds == [] {
      EmptySlotsCount(n);
    } else {
      var prefix := olds[..|olds| - 1];
      var last := olds[|olds| - 1];
      RehashCount(prefix, n);
      if last.key != "" {
        PlacementCount(Rehash(prefix, n), HashSpec(last.key), last);
      }
    }
  }

  /** A rehash yields slots in which every item lies on its own key's probe path. */
  lemma {:induction false} RehashOnProbePaths(olds: seq<Item>, n: nat)
    requires n > 0 && AllHashable(olds)
    ensures ProbePathsHold(Rehash(olds, n))
  {
    if olds == [] {
      EmptySlotsOnProbePaths(n);
    } else {
      var prefix := olds[..|olds| - 1];
      var last := olds[|olds| - 1];
      RehashOnProbePaths(prefix, n);
      if last.key != "" {
        PlacementKeepsProbePaths(Rehash(prefix, n), last);
      }
    }
  }

  lemma {:induction false} EmptySlotsCount(n: nat)
    ensures CountOccupied(EmptySlots(n)) == 0
  {
    if n > 0 {
      assert EmptySlots(n)[..n - 1] == EmptySlots(n - 1);
      EmptySlotsCount(n - 1);
    }
  }

  // ---------------------------------------------------------------------
  // The table

  class HashTable {
    var count: nat
    var size: nat
    var items: array<Item>

    /**
     * The array has size slots, size is a prime of at least 13, every key can
     * be hashed, and every occupied slot lies on its own key's probe path.
     */
    ghost predicate Valid()
      reads this, items
    {
      items.Length == size && 13 <= size && Prime(size) && ProbePathsHold(items[..])
    }

    /** A new table: 13 empty slots and a count of 0. */
    constructor ()
      ensures Valid() && fresh(items)
      ensures count == 0 && size == 13 && items[..] == EmptySlots(13)
    {
      count := 0;
      size := 13;
      items := new Item[13](_ => EmptyItem);
      new;
      ThirteenIsPrime();
      assert items[..] == EmptySlots(13);
      EmptySlotsOnProbePaths(13);
    }

    /** getHash: the hash of a key, exposed for inspection. */
    method GetHash(key: string) returns (h: nat)
      requires HashableKey(key)
      ensures h == HashSpec(key)
    {
      h := Hash(key);
    }

    /**
     * The probe-and-place part of insert: probe from the home slot
     * hash(key) % size with cumulative steps j*j, j = 1 .. size - 1, write
     * the item into the first free slot met and return its index, or return
     * the last probed index without writing.
     */
    method ProbeAndPlace(item: Item) returns (index: nat)
      requires Valid() && HashableKey(item.key)
      modifies items
      ensures Valid()
      ensures (items[..], index) == Placement(old(items[..]), HashSpec(item.key), item)
    {
      var h := Hash(item.key);
      ghost var slots := items[..];
      index := h % size;
      if items[index].key != "" {
        var j := 1;
        while j < size
          invariant 1 <= j <= size
          invariant index == ProbeIndex(h, j - 1, size)
          invariant forall k :: 0 <= k < j ==> slots[ProbeIndex(h, k, size)].key != ""
          invariant items[..] == slots
        {
          index := (index + j * j) % size;
          assert index == ProbeIndex(h, j, size);
          if items[index].key == "" {
            PlacementAtFirstFree(slots, h, item, j);
            PlacementKeepsProbePaths(slots, item);
            items[index] := item;
            return;
          }
          j := j + 1;
        }
        PlacementWhenProbesFull(slots, h, item);
        return;
      }
      PlacementAtHome(slots, h, item);
      PlacementKeepsProbePaths(slots, item);
      items[index] := item;
    }

    /**
     * insert: grow first when the integer quotient count / size is at least
     * 1 (that is, count >= size), then probe and place. The count is never
     * changed, and the returned index is always below size.
     */
    method Insert(item: Item) returns (index: nat)
      requires Valid() && HashableKey(item.key)
      modifies this, items
      ensures Valid() && count == old(count) && index < size
      ensures old(count) < old(size) ==>
        size == old(size) && items == old(items) &&
        (items[..], index) == Placement(old(items[..]), HashSpec(item.key), item)
      ensures old(count) >= old(size) ==>
        IsNextPrime(old(size), size) && fresh(items) &&
        (items[..], index) == Placement(Rehash(old(items[..]), size), HashSpec(item.key), item)
    {
      QuotientAtLeastOne(count, size);
      if count / size >= 1 {
        Grow();
      }
      index := ProbeAndPlace(item);
    }

    /**
     * grow: move to a fresh array of getNextPrime(size) slots and place there,
     * in order, the item of every occupied old slot.
     */
    method Grow()
      requires Valid()
      modifies this
      ensures Valid() && fresh(items) && count == old(count)
      ensures IsNextPrime(old(size), size)
      ensures items[..] == Rehash(old(items[..]), size)
    {
      var temp := items;
      var tempSize := size;
      var newSize := GetNextPrime(size);
      items := new Item[newSize](_ => EmptyItem);
      size := newSize;
      assert items[..] == EmptySlots(newSize);
      EmptySlotsOnProbePaths(newSize);
      assert temp[..0] == [];
      for i := 0 to tempSize
        invariant Valid() && fresh(items) && size == newSize
        invariant count == old(count)
        invariant temp.Length == tempSize && AllHashable(temp[..])
        invariant items[..] == Rehash(temp[..i], size)
      {
        RehashStep(temp[..], i, size);
        if temp[i].key != "" {
          var placed := ProbeAndPlace(temp[i]);
        }
      }
      assert temp[..tempSize] == old(items[..]);
    }
  }
}

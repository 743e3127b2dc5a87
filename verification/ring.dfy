/** The ring-buffer numbering shared by the priority tree and the data buffer.

    `current_id` counts every write ever made; slot `current_id mod capacity` receives
    the next one. An experience (external, logical) index counts from the oldest
    surviving write, so index 0 is the oldest stored experience and index size()-1 the newest;
    an internal index is the physical slot. */
module Ring {

  import opened Arith

  /** Number of occupied slots, min(current_id, capacity). */
  function Size(currentId: int, capacity: int): (r: int)
    ensures r <= capacity
    ensures r == currentId || r == capacity
    ensures r <= currentId
  {
    if currentId < capacity then currentId else capacity
  }

  predicate Wrapped(currentId: int, capacity: int)
  {
    currentId >= capacity
  }

  /** Experience index to slot, with C++ truncating `%` and the add-size correction
      for a negative remainder. */
  function InternalIndex(currentId: int, capacity: int, index: int): (r: int)
    requires capacity > 0
    ensures r < capacity
    ensures currentId >= 0 ==> -capacity < r
  {
    var shifted := if Wrapped(currentId, capacity) then index + currentId else index;
    var rem := CppRem(shifted, capacity);
    if rem >= 0 then rem else rem + Size(currentId, capacity)
  }

  /** Slot to experience index, the converse map, written with the same C++ arithmetic. */
  function ExternalIndex(currentId: int, capacity: int, index: int): (r: int)
    requires capacity > 0
    ensures r < capacity
  {
    var shifted := if Wrapped(currentId, capacity) then index - CppRem(currentId, capacity) else index;
    var rem := CppRem(shifted, capacity);
    if rem >= 0 then rem else rem + Size(currentId, capacity)
  }

  /** The data buffer's gather index: (i + current_id) mod capacity once wrapped
      (a floor remainder, which for a positive capacity is Dafny's `%`), i otherwise. */
  function DataIndex(currentId: int, capacity: int, i: int): (r: int)
    requires capacity > 0
    requires currentId >= 0
    ensures 0 <= i < Size(currentId, capacity) ==> 0 <= r < Size(currentId, capacity)
  {
    if Wrapped(currentId, capacity) then (i + currentId) % capacity else i
  }

  /** The slot of experience index e once wrapped, by cases on whether e + (current_id mod capacity)
      runs past the end of the array. */
  lemma WrappedSlot(currentId: int, capacity: int, e: int)
    requires 0 < capacity <= currentId
    requires 0 <= e < capacity
    ensures var r := currentId % capacity;
      (e + currentId) % capacity == if e + r < capacity then e + r else e + r - capacity
  {
    var r, q := currentId % capacity, currentId / capacity;
    assert e + currentId == (e + r) + q * capacity;
    ModShift(e + r, q, capacity);
    if e + r < capacity {
      DivModUnique(e + r, capacity, 0, e + r);
    } else {
      DivModUnique(e + r, capacity, 1, e + r - capacity);
    }
  }

  /** For a stored experience, the priority tree's slot map and the data buffer's agree. */
  lemma InternalIsDataIndex(currentId: int, capacity: int, e: int)
    requires capacity > 0 && currentId >= 0
    requires 0 <= e < Size(currentId, capacity)
    ensures InternalIndex(currentId, capacity, e) == DataIndex(currentId, capacity, e)
    ensures 0 <= InternalIndex(currentId, capacity, e) < Size(currentId, capacity)
  {
    if Wrapped(currentId, capacity) {
      CppRemNonNegative(e + currentId, capacity);
    } else {
      CppRemSmall(e, capacity);
    }
  }

  /** externalIndex undoes internalIndex on every stored experience index. */
  lemma ExternalOfInternal(currentId: int, capacity: int, e: int)
    requires capacity > 0 && currentId >= 0
    requires 0 <= e < Size(currentId, capacity)
    ensures ExternalIndex(currentId, capacity, InternalIndex(currentId, capacity, e)) == e
  {
    var i := InternalIndex(currentId, capacity, e);
    if Wrapped(currentId, capacity) {
      var r := currentId % capacity;
      CppRemNonNegative(e + currentId, capacity);
      CppRemNonNegative(currentId, capacity);
      WrappedSlot(currentId, capacity, e);
      if e + r < capacity {
        assert i == e + r;
        CppRemSmall(e, capacity);
      } else {
        assert i == e + r - capacity;
        CppRemSmall(e - capacity, capacity);
      }
    } else {
      CppRemSmall(e, capacity);
    }
  }

  /** internalIndex undoes externalIndex on every occupied slot, and the experience index
      of an occupied slot is itself a stored experience index. */
  lemma InternalOfExternal(currentId: int, capacity: int, i: int)
    requires capacity > 0 && currentId >= 0
    requires 0 <= i < Size(currentId, capacity)
    ensures 0 <= ExternalIndex(currentId, capacity, i) < Size(currentId, capacity)
    ensures InternalIndex(currentId, capacity, ExternalIndex(currentId, capacity, i)) == i
  {
    var e := ExternalIndex(currentId, capacity, i);
    if Wrapped(currentId, capacity) {
      var r := currentId % capacity;
      CppRemNonNegative(currentId, capacity);
      CppRemSmall(i - r, capacity);
      if i - r >= 0 {
        assert e == i - r;
      } else {
        assert e == i - r + capacity;
      }
      CppRemNonNegative(e + currentId, capacity);
      WrappedSlot(currentId, capacity, e);
    } else {
      CppRemSmall(i, capacity);
      CppRemSmall(e, capacity);
    }
  }

  /** Distinct occupied slots have distinct experience indices. */
  lemma ExternalInjective(currentId: int, capacity: int, i: int, j: int)
    requires capacity > 0 && currentId >= 0
    requires 0 <= i < Size(currentId, capacity)
    requires 0 <= j < Size(currentId, capacity)
    ensures ExternalIndex(currentId, capacity, i) == ExternalIndex(currentId, capacity, j) <==> i == j
  {
    InternalOfExternal(currentId, capacity, i);
    InternalOfExternal(currentId, capacity, j);
  }

  /** A negative experience index counts back from the newest stored experience, as in Python:
      -1 names the newest, -size() the oldest. */
  lemma NegativeIndex(currentId: int, capacity: int, e: int)
    requires capacity > 0 && currentId >= 0
    requires -Size(currentId, capacity) <= e < 0
    ensures InternalIndex(currentId, capacity, e) == InternalIndex(currentId, capacity, e + Size(currentId, capacity))
  {
    if Wrapped(currentId, capacity) {
      CppRemNonNegative(e + currentId, capacity);
      CppRemNonNegative(e + capacity + currentId, capacity);
      ModShift(e + currentId, 1, capacity);
    } else {
      CppRemSmall(e, capacity);
      CppRemSmall(e + currentId, capacity);
    }
  }

  /** The stored experiences, oldest first: element e is the content of slot DataIndex(e). */
  function View<T>(slots: seq<T>, currentId: int, capacity: int): (v: seq<T>)
    requires capacity > 0 && currentId >= 0
    requires |slots| == capacity
    ensures |v| == Size(currentId, capacity)
  {
    seq(Size(currentId, capacity), e requires 0 <= e < Size(currentId, capacity) =>
      slots[DataIndex(currentId, capacity, e)])
  }

  /** Writing slot current_id mod capacity and counting the write appends the new value
      as the newest experience and, once the ring is full, drops the oldest. */
  lemma ViewAfterWrite<T>(slots: seq<T>, currentId: int, capacity: int, x: T)
    requires capacity > 0 && currentId >= 0
    requires |slots| == capacity
    ensures var old_view := View(slots, currentId, capacity);
      View(slots[currentId % capacity := x], currentId + 1, capacity)
      == (if Wrapped(currentId, capacity) then old_view[1..] else old_view) + [x]
  {
    var old_view := View(slots, currentId, capacity);
    var s' := slots[currentId % capacity := x];
    var v := View(s', currentId + 1, capacity);
    var expected := (if Wrapped(currentId, capacity) then old_view[1..] else old_view) + [x];
    assert |v| == |expected|;
    forall e | 0 <= e < |v|
      ensures v[e] == expected[e]
    {
      if !Wrapped(currentId, capacity) {
        DivModUnique(currentId, capacity, 0, currentId);
        if currentId + 1 == capacity {
          DivModUnique(e + currentId + 1, capacity, 1, e);
        }
        assert DataIndex(currentId + 1, capacity, e) == e;
      } else {
        var r := currentId % capacity;
        var slot := DataIndex(currentId + 1, capacity, e);
        if e + 1 < capacity {
          WrappedSlot(currentId, capacity, e + 1);
          assert slot == DataIndex(currentId, capacity, e + 1);
          assert slot != r;
        } else {
          WrappedSlot(currentId, capacity, 0);
          ModShift(currentId, 1, capacity);
          assert slot == r;
        }
      }
    }
  }
}

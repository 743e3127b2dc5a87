/** The bounded double-ended queue that holds the data buffer's pending steps.

    Its implementation (helpers/deque.hpp) is not part of this model. The model keeps only the
    behaviour the buffer relies on: a bound fixed at construction, push_front that evicts the
    back element once the bound is reached, pop_back, back, indexing from the front, size and
    clear. */
module Deques {

  /** items[0] is the front (the newest element), items[|items| - 1] the back (the oldest). */
  datatype Deque<T> = Deque(bound: nat, items: seq<T>)

  /** A deque never holds more elements than its bound. */
  predicate Bounded<T>(d: Deque<T>)
  {
    |d.items| <= d.bound
  }

  /** A freshly constructed deque with the given bound. */
  function Empty<T>(bound: nat): (d: Deque<T>)
    ensures Bounded(d) && d.bound == bound && |d.items| == 0
  {
    Deque(bound, [])
  }

  function Size<T>(d: Deque<T>): nat
  {
    |d.items|
  }

  /** push_front: the new element becomes the front; when the deque was full, the back
      element is evicted so that the bound still holds. */
  function PushFront<T>(d: Deque<T>, x: T): (r: Deque<T>)
    requires Bounded(d)
    ensures Bounded(r) && r.bound == d.bound
    ensures |r.items| == if |d.items| < d.bound then |d.items| + 1 else d.bound
    ensures |r.items| > 0 ==> r.items[0] == x
    ensures forall i :: 1 <= i < |r.items| ==> r.items[i] == d.items[i - 1]
  {
    var s := [x] + d.items;
    Deque(d.bound, if |s| <= d.bound then s else s[..d.bound])
  }

  /** back: the oldest element. */
  function Back<T>(d: Deque<T>): T
    requires |d.items| > 0
  {
    d.items[|d.items| - 1]
  }

  /** operator[]: the i-th element counted from the front. */
  function At<T>(d: Deque<T>, i: nat): T
    requires i < |d.items|
  {
    d.items[i]
  }

  /** pop_back: remove the oldest element. */
  function PopBack<T>(d: Deque<T>): (r: Deque<T>)
    requires |d.items| > 0
    ensures r.bound == d.bound
    ensures |r.items| == |d.items| - 1
    ensures forall i :: 0 <= i < |r.items| ==> r.items[i] == d.items[i]
  {
    Deque(d.bound, d.items[..|d.items| - 1])
  }

  /** clear: remove every element, keeping the bound. */
  function Clear<T>(d: Deque<T>): (r: Deque<T>)
    ensures r == Empty(d.bound)
  {
    Deque(d.bound, [])
  }
}

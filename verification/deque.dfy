/**
 * A double-ended queue kept in a circular array. `first` is the slot of the
 * front item and `last` the slot after the back item; one slot always stays
 * free, so `first == last` means empty. The array doubles before an add that
 * would fill it and halves when a removal leaves it a quarter full or less.
 *
 * The queue's meaning is `Contents`: the items from `first` up to `last`,
 * wrapping around the end of the array. Every `% items.length` of the source
 * is taken of a value below twice the length, so it is written `Grid.Wrap`
 * (see `Grid.WrapIsMod`).
 */
module Deque {
  import opened Wrappers
  import Grid

  /** The initial array length (`capacity = 5`). */
  const INITIAL_CAPACITY: nat := 5

  /** `items` are the array slots (`None` is `null`); `capacity` is the field kept alongside the array. */
  datatype Deque<T> = Deque(items: seq<Option<T>>, first: nat, last: nat, capacity: nat)

  /** A non-empty array with both indices inside it. */
  predicate InBounds<T>(d: Deque<T>) {
    |d.items| > 0 && d.first < |d.items| && d.last < |d.items|
  }

  /** `size()`: the distance from `first` to `last` around the array. */
  function Size<T>(d: Deque<T>): (n: nat)
    requires InBounds(d)
    ensures n < |d.items|
  {
    Grid.Wrap(d.last + |d.items| - d.first, |d.items|)
  }

  /** The array slot of the item `i` places behind the front. */
  function Slot<T>(d: Deque<T>, i: nat): (k: nat)
    requires InBounds(d) && i < |d.items|
    ensures k < |d.items|
  {
    Grid.Wrap(d.first + i, |d.items|)
  }

  /** What the constructor sets up and every operation keeps: indices inside the array, live slots filled. */
  ghost predicate Valid<T>(d: Deque<T>) {
    && InBounds(d)
    && d.capacity == |d.items|
    && forall i :: 0 <= i < Size(d) ==> d.items[Slot(d, i)].Some?
  }

  /** The items from front to back. */
  function Contents<T>(d: Deque<T>): (s: seq<T>)
    requires Valid(d)
    ensures |s| == Size(d)
  {
    seq(Size(d), i requires 0 <= i < Size(d) => d.items[Slot(d, i)].value)
  }

  /** `Deque()`: an array of five empty slots, `first = last = 1`. */
  function New<T>(): (d: Deque<T>)
    ensures Valid(d) && Contents(d) == [] && |d.items| == INITIAL_CAPACITY
  {
    Deque(seq(INITIAL_CAPACITY, _ => None), 1, 1, INITIAL_CAPACITY)
  }

  function IsEmpty<T>(d: Deque<T>): (b: bool)
    requires Valid(d)
    ensures b <==> Contents(d) == []
  {
    Size(d) == 0
  }

  /**
   * `isFull`: only the one spare slot is left, that is, stepping `last` on
   * once more would run into `first`.
   */
  function IsFull<T>(d: Deque<T>): (b: bool)
    requires InBounds(d)
    ensures b <==> Size(d) == |d.items| - 1
    ensures b <==> Grid.Wrap(d.last + 1, |d.items|) == d.first
  {
    Size(d) >= |d.items| - 1
  }

  /** `modifyCapacity`: copy the items, front first, into a new array starting at slot 0. */
  function ModifyCapacity<T>(d: Deque<T>, newCapacity: nat): (d': Deque<T>)
    requires Valid(d) && Size(d) < newCapacity
    ensures Valid(d') && Contents(d') == Contents(d)
    ensures |d'.items| == newCapacity
    ensures d'.first == 0 && d'.last == Size(d)
  {
    var size := Size(d);
    var newItems := seq(newCapacity, i requires 0 <= i < newCapacity => if i < size then d.items[Slot(d, i)] else None);
    Deque(newItems, 0, size, newCapacity)
  }

  /** `checkArrayCapacity`: double a full array, so that one more item fits. */
  function CheckArrayCapacity<T>(d: Deque<T>): (d': Deque<T>)
    requires Valid(d)
    ensures Valid(d') && Contents(d') == Contents(d)
    ensures Size(d') + 1 < |d'.items|
    ensures |d'.items| == if IsFull(d) then 2 * |d.items| else |d.items|
  {
    if IsFull(d) then ModifyCapacity(d, d.capacity * 2) else d
  }

  /** `shrinkIfRequired`: halve an array that is at most a quarter used. */
  function ShrinkIfRequired<T>(d: Deque<T>): (d': Deque<T>)
    requires Valid(d) && |d.items| >= 2
    ensures Valid(d') && Contents(d') == Contents(d)
    ensures |d'.items| == if Size(d) <= |d.items| / 4 then |d.items| / 2 else |d.items|
  {
    if Size(d) <= |d.items| / 4 then ModifyCapacity(d, d.capacity / 2) else d
  }

  /** `addFirst`: a `null` item is refused; otherwise step `first` back, wrapping to the end. */
  function AddFirst<T>(d: Deque<T>, item: Option<T>): (r: Result<Deque<T>>)
    requires Valid(d)
    ensures r.Err? <==> item.None?
    ensures r.Err? ==> r.error == NoSuchElement
    ensures r.Ok? ==> Valid(r.value) && Contents(r.value) == [item.value] + Contents(d)
  {
    if item.None? then Err(NoSuchElement)
    else
      var d1 := CheckArrayCapacity(d);
      var f := (if d1.first == 0 then |d1.items| else d1.first) - 1;
      var d' := d1.(items := d1.items[f := item], first := f);
      PushedFront(d1, d', item.value);
      Ok(d')
  }

  /** `addLast`: a `null` item is refused; otherwise fill slot `last` and step it on. */
  function AddLast<T>(d: Deque<T>, item: Option<T>): (r: Result<Deque<T>>)
    requires Valid(d)
    ensures r.Err? <==> item.None?
    ensures r.Err? ==> r.error == NoSuchElement
    ensures r.Ok? ==> Valid(r.value) && Contents(r.value) == Contents(d) + [item.value]
  {
    if item.None? then Err(NoSuchElement)
    else
      var d1 := CheckArrayCapacity(d);
      var d' := d1.(items := d1.items[d1.last := item], last := Grid.Wrap(d1.last + 1, |d1.items|));
      PushedBack(d1, d', item.value);
      Ok(d')
  }

  /** `removeFirst`: an empty deque has no such element; otherwise take the front, clear its slot, maybe shrink. */
  function RemoveFirst<T>(d: Deque<T>): (r: Result<(T, Deque<T>)>)
    requires Valid(d)
    ensures r.Err? <==> Contents(d) == []
    ensures r.Err? ==> r.error == NoSuchElement
    ensures r.Ok? ==> r.value.0 == Contents(d)[0]
    ensures r.Ok? ==> Valid(r.value.1) && Contents(r.value.1) == Contents(d)[1..]
  {
    if d.first == d.last then Err(NoSuchElement)
    else
      var d1 := d.(items := d.items[d.first := None], first := Grid.Wrap(d.first + 1, |d.items|));
      PoppedFront(d, d1);
      Ok((d.items[d.first].value, ShrinkIfRequired(d1)))
  }

  /** `removeLast`: an empty deque has no such element; otherwise step `last` back, take that item, maybe shrink. */
  function RemoveLast<T>(d: Deque<T>): (r: Result<(T, Deque<T>)>)
    requires Valid(d)
    ensures r.Err? <==> Contents(d) == []
    ensures r.Err? ==> r.error == NoSuchElement
    ensures r.Ok? ==> r.value.0 == Contents(d)[|Contents(d)| - 1]
    ensures r.Ok? ==> Valid(r.value.1) && Contents(r.value.1) == Contents(d)[..|Contents(d)| - 1]
  {
    if d.first == d.last then Err(NoSuchElement)
    else
      var l := Grid.Wrap(d.last + |d.items| - 1, |d.items|);
      assert l == Slot(d, Size(d) - 1);
      var item := d.items[l].value;
      var d1 := d.(items := d.items[l := None], last := l);
      PoppedBack(d, d1, l);
      Ok((item, ShrinkIfRequired(d1)))
  }

  /** With room for one more, stepping `first` back and filling that slot puts `x` in front. */
  lemma PushedFront<T>(d1: Deque<T>, d': Deque<T>, x: T)
    requires Valid(d1) && Size(d1) + 1 < |d1.items|
    requires var f := (if d1.first == 0 then |d1.items| else d1.first) - 1;
             d' == d1.(items := d1.items[f := Some(x)], first := f)
    ensures Valid(d') && Contents(d') == [x] + Contents(d1)
  {
    assert Size(d') == Size(d1) + 1;
    assert Slot(d', 0) == d'.first;
    assert forall i :: 0 < i < Size(d') ==> Slot(d', i) == Slot(d1, i - 1) != d'.first;
  }

  /** With room for one more, filling slot `last` and stepping it on puts `x` at the back. */
  lemma PushedBack<T>(d1: Deque<T>, d': Deque<T>, x: T)
    requires Valid(d1) && Size(d1) + 1 < |d1.items|
    requires d' == d1.(items := d1.items[d1.last := Some(x)], last := Grid.Wrap(d1.last + 1, |d1.items|))
    ensures Valid(d') && Contents(d') == Contents(d1) + [x]
  {
    assert Size(d') == Size(d1) + 1;
    assert Slot(d1, Size(d1)) == d1.last;
    assert forall i :: 0 <= i < Size(d1) ==> Slot(d', i) == Slot(d1, i) != d1.last;
  }

  /** Clearing the front slot and stepping `first` on drops the front item. */
  lemma PoppedFront<T>(d: Deque<T>, d1: Deque<T>)
    requires Valid(d) && d.first != d.last
    requires d1 == d.(items := d.items[d.first := None], first := Grid.Wrap(d.first + 1, |d.items|))
    ensures Size(d) > 0 && d.items[d.first].Some? && d.items[d.first].value == Contents(d)[0]
    ensures Valid(d1) && Contents(d1) == Contents(d)[1..]
  {
    assert Size(d) > 0 && Slot(d, 0) == d.first;
    assert Size(d1) == Size(d) - 1;
    assert forall i :: 0 <= i < Size(d1) ==> Slot(d1, i) == Slot(d, i + 1);
  }

  /** Stepping `last` back to slot `l` of the back item and clearing it drops that item. */
  lemma PoppedBack<T>(d: Deque<T>, d1: Deque<T>, l: nat)
    requires Valid(d) && Size(d) > 0 && l == Slot(d, Size(d) - 1)
    requires d1 == d.(items := d.items[l := None], last := l)
    ensures Valid(d1) && Contents(d1) == Contents(d)[..Size(d) - 1]
  {
    assert Size(d1) == Size(d) - 1;
    assert forall i :: 0 <= i < Size(d1) ==> Slot(d1, i) == Slot(d, i) != l;
  }

  // ---------------------------------------------------------------------------
  // The iterator

  /** How many `next()` calls are left from slot `start`. */
  function Remaining<T>(d: Deque<T>, start: nat): nat
    requires InBounds(d) && start < |d.items|
  {
    Grid.Wrap(d.last + |d.items| - start, |d.items|)
  }

  /** `hasNext()`. */
  function HasNext<T>(d: Deque<T>, start: nat): bool {
    start != d.last
  }

  /** `next()`: past the back is no such element; otherwise the slot's content, and the slot after it. */
  function Next<T>(d: Deque<T>, start: nat): (r: Result<(Option<T>, nat)>)
    requires InBounds(d) && start < |d.items|
    ensures r.Err? <==> !HasNext(d, start)
    ensures r.Err? ==> r.error == NoSuchElement
    ensures r.Ok? ==> r.value.0 == d.items[start] && r.value.1 < |d.items|
    ensures r.Ok? ==> Remaining(d, r.value.1) == Remaining(d, start) - 1
  {
    if start == d.last then Err(NoSuchElement)
    else Ok((d.items[start], Grid.Wrap(start + 1, |d.items|)))
  }

  /** Everything `next()` hands out, from slot `start` until `hasNext()` turns false. */
  function ItemsFrom<T>(d: Deque<T>, start: nat): (r: seq<Option<T>>)
    requires InBounds(d) && start < |d.items|
    ensures |r| == Remaining(d, start)
    decreases Remaining(d, start)
  {
    if !HasNext(d, start) then [] else [d.items[start]] + ItemsFrom(d, Grid.Wrap(start + 1, |d.items|))
  }

  /** Started `j` items behind the front, the iterator yields the rest of the contents, in order. */
  lemma ItemsFromSlot<T>(d: Deque<T>, j: nat)
    requires Valid(d) && j <= Size(d)
    ensures |ItemsFrom(d, Slot(d, j))| == Size(d) - j
    ensures forall k :: 0 <= k < Size(d) - j ==> ItemsFrom(d, Slot(d, j))[k] == Some(Contents(d)[j + k])
  {
    ItemsFromSlots(d, j);
    forall k | 0 <= k < Size(d) - j ensures ItemsFrom(d, Slot(d, j))[k] == Some(Contents(d)[j + k]) {
      var i := j + k;
      assert ItemsFrom(d, Slot(d, j))[k] == d.items[Slot(d, i)];
    }
  }

  /** The iterator started at slot `Slot(d, j)` reads the slots `Slot(d, j)`, `Slot(d, j + 1)`, ... up to `last`. */
  lemma ItemsFromSlots<T>(d: Deque<T>, j: nat)
    requires InBounds(d) && j <= Size(d)
    ensures |ItemsFrom(d, Slot(d, j))| == Size(d) - j
    ensures forall k :: 0 <= k < Size(d) - j ==> ItemsFrom(d, Slot(d, j))[k] == d.items[Slot(d, j + k)]
  {
    RemainingFromSlot(d, j);
    forall k | 0 <= k < Size(d) - j ensures ItemsFrom(d, Slot(d, j))[k] == d.items[Slot(d, j + k)] {
      ItemFromSlot(d, j, k);
    }
  }

  /** From slot `Slot(d, j)`, `Size(d) - j` calls of `next()` are left. */
  lemma RemainingFromSlot<T>(d: Deque<T>, j: nat)
    requires InBounds(d) && j <= Size(d)
    ensures Remaining(d, Slot(d, j)) == Size(d) - j
    ensures Slot(d, j) == d.last <==> j == Size(d)
  {
  }

  /** The `k`-th item handed out from slot `Slot(d, j)` is the one in slot `Slot(d, j + k)`. */
  lemma {:induction false} ItemFromSlot<T>(d: Deque<T>, j: nat, k: nat)
    requires InBounds(d) && j + k < Size(d)
    ensures k < |ItemsFrom(d, Slot(d, j))| && ItemsFrom(d, Slot(d, j))[k] == d.items[Slot(d, j + k)]
    decreases k
  {
    var here, there := Slot(d, j), Slot(d, j + 1);
    SlotStep(d, j);
    var rest := ItemsFrom(d, there);
    assert ItemsFrom(d, here) == [d.items[here]] + rest;
    if k > 0 {
      var next, k' := j + 1, k - 1;
      ItemFromSlot(d, next, k');
      assert next + k' == j + k;
      assert ([d.items[here]] + rest)[k] == rest[k'];
    }
  }

  /** Before the back, the slot after `Slot(d, j)` is `Slot(d, j + 1)`. */
  lemma SlotStep<T>(d: Deque<T>, j: nat)
    requires InBounds(d) && j < Size(d)
    ensures Slot(d, j) != d.last && j + 1 < |d.items| && Grid.Wrap(Slot(d, j) + 1, |d.items|) == Slot(d, j + 1)
  {
  }

  /** Before `last`, the iterator hands out the slot's content, then continues from the slot after it. */
  lemma ItemsFromCons<T>(d: Deque<T>, start: nat)
    requires InBounds(d) && start < |d.items| && start != d.last
    ensures Next(d, start).Ok?
    ensures ItemsFrom(d, start) == [Next(d, start).value.0] + ItemsFrom(d, Next(d, start).value.1)
  {
  }

  /** `iterator()`: the iterator starts at `first`, and walks the items front to back. */
  lemma IteratorYieldsContents<T>(d: Deque<T>)
    requires Valid(d)
    ensures |ItemsFrom(d, d.first)| == |Contents(d)|
    ensures forall k :: 0 <= k < |Contents(d)| ==> ItemsFrom(d, d.first)[k] == Some(Contents(d)[k])
  {
    assert Slot(d, 0) == d.first;
    ItemsFromSlot(d, 0);
  }
}

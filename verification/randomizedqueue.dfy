/**
 * A randomized queue kept densely in `items[0..size)`. Removal takes the item
 * at a random index and moves the last item into the hole. The random
 * choices (`StdRandom.uniform`, `StdRandom.shuffle`) are parameters here: the
 * index `r` for `dequeue`/`sample` and the order `order` for the iterator.
 */
module RandomizedQueue {
  import opened Wrappers
  import opened Seqs

  /** The initial array length (`capacity = 5`). */
  const INITIAL_CAPACITY: nat := 5

  /** `items` are the array slots (`None` is `null`); `capacity` is the field kept alongside the array. */
  datatype RandomizedQueue<T> = RandomizedQueue(items: seq<Option<T>>, size: nat, capacity: nat)

  /**
   * What the constructor sets up and every operation keeps: the items fill
   * `items[0..size)` and the array is never shorter than two slots (it starts
   * at five and only halves when at least four slots are there).
   */
  ghost predicate Valid<T>(q: RandomizedQueue<T>) {
    && |q.items| >= 2
    && q.capacity == |q.items|
    && q.size <= |q.items|
    && forall i :: 0 <= i < q.size ==> q.items[i].Some?
  }

  /** The stored items, in array order. */
  function Contents<T>(q: RandomizedQueue<T>): (s: seq<T>)
    requires Valid(q)
    ensures |s| == q.size
    ensures forall i :: 0 <= i < q.size ==> q.items[i] == Some(s[i])
  {
    seq(q.size, i requires 0 <= i < q.size => q.items[i].value)
  }

  function New<T>(): (q: RandomizedQueue<T>)
    ensures Valid(q) && Contents(q) == [] && |q.items| == INITIAL_CAPACITY
  {
    RandomizedQueue(seq(INITIAL_CAPACITY, _ => None), 0, INITIAL_CAPACITY)
  }

  function IsEmpty<T>(q: RandomizedQueue<T>): (b: bool)
    requires Valid(q)
    ensures b <==> Contents(q) == []
  {
    q.size == 0
  }

  /** `modifyCapacity`: copy `items[0..size)` into a new array. */
  function ModifyCapacity<T>(q: RandomizedQueue<T>, newCapacity: nat): (q': RandomizedQueue<T>)
    requires Valid(q) && q.size <= newCapacity && newCapacity >= 2
    ensures Valid(q') && Contents(q') == Contents(q)
    ensures |q'.items| == newCapacity
  {
    var newItems := seq(newCapacity, i requires 0 <= i < newCapacity => if i < q.size then q.items[i] else None);
    RandomizedQueue(newItems, q.size, newCapacity)
  }

  /** `checkArrayCapacity`: a full array doubles, so there is room for one more. */
  function CheckArrayCapacity<T>(q: RandomizedQueue<T>): (q': RandomizedQueue<T>)
    requires Valid(q)
    ensures Valid(q') && Contents(q') == Contents(q)
    ensures q'.size < |q'.items|
    ensures |q'.items| == if q.size == |q.items| then 2 * |q.items| else |q.items|
  {
    if q.size == |q.items| then ModifyCapacity(q, q.capacity * 2) else q
  }

  /** `shrinkIfRequired`: an array at most a quarter used halves (called with at least one item). */
  function ShrinkIfRequired<T>(q: RandomizedQueue<T>): (q': RandomizedQueue<T>)
    requires Valid(q) && q.size > 0
    ensures Valid(q') && Contents(q') == Contents(q)
    ensures |q'.items| == if q.size <= |q.items| / 4 then |q.items| / 2 else |q.items|
  {
    if q.size <= |q.items| / 4 then ModifyCapacity(q, q.capacity / 2) else q
  }

  /** `enqueue`: a `null` item is refused; otherwise it goes into slot `size`. */
  function Enqueue<T>(q: RandomizedQueue<T>, item: Option<T>): (r: Result<RandomizedQueue<T>>)
    requires Valid(q)
    ensures r.Err? <==> item.None?
    ensures r.Err? ==> r.error == NoSuchElement
    ensures r.Ok? ==> Valid(r.value) && Contents(r.value) == Contents(q) + [item.value]
    ensures r.Ok? ==> r.value.size == q.size + 1
  {
    if item.None? then Err(NoSuchElement)
    else
      var q1 := CheckArrayCapacity(q);
      Ok(q1.(items := q1.items[q1.size := item], size := q1.size + 1))
  }

  /**
   * `dequeue` with the random index `r` drawn from `[0, size)`: an empty queue
   * has no such element; otherwise shrink first, take `items[r]`, move the
   * last item into slot `r` and clear the last slot.
   */
  function Dequeue<T>(q: RandomizedQueue<T>, r: nat): (res: Result<(T, RandomizedQueue<T>)>)
    requires Valid(q) && (q.size > 0 ==> r < q.size)
    ensures res.Err? <==> Contents(q) == []
    ensures res.Err? ==> res.error == NoSuchElement
    ensures res.Ok? ==> res.value.0 == Contents(q)[r]
    ensures res.Ok? ==> Valid(res.value.1) && res.value.1.size == q.size - 1
    ensures res.Ok? ==> Contents(res.value.1) == Contents(q)[..r] + (if r < q.size - 1 then [Contents(q)[q.size - 1]] + Contents(q)[r + 1..q.size - 1] else [])
  {
    if IsEmpty(q) then Err(NoSuchElement)
    else
      var q1 := ShrinkIfRequired(q);
      var item := q1.items[r].value;
      var items := if r != q1.size - 1 then q1.items[r := q1.items[q1.size - 1]] else q1.items;
      var q2 := q1.(items := items[q1.size - 1 := None], size := q1.size - 1);
      SwapOut(q1, r, q2);
      Ok((item, q2))
  }

  /** Moving the last item into slot `r` and clearing the last slot leaves the other items, the last one now at `r`. */
  lemma SwapOut<T>(q1: RandomizedQueue<T>, r: nat, q2: RandomizedQueue<T>)
    requires Valid(q1) && r < q1.size
    requires var items := if r != q1.size - 1 then q1.items[r := q1.items[q1.size - 1]] else q1.items;
             q2 == q1.(items := items[q1.size - 1 := None], size := q1.size - 1)
    ensures Valid(q2) && q2.size == q1.size - 1
    ensures var c := Contents(q1);
            Contents(q2) == c[..r] + (if r < q1.size - 1 then [c[q1.size - 1]] + c[r + 1..q1.size - 1] else [])
  {
    var c := Contents(q1);
    var n := q1.size;
    var rest := c[..r] + (if r < n - 1 then [c[n - 1]] + c[r + 1..n - 1] else []);
    assert |rest| == n - 1;
    forall i | 0 <= i < n - 1 ensures q2.items[i] == Some(rest[i]) {
      if i < r {
        assert rest[i] == c[i];
      } else if i == r {
        assert rest[i] == c[n - 1];
      } else {
        assert rest[i] == c[i];
      }
    }
    assert Valid(q2);
    assert Contents(q2) == rest;
  }

  /** `dequeue` takes out exactly the item it returns, whichever index was drawn. */
  lemma DequeueRemovesOne<T>(q: RandomizedQueue<T>, r: nat)
    requires Valid(q) && r < q.size
    ensures Dequeue(q, r).Ok?
    ensures multiset(Contents(Dequeue(q, r).value.1)) + multiset{Dequeue(q, r).value.0} == multiset(Contents(q))
  {
    var c := Contents(q);
    var rest := c[..r] + (if r < |c| - 1 then [c[|c| - 1]] + c[r + 1..|c| - 1] else []);
    var res := Dequeue(q, r);
    assert res.Ok? && res.value.0 == c[r] && Contents(res.value.1) == rest;
    SwapRemoveKeeps(c, r);
  }

  /** Moving the last element into position `r` and dropping it leaves exactly `c[r]` out. */
  lemma SwapRemoveKeeps<T>(c: seq<T>, r: nat)
    requires r < |c|
    ensures multiset(c[..r] + (if r < |c| - 1 then [c[|c| - 1]] + c[r + 1..|c| - 1] else [])) + multiset{c[r]} == multiset(c)
  {
    var n := |c|;
    var A, x := c[..r], c[r];
    if r < n - 1 {
      var B, y := c[r + 1..n - 1], c[n - 1];
      assert c == A + [x] + B + [y];
      SwapFour(A, x, B, y);
    } else {
      assert c == A + [x];
      assert A + [] == A;
    }
  }

  /** Putting `y` where `x` was, and dropping the last place, removes exactly one `x`. */
  lemma SwapFour<T>(A: seq<T>, x: T, B: seq<T>, y: T)
    ensures multiset(A + ([y] + B)) + multiset{x} == multiset(A + [x] + B + [y])
  {
  }

  /** `sample` with the random index `r`: the item there, and the queue untouched; none on an empty queue. */
  function Sample<T>(q: RandomizedQueue<T>, r: nat): (res: Result<T>)
    requires Valid(q) && (q.size > 0 ==> r < q.size)
    ensures res.Err? <==> Contents(q) == []
    ensures res.Err? ==> res.error == NoSuchElement
    ensures res.Ok? ==> res.value in Contents(q) && res.value == Contents(q)[r]
  {
    if IsEmpty(q) then Err(NoSuchElement) else Ok(q.items[r].value)
  }

  // ---------------------------------------------------------------------------
  // The iterator, with the shuffle given as `order`

  /** The slot contents at an index (`null` past the array). */
  function SlotAt<T>(q: RandomizedQueue<T>): nat -> Option<T> {
    (i: nat) => if i < |q.items| then q.items[i] else None
  }

  /** `next()`: past the end of the shuffled indices is no such element. */
  function Next<T>(q: RandomizedQueue<T>, order: seq<nat>, current: nat): (r: Result<(Option<T>, nat)>)
    ensures r.Err? <==> current >= |order|
    ensures r.Err? ==> r.error == NoSuchElement
    ensures r.Ok? ==> r.value == (SlotAt(q)(order[current]), current + 1)
  {
    if current >= |order| then Err(NoSuchElement) else Ok((SlotAt(q)(order[current]), current + 1))
  }

  /** Everything the iterator hands out, from position `current` of the shuffled indices. */
  function ItemsFrom<T>(q: RandomizedQueue<T>, order: seq<nat>, current: nat): (r: seq<Option<T>>)
    ensures |r| == if current <= |order| then |order| - current else 0
    decreases |order| - current
  {
    match Next(q, order, current)
    case Err(_) => []
    case Ok((item, current')) => [item] + ItemsFrom(q, order, current')
  }

  lemma {:induction false} ItemsFromIsMap<T>(q: RandomizedQueue<T>, order: seq<nat>, current: nat)
    requires current <= |order|
    ensures ItemsFrom(q, order, current) == Map(order[current..], SlotAt(q))
    decreases |order| - current
  {
    if current < |order| {
      ItemsFromIsMap(q, order, current + 1);
      var tail := order[current..];
      assert tail == [order[current]] + order[current + 1..];
      MapAppend([order[current]], order[current + 1..], SlotAt(q));
    }
  }

  /** For any shuffle of `0..size-1`, the iterator hands out every stored item exactly once. */
  lemma IteratorYieldsContents<T>(q: RandomizedQueue<T>, order: seq<nat>)
    requires Valid(q) && IsPermutation(order, q.size)
    ensures multiset(ItemsFrom(q, order, 0)) == multiset(Map(Contents(q), (x: T) => Some(x)))
  {
    ItemsFromIsMap(q, order, 0);
    assert order[0..] == order;
    MapMultiset(order, Identity(q.size), SlotAt(q));
    assert Map(Identity(q.size), SlotAt(q)) == Map(Contents(q), (x: T) => Some(x));
  }
}

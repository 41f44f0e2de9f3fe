/** The position arithmetic of Deque (deque.hpp). Elements live in a table
    of buckets of 64 slots; an element's place is a (bucket, index)
    Position, and positions are ordered by their linear offset
    bucket * 64 + index. The table is a sequence of buckets, each a
    sequence of 64 slots; a bucket the source leaves unallocated is a run
    of empty slots here. */
module Deques {

  /** kBucketSize. */
  const BUCKET_SIZE: nat := 64

  datatype Position = Position(bucket: nat, index: nat)

  /** Every position the deque makes has its index inside a bucket. */
  predicate ValidPosition(p: Position)
  {
    p.index < BUCKET_SIZE
  }

  /** The linear offset of a position. */
  function Linear(p: Position): nat
  {
    p.bucket * BUCKET_SIZE + p.index
  }

  /** The position at a linear offset. */
  function PositionAt(n: nat): (p: Position)
    ensures ValidPosition(p) && Linear(p) == n
  {
    Position(n / BUCKET_SIZE, n % BUCKET_SIZE)
  }

  /** A valid position is the one at its own offset: positions and offsets
      are in one-to-one correspondence. */
  lemma PositionOfLinear(p: Position)
    requires ValidPosition(p)
    ensures PositionAt(Linear(p)) == p
  {
    DivModOfOffset(p.bucket, p.index, Linear(p));
  }

  lemma DivModOfOffset(b: nat, i: nat, n: nat)
    requires i < BUCKET_SIZE && n == b * BUCKET_SIZE + i
    ensures n / BUCKET_SIZE == b && n % BUCKET_SIZE == i
  {
  }

  /** Two valid positions at the same offset are the same position. */
  lemma LinearInjective(p: Position, q: Position)
    requires ValidPosition(p) && ValidPosition(q) && Linear(p) == Linear(q)
    ensures p == q
  {
    PositionOfLinear(p);
    PositionOfLinear(q);
  }

  /** Distinct valid positions are distinct slots. */
  lemma LinearDistinct(p: Position, q: Position)
    requires ValidPosition(p) && ValidPosition(q) && p != q
    ensures Linear(p) != Linear(q)
  {
    if Linear(p) == Linear(q) {
      LinearInjective(p, q);
    }
  }

  /** get_next_position: the next slot, moving to the start of the next
      bucket after the last slot of one. */
  function NextPosition(p: Position): (q: Position)
    requires ValidPosition(p)
    ensures ValidPosition(q) && Linear(q) == Linear(p) + 1
  {
    if p.index == BUCKET_SIZE - 1 then Position(p.bucket + 1, 0) else Position(p.bucket, p.index + 1)
  }

  /** get_before_position: the previous slot, moving to the end of the
      previous bucket from the first slot of one. There is no slot before
      offset 0 (the unsigned bucket would wrap); the source never asks. */
  function BeforePosition(p: Position): (q: Position)
    requires ValidPosition(p) && Linear(p) > 0
    ensures ValidPosition(q) && Linear(q) + 1 == Linear(p)
    ensures q.bucket <= p.bucket
  {
    if p.index == 0 then Position(p.bucket - 1, BUCKET_SIZE - 1) else Position(p.bucket, p.index - 1)
  }

  /** The two steps undo each other. */
  lemma NextBefore(p: Position)
    requires ValidPosition(p)
    ensures BeforePosition(NextPosition(p)) == p
    ensures Linear(p) > 0 ==> NextPosition(BeforePosition(p)) == p
  {
    LinearInjective(BeforePosition(NextPosition(p)), p);
    if Linear(p) > 0 {
      LinearInjective(NextPosition(BeforePosition(p)), p);
    }
  }

  /** get_element_position: the place of the element with logical index i,
      computed from the front position with the source's slot formula
      ((i + 1) % 64 - 1 + 64) % 64 and a carry into the bucket. */
  function ElementPosition(front: Position, i: nat): (p: Position)
    requires ValidPosition(front)
    ensures p == PositionAt(Linear(front) + i)
  {
    var bucket := front.bucket + i / BUCKET_SIZE;
    var slot := ((i + 1) % BUCKET_SIZE - 1 + BUCKET_SIZE) % BUCKET_SIZE;
    assert slot == i % BUCKET_SIZE;
    var bucket' := if slot + front.index >= BUCKET_SIZE then bucket + 1 else bucket;
    var p := Position(bucket', (slot + front.index) % BUCKET_SIZE);
    assert Linear(p) == Linear(front) + i;
    PositionOfLinear(p);
    p
  }

  /** A slot of the table: empty, or holding a constructed element. */
  datatype Slot<T> = Empty | Full(value: T)

  /** external_, elements_amount_, front_element_ and back_element_. */
  datatype Deque<T> = Deque(table: seq<seq<Slot<T>>>, size: nat, front: Position, back: Position)

  /** The slot at a linear offset; off the table it reads as empty. */
  function SlotAt<T>(table: seq<seq<Slot<T>>>, n: nat): Slot<T>
  {
    var p := PositionAt(n);
    if p.bucket < |table| && p.index < |table[p.bucket]| then table[p.bucket][p.index] else Empty
  }

  /** The slot i places after front. */
  function SlotFrom<T>(table: seq<seq<Slot<T>>>, front: Position, i: nat): Slot<T>
  {
    SlotAt(table, Linear(front) + i)
  }

  /** The slot of the element with logical index i. */
  function Cell<T>(d: Deque<T>, i: nat): Slot<T>
  {
    SlotFrom(d.table, d.front, i)
  }

  /** Every bucket has kBucketSize slots. */
  predicate Buckets<T>(table: seq<seq<Slot<T>>>)
  {
    forall b :: 0 <= b < |table| ==> |table[b]| == BUCKET_SIZE
  }

  /** The deque invariant: both positions are valid and inside the table;
      an empty deque has front == back, otherwise back is size - 1 slots
      after front; and the slots from front to back hold elements. */
  predicate Valid<T>(d: Deque<T>)
  {
    && Buckets(d.table)
    && ValidPosition(d.front) && ValidPosition(d.back)
    && d.front.bucket < |d.table| && d.back.bucket < |d.table|
    && (d.size == 0 ==> d.front == d.back)
    && (d.size > 0 ==> Linear(d.back) == Linear(d.front) + d.size - 1)
    && forall i :: 0 <= i < d.size ==> Cell(d, i).Full?
  }

  /** The elements in logical order. */
  function Elements<T>(d: Deque<T>): (s: seq<T>)
    requires Valid(d)
    ensures |s| == d.size
    ensures forall i :: 0 <= i < d.size ==> Cell(d, i) == Full(s[i])
  {
    seq(d.size, i requires 0 <= i < d.size && Cell(d, i).Full? => Cell(d, i).value)
  }

  function EmptyBucket<T>(): (b: seq<Slot<T>>)
    ensures |b| == BUCKET_SIZE
  {
    seq(BUCKET_SIZE, _ => Empty)
  }

  /** k unallocated buckets. */
  function EmptyBuckets<T>(k: nat): (t: seq<seq<Slot<T>>>)
    ensures |t| == k && Buckets(t)
    ensures forall n :: SlotAt(t, n) == Empty
  {
    seq(k, _ => EmptyBucket())
  }

  /** Deque(): three unallocated buckets, both positions at (1, 0). */
  function NewDeque<T>(): (d: Deque<T>)
    ensures Valid(d) && Elements(d) == []
  {
    Deque(EmptyBuckets(3), 0, Position(1, 0), Position(1, 0))
  }

  /** Constructing an element in a slot. */
  function Store<T>(table: seq<seq<Slot<T>>>, p: Position, c: Slot<T>): (t: seq<seq<Slot<T>>>)
    requires Buckets(table) && ValidPosition(p) && p.bucket < |table|
    ensures |t| == |table| && Buckets(t)
    ensures forall n :: SlotAt(t, n) == if n == Linear(p) then c else SlotAt(table, n)
  {
    var t := table[p.bucket := table[p.bucket][p.index := c]];
    forall n ensures SlotAt(t, n) == if n == Linear(p) then c else SlotAt(table, n) {
      if PositionAt(n) == p {
        assert n == Linear(p);
      } else {
        LinearInjective2(n, p);
      }
    }
    t
  }

  lemma LinearInjective2(n: nat, p: Position)
    requires ValidPosition(p) && PositionAt(n) != p
    ensures n != Linear(p)
  {
    if n == Linear(p) {
      PositionOfLinear(p);
    }
  }

  /** Buckets put in front move every slot k buckets up. */
  lemma SlotPrepend<T>(t: seq<seq<Slot<T>>>, k: nat, n: nat)
    requires Buckets(t)
    ensures SlotAt(EmptyBuckets(k) + t, n + k * BUCKET_SIZE) == SlotAt(t, n)
  {
    var p := PositionAt(n);
    var q := PositionAt(n + k * BUCKET_SIZE);
    DivModOfOffset(p.bucket + k, p.index, n + k * BUCKET_SIZE);
    assert q == Position(p.bucket + k, p.index);
  }

  /** push_back / emplace_back: the next slot after back becomes the new
      back, growing the table when back is the last slot of the last bucket
      by as many buckets as the deque spans; an empty deque constructs at
      back itself. */
  function PushBack<T>(d: Deque<T>, v: T): (r: Deque<T>)
    requires Valid(d)
    ensures Valid(r) && Elements(r) == Elements(d) + [v]
    ensures r.front == d.front && |r.table| >= |d.table|
  {
    var grown := d.table + EmptyBuckets(d.back.bucket - d.front.bucket + 1);
    var tb :=
      if d.size == 0 then (d.table, d.back)
      else if d.back.bucket == |d.table| - 1 && d.back.index == BUCKET_SIZE - 1 then
        (grown, Position(d.back.bucket + 1, 0))
      else if d.back.index == BUCKET_SIZE - 1 then (d.table, Position(d.back.bucket + 1, 0))
      else (d.table, Position(d.back.bucket, d.back.index + 1));
    var r := Deque(Store(tb.0, tb.1, Full(v)), d.size + 1, d.front, tb.1);
    PushBackCells(d, tb.0, tb.1, v);
    r
  }

  /** The slots of the old elements survive the growth and the store. */
  lemma PushBackCells<T>(d: Deque<T>, table: seq<seq<Slot<T>>>, back: Position, v: T)
    requires Valid(d) && Buckets(table) && |table| >= |d.table|
    requires ValidPosition(back) && back.bucket < |table|
    requires Linear(back) == Linear(d.front) + d.size
    requires forall n: nat :: n < |d.table| * BUCKET_SIZE ==> SlotAt(table, n) == SlotAt(d.table, n)
    ensures var r := Deque(Store(table, back, Full(v)), d.size + 1, d.front, back);
      Valid(r) && Elements(r) == Elements(d) + [v]
  {
    var r := Deque(Store(table, back, Full(v)), d.size + 1, d.front, back);
    forall i | 0 <= i < d.size
      ensures Cell(r, i) == Cell(d, i)
    {
      assert Linear(d.front) + i <= Linear(d.back) < |d.table| * BUCKET_SIZE;
    }
    assert Cell(r, d.size) == Full(v);
    assert Elements(r) == Elements(d) + [v];
  }

  /** pop_back: destroys the back element and steps back one slot, except
      that the positions stay put when the sole element goes. */
  function PopBack<T>(d: Deque<T>): (r: Deque<T>)
    requires Valid(d) && d.size > 0
    ensures Valid(r) && Elements(r) == Elements(d)[..d.size - 1]
    ensures r.front == d.front && |r.table| == |d.table|
    ensures d.size == 1 ==> r.back == d.back
  {
    var back := if d.size != 1 then BeforePosition(d.back) else d.back;
    var r := Deque(Store(d.table, d.back, Empty), d.size - 1, d.front, back);
    assert d.size == 1 ==> back == d.front by {
      if d.size == 1 {
        LinearInjective(d.front, d.back);
      }
    }
    assert forall i :: 0 <= i < r.size ==> Cell(r, i) == Cell(d, i);
    assert Elements(r) == Elements(d)[..d.size - 1];
    r
  }

  /** push_front / emplace_front: the slot before front becomes the new
      front. At the very first slot (0, 0) the table first gets
      back.bucket + 1 unallocated buckets in front, and both positions move
      up by as many buckets, so every element keeps its logical index. */
  function PushFront<T>(d: Deque<T>, v: T): (r: Deque<T>)
    requires Valid(d)
    ensures Valid(r) && Elements(r) == [v] + Elements(d)
    ensures d.size > 0 && d.front == Position(0, 0) ==> |r.table| == |d.table| + d.back.bucket + 1
  {
    if d.size != 0 && d.front == Position(0, 0) then
      var extra := d.back.bucket + 1;
      var table := EmptyBuckets(extra) + d.table;
      var front := Position(d.front.bucket + extra - 1, BUCKET_SIZE - 1);
      var back := Position(d.back.bucket + extra, d.back.index);
      var moved := Deque(table, d.size, Position(d.front.bucket + extra, d.front.index), back);
      MovedUp(d, extra);
      ConstructFront(moved, front, v)
    else
      var front :=
        if d.size == 0 then d.front
        else if d.front.index == 0 then Position(d.front.bucket - 1, BUCKET_SIZE - 1)
        else Position(d.front.bucket, d.front.index - 1);
      ConstructFront(d, front, v)
  }

  /** The deque with extra unallocated buckets in front and both positions
      moved up by as many buckets holds the same elements. */
  lemma MovedUp<T>(d: Deque<T>, extra: nat)
    requires Valid(d)
    ensures var moved := Deque(EmptyBuckets(extra) + d.table, d.size,
        Position(d.front.bucket + extra, d.front.index), Position(d.back.bucket + extra, d.back.index));
      Valid(moved) && Elements(moved) == Elements(d)
  {
    var moved := Deque(EmptyBuckets(extra) + d.table, d.size,
      Position(d.front.bucket + extra, d.front.index), Position(d.back.bucket + extra, d.back.index));
    forall i | 0 <= i < d.size
      ensures Cell(moved, i) == Cell(d, i)
    {
      SlotPrepend(d.table, extra, Linear(d.front) + i);
    }
  }

  /** Constructing v in the slot before front of a nonempty deque, or at
      front of an empty one, puts v first. */
  function ConstructFront<T>(d: Deque<T>, front: Position, v: T): (r: Deque<T>)
    requires Valid(d) && ValidPosition(front) && front.bucket < |d.table|
    requires d.size == 0 ==> front == d.front
    requires d.size > 0 ==> Linear(front) + 1 == Linear(d.front)
    ensures Valid(r) && Elements(r) == [v] + Elements(d)
    ensures |r.table| == |d.table|
  {
    var r := Deque(Store(d.table, front, Full(v)), d.size + 1, front, if d.size == 0 then front else d.back);
    assert forall i :: 0 <= i < d.size ==> Cell(r, i + 1) == Cell(d, i);
    assert Cell(r, 0) == Full(v);
    assert forall i :: 0 < i < r.size ==> Cell(r, i) == Cell(d, i - 1);
    assert Elements(r) == [v] + Elements(d);
    r
  }

  /** pop_front: destroys the front element and steps front forward one
      slot, except that the positions stay put when the sole element goes. */
  function PopFront<T>(d: Deque<T>): (r: Deque<T>)
    requires Valid(d) && d.size > 0
    ensures Valid(r) && Elements(r) == Elements(d)[1..]
    ensures r.back == d.back && |r.table| == |d.table|
    ensures d.size == 1 ==> r.front == d.front
  {
    var front := if d.size != 1 then NextPosition(d.front) else d.front;
    var r := Deque(Store(d.table, d.front, Empty), d.size - 1, front, d.back);
    assert d.size == 1 ==> front == d.back by {
      if d.size == 1 {
        LinearInjective(d.front, d.back);
      }
    }
    assert forall i :: 0 <= i < r.size ==> Cell(r, i) == Cell(d, i + 1);
    assert Elements(r) == Elements(d)[1..];
    r
  }

  /** operator[]: the element at get_element_position(i). */
  function Get<T>(d: Deque<T>, i: nat): (v: T)
    requires Valid(d) && i < d.size
    ensures v == Elements(d)[i]
  {
    var p := ElementPosition(d.front, i);
    assert Linear(p) <= Linear(d.back);
    assert Cell(d, i) == d.table[p.bucket][p.index];
    d.table[p.bucket][p.index].value
  }

  datatype Result<T> = Success(value: T) | OutOfRange

  /** at: out_of_range exactly when i >= size, otherwise operator[]. */
  function At<T>(d: Deque<T>, i: nat): (r: Result<T>)
    requires Valid(d)
    ensures r.OutOfRange? <==> i >= d.size
    ensures r.Success? ==> r.value == Elements(d)[i]
  {
    if i >= d.size then OutOfRange else Success(Get(d, i))
  }

  /** begin() and end(): the front position, and the slot after back (the
      front itself when empty). */
  function Begin<T>(d: Deque<T>): (p: Position)
    requires Valid(d)
    ensures ValidPosition(p) && Linear(p) == Linear(d.front)
    ensures d.size > 0 ==> p.bucket < |d.table| && d.table[p.bucket][p.index] == Full(Elements(d)[0])
  {
    if d.size > 0 then
      var q := ElementPosition(d.front, 0);
      PositionOfLinear(d.front);
      assert q == d.front;
      assert Get(d, 0) == Elements(d)[0];
      d.front
    else
      d.front
  }

  function End<T>(d: Deque<T>): (p: Position)
    requires Valid(d)
    ensures ValidPosition(p) && Linear(p) == Linear(d.front) + d.size
  {
    if d.size == 0 then d.front else NextPosition(d.back)
  }

  /** The slot at a valid position inside the table is the one at its
      offset. */
  lemma SlotOfPosition<T>(table: seq<seq<Slot<T>>>, p: Position)
    requires Buckets(table) && ValidPosition(p) && p.bucket < |table|
    ensures table[p.bucket][p.index] == SlotAt(table, Linear(p))
  {
    PositionOfLinear(p);
  }

  /** Midway through insert's copy loop at logical index j: the slots below
      j hold the old elements in place, those above j up to n the old
      elements one slot up, and slot j is occupied. */
  ghost predicate ShiftedUp<T>(table: seq<seq<Slot<T>>>, front: Position, old_: seq<T>, j: nat)
  {
    && j <= |old_|
    && (forall i :: 0 <= i < j ==> SlotFrom(table, front, i) == Full(old_[i]))
    && (forall i :: j < i <= |old_| ==> SlotFrom(table, front, i) == Full(old_[i - 1]))
    && SlotFrom(table, front, j).Full?
  }

  /** One pass of insert's loop: copying slot j - 1 up into slot j moves
      the gap down by one. */
  lemma InsertStep<T>(table: seq<seq<Slot<T>>>, front: Position, old_: seq<T>, j: nat, cur: Position)
    requires Buckets(table) && ValidPosition(front) && ValidPosition(cur) && cur.bucket < |table|
    requires ShiftedUp(table, front, old_, j) && j > 0 && Linear(cur) == Linear(front) + j
    ensures var prev := BeforePosition(cur);
      && prev.bucket < |table|
      && ShiftedUp(Store(table, cur, table[prev.bucket][prev.index]), front, old_, j - 1)
  {
    var prev := BeforePosition(cur);
    SlotOfPosition(table, prev);
    var t := Store(table, cur, table[prev.bucket][prev.index]);
    forall i | 0 <= i < j
      ensures SlotFrom(t, front, i) == Full(old_[i])
    {
      assert SlotFrom(t, front, i) == SlotFrom(table, front, i);
    }
    forall i | j - 1 < i <= |old_|
      ensures SlotFrom(t, front, i) == Full(old_[i - 1])
    {
      if i > j {
        assert SlotFrom(t, front, i) == SlotFrom(table, front, i);
      }
    }
  }

  /** Storing the new value in the gap at k completes the insertion. */
  lemma InsertDone<T>(table: seq<seq<Slot<T>>>, front: Position, old_: seq<T>, k: nat, ins: Position, v: T)
    requires Buckets(table) && ValidPosition(ins) && ins.bucket < |table|
    requires ShiftedUp(table, front, old_, k) && Linear(ins) == Linear(front) + k
    ensures var t := Store(table, ins, Full(v));
      forall i :: 0 <= i <= |old_| ==> SlotFrom(t, front, i) == Full((old_[..k] + [v] + old_[k..])[i])
  {
    var want := old_[..k] + [v] + old_[k..];
    var t := Store(table, ins, Full(v));
    forall i | 0 <= i <= |old_|
      ensures SlotFrom(t, front, i) == Full(want[i])
    {
      if i < k {
        assert want[i] == old_[i];
        assert SlotFrom(t, front, i) == SlotFrom(table, front, i);
      } else if i > k {
        assert want[i] == old_[i - 1];
        assert SlotFrom(t, front, i) == SlotFrom(table, front, i);
      }
    }
  }

  /** insert(it, value): push_back(value), then walk from back down to the
      insertion position copying each element one slot up, and store value
      there. The iterator is given by its logical index k, 0 <= k <= size. */
  method Insert<T>(d: Deque<T>, k: nat, v: T) returns (r: Deque<T>)
    requires Valid(d) && k <= d.size
    ensures Valid(r) && Elements(r) == Elements(d)[..k] + [v] + Elements(d)[k..]
  {
    var ins := ElementPosition(d.front, k);
    var e := PushBack(d, v);
    if e.size == 1 {
      return e;
    }
    ghost var old_ := Elements(d);
    InsertStart(d, v, k);
    var table := ShiftUp(e.table, d.front, old_, e.back, ins, k);
    InsertDone(table, d.front, old_, k, ins, v);
    table := Store(table, ins, Full(v));
    r := Deque(table, e.size, e.front, e.back);
    FromCells(r, old_[..k] + [v] + old_[k..]);
  }

  /** The copy loop of insert: from cur down to ins, each slot takes the
      element of the slot before it, moving the gap from the end down to
      logical index k. */
  method ShiftUp<T>(table: seq<seq<Slot<T>>>, front: Position, ghost old_: seq<T>, cur: Position, ins: Position, k: nat)
    returns (t: seq<seq<Slot<T>>>)
    requires ValidPosition(front) && ValidPosition(ins) && Linear(ins) == Linear(front) + k
    requires UpLoop(table, |table|, front, old_, cur, |old_|, k)
    ensures Buckets(t) && |t| == |table| && ShiftedUp(t, front, old_, k)
  {
    ghost var j: nat := |old_|;
    var pos := cur;
    t := table;
    while pos != ins
      invariant UpLoop(t, |table|, front, old_, pos, j, k)
      decreases j
    {
      UpStep(t, front, old_, pos, j, ins, k);
      var prev := BeforePosition(pos);
      t := Store(t, pos, t[prev.bucket][prev.index]);
      pos := prev;
      j := j - 1;
    }
    UpDone(t, |table|, front, old_, pos, j, k);
  }

  /** The walk ends at the insertion position with the gap at k. */
  lemma UpDone<T>(t: seq<seq<Slot<T>>>, n: nat, front: Position, old_: seq<T>, pos: Position, j: nat, k: nat)
    requires UpLoop(t, n, front, old_, pos, j, k) && ValidPosition(front)
    requires ValidPosition(pos) && Linear(pos) == Linear(front) + k
    ensures Buckets(t) && |t| == n && ShiftedUp(t, front, old_, k)
  {
  }

  /** The state of insert's loop at slot j of the walk down to k. */
  ghost predicate UpLoop<T>(t: seq<seq<Slot<T>>>, n: nat, front: Position, old_: seq<T>, pos: Position, j: nat, k: nat)
  {
    && ValidPosition(pos) && pos.bucket < |t| && Linear(pos) == Linear(front) + j && k <= j
    && Buckets(t) && |t| == n
    && ShiftedUp(t, front, old_, j)
  }

  /** One pass of insert's loop keeps its state, one slot further down. */
  lemma UpStep<T>(t: seq<seq<Slot<T>>>, front: Position, old_: seq<T>, pos: Position, j: nat, ins: Position, k: nat)
    requires UpLoop(t, |t|, front, old_, pos, j, k) && ValidPosition(front)
    requires ValidPosition(ins) && Linear(ins) == Linear(front) + k && pos != ins
    ensures Linear(pos) > 0 && j > k
    ensures var prev := BeforePosition(pos);
      && prev.bucket < |t|
      && UpLoop(Store(t, pos, t[prev.bucket][prev.index]), |t|, front, old_, prev, j - 1, k)
  {
    LinearDistinct(pos, ins);
    InsertStep(t, front, old_, j, pos);
  }

  /** After push_back the copy loop starts with the gap at the end. */
  lemma InsertStart<T>(d: Deque<T>, v: T, k: nat)
    requires Valid(d) && k <= d.size
    ensures var e := PushBack(d, v);
      e.front == d.front && UpLoop(e.table, |e.table|, d.front, Elements(d), e.back, d.size, k)
  {
    var e := PushBack(d, v);
    assert forall i :: 0 <= i <= d.size ==> SlotFrom(e.table, d.front, i) == Cell(e, i);
  }

  /** A deque whose slots from front hold the values of s, with consistent
      positions, holds exactly s. */
  lemma FromCells<T>(r: Deque<T>, s: seq<T>)
    requires Buckets(r.table) && ValidPosition(r.front) && ValidPosition(r.back)
    requires r.front.bucket < |r.table| && r.back.bucket < |r.table|
    requires r.size > 0 && Linear(r.back) == Linear(r.front) + r.size - 1
    requires |s| == r.size && forall i :: 0 <= i < r.size ==> Cell(r, i) == Full(s[i])
    ensures Valid(r) && Elements(r) == s
  {
  }

  /** Midway through erase's copy loop at logical index j: the slots below
      j hold the old elements with the one at k dropped, and those from j
      up hold the old elements in place. */
  ghost predicate ShiftedDown<T>(table: seq<seq<Slot<T>>>, front: Position, old_: seq<T>, k: nat, j: nat)
  {
    && k <= j < |old_|
    && (forall i :: 0 <= i < k ==> SlotFrom(table, front, i) == Full(old_[i]))
    && (forall i :: k <= i < j ==> SlotFrom(table, front, i) == Full(old_[i + 1]))
    && (forall i :: j <= i < |old_| ==> SlotFrom(table, front, i) == Full(old_[i]))
  }

  /** One pass of erase's loop: copying slot j + 1 down into slot j. */
  lemma EraseStep<T>(table: seq<seq<Slot<T>>>, front: Position, old_: seq<T>, k: nat, j: nat, pos: Position)
    requires Buckets(table) && ValidPosition(front) && ValidPosition(pos) && pos.bucket < |table|
    requires ShiftedDown(table, front, old_, k, j) && j + 1 < |old_| && Linear(pos) == Linear(front) + j
    requires Linear(front) + |old_| <= |table| * BUCKET_SIZE
    ensures var next := NextPosition(pos);
      && next.bucket < |table|
      && ShiftedDown(Store(table, pos, table[next.bucket][next.index]), front, old_, k, j + 1)
  {
    var next := NextPosition(pos);
    assert Linear(next) < |table| * BUCKET_SIZE;
    SlotOfPosition(table, next);
    var t := Store(table, pos, table[next.bucket][next.index]);
    forall i | 0 <= i < k
      ensures SlotFrom(t, front, i) == Full(old_[i])
    {
      assert SlotFrom(t, front, i) == SlotFrom(table, front, i);
    }
    forall i | k <= i < j + 1
      ensures SlotFrom(t, front, i) == Full(old_[i + 1])
    {
      if i < j {
        assert SlotFrom(t, front, i) == SlotFrom(table, front, i);
      }
    }
  }

  /** When the walk reaches back, the slots hold the old elements with the
      one at k dropped, and the last one once more at the end. */
  lemma EraseDone<T>(table: seq<seq<Slot<T>>>, front: Position, old_: seq<T>, k: nat)
    requires |old_| > 0 && ShiftedDown(table, front, old_, k, |old_| - 1)
    ensures forall i :: 0 <= i < |old_| ==>
      SlotFrom(table, front, i) == Full((old_[..k] + old_[k + 1..] + [old_[|old_| - 1]])[i])
  {
    var want := old_[..k] + old_[k + 1..] + [old_[|old_| - 1]];
    forall i | 0 <= i < |old_|
      ensures SlotFrom(table, front, i) == Full(want[i])
    {
      if i == |old_| - 1 {
        assert want[i] == old_[i];
        assert SlotFrom(table, front, i) == Full(old_[i]);
      } else if i < k {
        assert want[i] == old_[i];
        assert SlotFrom(table, front, i) == Full(old_[i]);
      } else {
        assert want[i] == old_[i + 1];
        assert SlotFrom(table, front, i) == Full(old_[i + 1]);
      }
    }
  }

  /** erase(it): walk from the erased position up to back copying each
      element one slot down, then pop_back. The iterator is given by its
      logical index k < size. The source's do-while is guarded by
      position != back, so it is the while loop here. */
  method Erase<T>(d: Deque<T>, k: nat) returns (r: Deque<T>)
    requires Valid(d) && k < d.size
    ensures Valid(r) && Elements(r) == Elements(d)[..k] + Elements(d)[k + 1..]
  {
    ghost var old_ := Elements(d);
    var pos := ElementPosition(d.front, k);
    EraseStart(d, k);
    var table := ShiftDown(d.table, d.front, old_, pos, d.back, k);
    var shifted := Deque(table, d.size, d.front, d.back);
    EraseDone(table, d.front, old_, k);
    FromCells(shifted, old_[..k] + old_[k + 1..] + [old_[d.size - 1]]);
    r := PopBack(shifted);
  }

  /** Before erase's walk, the slots hold the elements themselves. */
  lemma EraseStart<T>(d: Deque<T>, k: nat)
    requires Valid(d) && k < d.size
    ensures ShiftedDown(d.table, d.front, Elements(d), k, k)
    ensures Linear(d.front) + d.size <= |d.table| * BUCKET_SIZE
  {
    assert Linear(d.back) < |d.table| * BUCKET_SIZE;
  }

  /** erase's loop: from the erased position up to back, each slot takes
      the element of the slot after it. */
  method ShiftDown<T>(table: seq<seq<Slot<T>>>, front: Position, ghost old_: seq<T>, start: Position, back: Position, k: nat)
    returns (t: seq<seq<Slot<T>>>)
    requires Buckets(table) && ValidPosition(front) && ValidPosition(start) && ValidPosition(back)
    requires |old_| > 0 && Linear(back) == Linear(front) + |old_| - 1
    requires Linear(front) + |old_| <= |table| * BUCKET_SIZE
    requires Linear(start) == Linear(front) + k
    requires ShiftedDown(table, front, old_, k, k)
    ensures Buckets(t) && |t| == |table| && ShiftedDown(t, front, old_, k, |old_| - 1)
  {
    ghost var j := k;
    var pos := start;
    t := table;
    while pos != back
      invariant ValidPosition(pos) && Linear(pos) == Linear(front) + j && j < |old_|
      invariant Buckets(t) && |t| == |table|
      invariant ShiftedDown(t, front, old_, k, j)
      decreases |old_| - j
    {
      var next := NextPosition(pos);
      EraseStep(t, front, old_, k, j, pos);
      t := Store(t, pos, t[next.bucket][next.index]);
      pos := next;
      j := j + 1;
    }
    LinearInjective(pos, back);
  }

  /** A CommonIterator: the bucket pointer, as an index into the table,
      and the slot index inside that bucket. Pointer arithmetic may step
      outside the table, so the bucket is an int. */
  datatype Iterator = Iterator(bucket: int, index: nat)

  predicate ValidIterator(it: Iterator)
  {
    it.index < BUCKET_SIZE
  }

  /** The linear offset an iterator points at. */
  function Offset(it: Iterator): int
  {
    it.bucket * BUCKET_SIZE + it.index
  }

  /** Two valid iterators at the same offset are equal. */
  lemma OffsetInjective(a: Iterator, b: Iterator)
    requires ValidIterator(a) && ValidIterator(b) && Offset(a) == Offset(b)
    ensures a == b
  {
    assert (a.bucket - b.bucket) * BUCKET_SIZE == b.index - a.index;
  }

  /** The iterator at a position of the deque (begin() and end()). */
  function IteratorAt(p: Position): (it: Iterator)
    requires ValidPosition(p)
    ensures ValidIterator(it) && Offset(it) == Linear(p)
  {
    Iterator(p.bucket, p.index)
  }

  /** operator++: the next slot, into the next bucket after the last. */
  function Increment(it: Iterator): (r: Iterator)
    requires ValidIterator(it)
    ensures ValidIterator(r) && Offset(r) == Offset(it) + 1
  {
    if it.index == BUCKET_SIZE - 1 then Iterator(it.bucket + 1, 0) else Iterator(it.bucket, it.index + 1)
  }

  /** operator--: the previous slot, into the previous bucket before the
      first. */
  function Decrement(it: Iterator): (r: Iterator)
    requires ValidIterator(it)
    ensures ValidIterator(r) && Offset(r) == Offset(it) - 1
  {
    if it.index == 0 then Iterator(it.bucket - 1, BUCKET_SIZE - 1) else Iterator(it.bucket, it.index - 1)
  }

  /** The range of the int offset operator+ and operator- take. INT_MIN is
      left out: both negate a negative shift, which overflows there. */
  const INT_MAX: int := 0x7FFF_FFFF

  predicate ShiftInRange(shift: int)
  {
    -INT_MAX <= shift <= INT_MAX
  }

  /** operator+(int): whole buckets by shift / 64, the rest into the slot
      index with a carry into the bucket; a negative shift goes to
      operator- with the negated shift. */
  function Add(it: Iterator, shift: int): (r: Iterator)
    requires ValidIterator(it) && ShiftInRange(shift)
    ensures ValidIterator(r) && Offset(r) == Offset(it) + shift
    decreases if shift >= 0 then 0 else 1
  {
    if shift >= 0 then
      var whole := shift / BUCKET_SIZE;
      var rest := shift - whole * BUCKET_SIZE;
      var carry := if rest + it.index >= BUCKET_SIZE then 1 else 0;
      Iterator(it.bucket + whole + carry, (rest + it.index) % BUCKET_SIZE)
    else
      Subtract(it, -shift)
  }

  /** operator-(int): whole buckets by shift / 64, the rest out of the slot
      index with a borrow from the bucket; the index is computed as
      (index - rest + 64) % 64, which is the same in the source's unsigned
      arithmetic because 2^64 is a multiple of 64. A negative shift goes to
      operator+ with the negated shift. */
  function Subtract(it: Iterator, shift: int): (r: Iterator)
    requires ValidIterator(it) && ShiftInRange(shift)
    ensures ValidIterator(r) && Offset(r) == Offset(it) - shift
    decreases if shift >= 0 then 0 else 1
  {
    if shift >= 0 then
      var whole := shift / BUCKET_SIZE;
      var rest := shift - whole * BUCKET_SIZE;
      var borrow := if it.index - rest < 0 then 1 else 0;
      Iterator(it.bucket - whole - borrow, (it.index - rest + BUCKET_SIZE) % BUCKET_SIZE)
    else
      Add(it, -shift)
  }

  /** Moving forward and back by the same shift returns the iterator. */
  lemma AddSubtract(it: Iterator, shift: int)
    requires ValidIterator(it) && ShiftInRange(shift)
    ensures Subtract(Add(it, shift), shift) == it
    ensures Add(Subtract(it, shift), shift) == it
  {
    OffsetInjective(Subtract(Add(it, shift), shift), it);
    OffsetInjective(Add(Subtract(it, shift), shift), it);
  }

  /** operator<: as written it holds on equal iterators too, so it is
      offset order <= and not <. */
  function Less(a: Iterator, b: Iterator): (r: bool)
    requires ValidIterator(a) && ValidIterator(b)
    ensures r <==> Offset(a) <= Offset(b)
  {
    OffsetOrder(a, b);
    a.bucket < b.bucket || (a.bucket == b.bucket && a.index <= b.index)
  }

  /** operator>: the mirror image of operator<, likewise not strict. */
  function Greater(a: Iterator, b: Iterator): (r: bool)
    requires ValidIterator(a) && ValidIterator(b)
    ensures r <==> Offset(a) >= Offset(b)
  {
    OffsetOrder(b, a);
    b.bucket < a.bucket || (b.bucket == a.bucket && b.index <= a.index)
  }

  /** operator<=: equality or operator<. */
  function LessEq(a: Iterator, b: Iterator): (r: bool)
    requires ValidIterator(a) && ValidIterator(b)
    ensures r <==> Offset(a) <= Offset(b)
  {
    a == b || Less(a, b)
  }

  /** Offsets are ordered by bucket first, then by slot. */
  lemma OffsetOrder(a: Iterator, b: Iterator)
    requires ValidIterator(a) && ValidIterator(b)
    ensures Offset(a) <= Offset(b) <==> a.bucket < b.bucket || (a.bucket == b.bucket && a.index <= b.index)
  {
    if a.bucket < b.bucket {
      assert Offset(a) < a.bucket * BUCKET_SIZE + BUCKET_SIZE <= Offset(b);
    } else if a.bucket > b.bucket {
      assert Offset(b) < b.bucket * BUCKET_SIZE + BUCKET_SIZE <= Offset(a);
    }
  }

  /** operator-(iterator): the distance in slots, counted through whole
      buckets between the two, on whichever side of operator<= the pair
      falls. */
  function Distance(a: Iterator, b: Iterator): (n: int)
    requires ValidIterator(a) && ValidIterator(b)
    ensures n == Offset(a) - Offset(b)
  {
    if LessEq(a, b) then
      if a.bucket == b.bucket then -(b.index - a.index)
      else -((b.bucket - a.bucket - 1) * BUCKET_SIZE + b.index + BUCKET_SIZE - a.index)
    else
      if a.bucket == b.bucket then -(b.index as int) + a.index
      else (a.bucket - b.bucket - 1) * BUCKET_SIZE - b.index + BUCKET_SIZE + a.index
  }

  /** end() - begin() is the size, and begin() + i is the iterator at the
      element position of i. */
  lemma IteratorsOfDeque<T>(d: Deque<T>, i: nat)
    requires Valid(d) && i <= d.size && ShiftInRange(i)
    ensures Distance(IteratorAt(End(d)), IteratorAt(Begin(d))) == d.size
    ensures Add(IteratorAt(Begin(d)), i) == IteratorAt(ElementPosition(d.front, i))
  {
    OffsetInjective(Add(IteratorAt(Begin(d)), i), IteratorAt(ElementPosition(d.front, i)));
  }
}

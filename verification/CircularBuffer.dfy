/** src/circular_buffer.c: a ring over a block of the heap, with three counters
    that wrap at 2^32 and two indices that wrap at the size. */
module CircularBuffer {
  import opened Allocator
  import opened Common
  import opened Modular

  /** Everything that happened to a buffer: all elements ever written, how many
      reads succeeded and how many writes overflowed. Nothing wraps here. */
  datatype History<T> = History(size: nat, log: seq<T>, taken: nat, overflows: nat)

  function Count<T>(h: History<T>): int {
    |h.log| - h.taken - h.overflows
  }

  ghost predicate Legal<T>(h: History<T>) {
    0 < h.size && 0 <= Count(h) <= h.size
  }

  function Empty<T>(size: nat): History<T> {
    History(size, [], 0, 0)
  }

  function Written<T>(h: History<T>, x: T): (r: History<T>)
    ensures Legal(h) ==> Legal(r)
  {
    h.(log := h.log + [x], overflows := if Count(h) == h.size then h.overflows + 1 else h.overflows)
  }

  /** Where an index that starts at 0 and wraps at `size` stands after k steps. */
  function Slot(k: nat, size: nat): (r: nat)
    requires 0 < size
    ensures r < size && r <= k
  {
    if k == 0 || Slot(k - 1, size) + 1 == size then 0 else Slot(k - 1, size) + 1
  }

  lemma {:induction false} SlotIsRemainder(k: nat, size: nat)
    requires 0 < size
    ensures Slot(k, size) == k % size
  {
    if k == 0 {
      DivModUnique(0, size, 0, 0);
    } else {
      SlotIsRemainder(k - 1, size);
      NextRemainder(k - 1, size);
    }
  }

  lemma SlotsDiffer(j: nat, k: nat, size: nat)
    requires j < k < j + size
    ensures Slot(j, size) != Slot(k, size)
  {
    SlotIsRemainder(j, size);
    SlotIsRemainder(k, size);
    RemaindersDiffer(j, k, size);
  }

  /** The number of the write whose element the next read returns: the latest
      one that fell into the cell the read index points to. */
  function Latest<T>(h: History<T>): (k: nat)
    requires Legal(h) && Count(h) > 0
    ensures k < |h.log|
  {
    |h.log| - 1 - Slot(|h.log| - 1 - h.taken, h.size)
  }

  function Read<T>(h: History<T>): (r: (Option<T>, History<T>))
    requires Legal(h)
    ensures Legal(r.1)
  {
    if Count(h) == 0 then (None, h) else (Some(h.log[Latest(h)]), h.(taken := h.taken + 1))
  }

  // ---- What a read returns ------------------------------------------------

  /** A successful read returns write number k, the largest k congruent to the
      number of reads modulo the size. */
  lemma LatestIsLargest<T>(h: History<T>)
    requires Legal(h) && Count(h) > 0
    ensures Latest(h) % h.size == h.taken % h.size
    ensures forall j :: Latest(h) < j < |h.log| ==> j % h.size != h.taken % h.size
  {
    hide Slot;
    var k := Latest(h);
    SlotIsRemainder(|h.log| - 1 - h.taken, h.size);
    RemovesMultiples(h.taken, h.size, (|h.log| - 1 - h.taken) / h.size);
    assert k == h.taken + h.size * ((|h.log| - 1 - h.taken) / h.size);
    forall j | k < j < |h.log| ensures j % h.size != h.taken % h.size {
      RemaindersDiffer(k, j, h.size);
    }
  }

  /** After overflows the read index is not advanced, so the buffer is a
      drop-oldest queue exactly while the number of overflows is a multiple of
      the size. */
  lemma ReadsOldestIff<T>(h: History<T>)
    requires Legal(h) && Count(h) > 0
    ensures Latest(h) == h.taken + h.overflows <==> h.overflows % h.size == 0
  {
    var k, oldest := Latest(h), h.taken + h.overflows;
    LatestIsLargest(h);
    EqualRemainders(oldest, h.taken, h.size);
    if h.overflows % h.size == 0 && k != oldest {
      RemaindersDiffer(oldest, k, h.size);
    }
  }

  /** struct cb_read, and what stands for the value 0 in it. */
  datatype CbRead<T> = CbRead(value: T, error: int)

  // ---- Runs ---------------------------------------------------------------

  datatype Op<T> = Put(x: T) | Get

  ghost function After<T>(size: nat, ops: seq<Op<T>>): (h: History<T>)
    requires 0 < size
    ensures Legal(h) && h.size == size
  {
    if ops == [] then Empty(size)
    else
      var h, op := After(size, ops[..|ops| - 1]), ops[|ops| - 1];
      if op.Put? then Written(h, op.x) else Read(h).1
  }

  /** What the reads of a run return, in order. */
  ghost function Returned<T>(size: nat, ops: seq<Op<T>>): seq<Option<T>>
    requires 0 < size
  {
    if ops == [] then []
    else
      var past, op := ops[..|ops| - 1], ops[|ops| - 1];
      Returned(size, past) + if op.Put? then [] else [Read(After(size, past)).0]
  }

  /** The reference: a queue of bounded size that drops its oldest element when
      it is full. */
  ghost function Queue<T>(size: nat, ops: seq<Op<T>>): seq<T> {
    if ops == [] then []
    else
      var q, op := Queue(size, ops[..|ops| - 1]), ops[|ops| - 1];
      if op.Put? then (if |q| == size && 0 < |q| then q[1..] else q) + [op.x]
      else if q == [] then q else q[1..]
  }

  ghost function QueueReturned<T>(size: nat, ops: seq<Op<T>>): seq<Option<T>> {
    if ops == [] then []
    else
      var past, op := ops[..|ops| - 1], ops[|ops| - 1];
      var q := Queue(size, past);
      QueueReturned(size, past) + if op.Put? then [] else [if q == [] then None else Some(q[0])]
  }

  lemma TailWritten<T>(h: History<T>, q: seq<T>, x: T)
    requires Legal(h) && q == h.log[h.taken + h.overflows..]
    ensures var r := Written(h, x);
            (if |q| == h.size then q[1..] else q) + [x] == r.log[r.taken + r.overflows..]
  {
    var oldest := h.taken + h.overflows;
    assert |q| == Count(h);
    if |q| == h.size {
      assert q[1..] == h.log[oldest + 1..];
    }
  }

  lemma TailRead<T>(h: History<T>, q: seq<T>)
    requires Legal(h) && q == h.log[h.taken + h.overflows..]
    ensures var r := Read(h).1;
            (if q == [] then q else q[1..]) == r.log[r.taken + r.overflows..]
  {
    assert |q| == Count(h);
  }

  /** The buffer always holds as many elements as the reference queue, and the
      reference queue is what was written last. */
  lemma {:induction false} QueueIsTail<T>(size: nat, ops: seq<Op<T>>)
    requires 0 < size
    ensures var h := After(size, ops); Queue(size, ops) == h.log[h.taken + h.overflows..]
  {
    hide Written, Read, Legal;
    if ops != [] {
      var past, op := ops[..|ops| - 1], ops[|ops| - 1];
      QueueIsTail(size, past);
      if op.Put? {
        TailWritten(After(size, past), Queue(size, past), op.x);
      } else {
        TailRead(After(size, past), Queue(size, past));
      }
    }
  }

  /** Every read fails exactly when the reference queue is empty, in any run. */
  lemma {:induction false} ErrorsMatch<T>(size: nat, ops: seq<Op<T>>)
    requires 0 < size
    ensures |Returned(size, ops)| == |QueueReturned(size, ops)|
    ensures forall i :: 0 <= i < |Returned(size, ops)| ==> (Returned(size, ops)[i].None? <==> QueueReturned(size, ops)[i].None?)
  {
    if ops != [] {
      var past := ops[..|ops| - 1];
      ErrorsMatch(size, past);
      QueueIsTail(size, past);
      assert |Queue(size, past)| == Count(After(size, past));
      var returned, queued := Returned(size, ops), QueueReturned(size, ops);
      forall i | 0 <= i < |returned| ensures returned[i].None? <==> queued[i].None? {
        if i < |Returned(size, past)| {
          assert returned[i] == Returned(size, past)[i] && queued[i] == QueueReturned(size, past)[i];
        }
      }
    }
  }

  /** In a run without overflow the reads return the written elements, in the
      order of writing. */
  lemma {:induction false} FifoWithoutOverflow<T>(size: nat, ops: seq<Op<T>>)
    requires 0 < size && After(size, ops).overflows == 0
    ensures Returned(size, ops) == QueueReturned(size, ops)
  {
    if ops != [] {
      var past := ops[..|ops| - 1];
      var h := After(size, past);
      FifoWithoutOverflow(size, past);
      QueueIsTail(size, past);
      if Count(h) > 0 {
        DivModUnique(0, size, 0, 0);
        ReadsOldestIff(h);
      }
    }
  }

  // ---- The ring in memory -------------------------------------------------

  /** The cells from `first` on hold the last elements of the history. */
  ghost predicate Holds<T>(cells: seq<T>, first: nat, h: History<T>) {
    && 0 < h.size && first + h.size <= |cells|
    && forall k {:trigger h.log[k]} :: 0 <= k < |h.log| && |h.log| - h.size <= k ==> cells[first + Slot(k, h.size)] == h.log[k]
  }

  lemma HoldsWritten<T>(cells: seq<T>, first: nat, h: History<T>, x: T)
    requires Holds(cells, first, h)
    ensures Holds(cells[first + Slot(|h.log|, h.size) := x], first, Written(h, x))
  {
    var r := Written(h, x);
    forall k | 0 <= k < |r.log| && |r.log| - r.size <= k
      ensures cells[first + Slot(|h.log|, h.size) := x][first + Slot(k, r.size)] == r.log[k]
    {
      if k < |h.log| {
        SlotsDiffer(k, |h.log|, h.size);
      }
    }
  }

  lemma HoldsRead<T>(cells: seq<T>, first: nat, h: History<T>)
    requires Holds(cells, first, h) && Legal(h) && Count(h) > 0
    ensures Read(h) == (Some(cells[first + Slot(h.taken, h.size)]), h.(taken := h.taken + 1))
    ensures Holds(cells, first, h.(taken := h.taken + 1)) && Legal(h.(taken := h.taken + 1))
  {
    LatestIsLargest(h);
    SlotIsRemainder(Latest(h), h.size);
    SlotIsRemainder(h.taken, h.size);
  }

  /** Cells outside a block do not matter to it. */
  lemma HoldsElsewhere<T>(cells: seq<T>, cells': seq<T>, first: nat, h: History<T>)
    requires Holds(cells, first, h) && |cells'| == |cells|
    requires forall a :: first <= a < first + h.size ==> cells'[a] == cells[a]
    ensures Holds(cells', first, h)
  {
  }

  /** `x++` on a uint32_t. */
  function Increment(x: int): int {
    if x + 1 == MOD32 then 0 else x + 1
  }

  /** The macro _readable. */
  function Occupancy(writes: int, readCount: int, overflows: int): int {
    (writes - readCount - overflows) % MOD32
  }

  /** The occupancy computed from the wrapped counters is the true one, however
      often each of them has wrapped. */
  lemma OccupancyIsExact<T>(h: History<T>)
    requires Legal(h) && h.size < MOD32
    ensures Occupancy(Slot(|h.log|, MOD32), Slot(h.taken, MOD32), Slot(h.overflows, MOD32)) == Count(h)
  {
    SlotIsRemainder(|h.log|, MOD32);
    SlotIsRemainder(h.taken, MOD32);
    SlotIsRemainder(h.overflows, MOD32);
    DivModUnique(|h.log| % MOD32 - h.taken % MOD32 - h.overflows % MOD32, MOD32,
                 h.taken / MOD32 + h.overflows / MOD32 - |h.log| / MOD32, Count(h));
  }

  /** The three counters and the two indices of struct circular_buffer. */
  datatype Registers = Registers(writes: int, readCount: int, overflows: int, startValid: int, endValid: int)

  ghost function RegistersOf<T>(h: History<T>): Registers
    requires 0 < h.size
  {
    Registers(Slot(|h.log|, MOD32), Slot(h.taken, MOD32), Slot(h.overflows, MOD32), Slot(h.taken, h.size), Slot(|h.log|, h.size))
  }

  function NextIndex(i: int, size: int): int {
    if i + 1 == size then 0 else i + 1
  }

  /** How counters and indices follow the history. */
  lemma RegistersWritten<T>(h: History<T>, x: T)
    requires 0 < h.size
    ensures var r := RegistersOf(h);
            RegistersOf(Written(h, x)) ==
            r.(writes := Increment(r.writes), endValid := NextIndex(r.endValid, h.size),
               overflows := if Count(h) == h.size then Increment(r.overflows) else r.overflows)
  {
  }

  lemma RegistersRead<T>(h: History<T>)
    requires 0 < h.size
    ensures var r := RegistersOf(h);
            RegistersOf(h.(taken := h.taken + 1)) ==
            r.(readCount := Increment(r.readCount), startValid := NextIndex(r.startValid, h.size))
  {
  }

  /** What the code computes from its registers and cells, in terms of the
      history. */
  lemma ReadsAsHistory<T>(cells: seq<T>, first: nat, h: History<T>, r: Registers)
    requires Legal(h) && Holds(cells, first, h) && r == RegistersOf(h) && h.size < MOD32
    ensures Occupancy(r.writes, r.readCount, r.overflows) == Count(h)
    ensures first + h.size <= |cells| && 0 <= r.startValid < h.size && 0 <= r.endValid < h.size
    ensures r.endValid == Slot(|h.log|, h.size)
    ensures Count(h) == 0 ==> Read(h) == (None, h)
    ensures Count(h) > 0 ==>
      && var h' := h.(taken := h.taken + 1);
      && Read(h) == (Some(cells[first + r.startValid]), h') && Legal(h') && Holds(cells, first, h')
      && RegistersOf(h') == r.(readCount := Increment(r.readCount), startValid := NextIndex(r.startValid, h.size))
  {
    OccupancyIsExact(h);
    if Count(h) > 0 {
      HoldsRead(cells, first, h);
      RegistersRead(h);
    }
  }

  /** `memory` is the heap as an array of elements, from address `start` on. */
  class Cbuff<T> {
    const memory: array<T>
    const start: int
    const zero: T
    var buffer: int
    var writes: int
    var readCount: int
    var overflows: int
    var startValid: int
    var endValid: int
    var size: int
    ghost var first: nat  // the buffer starts at memory[first]
    ghost var history: History<T>

    ghost predicate Valid()
      reads this, memory
    {
      && buffer == start + 4 * first
      && Legal(history) && history.size == size < 0x1_0000
      && Holds(memory[..], first, history)
      && Registers(writes, readCount, overflows, startValid, endValid) == RegistersOf(history)
    }

    /** cbuff_init. When the heap has no room the source stores the error value
        of sbrk as the address; such a buffer is not valid. */
    constructor Init(memory: array<T>, allocator: Heap, size: int, zero: T)
      requires 0 <= size < 0x1_0000
      requires allocator.Valid() && allocator.base <= allocator.top && allocator.end <= allocator.base + 4 * memory.Length
      requires (allocator.top - allocator.base) % 4 == 0
      modifies allocator
      ensures allocator.Valid() && allocator.base <= allocator.top && (allocator.top - allocator.base) % 4 == 0
      ensures buffer == if old(allocator.top) + 4 * size <= allocator.end then old(allocator.top) else -1
      ensures allocator.top == Sbrk(old(allocator.top), allocator.end, 4 * size).1
      ensures this.memory == memory && this.zero == zero && start == allocator.base && this.size == size
      ensures size > 0 && buffer != -1 ==> Valid() && history == Empty(size)
    {
      var address := allocator.SysSbrk(size * 4);
      this.memory, start, this.zero, buffer := memory, allocator.base, zero, address;
      writes, readCount, overflows, startValid, endValid := 0, 0, 0, 0, 0;
      this.size := size;
      first, history := if address == -1 then 0 else (address - allocator.base) / 4, Empty(size);
    }

    method IsFull() returns (full: bool)
      requires Valid()
      ensures full <==> Count(history) == size
    {
      ReadsAsHistory(memory[..], first, history, RegistersOf(history));
      full := Occupancy(writes, readCount, overflows) == size;
    }

    /** The overflow counter wraps too: the answer is wrong exactly when a
        positive multiple of 2^32 writes have overflowed. */
    method IsOverflowed() returns (flag: int)
      requires Valid()
      ensures flag == history.overflows % MOD32
    {
      SlotIsRemainder(history.overflows, MOD32);
      flag := overflows;
    }

    method CbuffRead() returns (ret: CbRead<T>)
      requires Valid()
      modifies this
      ensures Valid() && first == old(first) && size == old(size)
      ensures Count(old(history)) == 0 ==> ret == CbRead(zero, 1) && history == old(history)
      ensures Count(old(history)) > 0 ==>
                && ret == CbRead(old(history).log[Latest(old(history))], 0)
                && history == old(history).(taken := old(history).taken + 1)
    {
      hide Holds, RegistersOf, Slot;
      ret := CbRead(zero, 0);
      ReadsAsHistory(memory[..], first, history, RegistersOf(history));
      if Occupancy(writes, readCount, overflows) == 0 {
        ret := ret.(error := 1);
        return;
      }
      ret := ret.(value := memory[(buffer - start) / 4 + startValid]);
      startValid := startValid + 1;
      readCount := Increment(readCount);
      history := history.(taken := history.taken + 1);
      if startValid == size {
        startValid := 0;
      }
    }

    method CbuffWrite(el: T)
      requires Valid()
      modifies this, memory
      ensures Valid() && first == old(first) && size == old(size)
      ensures history == Written(old(history), el)
      ensures memory[..] == old(memory[..])[first + Slot(|old(history).log|, size) := el]
    {
      hide Holds, RegistersOf, Slot;
      ReadsAsHistory(memory[..], first, history, RegistersOf(history));
      RegistersWritten(history, el);
      HoldsWritten(memory[..], first, history, el);
      if Occupancy(writes, readCount, overflows) == size {
        overflows := Increment(overflows);
      }
      ghost var before := memory[..];
      var at := (buffer - start) / 4 + endValid;
      memory[at] := el;
      assert memory[..] == before[at := el];
      writes := Increment(writes);
      endValid := endValid + 1;
      if endValid == size {
        endValid := 0;
      }
      history := Written(history, el);
    }
  }

  // ---- Independence of buffers --------------------------------------------

  /** Blocks that lie in the memory and do not overlap. */
  ghost predicate Placed(firsts: seq<nat>, sizes: seq<nat>, memory: nat) {
    && |firsts| == |sizes|
    && (forall i :: 0 <= i < |sizes| ==> 0 < sizes[i] && firsts[i] + sizes[i] <= memory)
    && forall i, j :: 0 <= i < |sizes| && 0 <= j < |sizes| && i != j ==>
         firsts[i] + sizes[i] <= firsts[j] || firsts[j] + sizes[j] <= firsts[i]
  }

  /** The operations of a run over several buffers that concern buffer i. */
  function Project<T>(ops: seq<(nat, Op<T>)>, i: nat): seq<Op<T>> {
    if ops == [] then []
    else
      var past := Project(ops[..|ops| - 1], i);
      var (j, op) := ops[|ops| - 1];
      if i == j then past + [op] else past
  }

  ghost predicate AllHold<T>(cells: seq<T>, firsts: seq<nat>, sizes: seq<nat>, ops: seq<(nat, Op<T>)>)
    requires Placed(firsts, sizes, |cells|)
  {
    forall i :: 0 <= i < |sizes| ==> Holds(cells, firsts[i], After(sizes[i], Project(ops, i)))
  }

  /** The memory after a run over several buffers: a write goes to the cell that
      the write index of its buffer points to. */
  ghost function Memory<T>(cells: seq<T>, firsts: seq<nat>, sizes: seq<nat>, ops: seq<(nat, Op<T>)>): (r: seq<T>)
    requires Placed(firsts, sizes, |cells|)
    requires forall k :: 0 <= k < |ops| ==> ops[k].0 < |sizes|
    ensures |r| == |cells|
  {
    if ops == [] then cells
    else
      var past := ops[..|ops| - 1];
      var (i, op) := ops[|ops| - 1];
      var before := Memory(cells, firsts, sizes, past);
      if op.Get? then before
      else
        before[firsts[i] + Slot(|After(sizes[i], Project(past, i)).log|, sizes[i]) := op.x]
  }

  lemma HoldsAfter<T>(cells: seq<T>, first: nat, size: nat, past: seq<Op<T>>, op: Op<T>)
    requires 0 < size && Holds(cells, first, After(size, past))
    ensures var h := After(size, past);
            Holds(if op.Put? then cells[first + Slot(|h.log|, size) := op.x] else cells, first, After(size, past + [op]))
  {
    var h := After(size, past);
    assert (past + [op])[..|past|] == past;
    assert After(size, past + [op]) == if op.Put? then Written(h, op.x) else Read(h).1;
    if op.Put? {
      HoldsWritten(cells, first, h, op.x);
    } else if Count(h) > 0 {
      HoldsRead(cells, first, h);
    }
  }

  /** Operations on one buffer leave every other unchanged: in any interleaving
      each buffer behaves as if it were alone. */
  lemma {:induction false} BuffersAreIndependent<T>(cells: seq<T>, firsts: seq<nat>, sizes: seq<nat>, ops: seq<(nat, Op<T>)>)
    requires Placed(firsts, sizes, |cells|)
    requires forall k :: 0 <= k < |ops| ==> ops[k].0 < |sizes|
    ensures AllHold(Memory(cells, firsts, sizes, ops), firsts, sizes, ops)
  {
    if ops != [] {
      var past := ops[..|ops| - 1];
      var (i, op) := ops[|ops| - 1];
      BuffersAreIndependent(cells, firsts, sizes, past);
      forall j: nat | j < |sizes|
        ensures Holds(Memory(cells, firsts, sizes, ops), firsts[j], After(sizes[j], Project(ops, j)))
      {
        assert Holds(Memory(cells, firsts, sizes, past), firsts[j], After(sizes[j], Project(past, j)));
        if j != i {
          HoldsElsewhere(Memory(cells, firsts, sizes, past), Memory(cells, firsts, sizes, ops),
                         firsts[j], After(sizes[j], Project(past, j)));
        } else {
          HoldsAfter(Memory(cells, firsts, sizes, past), firsts[i], sizes[i], Project(past, i), op);
        }
      }
    }
  }

  /** Buffer b is what these operations alone make of it. */
  ghost predicate Alone<T>(b: Cbuff<T>, memory: array<T>, first: nat, size: nat, ops: seq<Op<T>>)
    requires 0 < size
    reads b, memory
  {
    b.memory == memory && b.Valid() && b.first == first && b.size == size && b.history == After(size, ops)
  }

  lemma OneMore<T>(size: nat, ops: seq<Op<T>>, op: Op<T>)
    requires 0 < size
    ensures After(size, ops + [op]) == if op.Put? then Written(After(size, ops), op.x) else Read(After(size, ops)).1
    ensures Returned(size, ops + [op]) == Returned(size, ops) + if op.Put? then [] else [Read(After(size, ops)).0]
  {
    assert (ops + [op])[..|ops|] == ops;
  }

  /** Several buffers in one memory; `own` are the past operations of each. */
  ghost predicate AllAlone<T>(bs: seq<Cbuff<T>>, memory: array<T>, firsts: seq<nat>, sizes: seq<nat>, own: seq<seq<Op<T>>>)
    reads bs, memory
  {
    && Placed(firsts, sizes, memory.Length) && |bs| == |sizes| == |own|
    && (forall i, k :: 0 <= i < k < |bs| ==> bs[i] != bs[k])
    && forall i :: 0 <= i < |bs| ==> Alone(bs[i], memory, firsts[i], sizes[i], own[i])
  }

  method WriteOne<T>(bs: seq<Cbuff<T>>, memory: array<T>, j: nat, x: T, ghost firsts: seq<nat>, ghost sizes: seq<nat>,
                     ghost own: seq<seq<Op<T>>>)
    requires AllAlone(bs, memory, firsts, sizes, own) && j < |bs|
    modifies bs[j], memory
    ensures AllAlone(bs, memory, firsts, sizes, own[j := own[j] + [Put(x)]])
    ensures memory[..] == old(memory[..])[firsts[j] + Slot(|After(sizes[j], own[j]).log|, sizes[j]) := x]
  {
    OneMore(sizes[j], own[j], Put(x));
    bs[j].CbuffWrite(x);
  }

  method ReadOne<T>(bs: seq<Cbuff<T>>, memory: array<T>, j: nat, ghost firsts: seq<nat>, ghost sizes: seq<nat>,
                    ghost own: seq<seq<Op<T>>>)
    returns (ret: CbRead<T>)
    requires AllAlone(bs, memory, firsts, sizes, own) && j < |bs|
    modifies bs[j]
    ensures AllAlone(bs, memory, firsts, sizes, own[j := own[j] + [Get]])
    ensures Read(After(sizes[j], own[j])).0 == if ret.error == 0 then Some(ret.value) else None
  {
    OneMore(sizes[j], own[j], Get);
    ret := bs[j].CbuffRead();
  }

  ghost function Projections<T>(ops: seq<(nat, Op<T>)>, n: nat): (own: seq<seq<Op<T>>>)
    ensures |own| == n && forall i :: 0 <= i < n ==> own[i] == Project(ops, i)
  {
    seq(n, i requires 0 <= i => Project(ops, i))
  }

  lemma ProjectionsOne<T>(ops: seq<(nat, Op<T>)>, k: nat, n: nat)
    requires k < |ops| && ops[k].0 < n
    ensures var own, (j, op) := Projections(ops[..k], n), ops[k];
            Projections(ops[..k + 1], n) == own[j := own[j] + [op]]
  {
    assert ops[..k + 1][..k] == ops[..k];
  }

  ghost predicate AllReturned<T>(returned: seq<seq<Option<T>>>, sizes: seq<nat>, ops: seq<(nat, Op<T>)>)
    requires forall i :: 0 <= i < |sizes| ==> 0 < sizes[i]
  {
    |returned| == |sizes| && forall i :: 0 <= i < |sizes| ==> returned[i] == Returned(sizes[i], Project(ops, i))
  }

  lemma ReturnedOne<T>(returned: seq<seq<Option<T>>>, sizes: seq<nat>, ops: seq<(nat, Op<T>)>, k: nat)
    requires forall i :: 0 <= i < |sizes| ==> 0 < sizes[i]
    requires k < |ops| && ops[k].0 < |sizes| && AllReturned(returned, sizes, ops[..k])
    ensures var (j, op) := ops[k];
            var element := Read(After(sizes[j], Project(ops[..k], j))).0;
            AllReturned(if op.Put? then returned else returned[j := returned[j] + [element]], sizes, ops[..k + 1])
  {
    var (j, op) := ops[k];
    assert ops[..k + 1][..k] == ops[..k];
    OneMore(sizes[j], Project(ops[..k], j), op);
  }

  lemma MemoryOne<T>(cells: seq<T>, firsts: seq<nat>, sizes: seq<nat>, ops: seq<(nat, Op<T>)>, k: nat)
    requires Placed(firsts, sizes, |cells|) && k < |ops|
    requires forall i :: 0 <= i < |ops| ==> ops[i].0 < |sizes|
    ensures var (j, op) := ops[k];
            var past := Memory(cells, firsts, sizes, ops[..k]);
            Memory(cells, firsts, sizes, ops[..k + 1]) ==
            if op.Get? then past
            else past[firsts[j] + Slot(|After(sizes[j], Project(ops[..k], j)).log|, sizes[j]) := op.x]
  {
    assert ops[..k + 1][..k] == ops[..k];
  }

  /** Independence of the code: whatever the order in which reads and writes of
      several buffers are called, each buffer goes through the history it would
      have alone, and its reads return what they would return alone. */
  method Interleave<T>(bs: seq<Cbuff<T>>, memory: array<T>, ops: seq<(nat, Op<T>)>, ghost firsts: seq<nat>, ghost sizes: seq<nat>)
    returns (returned: seq<seq<Option<T>>>)
    requires AllAlone(bs, memory, firsts, sizes, Projections([], |bs|))
    requires forall k :: 0 <= k < |ops| ==> ops[k].0 < |bs|
    modifies bs, memory
    ensures AllAlone(bs, memory, firsts, sizes, Projections(ops, |bs|))
    ensures AllReturned(returned, sizes, ops)
    ensures memory[..] == Memory(old(memory[..]), firsts, sizes, ops)
  {
    hide Project, Memory, After, Read, Slot, Returned, Alone, AllReturned;
    returned := seq(|bs|, _ => []);
    NothingReturned(returned, sizes, ops);
    NothingStored(old(memory[..]), firsts, sizes, ops);
    assert ops[..0] == [] && ops[..|ops|] == ops;
    for k := 0 to |ops|
      invariant AllAlone(bs, memory, firsts, sizes, Projections(ops[..k], |bs|))
      invariant |returned| == |bs| && AllReturned(returned, sizes, ops[..k])
      invariant memory[..] == Memory(old(memory[..]), firsts, sizes, ops[..k])
    {
      var (j, op) := ops[k];
      ghost var own := Projections(ops[..k], |bs|);
      ProjectionsOne(ops, k, |bs|);
      ReturnedOne(returned, sizes, ops, k);
      MemoryOne(old(memory[..]), firsts, sizes, ops, k);
      if op.Put? {
        WriteOne(bs, memory, j, op.x, firsts, sizes, own);
      } else {
        var ret := ReadOne(bs, memory, j, firsts, sizes, own);
        returned := returned[j := returned[j] + [if ret.error == 0 then Some(ret.value) else None]];
      }
    }
  }

  lemma NothingReturned<T>(returned: seq<seq<Option<T>>>, sizes: seq<nat>, ops: seq<(nat, Op<T>)>)
    requires forall i :: 0 <= i < |sizes| ==> 0 < sizes[i]
    requires |returned| == |sizes| && forall i :: 0 <= i < |sizes| ==> returned[i] == []
    ensures AllReturned(returned, sizes, ops[..0])
  {
  }

  lemma NothingStored<T>(cells: seq<T>, firsts: seq<nat>, sizes: seq<nat>, ops: seq<(nat, Op<T>)>)
    requires Placed(firsts, sizes, |cells|)
    ensures Memory(cells, firsts, sizes, ops[..0]) == cells
  {
  }

  /** Sizes are unsigned short ints. */
  predicate Shorts(sizes: seq<nat>) {
    forall i :: 0 <= i < |sizes| ==> sizes[i] < 0x1_0000
  }

  /** The addresses that a sequence of cbuff_init calls stores. */
  function Inits(top: int, end: int, sizes: seq<nat>): (addresses: seq<int>)
    ensures |addresses| == |sizes|
    decreases |sizes|
  {
    if sizes == [] then []
    else
      var (address, next) := Sbrk(top, end, 4 * sizes[0]);
      [address] + Inits(next, end, sizes[1..])
  }

  lemma Granted(top: int, end: int, size: nat)
    requires 0 <= top <= end < MOD32 / 2 && size < 0x1_0000
    ensures Sbrk(top, end, 4 * size) == if top + 4 * size > end then (-1, top) else (top, top + 4 * size)
  {
    DivModUnique(top + 4 * size, MOD32, 0, top + 4 * size);
  }

  /** The blocks of the calls that succeed lie in the heap, one behind the
      other. */
  lemma {:induction false} InitsAreApart(top: int, end: int, sizes: seq<nat>)
    requires 0 <= top <= end < MOD32 / 2 && Shorts(sizes)
    ensures var a := Inits(top, end, sizes);
            && (forall i :: 0 <= i < |a| && a[i] != -1 ==> top <= a[i] && a[i] + 4 * sizes[i] <= end)
            && (forall i, j :: 0 <= i < j < |a| && a[i] != -1 && a[j] != -1 ==> a[i] + 4 * sizes[i] <= a[j])
    decreases |sizes|
  {
    if sizes != [] {
      Granted(top, end, sizes[0]);
      hide Sbrk;
      var next := Sbrk(top, end, 4 * sizes[0]).1;
      InitsAreApart(next, end, sizes[1..]);
      var a, rest := Inits(top, end, sizes), Inits(next, end, sizes[1..]);
      assert forall i :: 1 <= i < |a| ==> a[i] == rest[i - 1] && sizes[i] == sizes[1..][i - 1];
    }
  }

  lemma {:induction false} InitsAreAligned(top: int, end: int, sizes: seq<nat>, i: nat)
    requires 0 <= top <= end < MOD32 / 2 && Shorts(sizes)
    requires i < |sizes| && Inits(top, end, sizes)[i] != -1
    ensures (Inits(top, end, sizes)[i] - top) % 4 == 0
    decreases |sizes|
  {
    Granted(top, end, sizes[0]);
    hide Sbrk;
    if i > 0 {
      var next := Sbrk(top, end, 4 * sizes[0]).1;
      var address := Inits(top, end, sizes)[i];
      assert address == Inits(next, end, sizes[1..])[i - 1];
      InitsAreAligned(next, end, sizes[1..], i - 1);
      RemovesMultiples(address - next, 4, if next == top then 0 else sizes[0]);
    }
  }

  /** So buffers that were set up by cbuff_init are independent. */
  lemma InitsArePlaced(base: int, end: int, sizes: seq<nat>, firsts: seq<nat>, memory: nat)
    requires 0 <= base <= end <= base + 4 * memory && end < MOD32 / 2 && Shorts(sizes) && |firsts| == |sizes|
    requires forall i :: 0 <= i < |sizes| ==> 0 < sizes[i] && Inits(base, end, sizes)[i] != -1
    requires forall i :: 0 <= i < |sizes| ==> firsts[i] == (Inits(base, end, sizes)[i] - base) / 4
    ensures Placed(firsts, sizes, memory)
    ensures forall i :: 0 <= i < |sizes| ==> Inits(base, end, sizes)[i] == base + 4 * firsts[i]
  {
    InitsAreApart(base, end, sizes);
    forall i | 0 <= i < |sizes| ensures Inits(base, end, sizes)[i] == base + 4 * firsts[i] {
      InitsAreAligned(base, end, sizes, i);
    }
  }

  /** Different buffers, as calls of cbuff_init have left them, may be used in
      Interleave. */
  lemma InitsAreAlone<T>(bs: seq<Cbuff<T>>, memory: array<T>, base: int, end: int, sizes: seq<nat>) returns (firsts: seq<nat>)
    requires 0 <= base <= end <= base + 4 * memory.Length && end < MOD32 / 2 && |bs| == |sizes|
    requires forall i, k :: 0 <= i < k < |bs| ==> bs[i] != bs[k]
    requires forall i :: 0 <= i < |bs| ==> 0 < sizes[i] && Inits(base, end, sizes)[i] != -1
    requires forall i :: 0 <= i < |bs| ==>
               && bs[i].memory == memory && bs[i].start == base && bs[i].buffer == Inits(base, end, sizes)[i]
               && bs[i].Valid() && bs[i].size == sizes[i] && bs[i].history == Empty(sizes[i])
    ensures |firsts| == |sizes| && AllAlone(bs, memory, firsts, sizes, Projections([], |bs|))
  {
    InitsAreApart(base, end, sizes);
    firsts := seq(|sizes|, i requires 0 <= i < |sizes| => (Inits(base, end, sizes)[i] - base) / 4);
    InitsArePlaced(base, end, sizes, firsts, memory.Length);
  }

  function Puts<T>(x: T, k: nat): seq<Op<T>> {
    seq(k, _ => Put(x))
  }

  lemma {:induction false} PutsOverflow<T>(size: nat, x: T, k: nat)
    requires 0 < size
    ensures var h := After(size, Puts(x, k));
            |h.log| == k && h.taken == 0 && h.overflows == if k <= size then 0 else k - size
  {
    if k > 0 {
      PutsOverflow(size, x, k - 1);
      assert Puts(x, k)[..k - 1] == Puts(x, k - 1);
    }
  }

  /** Every number of overflows is reached, also those that IsOverflowed takes
      for none. */
  lemma OverflowsForgotten<T>(size: nat, x: T, n: nat)
    requires 0 < size && 0 < n
    ensures var h := After(size, Puts(x, size + n * MOD32)); h.overflows == n * MOD32 > 0 && h.overflows % MOD32 == 0
  {
    PutsOverflow(size, x, size + n * MOD32);
    RemovesMultiples(0, MOD32, n);
  }

  /** One overflow is enough to read a new element before an old one: after
      writing a, b and c into a buffer of two cells, a read returns c. */
  lemma OverflowBreaksOrder()
    ensures After(2, [Put('a')] + [Put('b')] + [Put('c')]).overflows == 1
    ensures Read(After(2, [Put('a')] + [Put('b')] + [Put('c')])).0 == Some('c')
    ensures Queue(2, [Put('a')] + [Put('b')] + [Put('c')]) == ['b', 'c']
  {
    var one, two, three := [Put('a')], [Put('a')] + [Put('b')], [Put('a')] + [Put('b')] + [Put('c')];
    assert one[..0] == [] && two[..1] == one && three[..2] == two;
    assert After(2, one) == History(2, ['a'], 0, 0) && Queue(2, one) == ['a'];
    assert After(2, two) == History(2, ['a', 'b'], 0, 0) && Queue(2, two) == ['a', 'b'];
    assert After(2, three) == History(2, ['a', 'b', 'c'], 0, 1);
    SlotIsRemainder(2, 2);
  }
}

/** The ring of the most recently used parent descriptors.  FTS embeds the C struct by value and
    copies it by value, so the ring is a value here too. */
module DescriptorRing {
  const I_RING_SIZE := 4

  datatype Ring = Ring(
    ir_data: seq<int>,
    ir_default_val: int,
    ir_front: nat,
    ir_back: nat,
    ir_empty: bool)
  {
    function Size(): nat
      requires ir_back < I_RING_SIZE
    {
      if ir_empty then 0
      else if ir_back <= ir_front then ir_front - ir_back + 1
      else ir_front + I_RING_SIZE + 1 - ir_back
    }

    /** The slot of the j-th most recent item. */
    function Slot(j: nat): (slot: nat)
      requires ir_front < I_RING_SIZE && j < I_RING_SIZE
      ensures slot < I_RING_SIZE
    {
      if j <= ir_front then ir_front - j else ir_front + I_RING_SIZE - j
    }

    /** The struct's own invariant: indices in range, an empty ring has equal ends, and every
        undefined slot holds the default value. */
    ghost predicate Valid() {
      && |ir_data| == I_RING_SIZE && ir_front < I_RING_SIZE && ir_back < I_RING_SIZE
      && (ir_empty ==> ir_front == ir_back)
      && (forall j: nat | Size() <= j < I_RING_SIZE :: ir_data[Slot(j)] == ir_default_val)
    }

    /** The items, most recent first. */
    ghost function Items(): (items: seq<int>)
      requires Valid()
      ensures |items| == Size() <= I_RING_SIZE
    {
      seq(Size(), j requires 0 <= j < Size() => ir_data[Slot(j)])
    }
  }

  /** The ring `i_ring_init` builds: no item, and every slot at the default value. */
  function Init(default_val: int): (r: Ring)
    ensures r.Valid() && r.Items() == [] && r.ir_default_val == default_val
  {
    Ring(seq(I_RING_SIZE, _ => default_val), default_val, 0, 0, true)
  }

  /** `(i + 1) % I_RING_SIZE` for a slot i. */
  function After(i: nat): (r: nat)
    requires i < I_RING_SIZE
    ensures r < I_RING_SIZE
  {
    (i + 1) % I_RING_SIZE
  }

  /** `i_ring_push`: the new ring and the value of the slot that was overwritten. */
  function Push(ir: Ring, val: int): (Ring, int)
    requires ir.Valid()
  {
    var dest := if ir.ir_empty then ir.ir_front else After(ir.ir_front);
    var back := if dest == ir.ir_back && !ir.ir_empty then After(ir.ir_back) else ir.ir_back;
    (Ring(ir.ir_data[dest := val], ir.ir_default_val, dest, back, false), ir.ir_data[dest])
  }

  /** A push is a stack push that remembers at most I_RING_SIZE items and hands back what it
      displaces: the oldest item of a full ring, the default value otherwise. */
  lemma PushIsBoundedPush(ir: Ring, val: int)
    requires ir.Valid()
    ensures var (r, displaced) := Push(ir, val);
            && r.Valid() && r.ir_default_val == ir.ir_default_val
            && (|ir.Items()| < I_RING_SIZE ==>
                  r.Items() == [val] + ir.Items() && displaced == ir.ir_default_val)
            && (|ir.Items()| == I_RING_SIZE ==>
                  r.Items() == [val] + ir.Items()[..I_RING_SIZE - 1] && displaced == ir.Items()[I_RING_SIZE - 1])
  {
    if ir.ir_empty { PushOnEmpty(ir, val); } else { PushOnItems(ir, val); }
  }

  lemma PushOnEmpty(ir: Ring, val: int)
    requires ir.Valid() && ir.ir_empty
    ensures var (r, displaced) := Push(ir, val);
            r.Valid() && r.ir_default_val == ir.ir_default_val && r.Items() == [val] && ir.Items() == []
              && displaced == ir.ir_default_val
  {
    var r := Push(ir, val).0;
    assert r.Slot(0) == r.ir_front;
    assert forall j: nat | j < I_RING_SIZE :: r.Slot(j) == ir.Slot(j);
  }

  lemma PushOnItems(ir: Ring, val: int)
    requires ir.Valid() && !ir.ir_empty
    ensures var (r, displaced) := Push(ir, val);
            && r.Valid() && r.ir_default_val == ir.ir_default_val
            && (|ir.Items()| < I_RING_SIZE ==> r.Items() == [val] + ir.Items() && displaced == ir.ir_default_val)
            && (|ir.Items()| == I_RING_SIZE ==>
                  r.Items() == [val] + ir.Items()[..I_RING_SIZE - 1] && displaced == ir.Items()[I_RING_SIZE - 1])
  {
    PushShifts(ir, val);
    var (r, displaced) := Push(ir, val);
    hide Push, Ring.Slot;
  }

  /** Every item is one place deeper, the new one in front. */
  lemma PushShifts(ir: Ring, val: int)
    requires ir.Valid() && !ir.ir_empty
    ensures var (r, displaced) := Push(ir, val);
            && |r.ir_data| == I_RING_SIZE && r.ir_front < I_RING_SIZE && r.ir_back < I_RING_SIZE && !r.ir_empty
            && r.ir_default_val == ir.ir_default_val
            && r.Size() == (if ir.Size() < I_RING_SIZE then ir.Size() + 1 else I_RING_SIZE)
            && r.ir_data[r.Slot(0)] == val && displaced == ir.ir_data[ir.Slot(I_RING_SIZE - 1)]
            && forall j: nat | 1 <= j < I_RING_SIZE :: r.ir_data[r.Slot(j)] == ir.ir_data[ir.Slot(j - 1)]
  {
    var r := Push(ir, val).0;
    assert r.Slot(0) == r.ir_front && ir.Slot(I_RING_SIZE - 1) == r.ir_front;
    assert forall j: nat | 1 <= j < I_RING_SIZE :: r.Slot(j) == ir.Slot(j - 1);
  }

  /** `i_ring_pop`, which aborts on an empty ring: the smaller ring and the item popped. */
  function Pop(ir: Ring): (Ring, int)
    requires ir.Valid() && !ir.ir_empty
  {
    var data := ir.ir_data[ir.ir_front := ir.ir_default_val];
    (if ir.ir_front == ir.ir_back
     then Ring(data, ir.ir_default_val, ir.ir_front, ir.ir_back, true)
     else Ring(data, ir.ir_default_val, (ir.ir_front + I_RING_SIZE - 1) % I_RING_SIZE, ir.ir_back, false),
     ir.ir_data[ir.ir_front])
  }

  lemma PopIsStackPop(ir: Ring)
    requires ir.Valid() && !ir.ir_empty
    ensures var (r, top) := Pop(ir);
            r.Valid() && r.ir_default_val == ir.ir_default_val && ir.Items() == [top] + r.Items()
  {
    var r := Pop(ir).0;
    assert ir.Slot(0) == ir.ir_front;
    if ir.ir_front == ir.ir_back {
      assert forall j: nat | j < I_RING_SIZE :: r.Slot(j) == ir.Slot(j);
    } else {
      assert r.Slot(I_RING_SIZE - 1) == ir.ir_front;
      assert forall j: nat | j < I_RING_SIZE - 1 :: r.Slot(j) == ir.Slot(j + 1);
    }
  }
}

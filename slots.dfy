/** The reactive slot dictionary: a scope of named, rebindable slots
    (DictCell and its nested SlotCell). Subscribers are ids; what a slot
    pushes to them is recorded, in order, in a ghost delivery log. */
module Slots {
  import opened Values
  import opened Cells

  /** The upstream cell a slot is bound to: a scope (object literal), another
      slot (a plain identifier read), or any other cell the model keeps opaque. */
  datatype CellRef = DictRef(d: DictCell) | SlotRef(s: SlotCell) | OpaqueCell(id: CellId)

  /** Everything a slot holds, read at one moment. */
  datatype SlotState = SlotState(
    consumers: seq<ConsumerId>, valueCell: Option<CellRef>, valueCellBinding: Option<BindingId>,
    value: Nullable, log: seq<Delivered<Nullable>>, acquired: seq<BindingId>, released: seq<BindingId>)

  /** The state of a slot that `getSlot` has just created. */
  const EmptySlot: SlotState := SlotState([], None, None, None, [], [], [])

  /** SlotCell: a named variable that republishes the values of its upstream cell. */
  class SlotCell {
    var consumers: seq<ConsumerId>
    var valueCell: Option<CellRef>
    var valueCellBinding: Option<BindingId>
    var value: Nullable
    /** Every push this slot made to a subscriber, in order. */
    ghost var log: seq<Delivered<Nullable>>
    /** Every upstream binding this slot obtained, and those it removed, in order. */
    ghost var acquired: seq<BindingId>
    ghost var released: seq<BindingId>

    /** At most the current upstream binding is still live; every older one was removed. */
    ghost predicate Valid()
      reads this
    {
      && (forall i :: 0 <= i < |acquired| ==>
            acquired[i] in released || valueCellBinding == Some(acquired[i]))
      && (valueCellBinding.Some? ==>
            valueCellBinding.value in acquired && valueCellBinding.value !in released)
    }

    ghost function State(): SlotState
      reads this
    {
      SlotState(consumers, valueCell, valueCellBinding, value, log, acquired, released)
    }

    /** The upstream bindings obtained and not yet removed. */
    ghost function LiveUpstream(): (live: set<BindingId>)
      reads this
      requires Valid()
      ensures live == if valueCellBinding.Some? then {valueCellBinding.value} else {}
    {
      set b | b in acquired && b !in released
    }

    constructor ()
      ensures Valid()
      ensures consumers == [] && valueCell == None && valueCellBinding == None && value == None
      ensures log == [] && acquired == [] && released == []
    {
      consumers, valueCell, valueCellBinding, value := [], None, None, None;
      log, acquired, released := [], [], [];
    }

    /** `consume`: adds the subscriber and hands it the current value at once,
        but only when that value is not null. Its binding is `Unsubscribe(c)`. */
    method Consume(c: ConsumerId)
      modifies this
      ensures consumers == old(consumers) + [c]
      ensures log == old(log) + (if old(value).Some? then [Delivered(c, old(value))] else [])
      ensures value == old(value) && valueCell == old(valueCell)
      ensures valueCellBinding == old(valueCellBinding)
      ensures acquired == old(acquired) && released == old(released)
    {
      consumers := consumers + [c];
      if value.Some? {
        log := log + [Delivered(c, value)];
      }
    }

    /** The binding `consume` returns: removes that subscriber from the list. */
    method Unsubscribe(c: ConsumerId)
      modifies this
      ensures consumers == RemoveFirst(old(consumers), c)
      ensures value == old(value) && valueCell == old(valueCell)
      ensures valueCellBinding == old(valueCellBinding)
      ensures log == old(log) && acquired == old(acquired) && released == old(released)
    {
      consumers := RemoveFirst(consumers, c);
    }

    /** `update()`: pushes the stored value to every subscriber in list order. */
    method Update()
      modifies this
      ensures log == old(log) + Fanout(consumers, value)
      ensures consumers == old(consumers) && value == old(value) && valueCell == old(valueCell)
      ensures valueCellBinding == old(valueCellBinding)
      ensures acquired == old(acquired) && released == old(released)
    {
      for i := 0 to |consumers|
        invariant log == old(log) + Fanout(consumers[..i], value)
        invariant consumers == old(consumers) && value == old(value) && valueCell == old(valueCell)
        invariant valueCellBinding == old(valueCellBinding)
        invariant acquired == old(acquired) && released == old(released)
      {
        assert consumers[..i + 1] == consumers[..i] + [consumers[i]];
        FanoutAppend(consumers[..i], [consumers[i]], value);
        log := log + [Delivered(consumers[i], value)];
      }
      assert consumers[..|consumers|] == consumers;
    }

    /** The callback this slot subscribes upstream with: store, then republish. */
    method Next(v: Nullable)
      modifies this
      ensures value == v
      ensures log == old(log) + Fanout(consumers, v)
      ensures consumers == old(consumers) && valueCell == old(valueCell)
      ensures valueCellBinding == old(valueCellBinding)
      ensures acquired == old(acquired) && released == old(released)
    {
      value := v;
      Update();
    }

    /** The callback run once per value, in order: each is stored and republished. */
    method NextAll(vs: seq<Nullable>)
      modifies this
      ensures value == if vs == [] then old(value) else vs[|vs| - 1]
      ensures log == old(log) + FanoutAll(consumers, vs)
      ensures consumers == old(consumers) && valueCell == old(valueCell)
      ensures valueCellBinding == old(valueCellBinding)
      ensures acquired == old(acquired) && released == old(released)
    {
      for i := 0 to |vs|
        invariant value == if i == 0 then old(value) else vs[i - 1]
        invariant log == old(log) + FanoutAll(consumers, vs[..i])
        invariant consumers == old(consumers) && valueCell == old(valueCell)
        invariant valueCellBinding == old(valueCellBinding)
        invariant acquired == old(acquired) && released == old(released)
      {
        assert vs[..i + 1] == vs[..i] + [vs[i]];
        FanoutAllSnoc(consumers, vs[..i], vs[i]);
        Next(vs[i]);
      }
      assert vs[..|vs|] == vs;
    }

    /** `set`: removes the previous upstream binding (when there is one), then
        subscribes to `cell`. `sync` is what `cell` pushes, in order, while being
        subscribed to (a call node can push several times); `returned` is the
        binding its `consume` hands back (null for a scope). The stored value is
        not cleared. */
    method Set(cell: CellRef, sync: seq<Nullable>, returned: Option<BindingId>)
      requires Valid()
      requires returned.Some? ==> returned.value !in acquired && returned.value !in released
      modifies this
      ensures Valid()
      ensures valueCell == Some(cell) && valueCellBinding == returned
      ensures released == old(released) +
        (if old(valueCellBinding).Some? then [old(valueCellBinding).value] else [])
      ensures acquired == old(acquired) + (if returned.Some? then [returned.value] else [])
      ensures LiveUpstream() == if returned.Some? then {returned.value} else {}
      ensures consumers == old(consumers)
      ensures value == if sync == [] then old(value) else sync[|sync| - 1]
      ensures log == old(log) + FanoutAll(consumers, sync)
    {
      if valueCellBinding.Some? {
        released := released + [valueCellBinding.value];
      }
      valueCell := Some(cell);
      NextAll(sync);
      valueCellBinding := returned;
      if returned.Some? {
        acquired := acquired + [returned.value];
      }
    }

    /** `getValueCell`: the upstream cell, not its value. */
    method GetValueCell() returns (c: Option<CellRef>)
      ensures c == valueCell
    {
      c := valueCell;
    }
  }

  /** DictCell: a get-or-create table of slots. */
  class DictCell {
    var slots: map<string, SlotCell>
    ghost var Repr: set<object>

    ghost predicate Valid()
      reads this, Repr
    {
      && this in Repr
      && (forall k :: k in slots ==> slots[k] in Repr && slots[k].Valid())
      && (forall k1, k2 :: k1 in slots && k2 in slots && k1 != k2 ==> slots[k1] != slots[k2])
    }

    /** The upstream cell of a slot, read without creating it (no slot, no upstream). */
    ghost function Upstream(id: string): Option<CellRef>
      reads this, Repr
      requires Valid()
    {
      if id in slots then slots[id].valueCell else None
    }

    /** The state of slot `id`; an absent slot reads as the empty slot `getSlot` would create. */
    ghost function SlotOf(id: string): SlotState
      reads this, Repr
      requires Valid()
    {
      if id in slots then slots[id].State() else EmptySlot
    }

    constructor ()
      ensures Valid() && fresh(Repr) && slots == map[]
    {
      slots := map[];
      Repr := {this};
    }

    /** `consume` on the dictionary itself: in this revision it delivers nothing and returns null. */
    method Consume(c: ConsumerId) returns (b: Option<BindingId>)
      ensures b == None
    {
      b := None;
    }

    /** `getSlot`: returns the slot for `id`, creating an empty one when absent. */
    method GetSlot(id: string) returns (s: SlotCell)
      requires Valid()
      modifies this
      ensures Valid() && fresh(Repr - old(Repr))
      ensures id in slots && s == slots[id]
      ensures id in old(slots) ==> slots == old(slots) && Repr == old(Repr)
      ensures id !in old(slots) ==> fresh(s) && slots == old(slots)[id := s]
      ensures id !in old(slots) ==>
        s.consumers == [] && s.valueCell == None && s.valueCellBinding == None && s.value == None
      ensures id !in old(slots) ==> s.log == [] && s.acquired == [] && s.released == []
    {
      if id in slots {
        s := slots[id];
      } else {
        s := new SlotCell();
        slots := slots[id := s];
        Repr := Repr + {s};
      }
    }

    /** `get`: the slot itself, as a cell of its current value, for reactive reads. */
    method Get(id: string) returns (s: SlotCell)
      requires Valid()
      modifies this
      ensures Valid() && fresh(Repr - old(Repr))
      ensures id in slots && s == slots[id]
      ensures id in old(slots) ==> slots == old(slots) && s == old(slots[id]) && Repr == old(Repr)
      ensures id !in old(slots) ==> fresh(s) && slots == old(slots)[id := s]
      ensures id !in old(slots) ==> s.State() == EmptySlot
    {
      s := GetSlot(id);
    }

    /** `getValueCell`: the upstream cell of the slot (get-or-create). */
    method GetValueCell(id: string) returns (c: Option<CellRef>)
      requires Valid()
      modifies this
      ensures Valid() && fresh(Repr - old(Repr))
      ensures c == old(Upstream(id))
      ensures id in slots
      ensures id in old(slots) ==> slots == old(slots) && Repr == old(Repr)
      ensures id !in old(slots) ==> fresh(slots[id]) && slots == old(slots)[id := slots[id]]
      ensures id !in old(slots) ==> slots[id].State() == EmptySlot
    {
      var s := GetSlot(id);
      c := s.GetValueCell();
    }

    /** `put`: `getSlot(id).set(cell)`. Slot `id` (created empty when absent)
        ends as `set` leaves it; every other slot is untouched. */
    method Put(id: string, cell: CellRef, sync: seq<Nullable>, returned: Option<BindingId>)
      requires Valid()
      requires returned.Some? ==>
        returned.value !in SlotOf(id).acquired && returned.value !in SlotOf(id).released
      modifies this, Repr
      ensures Valid() && fresh(Repr - old(Repr))
      ensures id in slots && slots.Keys == old(slots).Keys + {id}
      ensures id in old(slots) ==> slots[id] == old(slots[id])
      ensures Upstream(id) == Some(cell)
      ensures var o := old(SlotOf(id)); var n := SlotOf(id);
        && n.valueCell == Some(cell) && n.valueCellBinding == returned
        && n.consumers == o.consumers
        && n.released == o.released + (if o.valueCellBinding.Some? then [o.valueCellBinding.value] else [])
        && n.acquired == o.acquired + (if returned.Some? then [returned.value] else [])
        && n.value == (if sync == [] then o.value else sync[|sync| - 1])
        && n.log == o.log + FanoutAll(o.consumers, sync)
      ensures slots[id].LiveUpstream() == if returned.Some? then {returned.value} else {}
      ensures forall k :: k in old(slots) && k != id ==>
        slots[k] == old(slots[k]) && SlotOf(k) == old(SlotOf(k))
    {
      var s := GetSlot(id);
      s.Set(cell, sync, returned);
    }
  }

  /** `put(id, c)` followed by `getValueCell(id)` yields `c`. */
  method PutThenGetValueCell(d: DictCell, id: string, cell: CellRef, sync: seq<Nullable>, returned: Option<BindingId>)
    returns (c: Option<CellRef>)
    requires d.Valid()
    requires returned.Some? ==>
      returned.value !in d.SlotOf(id).acquired && returned.value !in d.SlotOf(id).released
    modifies d, d.Repr
    ensures c == Some(cell)
  {
    d.Put(id, cell, sync, returned);
    c := d.GetValueCell(id);
  }

  /** Looking up one id twice gives the same slot, the second time with nothing created. */
  method GetSlotTwice(d: DictCell, id: string) returns (s1: SlotCell, s2: SlotCell)
    requires d.Valid()
    modifies d
    ensures s1 == s2
  {
    s1 := d.GetSlot(id);
    s2 := d.GetSlot(id);
  }
}

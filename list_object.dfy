// The list of List/list.cpp as an object: the three arrays and the three
// indices are fields, and each operation performs the source's writes in the
// source's order. Every method is proved to leave exactly the state the
// matching function of ArrayList describes, and its contract then states,
// through the lemmas of ArrayList, what it does to the list's values.

module ListObject {
  import ArrayList

  class List {
    var data: array<int>
    var next: array<int>
    var prev: array<int>
    var capacity: int
    var head: int
    var tail: int
    var free: int
    /** The slots of the list from head to tail */
    ghost var live: seq<int>
    /** The free slots in the order of the free chain */
    ghost var spare: seq<int>

    /** The contents of the arrays and the indices */
    function State(): ArrayList.Slots
      reads this`data, this`next, this`prev, this`head, this`tail, this`free, data, next, prev
    {
      ArrayList.Slots(data[..], next[..], prev[..], head, tail, free)
    }

    ghost predicate Valid()
      reads this, data, next, prev
    {
      && data != next && data != prev && next != prev
      && capacity == data.Length
      && ArrayList.Valid(State(), live, spare)
    }

    /** The values of the list from head to tail */
    ghost function Contents(): seq<int>
      reads this, data, next, prev
      requires Valid()
    {
      ArrayList.Values(data[..], live)
    }

    /**
     * list_ctor: zeroed arrays, slot 0 linked to itself and every other slot
     * free and linked to the next one. With a capacity of 1 the first free
     * slot is 1, one past the arrays, and the object is not Valid.
     */
    constructor (cap: int)
      requires cap > 0
      ensures fresh(data) && fresh(next) && fresh(prev)
      ensures capacity == cap && State() == ArrayList.Fresh(cap)
      ensures cap >= 2 ==> Valid() && live == [] && spare == ArrayList.AllSpare(cap) && Contents() == []
    {
      var d := new int[cap](_ => 0);
      var n := new int[cap](_ => 0);
      var p := new int[cap](_ => 0);
      n[0] := 0;
      p[0] := 0;
      var i := 1;
      while i < cap
        invariant 1 <= i <= cap
        invariant forall j :: 0 <= j < cap ==> d[j] == 0
        invariant forall j :: 0 <= j < i ==> n[j] == (if j == 0 then 0 else (j + 1) % cap)
        invariant forall j :: 0 <= j < i ==> p[j] == (if j == 0 then 0 else -1)
      {
        n[i] := (i + 1) % cap;
        p[i] := -1;
        i := i + 1;
      }
      ghost var f := ArrayList.Fresh(cap);
      assert d[..] == f.data;
      assert n[..] == f.next;
      assert p[..] == f.prev;
      data, next, prev := d, n, p;
      live := [];
      spare := ArrayList.AllSpare(cap);
      capacity := cap;
      head := 0;
      tail := 0;
      free := 1;
      new;
      assert State() == ArrayList.Fresh(cap);
      if cap >= 2 {
        ArrayList.FreshValid(cap);
      }
    }

    /** list_dtor: the arrays are released and every index is set to -1 */
    method Dtor()
      modifies this
      ensures capacity == -1 && head == -1 && tail == -1 && free == -1
    {
      capacity := -1;
      head := -1;
      tail := -1;
      free := -1;
    }

    /** list_insert_back */
    method InsertBack(value: int) returns (r: int)
      requires Valid()
      modifies this, data, next, prev
      ensures Valid() && data == old(data) && next == old(next) && prev == old(prev) && capacity == old(capacity)
      ensures (State(), r) == ArrayList.InsertBack(old(State()), value, old(live), old(spare))
      ensures old(spare) == [] ==> r == -1 && live == old(live) && spare == old(spare) && Contents() == old(Contents())
      ensures old(spare) != [] ==>
        && r == old(spare)[0] && live == old(live) + [r] && spare == old(spare)[1..]
        && Contents() == old(Contents()) + [value]
    {
      ghost var s0, l0, sp0 := State(), live, spare;
      var place := free;
      if place == 0 {
        return -1;
      }
      ArrayList.SlotKinds(s0, l0, sp0, place);
      if prev[place] != -1 {
        assert false;
        return -1;
      }
      live, spare := live + [place], spare[1..];
      Append(value);
      r := place;
      ArrayList.AppendedBack(s0, value, l0, sp0, State(), live, spare);
    }

    /** The writes of list_insert_back: the first free slot takes value and becomes the tail */
    method Append(value: int)
      requires data != next && data != prev && next != prev && ArrayList.Layout(State())
      modifies this, data, next, prev
      ensures data == old(data) && next == old(next) && prev == old(prev) && capacity == old(capacity)
      ensures live == old(live) && spare == old(spare)
      ensures State() == ArrayList.Append(old(State()), value)
    {
      var place := free;
      data[place] := value;
      free := next[place];
      next[place] := 0;
      prev[place] := tail;
      if tail != 0 {
        next[tail] := place;
      }
      tail := place;
      if head == 0 {
        head := place;
      }
    }

    /** list_insert_after */
    method InsertAfter(place: int, value: int) returns (r: int)
      requires Valid() && 0 < place < capacity
      modifies this, data, next, prev
      ensures Valid() && data == old(data) && next == old(next) && prev == old(prev) && capacity == old(capacity)
      ensures (State(), r) == ArrayList.InsertAfter(old(State()), place, value, old(live), old(spare))
      ensures old(spare) == [] || place in old(spare) ==>
        r == -1 && live == old(live) && spare == old(spare) && Contents() == old(Contents())
      ensures old(spare) != [] && place !in old(spare) ==>
        && place in old(live) && r == old(spare)[0]
        && live == ArrayList.Splice(old(live), ArrayList.Pos(old(live), place), r) && spare == old(spare)[1..]
        && Contents() == ArrayList.Splice(old(Contents()), ArrayList.Pos(old(live), place), value)
    {
      ghost var s0, l0, sp0 := State(), live, spare;
      ArrayList.SlotKinds(s0, l0, sp0, place);
      var f := free;
      if f == 0 {
        return -1;
      }
      if prev[place] == -1 {
        return -1;
      }
      if tail == place {
        assert ArrayList.InsertAfter(s0, place, value, l0, sp0) == ArrayList.InsertBack(s0, value, l0, sp0);
        ghost var v0 := Contents();
        assert ArrayList.Pos(l0, place) == |l0| - 1;
        r := InsertBack(value);
        ArrayList.SpliceLast(l0, r);
        ArrayList.SpliceLast(v0, value);
        return;
      }
      ArrayList.SlotKinds(s0, l0, sp0, f);
      if prev[f] != -1 {
        assert false;
        return -1;
      }
      assert ArrayList.InsertAfter(s0, place, value, l0, sp0) == (ArrayList.LinkAfter(s0, place, value), f);
      r := InsertMiddle(place, value);
    }

    /** list_insert_after for a slot of the list other than the tail, with a free slot to take */
    method InsertMiddle(place: int, value: int) returns (r: int)
      requires Valid() && place in live && place != tail && spare != []
      modifies this, data, next, prev
      ensures Valid() && data == old(data) && next == old(next) && prev == old(prev) && capacity == old(capacity)
      ensures State() == ArrayList.LinkAfter(old(State()), place, value) && r == old(spare)[0]
      ensures live == ArrayList.Splice(old(live), ArrayList.Pos(old(live), place), r) && spare == old(spare)[1..]
      ensures Contents() == ArrayList.Splice(old(Contents()), ArrayList.Pos(old(live), place), value)
    {
      ghost var s0, l0, sp0 := State(), live, spare;
      ghost var i := ArrayList.Pos(l0, place);
      ArrayList.SlotKinds(s0, l0, sp0, place);
      r := free;
      live, spare := ArrayList.Splice(live, i, r), spare[1..];
      LinkAfter(place, value);
      ArrayList.LinkedAfter(s0, place, value, l0, sp0, i, State(), live, spare);
    }

    /** The writes of list_insert_after: the first free slot takes value and is linked in after place */
    method LinkAfter(place: int, value: int)
      requires data != next && data != prev && next != prev && ArrayList.Layout(State())
      requires 0 <= place < data.Length && 0 <= next[place] < data.Length
      modifies this, data, next, prev
      ensures data == old(data) && next == old(next) && prev == old(prev) && capacity == old(capacity)
      ensures live == old(live) && spare == old(spare)
      ensures State() == ArrayList.LinkAfter(old(State()), place, value)
    {
      var f := free;
      free := next[f];
      data[f] := value;
      prev[f] := place;
      if next[place] != 0 {
        prev[next[place]] := f;
      }
      next[f] := next[place];
      next[place] := f;
    }

    /** list_delete_head */
    method DeleteHead() returns (r: int)
      requires Valid()
      modifies this, data, next, prev
      ensures Valid() && data == old(data) && next == old(next) && prev == old(prev) && capacity == old(capacity)
      ensures (State(), r) == ArrayList.DeleteHead(old(State()), old(live), old(spare))
      ensures old(live) == [] ==> r == -1 && live == old(live) && spare == old(spare) && Contents() == old(Contents())
      ensures old(live) != [] ==>
        && r == 0 && live == old(live)[1..] && spare == [old(live)[0]] + old(spare)
        && Contents() == old(Contents())[1..]
    {
      ghost var s0, l0, sp0 := State(), live, spare;
      if head == 0 {
        return -1;
      }
      ArrayList.SlotKinds(s0, l0, sp0, head);
      live, spare := live[1..], [head] + spare;
      DropHead();
      r := 0;
      ArrayList.DroppedHead(s0, l0, sp0, State(), live, spare);
    }

    /** The writes of list_delete_head: the head slot is cleared and put first on the free chain */
    method DropHead()
      requires data != next && data != prev && next != prev && ArrayList.Layout(State())
      requires 0 <= next[head] < data.Length
      modifies this, data, next, prev
      ensures data == old(data) && next == old(next) && prev == old(prev) && capacity == old(capacity)
      ensures live == old(live) && spare == old(spare)
      ensures State() == ArrayList.DropHead(old(State()))
    {
      var h := head;
      var newHead := next[h];
      head := newHead;
      if newHead == 0 {
        tail := 0;
      } else {
        prev[newHead] := 0;
      }
      prev[h] := -1;
      data[h] := 0;
      next[h] := free;
      free := h;
    }

    /** list_delete_tail */
    method DeleteTail() returns (r: int)
      requires Valid()
      modifies this, data, next, prev
      ensures Valid() && data == old(data) && next == old(next) && prev == old(prev) && capacity == old(capacity)
      ensures (State(), r) == ArrayList.DeleteTail(old(State()), old(live), old(spare))
      ensures old(live) == [] ==> r == -1 && live == old(live) && spare == old(spare) && Contents() == old(Contents())
      ensures old(live) != [] ==>
        && r == ArrayList.Pred(old(live), |old(live)| - 1)
        && live == old(live)[..|old(live)| - 1] && spare == [ArrayList.Last(old(live))] + old(spare)
        && Contents() == old(Contents())[..|old(live)| - 1]
    {
      ghost var s0, l0, sp0 := State(), live, spare;
      if tail == 0 {
        return -1;
      }
      ArrayList.SlotKinds(s0, l0, sp0, tail);
      live, spare := live[..|live| - 1], [tail] + spare;
      r := prev[tail];
      DropTail();
      ArrayList.DroppedTail(s0, l0, sp0, State(), live, spare);
    }

    /** The writes of list_delete_tail: the tail slot is cleared and put first on the free chain */
    method DropTail()
      requires data != next && data != prev && next != prev && ArrayList.Layout(State())
      requires 0 <= prev[tail] < data.Length
      modifies this, data, next, prev
      ensures data == old(data) && next == old(next) && prev == old(prev) && capacity == old(capacity)
      ensures live == old(live) && spare == old(spare)
      ensures State() == ArrayList.DropTail(old(State()))
    {
      var t := tail;
      var newTail := prev[t];
      tail := newTail;
      if newTail == 0 {
        head := 0;
      } else {
        next[newTail] := 0;
      }
      next[t] := -1;
      prev[t] := -1;
      data[t] := 0;
      next[t] := free;
      free := t;
    }

    /** list_delete_element */
    method DeleteElement(place: int) returns (r: int)
      requires Valid() && 0 < place < capacity
      modifies this, data, next, prev
      ensures Valid() && data == old(data) && next == old(next) && prev == old(prev) && capacity == old(capacity)
      ensures (State(), r) == ArrayList.DeleteElement(old(State()), place, old(live), old(spare))
      ensures place in old(spare) ==> r == -1 && live == old(live) && spare == old(spare) && Contents() == old(Contents())
      ensures place !in old(spare) ==>
        && place in old(live) && r == ArrayList.Pred(old(live), ArrayList.Pos(old(live), place))
        && live == ArrayList.Remove(old(live), ArrayList.Pos(old(live), place)) && spare == [place] + old(spare)
        && Contents() == ArrayList.Remove(old(Contents()), ArrayList.Pos(old(live), place))
    {
      ghost var s0, l0, sp0 := State(), live, spare;
      ArrayList.SlotKinds(s0, l0, sp0, place);
      if next[place] == -1 || prev[place] == -1 {
        return -1;
      }
      ghost var i := ArrayList.Pos(l0, place);
      ghost var v0 := Contents();
      if place == head {
        assert i == 0;
        assert ArrayList.DeleteElement(s0, place, l0, sp0) == ArrayList.DeleteHead(s0, l0, sp0);
        r := DeleteHead();
        assert ArrayList.Remove(l0, 0) == l0[1..];
        assert ArrayList.Remove(v0, 0) == v0[1..];
        return;
      }
      if place == tail {
        assert i == |l0| - 1;
        assert ArrayList.DeleteElement(s0, place, l0, sp0) == ArrayList.DeleteTail(s0, l0, sp0);
        r := DeleteTail();
        assert ArrayList.Remove(l0, i) == l0[..i];
        assert ArrayList.Remove(v0, i) == v0[..i];
        return;
      }
      assert ArrayList.DeleteElement(s0, place, l0, sp0) == ArrayList.Unlink(s0, place);
      r := DeleteMiddle(place);
    }

    /** list_delete_element for a slot of the list other than the head and the tail */
    method DeleteMiddle(place: int) returns (r: int)
      requires Valid() && 0 < place < capacity && place in live && place != head && place != tail
      modifies this, data, next, prev
      ensures Valid() && data == old(data) && next == old(next) && prev == old(prev) && capacity == old(capacity)
      ensures 0 <= old(next[place]) < capacity && 0 <= old(prev[place]) < capacity
      ensures (State(), r) == ArrayList.Unlink(old(State()), place)
      ensures r == ArrayList.Pred(old(live), ArrayList.Pos(old(live), place))
      ensures live == ArrayList.Remove(old(live), ArrayList.Pos(old(live), place)) && spare == [place] + old(spare)
      ensures Contents() == ArrayList.Remove(old(Contents()), ArrayList.Pos(old(live), place))
    {
      ghost var s0, l0, sp0 := State(), live, spare;
      ghost var i := ArrayList.Pos(l0, place);
      ArrayList.SlotKinds(s0, l0, sp0, place);
      live, spare := ArrayList.Remove(live, i), [place] + spare;
      r := Unlink(place);
      ArrayList.Unlinked(s0, place, l0, sp0, i, State(), live, spare);
      ArrayList.DeleteElementMiddle(s0, place, l0, sp0, i);
    }

    /** The writes of list_delete_element: place is linked out, cleared and put first on the free chain */
    method Unlink(place: int) returns (r: int)
      requires data != next && data != prev && next != prev && ArrayList.Layout(State())
      requires 0 <= place < data.Length && 0 <= next[place] < data.Length && 0 <= prev[place] < data.Length
      modifies this, data, next, prev
      ensures data == old(data) && next == old(next) && prev == old(prev) && capacity == old(capacity)
      ensures live == old(live) && spare == old(spare)
      ensures (State(), r) == ArrayList.Unlink(old(State()), place)
    {
      var after := next[place];
      var before := prev[place];
      data[place] := 0;
      next[place] := -1;
      prev[place] := -1;
      prev[after] := before;
      next[before] := after;
      next[place] := free;
      free := place;
      r := before;
    }
  }
}

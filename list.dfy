// The array-backed doubly linked list of List/list.cpp: three parallel arrays
// data/next/prev, slot 0 as the sentinel that ends both chains, the list
// threaded from head to tail through next and back through prev, and the
// free slots threaded through next starting at `free`, each marked prev = -1.
//
// Each operation is first a function on the arrays' contents (Slots), stated
// in the order the source writes; the class List then performs the same
// writes on real arrays. Two ghost sequences name the chains the invariant
// is about: `live`, the slots of the list from head to tail, and `spare`,
// the free slots in the order of the free chain.

module ArrayList {

  /** The contents of the arrays and the three indices of a list */
  datatype Slots = Slots(data: seq<int>, next: seq<int>, prev: seq<int>, head: int, tail: int, free: int)

  // ---------------------------------------------------------------------------
  // Chains

  /** The element after position i of a chain, 0 after the last */
  function Succ(s: seq<int>, i: nat): int
    requires i < |s|
  {
    if i + 1 < |s| then s[i + 1] else 0
  }

  /** The element before position i of a chain, 0 before the first */
  function Pred(s: seq<int>, i: nat): int
    requires i < |s|
  {
    if i > 0 then s[i - 1] else 0
  }

  /** The first slot of a chain, 0 when it is empty */
  function First(s: seq<int>): int {
    if s == [] then 0 else s[0]
  }

  /** The last slot of a chain, 0 when it is empty */
  function Last(s: seq<int>): int {
    if s == [] then 0 else s[|s| - 1]
  }

  predicate Distinct(s: seq<int>) {
    forall i, j :: 0 <= i < j < |s| ==> s[i] != s[j]
  }

  /** The position of x in a chain */
  function Pos(s: seq<int>, x: int): (i: nat)
    requires x in s
    ensures i < |s| && s[i] == x
  {
    if s[0] == x then 0 else 1 + Pos(s[1..], x)
  }

  /** s with x inserted after position i */
  function Splice<T>(s: seq<T>, i: nat, x: T): (r: seq<T>)
    requires i < |s|
  {
    s[..i + 1] + [x] + s[i + 1..]
  }

  /** s without position i */
  function Remove<T>(s: seq<T>, i: nat): (r: seq<T>)
    requires i < |s|
  {
    s[..i] + s[i + 1..]
  }

  lemma SpliceIndex<T>(s: seq<T>, i: nat, x: T)
    requires i < |s|
    ensures var r := Splice(s, i, x);
      |r| == |s| + 1 && forall k :: 0 <= k < |r| ==> r[k] == if k <= i then s[k] else if k == i + 1 then x else s[k - 1]
  {
  }

  /** Splicing after the last position appends. */
  lemma SpliceLast<T>(s: seq<T>, x: T)
    requires s != []
    ensures Splice(s, |s| - 1, x) == s + [x]
  {
  }

  lemma RemoveIndex<T>(s: seq<T>, i: nat)
    requires i < |s|
    ensures var r := Remove(s, i);
      |r| == |s| - 1 && forall k :: 0 <= k < |r| ==> r[k] == if k < i then s[k] else s[k + 1]
  {
  }

  // ---------------------------------------------------------------------------
  // The representation invariant

  /** Three arrays of the same length, slot 0 and at least one more; the indices in range */
  predicate Layout(s: Slots) {
    && |s.data| >= 2 && |s.next| == |s.data| && |s.prev| == |s.data|
    && 0 <= s.head < |s.data| && 0 <= s.tail < |s.data| && 0 <= s.free < |s.data|
  }

  /** The two chains are disjoint, free of repeats, and together cover slots 1 .. cap-1. */
  predicate Partition(cap: int, live: seq<int>, spare: seq<int>) {
    && (forall i :: 0 <= i < |live| ==> 1 <= live[i] < cap)
    && (forall i :: 0 <= i < |spare| ==> 1 <= spare[i] < cap)
    && Distinct(live) && Distinct(spare)
    && (forall x :: x in live ==> x !in spare)
    && (forall x :: 1 <= x < cap ==> x in live || x in spare)
  }

  /** next and prev link the list's slots in order; head and tail are its ends. */
  predicate Linked(s: Slots, live: seq<int>)
    requires Layout(s) && forall i :: 0 <= i < |live| ==> 1 <= live[i] < |s.data|
  {
    && s.head == First(live) && s.tail == Last(live)
    && (forall i {:trigger s.next[live[i]]} :: 0 <= i < |live| ==> s.next[live[i]] == Succ(live, i))
    && (forall i {:trigger s.prev[live[i]]} :: 0 <= i < |live| ==> s.prev[live[i]] == Pred(live, i))
  }

  /** next links the free slots in order from free; a free slot has prev = -1 and data = 0. */
  predicate FreeLinked(s: Slots, spare: seq<int>)
    requires Layout(s) && forall i :: 0 <= i < |spare| ==> 1 <= spare[i] < |s.data|
  {
    && s.free == First(spare)
    && (forall i {:trigger s.next[spare[i]]} :: 0 <= i < |spare| ==> s.next[spare[i]] == Succ(spare, i))
    && (forall i :: 0 <= i < |spare| ==> s.prev[spare[i]] == -1 && s.data[spare[i]] == 0)
  }

  /** The arrays hold a list along `live` and a free chain along `spare`. */
  predicate Valid(s: Slots, live: seq<int>, spare: seq<int>) {
    Layout(s) && Partition(|s.data|, live, spare) && Linked(s, live) && FreeLinked(s, spare)
  }

  /** The values of the list from head to tail */
  function Values(data: seq<int>, live: seq<int>): (v: seq<int>)
    requires forall i :: 0 <= i < |live| ==> 0 <= live[i] < |data|
    ensures |v| == |live| && forall i :: 0 <= i < |live| ==> v[i] == data[live[i]]
  {
    seq(|live|, i requires 0 <= i < |live| => data[live[i]])
  }

  // ---------------------------------------------------------------------------
  // Capacity

  function Elements(s: seq<int>): set<int> {
    set x | x in s
  }

  lemma {:induction false} DistinctCard(s: seq<int>)
    requires Distinct(s)
    ensures |Elements(s)| == |s|
  {
    if s != [] {
      var t := s[..|s| - 1];
      assert Distinct(t) by {
        forall i, j | 0 <= i < j < |t| ensures t[i] != t[j] {
          assert t[i] == s[i] && t[j] == s[j];
        }
      }
      DistinctCard(t);
      assert s[|s| - 1] !in Elements(t) by {
        forall i | 0 <= i < |t| ensures t[i] != s[|s| - 1] {
          assert t[i] == s[i];
        }
      }
      assert Elements(s) == Elements(t) + {s[|s| - 1]} by {
        assert s == t + [s[|s| - 1]];
      }
    }
  }

  /** Every slot other than the sentinel is either in the list or free. */
  lemma SlotCount(s: Slots, live: seq<int>, spare: seq<int>)
    requires Valid(s, live, spare)
    ensures |live| + |spare| == |s.data| - 1
  {
    var cap := |s.data|;
    var all := AllSpare(cap);
    DistinctCard(live);
    DistinctCard(spare);
    DistinctCard(all);
    forall x | x in Elements(all) ensures x in Elements(live) + Elements(spare) {
      var k :| 0 <= k < |all| && all[k] == x;
    }
    forall x | x in Elements(live) + Elements(spare) ensures x in Elements(all) {
      assert all[x - 1] == x;
    }
    assert Elements(live) + Elements(spare) == Elements(all);
    assert Elements(live) * Elements(spare) == {};
  }

  /** insert_back fails exactly when the list holds capacity - 1 values. */
  lemma InsertFailsOnlyWhenFull(s: Slots, value: int, live: seq<int>, spare: seq<int>)
    requires Valid(s, live, spare)
    ensures InsertBack(s, value, live, spare).1 == -1 <==> |live| == |s.data| - 1
  {
    SlotCount(s, live, spare);
    InsertBackAppends(s, value, live, spare);
  }

  // ---------------------------------------------------------------------------
  // list_ctor

  /** list_ctor: slot 0 links to itself, every other slot is free and links to the next one, free = 1 */
  function Fresh(cap: int): (s: Slots)
    requires cap > 0
  {
    Slots(seq(cap, _ => 0), seq(cap, i => if i == 0 then 0 else (i + 1) % cap),
          seq(cap, i => if i == 0 then 0 else -1), 0, 0, 1)
  }

  /** The free slots of a new list, in chain order */
  function AllSpare(cap: int): (sp: seq<int>)
    requires cap >= 1
    ensures |sp| == cap - 1 && forall i :: 0 <= i < cap - 1 ==> sp[i] == i + 1
  {
    seq(cap - 1, i => i + 1)
  }

  /** A new list of capacity at least 2 is empty with every slot 1 .. cap-1 free, in increasing order. */
  lemma FreshValid(cap: int)
    requires cap >= 2
    ensures Valid(Fresh(cap), [], AllSpare(cap)) && Values(Fresh(cap).data, []) == []
  {
    FreshPartition(cap);
    FreshChain(cap);
  }

  lemma FreshPartition(cap: int)
    requires cap >= 2
    ensures Partition(cap, [], AllSpare(cap))
  {
    var sp := AllSpare(cap);
    forall x | 1 <= x < cap ensures x in sp {
      assert sp[x - 1] == x;
    }
  }

  lemma FreshChain(cap: int)
    requires cap >= 2
    ensures forall i :: 0 <= i < cap - 1 ==> 1 <= AllSpare(cap)[i] < cap
    ensures Layout(Fresh(cap)) && FreeLinked(Fresh(cap), AllSpare(cap))
  {
    var s := Fresh(cap);
    var sp := AllSpare(cap);
    forall i | 0 <= i < |sp| ensures s.next[sp[i]] == Succ(sp, i) {
      var x := sp[i];
      assert s.next[x] == (x + 1) % cap;
      if i + 1 < |sp| {
        ModBelow(x + 1, cap);
      } else {
        assert x + 1 == cap;
        ModSelf(cap);
      }
    }
  }

  lemma ModBelow(a: int, n: int)
    requires 0 <= a < n
    ensures a % n == a
  {
  }

  lemma ModSelf(n: int)
    requires n > 0
    ensures n % n == 0
  {
  }

  // ---------------------------------------------------------------------------
  // list_insert_back

  /** list_insert_back: the first free slot takes the value and becomes the new tail; -1 when there is none */
  function InsertBack(s: Slots, value: int, ghost live: seq<int>, ghost spare: seq<int>): (r: (Slots, int))
    requires Valid(s, live, spare)
    ensures |r.0.data| == |s.data| && |r.0.prev| == |s.prev|
    ensures r.1 == -1 ==> r.0 == s
    ensures r.1 != -1 ==> r.1 == s.free && r.0.tail == r.1 && r.0.data[r.1] == value && r.0.free == s.next[s.free]
  {
    var place := s.free;
    if place == 0 then (s, -1)
    else if s.prev[place] != -1 then (s, -1)
    else (Append(s, value), place)
  }

  /** The writes of insert_back that make the first free slot, holding value, the new tail */
  function Append(s: Slots, value: int): (t: Slots)
    requires Layout(s)
  {
    var place := s.free;
    var next := s.next[place := 0];
    var next' := if s.tail != 0 then next[s.tail := place] else next;
    var head := if s.head == 0 then place else s.head;
    Slots(s.data[place := value], next', s.prev[place := s.tail], head, place, s.next[place])
  }

  lemma PartitionTake(cap: int, live: seq<int>, spare: seq<int>)
    requires Partition(cap, live, spare) && spare != []
    ensures Partition(cap, live + [spare[0]], spare[1..])
  {
    var l, sp := live + [spare[0]], spare[1..];
    forall x | 1 <= x < cap ensures x in l || x in sp {
      if x !in live && x != spare[0] {
        var k :| 0 <= k < |spare| && spare[k] == x;
        assert sp[k - 1] == x;
      }
    }
    forall i, j | 0 <= i < j < |l| ensures l[i] != l[j] {
      if j == |live| {
        assert l[i] in live;
      }
    }
  }

  /** insert_back fails exactly when no slot is free, and otherwise appends the value. */
  lemma InsertBackAppends(s: Slots, value: int, live: seq<int>, spare: seq<int>)
    requires Valid(s, live, spare)
    ensures var (t, r) := InsertBack(s, value, live, spare);
      && (spare == [] ==> t == s && r == -1)
      && (spare != [] ==> r == spare[0] && Valid(t, live + [r], spare[1..]) && Values(t.data, live + [r]) == Values(s.data, live) + [value])
  {
    if spare != [] {
      PartitionTake(|s.data|, live, spare);
      InsertBackLinks(s, value, live, spare);
      InsertBackFree(s, value, live, spare);
    }
  }

  lemma InsertBackLinks(s: Slots, value: int, live: seq<int>, spare: seq<int>)
    requires Valid(s, live, spare) && spare != [] && Partition(|s.data|, live + [spare[0]], spare[1..])
    ensures var (t, r) := InsertBack(s, value, live, spare);
      Layout(t) && Linked(t, live + [r])
  {
    var (t, r) := InsertBack(s, value, live, spare);
    var l := live + [r];
    forall i | 0 <= i < |l| ensures t.next[l[i]] == Succ(l, i) && t.prev[l[i]] == Pred(l, i) {
      if i < |live| {
        assert l[i] != r;
        if i + 1 < |live| {
          assert l[i] != s.tail;
        }
      }
    }
  }

  lemma InsertBackFree(s: Slots, value: int, live: seq<int>, spare: seq<int>)
    requires Valid(s, live, spare) && spare != [] && Partition(|s.data|, live + [spare[0]], spare[1..])
    ensures var (t, r) := InsertBack(s, value, live, spare);
      Layout(t) && FreeLinked(t, spare[1..]) && Values(t.data, live + [r]) == Values(s.data, live) + [value]
  {
    var (t, r) := InsertBack(s, value, live, spare);
    var sp := spare[1..];
    forall i | 0 <= i < |sp| ensures t.next[sp[i]] == Succ(sp, i) && t.prev[sp[i]] == -1 && t.data[sp[i]] == 0 {
      assert sp[i] == spare[i + 1] && sp[i] !in live;
    }
    assert Values(t.data, live + [r]) == Values(s.data, live) + [value];
  }

  // ---------------------------------------------------------------------------
  // Moving slots between the chains

  lemma PartitionSplice(cap: int, live: seq<int>, spare: seq<int>, i: nat)
    requires Partition(cap, live, spare) && spare != [] && i < |live|
    ensures Partition(cap, Splice(live, i, spare[0]), spare[1..])
  {
    var f := spare[0];
    var l, sp := Splice(live, i, f), spare[1..];
    SpliceIndex(live, i, f);
    forall x | x in l ensures x in live || x == f {
      var k :| 0 <= k < |l| && l[k] == x;
    }
    forall x | x in live ensures x in l {
      var k :| 0 <= k < |live| && live[k] == x;
      if k <= i {
        assert l[k] == x;
      } else {
        assert l[k + 1] == x;
      }
    }
    assert l[i + 1] == f;
    forall x | 1 <= x < cap ensures x in l || x in sp {
      if x !in live && x != f {
        var k :| 0 <= k < |spare| && spare[k] == x;
        assert sp[k - 1] == x;
      }
    }
    forall a, b | 0 <= a < b < |l| ensures l[a] != l[b] {
      if a == i + 1 || b == i + 1 {
        assert l[a] in live || l[b] in live;
      }
    }
  }

  lemma PartitionRemove(cap: int, live: seq<int>, spare: seq<int>, i: nat)
    requires Partition(cap, live, spare) && i < |live|
    ensures Partition(cap, Remove(live, i), [live[i]] + spare)
  {
    var x := live[i];
    var l, sp := Remove(live, i), [x] + spare;
    RemoveIndex(live, i);
    forall y | y in l ensures y in live && y != x {
      var k :| 0 <= k < |l| && l[k] == y;
    }
    forall y | y in live && y != x ensures y in l {
      var k :| 0 <= k < |live| && live[k] == y;
      if k < i {
        assert l[k] == y;
      } else {
        assert l[k - 1] == y;
      }
    }
    forall y | y in spare ensures y in sp {
      var k :| 0 <= k < |spare| && spare[k] == y;
      assert sp[k + 1] == y;
    }
    forall a, b | 0 <= a < b < |sp| ensures sp[a] != sp[b] {
      if a == 0 {
        assert sp[b] in spare;
      }
    }
  }

  /** The slot a valid list's position i occupies has next and prev other than -1; a free slot has prev = -1. */
  lemma SlotKinds(s: Slots, live: seq<int>, spare: seq<int>, place: int)
    requires Valid(s, live, spare) && 0 < place < |s.data|
    ensures place in spare <==> s.prev[place] == -1
    ensures place in live <==> place !in spare
    ensures place in live ==> 0 <= s.next[place] < |s.data| && 0 <= s.prev[place] < |s.data|
  {
    if place in live {
      var k := Pos(live, place);
      assert s.prev[place] == Pred(live, k) && s.next[place] == Succ(live, k);
    } else {
      var k := Pos(spare, place);
    }
  }

  // ---------------------------------------------------------------------------
  // list_insert_after

  /**
   * list_insert_after: -1 when no slot is free or place is not in the list;
   * insert_back when place is the tail; otherwise the first free slot takes
   * the value and is linked between place and its successor.
   */
  function InsertAfter(s: Slots, place: int, value: int, ghost live: seq<int>, ghost spare: seq<int>): (r: (Slots, int))
    requires Valid(s, live, spare) && 0 < place < |s.data|
    ensures |r.0.data| == |s.data| && |r.0.prev| == |s.prev|
    ensures r.1 == -1 ==> r.0 == s
    ensures r.1 != -1 ==> r.1 == s.free && r.0.data[r.1] == value && r.0.prev[r.1] == place && r.0.free == s.next[s.free]
  {
    var free := s.free;
    if free == 0 then (s, -1)
    else if s.prev[place] == -1 then (s, -1)
    else if s.tail == place then InsertBack(s, value, live, spare)
    else if s.prev[free] != -1 then (s, -1)
    else
      SlotKinds(s, live, spare, place);
      (LinkAfter(s, place, value), free)
  }

  /** The writes of insert_after that link the free slot after place */
  function LinkAfter(s: Slots, place: int, value: int): (t: Slots)
    requires Layout(s) && 0 <= place < |s.data| && 0 <= s.next[place] < |s.data|
  {
    var free, after := s.free, s.next[place];
    var prev := s.prev[free := place];
    var prev' := if after != 0 then prev[after := free] else prev;
    var next := s.next[free := after][place := free];
    Slots(s.data[free := value], next, prev', s.head, s.tail, s.next[free])
  }

  /** insert_after fails exactly when no slot is free or place is free, and otherwise inserts the value after place. */
  lemma InsertAfterSplices(s: Slots, place: int, value: int, live: seq<int>, spare: seq<int>)
    requires Valid(s, live, spare) && 0 < place < |s.data|
    ensures var (t, r) := InsertAfter(s, place, value, live, spare);
      && (spare == [] || place in spare ==> t == s && r == -1)
      && (spare != [] && place !in spare ==>
            && place in live && r == spare[0]
            && Valid(t, Splice(live, Pos(live, place), r), spare[1..])
            && Values(t.data, Splice(live, Pos(live, place), r)) == Splice(Values(s.data, live), Pos(live, place), value))
  {
    SlotKinds(s, live, spare, place);
    if spare != [] && place !in spare {
      var i := Pos(live, place);
      if place == s.tail {
        InsertBackAppends(s, value, live, spare);
        SpliceLast(live, spare[0]);
        SpliceLast(Values(s.data, live), value);
      } else {
        assert s.prev[spare[0]] == -1;
        assert InsertAfter(s, place, value, live, spare) == (LinkAfter(s, place, value), spare[0]);
        LinkAfterSplices(s, place, value, live, spare, i);
      }
    }
  }

  /** Linking the first free slot after a slot of the list other than the tail splices its value in after that slot. */
  lemma LinkAfterSplices(s: Slots, place: int, value: int, live: seq<int>, spare: seq<int>, i: nat)
    requires Valid(s, live, spare) && spare != [] && i < |live| && live[i] == place && place != s.tail
    ensures 0 < place < |s.data| && 0 <= s.next[place] < |s.data|
    ensures var t := LinkAfter(s, place, value);
      && Valid(t, Splice(live, i, spare[0]), spare[1..])
      && Values(t.data, Splice(live, i, spare[0])) == Splice(Values(s.data, live), i, value)
  {
    SlotKinds(s, live, spare, place);
    PartitionSplice(|s.data|, live, spare, i);
    InsertMiddleLinks(s, place, value, live, spare, i);
    InsertMiddleFree(s, place, value, live, spare, i);
  }

  lemma InsertMiddleLinks(s: Slots, place: int, value: int, live: seq<int>, spare: seq<int>, i: nat)
    requires Valid(s, live, spare) && 0 < place < |s.data| && spare != [] && i < |live| && live[i] == place
    requires place != s.tail && Partition(|s.data|, Splice(live, i, spare[0]), spare[1..])
    ensures var t := LinkAfter(s, place, value);
      Layout(t) && Linked(t, Splice(live, i, spare[0]))
  {
    InsertMiddleEnds(s, place, value, live, spare, i);
    InsertMiddleNext(s, place, value, live, spare, i);
    InsertMiddlePrev(s, place, value, live, spare, i);
    LinkedOf(LinkAfter(s, place, value), Splice(live, i, spare[0]));
  }

  /** Linked, from its parts */
  lemma LinkedOf(t: Slots, l: seq<int>)
    requires Layout(t) && forall k :: 0 <= k < |l| ==> 1 <= l[k] < |t.data|
    requires t.head == First(l) && t.tail == Last(l)
    requires forall k :: 0 <= k < |l| ==> t.next[l[k]] == Succ(l, k)
    requires forall k :: 0 <= k < |l| ==> t.prev[l[k]] == Pred(l, k)
    ensures Linked(t, l)
  {
  }

  /** Valid, from its parts */
  lemma ValidOf(t: Slots, l: seq<int>, sp: seq<int>)
    requires Layout(t) && Partition(|t.data|, l, sp)
    requires Linked(t, l) && FreeLinked(t, sp)
    ensures Valid(t, l, sp)
  {
  }

  lemma InsertMiddleEnds(s: Slots, place: int, value: int, live: seq<int>, spare: seq<int>, i: nat)
    requires Valid(s, live, spare) && 0 < place < |s.data| && spare != [] && i < |live| && live[i] == place
    requires place != s.tail
    ensures var t := LinkAfter(s, place, value); var l := Splice(live, i, spare[0]);
      Layout(t) && |t.data| == |s.data| && t.head == First(l) && t.tail == Last(l)
  {
    var l := Splice(live, i, spare[0]);
    SpliceIndex(live, i, spare[0]);
    assert i + 1 < |live|;
    assert l[0] == live[0] && l[|l| - 1] == live[|live| - 1];
  }

  lemma InsertMiddleNext(s: Slots, place: int, value: int, live: seq<int>, spare: seq<int>, i: nat)
    requires Valid(s, live, spare) && 0 < place < |s.data| && spare != [] && i < |live| && live[i] == place
    requires place != s.tail && Partition(|s.data|, Splice(live, i, spare[0]), spare[1..])
    ensures var t := LinkAfter(s, place, value); var l := Splice(live, i, spare[0]);
      forall k :: 0 <= k < |l| ==> t.next[l[k]] == Succ(l, k)
  {
    var t := LinkAfter(s, place, value);
    var f := spare[0];
    assert i + 1 < |live| && s.next[place] == live[i + 1];
    var l := Splice(live, i, f);
    SpliceIndex(live, i, f);
    assert f !in live;
    forall k | 0 <= k < |l| ensures t.next[l[k]] == Succ(l, k) {
      if k < i {
        assert live[k] != place;
      } else if k > i + 1 {
        assert live[k - 1] != place;
      }
    }
  }

  lemma InsertMiddlePrev(s: Slots, place: int, value: int, live: seq<int>, spare: seq<int>, i: nat)
    requires Valid(s, live, spare) && 0 < place < |s.data| && spare != [] && i < |live| && live[i] == place
    requires place != s.tail && Partition(|s.data|, Splice(live, i, spare[0]), spare[1..])
    ensures var t := LinkAfter(s, place, value); var l := Splice(live, i, spare[0]);
      forall k :: 0 <= k < |l| ==> t.prev[l[k]] == Pred(l, k)
  {
    var t := LinkAfter(s, place, value);
    var f := spare[0];
    assert i + 1 < |live| && s.next[place] == live[i + 1];
    var l := Splice(live, i, f);
    SpliceIndex(live, i, f);
    assert f !in live;
    forall k | 0 <= k < |l| ensures t.prev[l[k]] == Pred(l, k) {
      if k <= i {
        assert live[k] != live[i + 1];
      } else if k > i + 2 {
        assert live[k - 1] != live[i + 1];
      }
    }
  }

  lemma InsertMiddleFree(s: Slots, place: int, value: int, live: seq<int>, spare: seq<int>, i: nat)
    requires Valid(s, live, spare) && 0 < place < |s.data| && spare != [] && i < |live| && live[i] == place
    requires place != s.tail && Partition(|s.data|, Splice(live, i, spare[0]), spare[1..])
    ensures var t := LinkAfter(s, place, value);
      && Layout(t) && FreeLinked(t, spare[1..])
      && Values(t.data, Splice(live, i, spare[0])) == Splice(Values(s.data, live), i, value)
  {
    InsertMiddleChain(s, place, value, live, spare, i);
    var t := LinkAfter(s, place, value);
    ValuesSplice(s.data, t.data, live, i, spare[0], value);
  }

  lemma InsertMiddleChain(s: Slots, place: int, value: int, live: seq<int>, spare: seq<int>, i: nat)
    requires Valid(s, live, spare) && 0 < place < |s.data| && spare != [] && i < |live| && live[i] == place
    requires place != s.tail && Partition(|s.data|, Splice(live, i, spare[0]), spare[1..])
    ensures var t := LinkAfter(s, place, value);
      Layout(t) && FreeLinked(t, spare[1..])
  {
    var t := LinkAfter(s, place, value);
    var r := spare[0];
    assert i + 1 < |live| && s.next[place] == live[i + 1];
    var sp := spare[1..];
    forall k | 0 <= k < |sp| ensures t.next[sp[k]] == Succ(sp, k) && t.prev[sp[k]] == -1 && t.data[sp[k]] == 0 {
      assert sp[k] == spare[k + 1] && sp[k] !in live;
    }
  }

  /** Writing a value into a slot outside the list and splicing that slot in splices the value in. */
  lemma ValuesSplice(d: seq<int>, d': seq<int>, live: seq<int>, i: nat, r: int, value: int)
    requires i < |live| && 0 <= r < |d| && r !in live && d' == d[r := value]
    requires forall k :: 0 <= k < |live| ==> 0 <= live[k] < |d|
    ensures var l := Splice(live, i, r);
      Values(d', l) == Splice(Values(d, live), i, value)
  {
    var l := Splice(live, i, r);
    SpliceIndex(live, i, r);
  }

  /** Writing into a list slot and dropping that slot from the chain drops its value. */
  lemma ValuesRemove(d: seq<int>, d': seq<int>, live: seq<int>, i: nat, value: int)
    requires i < |live| && Distinct(live) && forall k :: 0 <= k < |live| ==> 0 <= live[k] < |d|
    requires d' == d[live[i] := value]
    ensures Values(d', Remove(live, i)) == Remove(Values(d, live), i)
  {
    var l := Remove(live, i);
    RemoveIndex(live, i);
  }

  /** The first slot of the list becomes the first free slot. */
  lemma FreeFront(t: Slots, x: int, spare: seq<int>)
    requires Layout(t) && 1 <= x < |t.data| && forall k :: 0 <= k < |spare| ==> 1 <= spare[k] < |t.data|
    requires t.free == x && t.next[x] == First(spare) && t.prev[x] == -1 && t.data[x] == 0
    requires forall k :: 0 <= k < |spare| ==> t.next[spare[k]] == Succ(spare, k) && t.prev[spare[k]] == -1 && t.data[spare[k]] == 0
    ensures FreeLinked(t, [x] + spare)
  {
    var sp := [x] + spare;
    forall k | 0 <= k < |sp| ensures t.next[sp[k]] == Succ(sp, k) && t.prev[sp[k]] == -1 && t.data[sp[k]] == 0 {
      if k > 0 {
        assert sp[k] == spare[k - 1];
      }
    }
  }

  // ---------------------------------------------------------------------------
  // list_delete_head

  /** list_delete_head: -1 on an empty list; otherwise the head slot is cleared and becomes the first free slot, and 0 */
  function DeleteHead(s: Slots, ghost live: seq<int>, ghost spare: seq<int>): (r: (Slots, int))
    requires Valid(s, live, spare)
    ensures |r.0.data| == |s.data|
    ensures r.1 == -1 <==> s.head == 0
    ensures |r.0.data| == |s.data| && |r.0.prev| == |s.prev|
    ensures r.1 == -1 ==> r.0 == s
    ensures r.1 != -1 ==> r.1 == 0 && r.0.free == s.head && r.0.head == s.next[s.head] && r.0.data[s.head] == 0
  {
    if s.head == 0 then (s, -1)
    else
      SlotKinds(s, live, spare, s.head);
      (DropHead(s), 0)
  }

  /** The writes of delete_head that clear the head slot and put it first on the free chain */
  function DropHead(s: Slots): (t: Slots)
    requires Layout(s) && 0 <= s.next[s.head] < |s.data|
  {
    var head := s.head;
    var newHead := s.next[head];
    var prev := if newHead == 0 then s.prev else s.prev[newHead := 0];
    var tail := if newHead == 0 then 0 else s.tail;
    Slots(s.data[head := 0], s.next[head := s.free], prev[head := -1], newHead, tail, head)
  }

  /** delete_head fails exactly on an empty list and otherwise drops the first value. */
  lemma DeleteHeadDrops(s: Slots, live: seq<int>, spare: seq<int>)
    requires Valid(s, live, spare)
    ensures var (t, r) := DeleteHead(s, live, spare);
      && (live == [] ==> t == s && r == -1)
      && (live != [] ==>
            && r == 0 && Valid(t, live[1..], [live[0]] + spare)
            && Values(t.data, live[1..]) == Values(s.data, live)[1..])
  {
    if live != [] {
      assert Remove(live, 0) == live[1..];
      PartitionRemove(|s.data|, live, spare, 0);
      DeleteHeadLinks(s, live, spare);
      var t := DeleteHead(s, live, spare).0;
      FreeFront(t, live[0], spare);
      ValuesRemove(s.data, t.data, live, 0, 0);
      assert Remove(Values(s.data, live), 0) == Values(s.data, live)[1..];
    }
  }

  lemma DeleteHeadLinks(s: Slots, live: seq<int>, spare: seq<int>)
    requires Valid(s, live, spare) && live != []
    ensures var t := DeleteHead(s, live, spare).0;
      && Layout(t) && Linked(t, live[1..])
      && forall k :: 0 <= k < |spare| ==> t.next[spare[k]] == Succ(spare, k) && t.prev[spare[k]] == -1 && t.data[spare[k]] == 0
  {
    var t := DeleteHead(s, live, spare).0;
    var l := live[1..];
    assert s.next[live[0]] == Succ(live, 0);
    forall k | 0 <= k < |l| ensures t.next[l[k]] == Succ(l, k) && t.prev[l[k]] == Pred(l, k) {
      assert l[k] == live[k + 1] && s.next[live[k + 1]] == Succ(live, k + 1) && s.prev[live[k + 1]] == Pred(live, k + 1);
      if k > 0 {
        assert live[k + 1] != live[1];
      }
    }
    forall k | 0 <= k < |spare| ensures t.next[spare[k]] == Succ(spare, k) && t.prev[spare[k]] == -1 && t.data[spare[k]] == 0 {
      assert spare[k] !in live;
    }
    if |live| == 1 {
      assert t.head == 0 && t.tail == 0;
    } else {
      assert t.head == live[1] && t.tail == live[|live| - 1];
    }
    LinkedOf(t, l);
  }

  // ---------------------------------------------------------------------------
  // list_delete_tail

  /** list_delete_tail: -1 on an empty list; otherwise the tail slot is cleared and becomes the first free slot, and the new tail */
  function DeleteTail(s: Slots, ghost live: seq<int>, ghost spare: seq<int>): (r: (Slots, int))
    requires Valid(s, live, spare)
    ensures |r.0.data| == |s.data|
    ensures r.1 == -1 <==> s.tail == 0
    ensures |r.0.data| == |s.data| && |r.0.prev| == |s.prev|
    ensures r.1 == -1 ==> r.0 == s
    ensures r.1 != -1 ==> r.1 == s.prev[s.tail] && r.0.free == s.tail && r.0.tail == r.1 && r.0.data[s.tail] == 0
  {
    if s.tail == 0 then (s, -1)
    else
      SlotKinds(s, live, spare, s.tail);
      (DropTail(s), s.prev[s.tail])
  }

  /** The writes of delete_tail that clear the tail slot and put it first on the free chain */
  function DropTail(s: Slots): (t: Slots)
    requires Layout(s) && 0 <= s.prev[s.tail] < |s.data|
  {
    var tail := s.tail;
    var newTail := s.prev[tail];
    var head := if newTail == 0 then 0 else s.head;
    var next := if newTail == 0 then s.next else s.next[newTail := 0];
    var next' := next[tail := -1];
    Slots(s.data[tail := 0], next'[tail := s.free], s.prev[tail := -1], head, newTail, tail)
  }

  /** delete_tail fails exactly on an empty list and otherwise drops the last value, returning the new tail. */
  lemma DeleteTailDrops(s: Slots, live: seq<int>, spare: seq<int>)
    requires Valid(s, live, spare)
    ensures var (t, r) := DeleteTail(s, live, spare);
      && (live == [] ==> t == s && r == -1)
      && (live != [] ==>
            && r == Pred(live, |live| - 1) && Valid(t, live[..|live| - 1], [Last(live)] + spare)
            && Values(t.data, live[..|live| - 1]) == Values(s.data, live)[..|live| - 1])
  {
    if live != [] {
      DeleteTailValid(s, live, spare);
    }
  }

  lemma DeleteTailValid(s: Slots, live: seq<int>, spare: seq<int>)
    requires Valid(s, live, spare) && live != []
    ensures var (t, r) := DeleteTail(s, live, spare);
      && r == Pred(live, |live| - 1) && Valid(t, live[..|live| - 1], [Last(live)] + spare)
      && Values(t.data, live[..|live| - 1]) == Values(s.data, live)[..|live| - 1]
  {
    var n := |live|;
    var l := live[..n - 1];
    var sp := [live[n - 1]] + spare;
    assert Remove(live, n - 1) == l;
    PartitionRemove(|s.data|, live, spare, n - 1);
    DeleteTailLinks(s, live, spare);
    var t := DeleteTail(s, live, spare).0;
    assert |t.data| == |s.data|;
    FreeFront(t, live[n - 1], spare);
    ValidOf(t, l, sp);
    ValuesRemove(s.data, t.data, live, n - 1, 0);
    assert Remove(Values(s.data, live), n - 1) == Values(s.data, live)[..n - 1];
  }

  lemma DeleteTailLinks(s: Slots, live: seq<int>, spare: seq<int>)
    requires Valid(s, live, spare) && live != []
    ensures var (t, r) := DeleteTail(s, live, spare);
      && Layout(t) && Linked(t, live[..|live| - 1]) && r == Pred(live, |live| - 1)
      && forall k :: 0 <= k < |spare| ==> t.next[spare[k]] == Succ(spare, k) && t.prev[spare[k]] == -1 && t.data[spare[k]] == 0
  {
    var t := DeleteTail(s, live, spare).0;
    var n := |live|;
    var l := live[..n - 1];
    assert s.prev[live[n - 1]] == Pred(live, n - 1);
    forall k | 0 <= k < |l| ensures t.next[l[k]] == Succ(l, k) && t.prev[l[k]] == Pred(l, k) {
      assert l[k] == live[k] && s.next[live[k]] == Succ(live, k) && s.prev[live[k]] == Pred(live, k);
      if k < n - 2 {
        assert live[k] != live[n - 2];
      }
    }
    forall k | 0 <= k < |spare| ensures t.next[spare[k]] == Succ(spare, k) && t.prev[spare[k]] == -1 && t.data[spare[k]] == 0 {
      assert spare[k] !in live;
    }
  }

  // ---------------------------------------------------------------------------
  // list_delete_element

  /**
   * list_delete_element: -1 when place is not in the list; delete_head or
   * delete_tail at the ends; otherwise place is unlinked, cleared and
   * becomes the first free slot, and its predecessor is returned.
   */
  function DeleteElement(s: Slots, place: int, ghost live: seq<int>, ghost spare: seq<int>): (r: (Slots, int))
    requires Valid(s, live, spare) && 0 < place < |s.data|
    ensures |r.0.data| == |s.data| && |r.0.prev| == |s.prev|
    ensures r.1 == -1 ==> r.0 == s
    ensures r.1 != -1 ==> r.1 == s.prev[place] && r.0.free == place && r.0.data[place] == 0
  {
    if s.next[place] == -1 || s.prev[place] == -1 then (s, -1)
    else if place == s.head then DeleteHead(s, live, spare)
    else if place == s.tail then DeleteTail(s, live, spare)
    else
      SlotKinds(s, live, spare, place);
      Unlink(s, place)
  }

  /** The writes of delete_element that take place out of the middle of the list */
  function Unlink(s: Slots, place: int): (r: (Slots, int))
    requires Layout(s) && 0 <= place < |s.data|
    requires 0 <= s.next[place] < |s.data| && 0 <= s.prev[place] < |s.data|
  {
    var after, before := s.next[place], s.prev[place];
    var next := s.next[place := -1];
    var prev := s.prev[place := -1][after := before];
    (Slots(s.data[place := 0], next[before := after][place := s.free], prev, s.head, s.tail, place), before)
  }

  /** delete_element fails exactly on a free slot and otherwise drops that slot's value, returning its predecessor. */
  lemma DeleteElementRemoves(s: Slots, place: int, live: seq<int>, spare: seq<int>)
    requires Valid(s, live, spare) && 0 < place < |s.data|
    ensures var (t, r) := DeleteElement(s, place, live, spare);
      && (place in spare ==> t == s && r == -1)
      && (place !in spare ==>
            && place in live && r == Pred(live, Pos(live, place))
            && Valid(t, Remove(live, Pos(live, place)), [place] + spare)
            && Values(t.data, Remove(live, Pos(live, place))) == Remove(Values(s.data, live), Pos(live, place)))
  {
    SlotKinds(s, live, spare, place);
    if place !in spare {
      var i := Pos(live, place);
      if place == s.head {
        DeleteElementHead(s, place, live, spare, i);
        assert DeleteElement(s, place, live, spare) == (DropHead(s), 0);
      } else if place == s.tail {
        assert DeleteElement(s, place, live, spare) == DeleteTail(s, live, spare);
        DeleteElementTail(s, place, live, spare, i);
      } else {
        assert DeleteElement(s, place, live, spare) == Unlink(s, place);
        DeleteElementMiddle(s, place, live, spare, i);
      }
    }
  }

  lemma DeleteElementHead(s: Slots, place: int, live: seq<int>, spare: seq<int>, i: nat)
    requires Valid(s, live, spare) && 0 < place < |s.data| && i < |live| && live[i] == place && place == s.head
    ensures 0 <= s.next[s.head] < |s.data| && Pred(live, i) == 0
    ensures Valid(DropHead(s), Remove(live, i), [place] + spare)
    ensures Values(DropHead(s).data, Remove(live, i)) == Remove(Values(s.data, live), i)
  {
    assert i == 0;
    SlotKinds(s, live, spare, place);
    assert Remove(live, 0) == live[1..];
    DroppedHead(s, live, spare, DropHead(s), live[1..], [place] + spare);
    assert Remove(Values(s.data, live), 0) == Values(s.data, live)[1..];
  }

  lemma DeleteElementTail(s: Slots, place: int, live: seq<int>, spare: seq<int>, i: nat)
    requires Valid(s, live, spare) && 0 < place < |s.data| && i < |live| && live[i] == place
    requires place == s.tail
    ensures var (t, r) := DeleteTail(s, live, spare);
      && r == Pred(live, i) && Valid(t, Remove(live, i), [place] + spare)
      && Values(t.data, Remove(live, i)) == Remove(Values(s.data, live), i)
  {
    var n := |live|;
    assert i == n - 1;
    DeleteTailDrops(s, live, spare);
    assert Remove(live, n - 1) == live[..n - 1];
    assert Remove(Values(s.data, live), n - 1) == Values(s.data, live)[..n - 1];
  }

  lemma DeleteElementMiddle(s: Slots, place: int, live: seq<int>, spare: seq<int>, i: nat)
    requires Valid(s, live, spare) && 0 < place < |s.data| && i < |live| && live[i] == place
    requires place != s.head && place != s.tail
    ensures 0 <= s.next[place] < |s.data| && 0 <= s.prev[place] < |s.data|
    ensures var (t, r) := Unlink(s, place);
      && r == Pred(live, i) && Valid(t, Remove(live, i), [place] + spare)
      && Values(t.data, Remove(live, i)) == Remove(Values(s.data, live), i)
  {
    assert 0 < i < |live| - 1;
    UnlinkLinks(s, place, live, spare, i);
    PartitionRemove(|s.data|, live, spare, i);
    var t := Unlink(s, place).0;
    FreeFront(t, place, spare);
    ValuesRemove(s.data, t.data, live, i, 0);
  }

  lemma UnlinkLinks(s: Slots, place: int, live: seq<int>, spare: seq<int>, i: nat)
    requires Valid(s, live, spare) && 0 < i < |live| - 1 && live[i] == place
    ensures 0 <= s.next[place] < |s.data| && 0 <= s.prev[place] < |s.data|
    ensures var (t, r) := Unlink(s, place);
      && Layout(t) && Linked(t, Remove(live, i)) && r == Pred(live, i)
      && forall k :: 0 <= k < |spare| ==> t.next[spare[k]] == Succ(spare, k) && t.prev[spare[k]] == -1 && t.data[spare[k]] == 0
  {
    assert s.next[place] == Succ(live, i) && s.prev[place] == Pred(live, i);
    UnlinkNext(s, place, live, spare, i);
    UnlinkPrev(s, place, live, spare, i);
    var t := Unlink(s, place).0;
    var l := Remove(live, i);
    UnlinkSpare(s, place, live, spare, i);
    UnlinkEnds(s, place, live, spare, i);
    LinkedOf(t, l);
  }

  lemma UnlinkEnds(s: Slots, place: int, live: seq<int>, spare: seq<int>, i: nat)
    requires Valid(s, live, spare) && 0 < i < |live| - 1 && live[i] == place
    requires s.next[place] == live[i + 1] && s.prev[place] == live[i - 1]
    ensures var t := Unlink(s, place).0; var l := Remove(live, i);
      && Layout(t) && |t.data| == |s.data| && t.head == First(l) && t.tail == Last(l)
      && forall k :: 0 <= k < |l| ==> 1 <= l[k] < |t.data|
  {
    var l := Remove(live, i);
    RemoveIndex(live, i);
    assert l[0] == live[0] && l[|l| - 1] == live[|live| - 1];
  }

  lemma UnlinkSpare(s: Slots, place: int, live: seq<int>, spare: seq<int>, i: nat)
    requires Valid(s, live, spare) && 0 < i < |live| - 1 && live[i] == place
    requires s.next[place] == live[i + 1] && s.prev[place] == live[i - 1]
    ensures var t := Unlink(s, place).0;
      forall k :: 0 <= k < |spare| ==> t.next[spare[k]] == Succ(spare, k) && t.prev[spare[k]] == -1 && t.data[spare[k]] == 0
  {
    var t := Unlink(s, place).0;
    forall k | 0 <= k < |spare| ensures t.next[spare[k]] == Succ(spare, k) && t.prev[spare[k]] == -1 && t.data[spare[k]] == 0 {
      assert spare[k] !in live;
    }
  }

  lemma UnlinkNext(s: Slots, place: int, live: seq<int>, spare: seq<int>, i: nat)
    requires Valid(s, live, spare) && 0 < i < |live| - 1 && live[i] == place
    requires s.next[place] == live[i + 1] && s.prev[place] == live[i - 1]
    ensures var t := Unlink(s, place).0; var l := Remove(live, i);
      forall k :: 0 <= k < |l| ==> t.next[l[k]] == Succ(l, k)
  {
    var t := Unlink(s, place).0;
    var l := Remove(live, i);
    RemoveIndex(live, i);
    forall k | 0 <= k < |l| ensures t.next[l[k]] == Succ(l, k) {
      if k < i {
        assert s.next[live[k]] == Succ(live, k);
        if k < i - 1 {
          assert live[k] != live[i - 1] && live[k] != place;
        }
      } else {
        assert s.next[live[k + 1]] == Succ(live, k + 1);
        assert live[k + 1] != live[i - 1] && live[k + 1] != place;
      }
    }
  }

  lemma UnlinkPrev(s: Slots, place: int, live: seq<int>, spare: seq<int>, i: nat)
    requires Valid(s, live, spare) && 0 < i < |live| - 1 && live[i] == place
    requires s.next[place] == live[i + 1] && s.prev[place] == live[i - 1]
    ensures var t := Unlink(s, place).0; var l := Remove(live, i);
      forall k :: 0 <= k < |l| ==> t.prev[l[k]] == Pred(l, k)
  {
    var t := Unlink(s, place).0;
    var l := Remove(live, i);
    RemoveIndex(live, i);
    forall k | 0 <= k < |l| ensures t.prev[l[k]] == Pred(l, k) {
      if k < i {
        assert s.prev[live[k]] == Pred(live, k);
        assert live[k] != live[i + 1] && live[k] != place;
      } else {
        assert s.prev[live[k + 1]] == Pred(live, k + 1);
        if k > i {
          assert live[k + 1] != live[i + 1] && live[k + 1] != place;
        }
      }
    }
  }

  // ---------------------------------------------------------------------------
  // The same facts about a state, chain and free chain named by the caller.
  // The methods of ListObject.List call these once their writes are done.

  lemma AppendedBack(s: Slots, value: int, live: seq<int>, spare: seq<int>, t: Slots, l: seq<int>, sp: seq<int>)
    requires Valid(s, live, spare) && spare != [] && t == Append(s, value)
    requires l == live + [spare[0]] && sp == spare[1..]
    ensures Valid(t, l, sp) && Values(t.data, l) == Values(s.data, live) + [value]
  {
    InsertBackAppends(s, value, live, spare);
  }

  lemma LinkedAfter(s: Slots, place: int, value: int, live: seq<int>, spare: seq<int>, i: nat, t: Slots, l: seq<int>, sp: seq<int>)
    requires Valid(s, live, spare) && spare != [] && i < |live| && live[i] == place && place != s.tail
    requires 0 <= s.next[place] < |s.data| && t == LinkAfter(s, place, value)
    requires l == Splice(live, i, spare[0]) && sp == spare[1..]
    ensures Valid(t, l, sp) && Values(t.data, l) == Splice(Values(s.data, live), i, value)
  {
    LinkAfterSplices(s, place, value, live, spare, i);
  }

  lemma DroppedHead(s: Slots, live: seq<int>, spare: seq<int>, t: Slots, l: seq<int>, sp: seq<int>)
    requires Valid(s, live, spare) && live != [] && 0 <= s.next[s.head] < |s.data| && t == DropHead(s)
    requires l == live[1..] && sp == [live[0]] + spare
    ensures Valid(t, l, sp) && Values(t.data, l) == Values(s.data, live)[1..]
  {
    DeleteHeadDrops(s, live, spare);
  }

  lemma DroppedTail(s: Slots, live: seq<int>, spare: seq<int>, t: Slots, l: seq<int>, sp: seq<int>)
    requires Valid(s, live, spare) && live != [] && 0 <= s.prev[s.tail] < |s.data| && t == DropTail(s)
    requires l == live[..|live| - 1] && sp == [Last(live)] + spare
    ensures Valid(t, l, sp) && Values(t.data, l) == Values(s.data, live)[..|live| - 1]
  {
    DeleteTailDrops(s, live, spare);
  }

  lemma Unlinked(s: Slots, place: int, live: seq<int>, spare: seq<int>, i: nat, t: Slots, l: seq<int>, sp: seq<int>)
    requires Valid(s, live, spare) && 0 < place < |s.data| && i < |live| && live[i] == place
    requires place != s.head && place != s.tail
    requires 0 <= s.next[place] < |s.data| && 0 <= s.prev[place] < |s.data| && t == Unlink(s, place).0
    requires l == Remove(live, i) && sp == [place] + spare
    ensures Valid(t, l, sp) && Values(t.data, l) == Remove(Values(s.data, live), i)
  {
    DeleteElementMiddle(s, place, live, spare, i);
  }
}

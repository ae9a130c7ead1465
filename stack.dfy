/**
 * The growable stack of Stack/stack.cpp and its validity check from
 * Stack/debug.cpp. An element is `elem_size` raw bytes; the buffer holds
 * `capacity` element slots of which the first `size` are live. Capacity starts
 * at MIN_CAP, doubles when a push finds the buffer full and halves when a pop
 * leaves less than a third of it in use.
 */
module Stack {
  import opened Common

  const MinCap: int := 512
  const MaxCap: int := 65536
  const CanaryValue: int := 0xDEDAADED
  const HashSeed: Byte := 0xad

  datatype Error = OK | NoMemory | ResizeError | PopFromEmpty | StackCorrupted | UnknownError

  // ---------------------------------------------------------------------------
  // count_hash

  /** Bitwise exclusive or, one bit at a time from the lowest */
  function Xor(a: nat, b: nat): nat
    decreases a + b
  {
    if a == 0 && b == 0 then 0 else 2 * Xor(a / 2, b / 2) + Bit(a % 2 != b % 2)
  }

  function Bit(b: bool): nat {
    if b then 1 else 0
  }

  lemma {:induction false} XorUnfold(a: nat, b: nat)
    ensures Xor(a, b) / 2 == Xor(a / 2, b / 2) && Xor(a, b) % 2 == Bit(a % 2 != b % 2)
  {
  }

  lemma {:induction false} XorSelf(a: nat)
    ensures Xor(a, a) == 0
    decreases a
  {
    if a != 0 {
      XorSelf(a / 2);
    }
  }

  lemma {:induction false} XorAssoc(a: nat, b: nat, c: nat)
    ensures Xor(Xor(a, b), c) == Xor(a, Xor(b, c))
    decreases a + b + c
  {
    if a + b + c != 0 {
      XorAssoc(a / 2, b / 2, c / 2);
      XorAssocStep(a, b, c);
    }
  }

  lemma {:induction false} XorAssocStep(a: nat, b: nat, c: nat)
    requires Xor(Xor(a / 2, b / 2), c / 2) == Xor(a / 2, Xor(b / 2, c / 2))
    ensures Xor(Xor(a, b), c) == Xor(a, Xor(b, c))
  {
    var ab, bc := Xor(a, b), Xor(b, c);
    XorUnfold(a, b);
    XorUnfold(b, c);
    var l, r := Xor(ab, c), Xor(a, bc);
    XorUnfold(ab, c);
    XorUnfold(a, bc);
    assert l / 2 == Xor(Xor(a / 2, b / 2), c / 2);
    assert r / 2 == Xor(a / 2, Xor(b / 2, c / 2));
    ParityAssoc(a % 2, b % 2, c % 2);
    assert l % 2 == r % 2;
    HalvesAndParity(l, r);
  }

  lemma ParityAssoc(x: nat, y: nat, z: nat)
    requires x < 2 && y < 2 && z < 2
    ensures Bit(Bit(x != y) != z) == Bit(x != Bit(y != z))
  {
  }

  lemma HalvesAndParity(l: nat, r: nat)
    requires l / 2 == r / 2 && l % 2 == r % 2
    ensures l == r
  {
  }

  lemma {:induction false} XorComm(a: nat, b: nat)
    ensures Xor(a, b) == Xor(b, a)
    decreases a + b
  {
    if a + b != 0 {
      XorComm(a / 2, b / 2);
    }
  }

  lemma {:induction false} XorBelow(a: nat, b: nat, p: nat)
    requires p >= 1 && a < p && b < p && IsPow2(p)
    ensures Xor(a, b) < p
    decreases p
  {
    if p > 1 && a + b != 0 {
      XorBelow(a / 2, b / 2, p / 2);
    }
  }

  predicate IsPow2(p: nat)
    decreases p
  {
    p == 1 || (p > 1 && p % 2 == 0 && IsPow2(p / 2))
  }

  /** XOR of two bytes, a byte */
  function XorByte(a: Byte, b: Byte): (r: Byte)
  {
    assert IsPow2(256) by {
      assert IsPow2(2) && IsPow2(4) && IsPow2(8) && IsPow2(16) && IsPow2(32) && IsPow2(64) && IsPow2(128);
    }
    XorBelow(a, b, 256);
    Xor(a, b)
  }

  lemma {:induction false} XorCancel(h: nat, x: nat)
    ensures Xor(Xor(h, x), x) == h
  {
    XorAssoc(h, x, x);
    XorSelf(x);
    XorZero(h);
  }

  lemma {:induction false} XorZero(a: nat)
    ensures Xor(a, 0) == a
    decreases a
  {
    if a != 0 {
      XorZero(a / 2);
    }
  }

  lemma {:induction false} XorSwap(h: nat, x: nat, y: nat)
    ensures Xor(Xor(h, x), y) == Xor(Xor(h, y), x)
  {
    XorAssoc(h, x, y);
    XorAssoc(h, y, x);
    XorComm(x, y);
  }

  lemma {:induction false} XorInjective(h: nat, x: nat, y: nat)
    requires Xor(h, x) == Xor(h, y)
    ensures x == y
  {
    XorComm(h, x);
    XorComm(h, y);
    XorCancel(x, h);
    XorCancel(y, h);
  }

  /** 0xad XOR-ed with every byte of the range */
  function Hash(bytes: seq<Byte>): Byte
    decreases |bytes|
  {
    if bytes == [] then HashSeed else XorByte(Hash(bytes[..|bytes| - 1]), bytes[|bytes| - 1])
  }

  /** `count_hash`: the accumulating loop over `len` bytes */
  method CountHash(bytes: seq<Byte>) returns (h: Byte)
    ensures h == Hash(bytes)
  {
    h := HashSeed;
    var i := 0;
    while i < |bytes|
      invariant 0 <= i <= |bytes|
      invariant h == Hash(bytes[..i])
    {
      assert bytes[..i + 1][..i] == bytes[..i];
      h := XorByte(h, bytes[i]);
      i := i + 1;
    }
    assert bytes[..i] == bytes;
  }

  /** An empty range hashes to the seed. */
  lemma HashOfEmpty()
    ensures Hash([]) == HashSeed
  {
  }

  /** Changing any single byte changes the hash: the check catches one corrupted byte. */
  lemma {:induction false} HashDetectsOneByte(bytes: seq<Byte>, i: nat, b: Byte)
    requires i < |bytes| && b != bytes[i]
    ensures Hash(bytes[i := b]) != Hash(bytes)
  {
    HashUpdate(bytes, i, b);
    if Xor(Xor(Hash(bytes), bytes[i]), b) == Hash(bytes) {
      XorCancel(Hash(bytes), bytes[i]);
      XorInjective(Xor(Hash(bytes), bytes[i]), b, bytes[i]);
    }
  }

  lemma {:induction false} HashUpdate(bytes: seq<Byte>, i: nat, b: Byte)
    requires i < |bytes|
    ensures Hash(bytes[i := b]) == Xor(Xor(Hash(bytes), bytes[i]), b)
    decreases |bytes|
  {
    var n := |bytes| - 1;
    var upd := bytes[i := b];
    if i == n {
      assert upd[..n] == bytes[..n];
      XorCancel(Hash(bytes[..n]), bytes[n]);
    } else {
      HashUpdate(bytes[..n], i, b);
      assert upd[..n] == bytes[..n][i := b];
      XorSwap(Xor(Hash(bytes[..n]), bytes[i]), b, bytes[n]);
      XorSwap(Hash(bytes[..n]), bytes[i], bytes[n]);
    }
  }

  // ---------------------------------------------------------------------------
  // Capacity bookkeeping

  /** alloc_more refuses when doubling would pass MAX_CAP. */
  predicate PushFails(size: int, capacity: int) {
    size + 1 > capacity && 2 * capacity > MaxCap
  }

  /** The capacities a stack can reach from MIN_CAP by doubling and halving */
  predicate ReachableCapacity(c: int) {
    c in {512, 1024, 2048, 4096, 8192, 16384, 32768, 65536}
  }

  /** For a stack grown from MIN_CAP, exactly MAX_CAP pushes succeed. */
  lemma PushFailsOnlyWhenFull(size: int, capacity: int)
    requires ReachableCapacity(capacity) && 0 <= size <= capacity
    ensures PushFails(size, capacity) <==> size == MaxCap
  {
  }

  /** The bytes of the live elements, as `count_hash` walks them */
  function Flatten(elems: seq<seq<Byte>>): seq<Byte>
    decreases |elems|
  {
    if elems == [] then [] else Flatten(elems[..|elems| - 1]) + elems[|elems| - 1]
  }

  class Stack {
    var size: int
    var capacity: int
    var elemSize: int
    var hasName: bool
    var hasPrinter: bool
    var canary1: int
    var canary2: int
    var dataHash: Byte
    var data: array?<seq<Byte>>

    /** The buffer exists and has `capacity` slots. */
    predicate Allocated()
      reads this
    {
      data != null && capacity >= 0 && data.Length == capacity
    }

    /**
     * `check_stack`: 0 when every check passes, 1 otherwise. The hash of the
     * live bytes is compared only when the size check has passed; when it has
     * not, the result is 1 already.
     */
    function CheckStack(): (err: int)
      reads this, data
      ensures err == 0 || err == 1
      ensures err == 0 <==>
        && data != null
        && 0 <= size <= capacity
        && MinCap <= capacity <= MaxCap
        && elemSize > 0 && hasName && hasPrinter
        && canary1 == CanaryValue && canary2 == CanaryValue
        && (size <= data.Length ==> dataHash == Hash(Flatten(data[..size])))
    {
      var sizeOk := 0 <= size <= capacity;
      var hashBad := data != null && sizeOk && size <= data.Length && dataHash != Hash(Flatten(data[..size]));
      if data == null || !sizeOk || capacity < MinCap || capacity > MaxCap || elemSize <= 0
        || !hasName || !hasPrinter || canary1 != CanaryValue || canary2 != CanaryValue || hashBad
      then 1 else 0
    }

    predicate Valid()
      reads this, data
    {
      Allocated() && CheckStack() == 0
    }

    /** The live elements, oldest first */
    function Live(): (elems: seq<seq<Byte>>)
      reads this, data
      requires Valid()
      ensures |elems| == size
    {
      data[..size]
    }

    /** `stack_ctor`: an empty stack of MIN_CAP slots */
    constructor (elemSize: int, hasName: bool, hasPrinter: bool)
      requires elemSize > 0 && hasName && hasPrinter
      ensures Valid() && fresh(data)
      ensures size == 0 && capacity == MinCap && this.elemSize == elemSize
      ensures Live() == [] && ReachableCapacity(capacity)
    {
      data := new seq<Byte>[MinCap];
      canary1 := CanaryValue;
      canary2 := CanaryValue;
      size := 0;
      capacity := MinCap;
      this.elemSize := elemSize;
      this.hasName := hasName;
      this.hasPrinter := hasPrinter;
      dataHash := HashSeed;
      new;
      assert data[..0] == [];
    }

    /** Copy the first `count` slots of `from` into `to` */
    static method CopyPrefix(from: array<seq<Byte>>, to: array<seq<Byte>>, count: nat)
      requires count <= from.Length && count <= to.Length && from != to
      modifies to
      ensures to[..count] == from[..count]
    {
      var i := 0;
      while i < count
        invariant 0 <= i <= count
        invariant to[..i] == from[..i]
      {
        to[i] := from[i];
        i := i + 1;
        assert to[..i] == to[..i - 1] + [to[i - 1]];
        assert from[..i] == from[..i - 1] + [from[i - 1]];
      }
    }

    /**
     * `alloc_more`: double the buffer, keeping the live elements; reports failure
     * when the doubled capacity would exceed MAX_CAP.
     */
    method AllocMore() returns (failed: bool)
      requires Allocated() && 0 <= size <= capacity
      modifies this
      ensures size == old(size) && elemSize == old(elemSize) && dataHash == old(dataHash)
      ensures failed <==> 2 * old(capacity) > MaxCap
      ensures failed ==> data == old(data) && capacity == old(capacity)
      ensures !failed ==> capacity == 2 * old(capacity) && fresh(data) && Allocated()
      ensures !failed ==> data[..size] == old(data[..size])
      ensures hasName == old(hasName) && hasPrinter == old(hasPrinter)
      ensures canary1 == old(canary1) && canary2 == old(canary2)
    {
      if 2 * capacity > MaxCap {
        return true;
      }
      var newCap := capacity * 2;
      var newData := new seq<Byte>[newCap];
      CopyPrefix(data, newData, size);
      data := newData;
      capacity := newCap;
      return false;
    }

    /** `free_more`: halve the buffer, keeping the live elements (its assertion taken as disabled) */
    method FreeMore()
      requires Allocated() && 0 <= size < capacity / 2
      modifies this
      ensures size == old(size) && elemSize == old(elemSize) && dataHash == old(dataHash)
      ensures capacity == old(capacity) / 2 && fresh(data) && Allocated()
      ensures data[..size] == old(data[..size])
      ensures hasName == old(hasName) && hasPrinter == old(hasPrinter)
      ensures canary1 == old(canary1) && canary2 == old(canary2)
    {
      var newCap := capacity / 2;
      var newData := new seq<Byte>[newCap];
      CopyPrefix(data, newData, size);
      data := newData;
      capacity := newCap;
    }

    /**
     * `stack_push`: refuse a corrupted stack; grow when full, failing with
     * NO_MEMORY past MAX_CAP; otherwise append the element and rehash.
     */
    method Push(value: seq<Byte>) returns (r: Error)
      requires Allocated() && |value| == elemSize
      modifies this, data
      ensures Allocated()
      ensures old(CheckStack()) != 0 ==> r == StackCorrupted && data == old(data) && unchanged(this, data)
      ensures old(CheckStack()) == 0 && PushFails(old(size), old(capacity)) ==>
                r == NoMemory && Valid() && size == old(size) && capacity == old(capacity) && Live() == old(Live())
      ensures old(CheckStack()) == 0 && !PushFails(old(size), old(capacity)) ==>
                && r == OK && Valid() && size == old(size) + 1
                && capacity == (if old(size) + 1 > old(capacity) then 2 * old(capacity) else old(capacity))
                && Live() == old(Live()) + [value]
      ensures old(ReachableCapacity(capacity)) ==> ReachableCapacity(capacity)
    {
      if CheckStack() != 0 {
        return StackCorrupted;
      }
      ghost var before := Live();
      if size + 1 > capacity {
        var failed := AllocMore();
        if failed {
          return NoMemory;
        }
      }
      Store(value);
      return OK;
    }

    /** The rehash at the end of `stack_pop` */
    method Rehash()
      requires Allocated() && 0 <= size <= capacity
      modifies this`dataHash
      ensures dataHash == Hash(Flatten(data[..size]))
    {
      dataHash := CountHash(Flatten(data[..size]));
    }

    /** The tail of `stack_push` once there is room: copy the element in, count it, rehash. */
    method Store(value: seq<Byte>)
      requires Allocated() && 0 <= size < capacity && MinCap <= capacity <= MaxCap
      requires elemSize > 0 && hasName && hasPrinter && canary1 == CanaryValue && canary2 == CanaryValue
      modifies this, data
      ensures Valid() && data == old(data) && capacity == old(capacity) && elemSize == old(elemSize)
      ensures size == old(size) + 1 && data[..size] == old(data[..size]) + [value]
    {
      ghost var before := data[..size];
      data[size] := value;
      size := size + 1;
      assert data[..size] == before + [value];
      dataHash := CountHash(Flatten(data[..size]));
    }

    /**
     * `stack_pop`: refuse a corrupted stack; on an empty stack write zeros and
     * report POP_FROM_EMPTY; otherwise remove and return the last element,
     * halving the buffer when less than a third of it stays in use. The check
     * on exit fails, after the element was removed, when halving took the
     * capacity below MIN_CAP, which only a capacity that is not a power of two
     * can do. `value` is what is written to the caller's buffer (nothing when
     * the stack was corrupted on entry).
     */
    method Pop() returns (r: Error, value: seq<Byte>)
      requires Allocated()
      modifies this
      ensures Allocated()
      ensures old(CheckStack()) != 0 ==> r == StackCorrupted && value == [] && unchanged(this)
      ensures old(CheckStack()) == 0 && old(size) == 0 ==>
                r == PopFromEmpty && value == Zeros(elemSize) && Valid() && unchanged(this)
      ensures old(CheckStack()) == 0 && old(size) > 0 ==>
                && size == old(size) - 1
                && capacity == (if size < old(capacity) / 3 && old(capacity) > MinCap then old(capacity) / 2 else old(capacity))
                && old(Live()) == data[..size] + [value]
                && (r == OK <==> capacity >= MinCap)
                && (r == OK ==> Valid())
                && (r != OK ==> r == StackCorrupted)
      ensures old(ReachableCapacity(capacity)) && old(CheckStack()) == 0 ==> ReachableCapacity(capacity) && r != StackCorrupted
    {
      if CheckStack() != 0 {
        return StackCorrupted, [];
      }
      if size <= 0 {
        return PopFromEmpty, Zeros(elemSize);
      }
      ghost var before := Live();
      size := size - 1;
      value := data[size];
      assert before == data[..size] + [value];
      if size < capacity / 3 && capacity > MinCap {
        FreeMore();
      }
      Rehash();
      if CheckStack() != 0 {
        return StackCorrupted, value;
      }
      return OK, value;
    }

    /** `stack_dtor`: poison the fields and release the buffer; the stack no longer checks. */
    method Destroy() returns (r: Error)
      requires Allocated()
      modifies this
      ensures old(CheckStack()) != 0 ==> r == StackCorrupted && unchanged(this)
      ensures old(CheckStack()) == 0 ==> r == OK && data == null && CheckStack() != 0
      ensures old(CheckStack()) == 0 ==> size == -1 && capacity == -1 && elemSize == -1
    {
      if CheckStack() != 0 {
        return StackCorrupted;
      }
      size := -1;
      capacity := -1;
      elemSize := -1;
      hasName := false;
      hasPrinter := false;
      data := null;
      return OK;
    }
  }

  /** What `memset (value, 0, elem_size)` leaves in the caller's buffer */
  function Zeros(n: int): (z: seq<Byte>)
    ensures |z| == if n > 0 then n else 0
    ensures forall i :: 0 <= i < |z| ==> z[i] == 0
  {
    if n <= 0 then [] else seq(n, _ => 0)
  }

  // ---------------------------------------------------------------------------
  // The same behaviour on element sequences, for clients that see only contents

  /** Push on a stack grown from MIN_CAP: it succeeds below MAX_CAP elements and is lost at MAX_CAP. */
  function Pushed<T>(s: seq<T>, x: T): (r: seq<T>)
    ensures |s| <= |r| <= |s| + 1 && r[..|s|] == s
    ensures |r| == |s| + 1 <==> |s| < MaxCap
    ensures |r| > |s| ==> r[|s|] == x
  {
    if |s| < MaxCap then s + [x] else s
  }

  /** Pop: the last element and the rest, or `zero` and the unchanged empty stack */
  function Popped<T>(s: seq<T>, zero: T): (r: (T, seq<T>))
    ensures s == [] ==> r == (zero, s)
    ensures s != [] ==> r.1 + [r.0] == s
  {
    if s == [] then (zero, s) else (s[|s| - 1], s[..|s| - 1])
  }

  /** pop returns the most recently pushed value and restores the earlier contents. */
  lemma {:induction false} PopAfterPush<T>(s: seq<T>, x: T, zero: T)
    requires |s| < MaxCap
    ensures Popped(Pushed(s, x), zero) == (x, s)
  {
    assert (s + [x])[..|s|] == s;
  }
}

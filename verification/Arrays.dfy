/** Engine arrays: growing them, failing to, and what happens to their elements. */
module Arrays {
  const MAX_CAPACITY := 0x7FFF_FFFF
  const MIN_GROW := 4
  const GROW_MULTIPLIER := 3
  const GROW_DIVIDER := 8
  const GROW_CONST := 16

  /** An element: nothing but zero bytes, or something which has to be destroyed. */
  datatype Element = Zero | Live(id: nat, text: string)

  datatype Outcome = Ok | LengthError | AllocationFailed | InvalidArgument

  /** The capacity for at least `size` elements, with slack. */
  function Grown(size: nat): (capacity: nat)
    ensures size <= capacity
  {
    if size <= MIN_GROW then MIN_GROW else size + GROW_MULTIPLIER * size / GROW_DIVIDER + GROW_CONST
  }

  function Min(a: nat, b: nat): nat {
    if a < b then a else b
  }

  /** What is left of `s` when it is made `n` long, filled up with zeros. */
  function Resized(s: seq<Element>, n: nat): (r: seq<Element>)
    ensures |r| == n
  {
    if n <= |s| then s[..n] else s + seq(n - |s|, _ => Zero)
  }

  /** The memory `m` once it has grown to the capacity `cap`: the rest is zero, except where an empty
      block was reallocated. */
  function Extended(m: seq<Element>, hasBlock: bool, cap: nat, garbage: Element): (r: seq<Element>)
    requires |m| <= cap
    ensures |r| == cap && r[..|m|] == m
  {
    m + seq(cap - |m|, _ => if m == [] && hasBlock then garbage else Zero)
  }

  lemma ExtendedAt(m: seq<Element>, hasBlock: bool, cap: nat, garbage: Element)
    requires |m| <= cap
    ensures var r := Extended(m, hasBlock, cap, garbage);
      forall i | |m| <= i < cap :: r[i] == if m == [] && hasBlock then garbage else Zero
  {
  }

  function Zeroed(m: seq<Element>, from: nat, to: nat): (r: seq<Element>)
    requires from <= to <= |m|
    ensures |r| == |m|
  {
    m[..from] + seq(to - from, _ => Zero) + m[to..]
  }

  /** Resizing keeps what fits and adds nothing but zeros; zeroing touches nothing outside of its range. */
  lemma KeptAndZero(s: seq<Element>, n: nat, from: nat, upTo: nat)
    requires from <= upTo <= |s|
    ensures forall i | 0 <= i < n :: Resized(s, n)[i] == if i < |s| then s[i] else Zero
    ensures forall i | 0 <= i < |s| :: Zeroed(s, from, upTo)[i] == if from <= i < upTo then Zero else s[i]
  {
  }

  method ZeroBehind(block: array<Element>, n: nat)
    requires n <= block.Length
    modifies block
    ensures block[..n] == old(block[..n]) && forall k | n <= k < block.Length :: block[k] == Zero
  {
    for i := n to block.Length
      invariant block[..n] == old(block[..n]) && forall k | n <= k < i :: block[k] == Zero
    {
      block[i] := Zero;
    }
  }

  class TArray {
    var data: array?<Element>
    var count: nat
    var max: nat
    /** How many elements all reallocations copied. */
    ghost var copied: nat

    constructor ()
      ensures Valid() && data == null && count == max == copied == 0
    {
      data, count, max, copied := null, 0, 0, 0;
    }

    ghost predicate Valid()
      reads this
    {
      && count <= max <= MAX_CAPACITY
      && (data == null ==> max == 0)
      && (data != null ==> data.Length == max)
    }

    /** What the memory holds, up to the capacity. */
    ghost function Memory(): (m: seq<Element>)
      requires Valid()
      reads this, data
      ensures |m| == max
    {
      if data == null then [] else data[..]
    }

    ghost function Contents(): seq<Element>
      requires Valid()
      reads this, data
    {
      Memory()[..count]
    }

    /** What the engine gives for the old block: as much of it as fits, with `garbage` behind. */
    method Reallocate(newCap: nat, garbage: Element) returns (block: array<Element>)
      requires Valid() && data != null
      ensures fresh(block) && block.Length == newCap
      ensures block[..Min(max, newCap)] == data[..Min(max, newCap)]
      ensures forall k | max <= k < newCap :: block[k] == garbage
    {
      block := new Element[newCap](_ => garbage);
      for i := 0 to Min(max, newCap)
        invariant block[..i] == data[..i] && forall k | i <= k < newCap :: block[k] == garbage
        modifies block
      {
        block[i] := data[i];
      }
    }

    /** Changes the capacity.  The block is reallocated, which leaves `garbage` behind the old elements,
        and all of that is zeroed unless the array was empty; a new block is zero to begin with. */
    method Reserve(newCap: nat, allocates: bool, garbage: Element) returns (r: Outcome)
      requires Valid()
      modifies this
      ensures r == if newCap > MAX_CAPACITY then LengthError
                   else if newCap != old(max) && !allocates then AllocationFailed else Ok
      ensures r != Ok ==> data == old(data) && max == old(max)
      ensures r == Ok ==> max == newCap && (data == old(data) || fresh(data))
      ensures r == Ok && newCap >= old(count) ==> Valid()
      ensures r == Ok && newCap >= old(max) ==> Memory() == Extended(old(Memory()), old(data != null), newCap, garbage)
      ensures r == Ok && newCap < old(max) ==> data != null && data[..] == old(Memory())[..newCap]
      ensures r == Ok && old(max > 0 || data == null) ==> forall i | old(max) <= i < newCap :: Memory()[i] == Zero
      ensures count == old(count)
      ensures copied == old(copied) + if r == Ok && newCap != old(max) then Min(old(max), newCap) else 0
    {
      if newCap > MAX_CAPACITY {
        return LengthError;
      }
      if newCap == max {
        return Ok;
      }
      if !allocates {
        return AllocationFailed;
      }
      hide Extended;
      if data == null {
        data := new Element[newCap](_ => Zero);
      } else {
        copied := copied + Min(max, newCap);
        var block := Reallocate(newCap, garbage);
        if 0 < max < newCap {
          ZeroBehind(block, max);
        }
        data := block;
      }
      ghost var m := old(Memory());
      if newCap >= max {
        ExtendedAt(m, old(data != null), newCap, garbage);
        assert data[..] == Extended(m, old(data != null), newCap, garbage);
      }
      max := newCap;
      r := Ok;
    }

    /** Changes the number of elements.  When there is no room and none can be had, nothing changes. */
    method Resize(newSize: nat, allocates: bool, garbage: Element) returns (r: Outcome)
      requires Valid()
      modifies this
      ensures r == if newSize <= old(max) then Ok
                   else if Grown(newSize) > MAX_CAPACITY then LengthError
                   else if !allocates then AllocationFailed else Ok
      ensures Valid()
      ensures r != Ok ==> data == old(data) && count == old(count) && max == old(max)
      ensures r == Ok ==> count == newSize && max == if newSize <= old(max) then old(max) else Grown(newSize)
      ensures r == Ok ==> Memory() == if newSize <= old(max) then old(Memory())
                                      else Extended(old(Memory()), old(data != null), Grown(newSize), garbage)
      ensures r == Ok ==> max >= old(max) && Memory()[..old(max)] == old(Memory())
      ensures r == Ok ==> (if newSize <= old(max) then data == old(data) else fresh(data))
      ensures copied == old(copied) + if r == Ok && newSize > old(max) then old(max) else 0
    {
      if max < newSize {
        var newCap := Grown(newSize);
        r := Reserve(newCap, allocates, garbage);
        if r != Ok {
          return;
        }
      }
      count := newSize;
      r := Ok;
    }

    method Free()
      requires Valid()
      modifies this
      ensures Valid() && data == null && count == max == 0 && copied == old(copied)
    {
      data, count, max := null, 0, 0;
    }
  }

  /** A wrapper around an array; what it destroys is noted. */
  class WrappedArray {
    const base: TArray
    ghost var destroyed: seq<Element>

    constructor (base: TArray)
      ensures this.base == base && destroyed == []
    {
      this.base, destroyed := base, [];
    }

    /** Destroys an element, which leaves zeros. */
    method DestroyAt(i: nat)
      requires base.Valid() && i < base.count
      modifies this, base.data
      ensures destroyed == old(destroyed) + [old(base.Contents()[i])]
      ensures base.Valid() && base.Memory() == old(base.Memory())[i := Zero]
    {
      destroyed := destroyed + [base.data[i]];
      base.data[i] := Zero;
    }

    method Reserve(newCap: nat, allocates: bool, garbage: Element) returns (r: Outcome)
      requires base.Valid()
      modifies base
      ensures base.Valid() && base.count == old(base.count) && base.Contents() == old(base.Contents())
      ensures r == if newCap < old(base.count) then InvalidArgument
                   else if newCap > MAX_CAPACITY then LengthError
                   else if newCap != old(base.max) && !allocates then AllocationFailed else Ok
      ensures base.max == if r == Ok then newCap else old(base.max)
    {
      if newCap < base.count {
        return InvalidArgument;
      }
      r := base.Reserve(newCap, allocates, garbage);
      assert base.Contents() == old(base.Contents());
    }

    /** Destroys the elements from `newSize` on. */
    method DropFrom(newSize: nat)
      requires base.Valid()
      modifies this, base.data
      ensures base.Valid() &&
        base.Memory()[..Min(newSize, base.count)] == old(base.Memory())[..Min(newSize, base.count)]
      ensures newSize >= base.count ==> base.Memory() == old(base.Memory())
      ensures destroyed == old(destroyed) + old(base.Contents())[Min(newSize, base.count)..]
    {
      ghost var memory, kept := base.Memory(), Min(newSize, base.count);
      var i := newSize;
      while i < base.count
        invariant base.Valid() && newSize <= i && (i <= base.count || i == newSize)
        invariant base.Memory()[..kept] == memory[..kept]
        invariant forall k | i <= k < base.max :: base.Memory()[k] == memory[k]
        invariant i == newSize ==> base.Memory() == memory
        invariant destroyed == old(destroyed) + memory[kept..Min(i, base.count)]
        modifies this, base.data
      {
        DestroyAt(i);
        i := i + 1;
      }
    }

    /** Zeroes the elements from `oldSize` on. */
    method ZeroFrom(oldSize: nat)
      requires base.Valid() && oldSize <= base.count
      modifies base.data
      ensures base.Valid() && base.Memory() == Zeroed(old(base.Memory()), oldSize, base.count)
    {
      for i := oldSize to base.count
        invariant base.Valid() && base.Memory() == Zeroed(old(base.Memory()), oldSize, i)
      {
        base.data[i] := Zero;
      }
    }

    /** Changes the size: all or nothing.  Each dropped element is destroyed once, in order, the others
        stay as they are, and new ones are zero. */
    method Resize(newSize: nat, allocates: bool, garbage: Element) returns (r: Outcome)
      requires base.Valid()
      modifies this, base, base.data
      ensures base.Valid()
      ensures r == if newSize <= old(base.max) then Ok
                   else if Grown(newSize) > MAX_CAPACITY then LengthError
                   else if !allocates then AllocationFailed else Ok
      ensures r != Ok ==>
        base.Contents() == old(base.Contents()) && base.max == old(base.max) && destroyed == old(destroyed)
      ensures r == Ok ==> base.Contents() == Resized(old(base.Contents()), newSize)
      ensures r == Ok ==> destroyed == old(destroyed) + old(base.Contents())[Min(newSize, old(base.count))..]
      ensures r == Ok ==> base.max == if newSize <= old(base.max) then old(base.max) else Grown(newSize)
      ensures r == Ok && newSize > old(base.count) ==>
        base.Memory() == Zeroed(
          if newSize <= old(base.max) then old(base.Memory())
          else Extended(old(base.Memory()), old(base.data != null), Grown(newSize), garbage), old(base.count), newSize)
      ensures r == Ok && newSize == old(base.count) ==> base.Memory() == old(base.Memory())
      ensures r != Ok && newSize >= old(base.count) ==> base.Memory() == old(base.Memory())
      ensures if r == Ok && newSize > old(base.max) then fresh(base.data) else base.data == old(base.data)
    {
      hide Grown;
      var oldSize := base.count;
      ghost var h := base.Contents();
      DropFrom(newSize);
      assert base.Contents()[..Min(newSize, oldSize)] == h[..Min(newSize, oldSize)];
      r := base.Resize(newSize, allocates, garbage);
      if r == Ok {
        assert base.Contents()[..Min(newSize, oldSize)] == h[..Min(newSize, oldSize)];
        if newSize > oldSize {
          ZeroFrom(oldSize);
        }
        assert base.Contents() == Resized(h, newSize);
      }
    }
  }

  // ---- growing one at a time ----------------------------------------------------------------

  /** The growth which is due when the array is full makes the room which pays for what it copies. */
  lemma GrowthIsPaid(max: nat, copied: nat)
    requires (max == 0 || max >= MIN_GROW) && 3 * copied <= 8 * max
    ensures MIN_GROW <= Grown(max + 1) && 3 * (copied + max) <= 8 * Grown(max + 1)
  {
  }

  class WrappedMulticastDelegate {
    const base: TArray

    constructor (base: TArray)
      ensures this.base == base
    {
      this.base := base;
    }

    /** What all copying so far cost is paid for by the room there is. */
    ghost predicate Amortised()
      reads base
    {
      (base.max == 0 && base.copied == 0) || (base.max >= MIN_GROW && 3 * base.copied <= 8 * base.max)
    }

    method PushBack(func: Element, validSignature: bool, allocates: bool, garbage: Element) returns (r: Outcome)
      requires base.Valid()
      modifies base, base.data
      ensures base.Valid() && (base.data == old(base.data) || fresh(base.data))
      ensures r == if !validSignature then InvalidArgument
                   else if old(base.count < base.max) then Ok
                   else if Grown(old(base.count) + 1) > MAX_CAPACITY then LengthError
                   else if !allocates then AllocationFailed else Ok
      ensures r != Ok ==> base.Contents() == old(base.Contents()) && base.max == old(base.max)
      ensures r == Ok ==> base.Contents() == old(base.Contents()) + [func]
      ensures r == Ok ==> base.max == if old(base.count < base.max) then old(base.max) else Grown(old(base.count) + 1)
      ensures old(Amortised()) ==> Amortised()
    {
      hide Extended, Grown;
      if !validSignature {
        return InvalidArgument;
      }
      var size := base.count;
      ghost var h := base.Contents();
      assert old(Amortised()) && size == base.max ==>
        3 * (base.copied + size) <= 8 * Grown(size + 1) && Grown(size + 1) >= MIN_GROW by {
        if old(Amortised()) && size == base.max {
          GrowthIsPaid(size, base.copied);
        }
      }
      r := base.Resize(size + 1, allocates, garbage);
      if r == Ok {
        base.data[size] := func;
        assert base.Contents() == h + [func];
      }
    }

    method Clear()
      requires base.Valid()
      modifies base
      ensures base.Valid() && base.Contents() == [] && base.max == 0
    {
      base.Free();
    }

    /** Pushing `n` functions one at a time onto an empty array copies at most 11n/3 + 43 elements. */
    method PushAll(funcs: seq<Element>, garbage: Element)
      requires base.Valid() && base.max == 0 && base.copied == 0 && Grown(|funcs|) <= MAX_CAPACITY
      modifies base, base.data
      ensures base.Valid() && base.Contents() == funcs
      ensures 3 * base.copied <= 11 * |funcs| + 128
    {
      for i := 0 to |funcs|
        invariant base.Valid() && Amortised() && (base.data == old(base.data) || fresh(base.data))
        invariant base.Contents() == funcs[..i] && 8 * base.max <= 11 * i + 128
      {
        var r := PushBack(funcs[i], true, true, garbage);
      }
    }
  }
}

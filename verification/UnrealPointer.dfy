/** The shared pointer to blocks of engine memory, its control blocks, and whole runs of operations. */
module UnrealPointer {
  import opened Ownership

  const MAX_REFS := 0xFFFF_FFFF_FFFF_FFFF
  const CONTROL_SIZE := 24

  /** What a block holds: a struct, or the elements of one property. */
  datatype Metadata = Struct | Property(arrayDim: nat, offsetInternal: int)

  /** What is done when a block is given back. */
  datatype Cleanup = Destroyed(element: int) | Freed

  /** An owned block of memory: where it is, what it holds, and the element whose destructor throws, if
      there is such an element. */
  datatype Block = Block(address: int, metadata: Metadata, throwsAt: int) {
    /** Where the pointer points: the struct is just behind the control block, and so is a property, at its
        own offset from there. */
    function Base(): (base: int)
      ensures (if metadata.Struct? then base else base + metadata.offsetInternal) == address + CONTROL_SIZE
    {
      if metadata.Struct? then address + CONTROL_SIZE else address + CONTROL_SIZE - metadata.offsetInternal
    }

    function Elements(): nat {
      if metadata.Struct? then 1 else metadata.arrayDim
    }

    predicate Throws() {
      0 <= throwsAt < Elements()
    }

    /** Every element once and in order; when one's destructor throws, those up to it. */
    function AllDestroyed(): seq<Cleanup> {
      seq(if Throws() then throwsAt + 1 else Elements(), i => Destroyed(i))
    }

    /** The object is destroyed, and only then the block freed. */
    function CleanedUp(): seq<Cleanup> {
      AllDestroyed() + [Freed]
    }
  }

  /** Giving a block back destroys its elements from the first on, each once, up to one which throws, and
      frees the memory after that in any case. */
  lemma CleanedUpInOrder(block: Block)
    ensures var (c, n) := (block.CleanedUp(), if block.metadata.Struct? then 1 else block.metadata.arrayDim);
      && |c| == (if 0 <= block.throwsAt < n then block.throwsAt + 1 else n) + 1
      && (forall i | 0 <= i < |c| - 1 :: c[i] == Destroyed(i))
      && c[|c| - 1] == Freed
  {
  }

  /** The control block in front of a block.  Ghost: which one it is, and the cleanup done so far. */
  class Control {
    const block: Block
    ghost const id: nat
    var refs: nat
    ghost var cleanups: seq<Cleanup>

    constructor (block: Block, ghost id: nat)
      ensures this.block == block && this.id == id
      ensures refs == 0 && cleanups == []
    {
      this.block, this.id := block, id;
      refs, cleanups := 0, [];
    }

    method IncRef() returns (threw: bool)
      modifies this`refs
      ensures threw <==> old(refs) == MAX_REFS
      ensures refs == if threw then old(refs) else old(refs) + 1
    {
      threw := refs == MAX_REFS;
      if !threw {
        refs := refs + 1;
      }
    }

    method DecRef() returns (threw: bool)
      modifies this`refs
      ensures threw <==> old(refs) == 0
      ensures refs == if threw then 0 else old(refs) - 1
    {
      threw := refs == 0;
      if !threw {
        refs := refs - 1;
      }
    }

    method DestroyObject() returns (threw: bool)
      requires cleanups == []
      modifies this`cleanups
      ensures cleanups == block.AllDestroyed() && threw == block.Throws()
    {
      if block.metadata.Struct? {
        cleanups := [Destroyed(0)];
        return block.throwsAt == 0;
      }
      for i := 0 to block.metadata.arrayDim
        invariant cleanups == seq(i, k => Destroyed(k)) && !(0 <= block.throwsAt < i)
      {
        cleanups := cleanups + [Destroyed(i)];
        if block.throwsAt == i {
          return true;
        }
      }
      return false;
    }

    /** With `n` holders: the count is `n`, and only without any was the object destroyed, once, and
        the block freed, once. */
    ghost predicate Conserved(n: nat)
      reads this
    {
      && refs == n <= MAX_REFS
      && cleanups == if n == 0 then block.CleanedUp() else []
    }
  }

  class Pointer {
    var control: Control?
    var ptr: int

    constructor (control: Control?, ptr: int)
      ensures this.control == control && this.ptr == ptr
    {
      this.control, this.ptr := control, ptr;
    }
  }

  // ---- counting holders ---------------------------------------------------------------------

  /** Which control block each pointer holds. */
  type Owners = map<Pointer, Control?>

  /** `p` is the last holder of an object whose destructor throws. */
  ghost predicate LastThrows(own: Owners, p: Pointer)
    requires p in own
  {
    own[p] != null && Holders(own, own[p]) == {p} && own[p].block.Throws()
  }

  /** There is no more room for a holder of what `p` holds. */
  ghost predicate Full(own: Owners, p: Pointer)
    requires p in own
  {
    own[p] != null && |Holders(own, own[p])| == MAX_REFS
  }

  lemma DroppedNull(own: Owners, p: Pointer)
    ensures own[p := null] - {p} == own - {p}
  {
  }

  lemma Swapped(own: Owners, p: Pointer, t: Pointer, x: Control?)
    requires p in own && t !in own
    ensures own[p := null][t := x][p := x][t := null] - {t} == own[p := x]
  {
  }

  datatype OwnerFault = NoFault | AllocationThrows | SetupThrows

  /** All pointers there are, and all control blocks there ever were. */
  class Program {
    ghost var own: Owners
    ghost var controls: seq<Control>
    /** Memory which was allocated, but is neither freed nor behind a control block. */
    ghost var loose: nat

    constructor ()
      ensures Valid() && own == map[] && controls == []
    {
      own, controls, loose := map[], [], 0;
    }

    /** Every block is counted right, destroyed and freed once when its last holder went and not before. */
    ghost predicate Valid()
      reads this, own.Keys, controls
    {
      && loose == 0
      && (forall i | 0 <= i < |controls| :: controls[i].id == i)
      && (forall p | p in own :: p.control == own[p] && (own[p] != null ==> own[p] in controls))
      && (forall c | c in controls :: c.Conserved(|Holders(own, c)|))
    }

    ghost function Held(p: Pointer): set<Control>
      reads p
    {
      if p.control == null then {} else {p.control}
    }

    /** Gives a reference up, and becomes null.  The count never underflows; the last holder destroys
        the object and frees the block, even when a destructor throws. */
    method Release(p: Pointer) returns (threw: bool)
      requires Valid() && p in own
      modifies this`own, p, Held(p)
      ensures controls == old(controls)
      ensures Valid() && own == old(own)[p := null] && p.ptr == 0
      ensures threw <==> LastThrows(old(own), p)
    {
      var control := p.control;
      p.control, p.ptr := null, 0;
      threw := false;
      forall c | c in controls ensures |Holders(own[p := null], c)| ==
        |Holders(own, c)| - if c == control then 1 else 0 { HoldersAfter(own, p, null, c); }
      if control != null {
        OnlyHolder(own, p, control);
        var underflow := control.DecRef();
        assert !underflow;
        if control.refs == 0 {
          threw := control.DestroyObject();
          control.cleanups := control.cleanups + [Freed];
        }
      }
      own := own[p := null];
    }

    method NewNull() returns (p: Pointer)
      requires Valid()
      modifies this`own
      ensures controls == old(controls)
      ensures Valid() && fresh(p) && p.ptr == 0 && own == old(own)[p := null]
    {
      p := new Pointer(null, 0);
      forall c | c in controls ensures |Holders(own[p := null], c)| == |Holders(own, c)| {
        HoldersAfter(own, p, null, c);
      }
      own := own[p := null];
    }

    /** A pointer to a new block of memory which it owns.  When allocating it or setting it up throws,
        there is no such pointer, and no memory is left behind. */
    method NewOwner(block: Block, fault: OwnerFault) returns (p: Pointer?)
      requires Valid()
      modifies this
      ensures Valid() && (p == null <==> fault != NoFault)
      ensures p == null ==> own == old(own) && controls == old(controls)
      ensures p != null ==> fresh(p) && p.control != null && fresh(p.control) && p.ptr == block.Base()
      ensures p != null ==> p.control.block == block && p.control.id == |old(controls)|
      ensures p != null ==> own == old(own)[p := p.control] && controls == old(controls) + [p.control]
    {
      if fault == AllocationThrows {
        return null;
      }
      loose := loose + 1;
      if fault == SetupThrows {
        loose := loose - 1;
        return null;
      }
      var control := new Control(block, |controls|);
      loose := loose - 1;
      p := new Pointer(control, block.Base());
      var threw := control.IncRef();
      forall c | c in controls + [control] ensures |Holders(own[p := control], c)| ==
        |Holders(own, c)| + if c == control then 1 else 0 { HoldersAfter(own, p, control, c); }
      assert Holders(own, control) == {};
      own, controls := own[p := control], controls + [control];
    }

    /** A pointer anywhere into the memory of another; also copying, with the other's own address.
        Nothing happens when the count is at its limit. */
    method Alias(owner: Pointer, ptr: int) returns (p: Pointer?)
      requires Valid() && owner in own
      modifies this`own, Held(owner)
      ensures controls == old(controls)
      ensures Valid()
      ensures p == null <==> Full(old(own), owner)
      ensures p == null ==> own == old(own)
      ensures p != null ==> fresh(p) && p.ptr == ptr && own == old(own)[p := old(own[owner])]
    {
      var control := owner.control;
      p := new Pointer(control, ptr);
      forall c | c in controls ensures |Holders(own[p := control], c)| ==
        |Holders(own, c)| + if c == control then 1 else 0 { HoldersAfter(own, p, control, c); }
      if control != null {
        OnlyHolder(own, owner, control);
        var threw := control.IncRef();
        if threw {
          return null;
        }
      }
      own := own[p := control];
    }

    method Move(other: Pointer) returns (p: Pointer)
      requires Valid() && other in own
      modifies this`own, other
      ensures controls == old(controls)
      ensures Valid() && fresh(p) && p.ptr == old(other.ptr) && other.ptr == 0
      ensures own == old(own)[p := old(own[other])][other := null]
    {
      hide Holders, Control.Conserved;
      var control := other.control;
      p := new Pointer(control, other.ptr);
      other.control, other.ptr := null, 0;
      forall c | c in controls ensures |Holders(own[p := control][other := null], c)| == |Holders(own, c)| {
        HoldersMoved(own, p, other, c);
      }
      own := own[p := control][other := null];
    }

    /** Assigning from a temporary swaps. */
    method MoveAssign(p: Pointer, other: Pointer)
      requires Valid() && p in own && other in own
      modifies this`own, p, other
      ensures controls == old(controls)
      ensures Valid() && own == old(own)[p := old(own[other])][other := old(own[p])]
      ensures p.ptr == old(other.ptr) && other.ptr == old(p.ptr)
    {
      hide Holders, Control.Conserved;
      var mine, theirs := p.control, other.control;
      p.control, other.control := theirs, mine;
      p.ptr, other.ptr := other.ptr, p.ptr;
      forall c | c in controls ensures |Holders(own[p := theirs][other := mine], c)| == |Holders(own, c)| {
        HoldersSwapped(own, p, other, c);
      }
      own := own[p := theirs][other := mine];
    }

    method Destroy(p: Pointer) returns (threw: bool)
      requires Valid() && p in own
      modifies this`own, p, Held(p)
      ensures controls == old(controls)
      ensures Valid() && own == old(own) - {p}
      ensures threw <==> LastThrows(old(own), p)
    {
      hide Holders, Control.Conserved, Block.Throws;
      threw := Release(p);
      forall c | c in controls ensures |Holders(own - {p}, c)| == |Holders(own, c)| { HoldersWithout(own, p, c); }
      DroppedNull(old(own), p);
      own := own - {p};
    }

    /** Copying gives the own reference up before it takes the other's: a pointer assigned to itself is
        left null, and so is one for which giving up or taking throws. */
    method CopyAssign(p: Pointer, other: Pointer) returns (threw: bool)
      requires Valid() && p in own && other in own
      modifies this`own, p, Held(p), Held(other)
      ensures controls == old(controls)
      ensures Valid()
      ensures threw <==> LastThrows(old(own), p) || Full(old(own)[p := null], other)
      ensures own == old(own)[p := if p == other || threw then null else old(own[other])]
      ensures p.ptr == if p == other || threw then 0 else other.ptr
      ensures forall q | q in own && q != p :: q.ptr == old(q.ptr)
    {
      hide Holders, Control.Conserved, Block.Throws;
      threw := Release(p);
      if threw {
        return;
      }
      var temporary := Alias(other, other.ptr);
      if temporary == null {
        return true;
      }
      Swapped(old(own), p, temporary, own[temporary]);
      MoveAssign(p, temporary);
      var ignored := Destroy(temporary);
    }
  }
}

/** The reference counts of inline structs: property slots, wrappers and the engine's weak pointers. */
module InlineStruct {
  import opened Ownership

  /** What is destroyed: the object, and the controller itself. */
  datatype Cleanup = Object | Controller

  /** The controller of a shared inline struct.  Ghost: what was destroyed so far. */
  class ReferenceController {
    var refCount: int
    var weakRefCount: int
    ghost var cleanups: seq<Cleanup>

    constructor ()
      ensures refCount == 1 && weakRefCount == 1 && cleanups == []
    {
      refCount, weakRefCount, cleanups := 1, 1, [];
    }

    /** With `s` strong and `w` weak holders: all strong holders together count as one more weak one;
        the object goes, once, with the last strong holder, and the controller with the last of all. */
    ghost predicate Conserved(s: nat, w: nat)
      reads this
    {
      && refCount == s
      && weakRefCount == w + (if s > 0 then 1 else 0)
      && cleanups == if s > 0 then [] else if w > 0 then [Object] else [Object, Controller]
    }

    method RemoveWeakRef() returns (gone: bool)
      requires Controller !in cleanups
      modifies this`weakRefCount, this`cleanups
      ensures weakRefCount == old(weakRefCount) - 1 && gone == (weakRefCount <= 0)
      ensures cleanups == old(cleanups) + if gone then [Controller] else []
    {
      weakRefCount := weakRefCount - 1;
      if weakRefCount > 0 {
        return false;
      }
      cleanups := cleanups + [Controller];
      return true;
    }

    /** Gives one strong reference up; true when the controller is gone. */
    method RemoveStrongRef(ghost s: nat, ghost w: nat) returns (gone: bool)
      requires s > 0 && Conserved(s, w)
      modifies this
      ensures Conserved(s - 1, w) && gone == (s == 1 && w == 0)
    {
      refCount := refCount - 1;
      if refCount > 0 {
        return false;
      }
      cleanups := cleanups + [Object];
      gone := RemoveWeakRef();
    }
  }

  /** The inline struct itself: a strong reference in a property slot or in a wrapper. */
  class Reference {
    var hasObj: bool
    var controller: ReferenceController?
    var flags: int

    constructor ()
      ensures !hasObj && controller == null && flags == 0
    {
      hasObj, controller, flags := false, null, 0;
    }
  }

  /** A weak pointer of the engine. */
  class WeakReference {
    var controller: ReferenceController?

    constructor (controller: ReferenceController?)
      ensures this.controller == controller
    {
      this.controller := controller;
    }
  }

  /** What may go wrong when a wrapper is copied. */
  datatype CopyFault = NoFault | AllocationThrows | CopyThrows

  type Owners = map<Reference, ReferenceController?>
  type WeakOwners = map<WeakReference, ReferenceController?>

  /** Every reference there is, strong and weak, and every controller there ever was. */
  class Engine {
    ghost var own: Owners
    ghost var weak: WeakOwners
    ghost var controllers: set<ReferenceController>

    constructor ()
      ensures Valid() && own == map[] && weak == map[] && controllers == {}
    {
      own, weak, controllers := map[], map[], {};
    }

    ghost predicate Valid()
      reads this, own.Keys, weak.Keys, controllers
    {
      && (forall r | r in own :: r.controller == own[r] && (own[r] != null ==> own[r] in controllers && r.hasObj))
      && (forall r | r in weak :: r.controller == weak[r] && (weak[r] != null ==> weak[r] in controllers))
      && (forall c | c in controllers :: c.Conserved(|Holders(own, c)|, |Holders(weak, c)|))
    }

    ghost function Held(r: Reference): set<ReferenceController>
      reads r
    {
      if r.controller == null then {} else {r.controller}
    }

    /** Gives the reference of a slot or wrapper up, and nulls it. */
    method Release(r: Reference)
      requires Valid() && r in own
      modifies this`own, r`hasObj, r`controller, Held(r)
      ensures Valid() && own == old(own)[r := null] && !r.hasObj
    {
      hide Holders;
      var controller := r.controller;
      forall c | c in controllers ensures |Holders(own[r := null], c)| ==
        |Holders(own, c)| - if c == controller then 1 else 0 { HoldersAfter(own, r, null, c); }
      if controller != null {
        OnlyHolder(own, r, controller);
        var gone := controller.RemoveStrongRef(|Holders(own, controller)|, |Holders(weak, controller)|);
      }
      r.hasObj, r.controller := false, null;
      own := own[r := null];
    }

    /** `r`, which was null, takes a reference too. */
    method Share(r: Reference, from: Reference)
      requires Valid() && from in own && from.controller != null && r != from && (r in own ==> own[r] == null)
      modifies this`own, r, from.controller`refCount
      ensures Valid() && own == old(own)[r := from.controller]
      ensures r.hasObj == from.hasObj && r.flags == from.flags
    {
      hide Holders;
      var controller := from.controller;
      OnlyHolder(own, from, controller);
      forall c | c in controllers ensures |Holders(own[r := controller], c)| ==
        |Holders(own, c)| + if c == controller then 1 else 0 { HoldersAfter(own, r, controller, c); }
      controller.refCount := controller.refCount + 1;
      r.hasObj, r.controller, r.flags := from.hasObj, controller, from.flags;
      own := own[r := controller];
    }

    /** A reference to a new controller, whose only reference it is. */
    method NewController(flags: int) returns (r: Reference)
      requires Valid()
      modifies this`own, this`controllers
      ensures Valid() && fresh(r) && r.controller != null && fresh(r.controller)
      ensures own == old(own)[r := r.controller] && controllers == old(controllers) + {r.controller} && r.flags == flags
    {
      var controller := new ReferenceController();
      r := new Reference();
      r.hasObj, r.controller, r.flags := true, controller, flags;
      forall c | c in controllers + {controller} ensures |Holders(own[r := controller], c)| ==
        |Holders(own, c)| + if c == controller then 1 else 0 { HoldersAfter(own, r, controller, c); }
      assert Holders(own, controller) == {} && Holders(weak, controller) == {};
      own, controllers := own[r := controller], controllers + {controller};
    }

    // ---- the property -----------------------------------------------------------------------

    /** A wrapper around what is in a slot, if anything is. */
    method Get(slot: Reference) returns (wrapper: Reference?)
      requires Valid() && slot in own
      modifies this`own, Held(slot)
      ensures Valid()
      ensures wrapper == null <==> old(own[slot]) == null
      ensures wrapper == null ==> own == old(own)
      ensures wrapper != null ==>
        fresh(wrapper) && own == old(own)[wrapper := old(own[slot])] && wrapper.flags == slot.flags
    {
      if !slot.hasObj || slot.controller == null {
        return null;
      }
      wrapper := new Reference();
      Share(wrapper, slot);
    }

    /** Stores a wrapper's struct, or nothing, in a slot.  What the wrapper holds is not destroyed on the
        way, even if the slot gives up the same one. */
    method Set(slot: Reference, value: Reference?, inherits: bool) returns (threw: bool)
      requires Valid() && slot in own && value != slot && (value != null ==> value in own)
      modifies this`own, slot, Held(slot), if value == null then {} else Held(value)
      ensures Valid() && threw == (value != null && !inherits)
      ensures threw ==> own == old(own) && slot.flags == old(slot.flags) && slot.hasObj == old(slot.hasObj)
      ensures !threw ==> own == old(own)[slot := if value == null then null else old(own[value])]
      ensures !threw ==> (slot.hasObj <==> own[slot] != null)
      ensures !threw ==> slot.flags == if value == null || value.controller == null then 0 else value.flags
      ensures value != null && value.controller != null ==>
        value.controller.cleanups == old(value.controller.cleanups) == []
    {
      hide Holders;
      if value != null && value.controller != null {
        OnlyHolder(own, value, value.controller);
      }
      if value != null && !inherits {
        return true;
      }
      threw := false;
      Release(slot);
      slot.flags := 0;
      if value != null && value.controller != null {
        OnlyHolder(own, value, value.controller);
        assert value.controller.cleanups == [];
        Share(slot, value);
      }
    }

    /** A slot or a wrapper is destroyed, before its memory goes. */
    method Destroy(r: Reference)
      requires Valid() && r in own
      modifies this`own, r`hasObj, r`controller, Held(r)
      ensures Valid() && own == old(own) - {r} && r.controller == null && !r.hasObj
    {
      Release(r);
      Forget(r);
    }

    ghost method Forget(r: Reference)
      requires Valid() && r in own && own[r] == null
      modifies this`own
      ensures Valid() && own == old(own) - {r}
    {
      forall c | c in controllers ensures |Holders(own - {r}, c)| == |Holders(own, c)| { HoldersWithout(own, r, c); }
      own := own - {r};
    }

    // ---- the wrapper ------------------------------------------------------------------------

    /** Copying a wrapper allocates a controller of its own.  When copying the struct throws there is no
        wrapper, but the controller was counted already: nothing holds it, and it is never given back. */
    method CopyWrapper(other: Reference, fault: CopyFault) returns (r: Reference?, ghost leaked: ReferenceController?)
      requires Valid() && other in own && other.controller != null
      modifies this`own, this`controllers
      ensures Valid() && (r == null <==> fault != NoFault) && (leaked == null <==> fault != CopyThrows)
      ensures r == null ==> own == old(own) && controllers == old(controllers)
      ensures r != null ==> fresh(r) && r.controller != null && fresh(r.controller)
      ensures r != null ==> own == old(own)[r := r.controller] && controllers == old(controllers) + {r.controller}
      ensures r != null ==> r.flags == other.flags && r.hasObj
      ensures leaked != null ==> fresh(leaked) && leaked !in controllers && leaked.Conserved(1, 0)
    {
      leaked := null;
      if fault == AllocationThrows {
        return null, null;
      }
      if fault == CopyThrows {
        var controller := new ReferenceController();
        return null, controller;
      }
      r := NewController(other.flags);
    }

    method MoveWrapper(other: Reference) returns (r: Reference)
      requires Valid() && other in own
      modifies this`own, other
      ensures Valid() && fresh(r) && own == old(own)[r := old(own[other])][other := null]
      ensures r.flags == old(other.flags) && r.hasObj == old(other.hasObj) && other.flags == 0 && !other.hasObj
    {
      hide Holders, ReferenceController.Conserved;
      r := new Reference();
      r.hasObj, r.controller, r.flags := other.hasObj, other.controller, other.flags;
      other.hasObj, other.controller, other.flags := false, null, 0;
      forall c | c in controllers ensures |Holders(own[r := r.controller][other := null], c)| == |Holders(own, c)| {
        HoldersMoved(own, r, other, c);
      }
      own := own[r := r.controller][other := null];
    }

    method MoveAssignWrapper(r: Reference, other: Reference)
      requires Valid() && r in own && other in own
      modifies this`own, r, other
      ensures Valid() && own == old(own)[r := old(own[other])][other := old(own[r])]
      ensures r.flags == old(other.flags) && other.flags == old(r.flags)
      ensures r.hasObj == old(other.hasObj) && other.hasObj == old(r.hasObj)
    {
      hide Holders, ReferenceController.Conserved;
      var mine, theirs := r.controller, other.controller;
      r.controller, other.controller := theirs, mine;
      r.hasObj, other.hasObj := other.hasObj, r.hasObj;
      r.flags, other.flags := other.flags, r.flags;
      ghost var before, after := own, own[r := theirs][other := mine];
      forall c | c in controllers ensures |Holders(after, c)| == |Holders(before, c)| {
        HoldersSwapped(before, r, other, c);
      }
      own := after;
      forall q | q in own ensures q.controller == own[q] && (own[q] != null ==> own[q] in controllers && q.hasObj) {
        assert q in before;
      }
      assert forall c | c in controllers :: c.Conserved(|Holders(own, c)|, |Holders(weak, c)|);
    }

    // ---- the engine's weak pointers ---------------------------------------------------------

    method NewWeak(from: Reference) returns (w: WeakReference)
      requires Valid() && from in own && from.controller != null
      modifies this`weak, from.controller`weakRefCount
      ensures Valid() && fresh(w) && weak == old(weak)[w := from.controller]
    {
      hide Holders;
      var controller := from.controller;
      OnlyHolder(own, from, controller);
      w := new WeakReference(controller);
      forall c | c in controllers ensures |Holders(weak[w := controller], c)| ==
        |Holders(weak, c)| + if c == controller then 1 else 0 { HoldersAfter(weak, w, controller, c); }
      controller.weakRefCount := controller.weakRefCount + 1;
      weak := weak[w := controller];
    }

    /** The last weak pointer takes the controller with it, when the object is gone already. */
    method DropWeak(w: WeakReference) returns (gone: bool)
      requires Valid() && w in weak && weak[w] != null
      modifies this`weak, w.controller
      ensures Valid() && weak == old(weak) - {w}
      ensures gone <==> |Holders(own, old(weak[w]))| == 0 && |Holders(old(weak), old(weak[w]))| == 1
    {
      hide Holders;
      var controller := w.controller;
      OnlyHolder(weak, w, controller);
      forall c | c in controllers ensures |Holders(weak - {w}, c)| ==
        |Holders(weak, c)| - if c == controller then 1 else 0 { HoldersWithout(weak, w, c); }
      gone := controller.RemoveWeakRef();
      weak := weak - {w};
    }
  }

  /** Once all references are gone, each object was destroyed once, and then its controller. */
  lemma NothingLeaks(engine: Engine)
    requires engine.Valid() && engine.own == map[] && engine.weak == map[]
    ensures forall c | c in engine.controllers :: c.cleanups == [Object, Controller]
  {
  }
}

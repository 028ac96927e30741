/** The hook table: a hash table of intrusive lists, updated in place. */
module HookManager {
  import opened HookOrder
  import opened HookRegistry
  import opened HookWalk
  import opened HookCalls
  import opened FrameArgs

  class HookTable {
    /** Interning a string as a name, which the engine does for us. */
    const internName: string -> FName
    const buckets: array<Node?>
    var shouldInjectNextCall: bool
    ghost var reg: Registry

    ghost const nameOf: string -> FName := func => internName(ObjectName(func))

    ghost predicate Valid()
      reads this, buckets, Known(reg)
    {
      Consistent(reg, nameOf) && Mirrored()
    }

    /** The registry records the pointers as they are. */
    ghost predicate Mirrored()
      reads this, buckets, Known(reg)
    {
      && buckets[..] == reg.buckets && reg.links.Keys == Known(reg)
      && forall n | n in Known(reg) :: n.AllLinks() == reg.links[n]
    }

    constructor (internName: string -> FName)
      ensures Valid() && Known(reg) == {} && Abs(reg) == map[]
      ensures this.internName == internName && fresh(buckets) && !shouldInjectNextCall
    {
      this.internName := internName;
      buckets := new Node?[HASH_TABLE_SIZE](_ => null);
      shouldInjectNextCall := false;
      reg := Registry({}, map[], 0, map[], seq(HASH_TABLE_SIZE, _ => null), map[]);
    }

    /** Walks the list of one layer, from the head of the enclosing group, to the first node which
        matches.  When there is none, `node` is the end of the list. */
    method Seek(level: int, start: Node, fname: FName, key: Key, identifier: string)
      returns (prev: Node?, node: Node, found: bool)
      requires Valid() && 1 <= level <= 4
      requires fname == nameOf(key.fullName)
      requires LayerStart(reg.live, level, start, fname, key)
      ensures node in reg.live
      ensures found && level < 4 ==> LayerStart(reg.live, level + 1, node, fname, key)
      ensures found && level == 4 ==> KeyOf(node) == key && node.identifier == identifier
      ensures found && level == 4 ==> HasIdentifier(Lookup(Abs(reg), key), identifier)
      ensures found ==> Head(reg.live, level, node)
      ensures found && prev == null ==> node == start
      ensures found && prev != null ==> !Head(reg.live, level - 1, node)
      ensures found && prev != null ==> prev in reg.live && prev.Next(level) == node
      ensures !found ==> EndOfLayer(reg, level, node, fname, key, identifier)
      ensures !found ==> !HasIdentifier(Lookup(Abs(reg), key), identifier)
    {
      hide Stamped, GroupsKeyed, KeysDistinct, Listed, IsNext, Frozen, IsFirst, Head, SameGroup, Before, LayerStart,
        NoMatch, NoMatchBefore, EndOfLayer, HasIdentifier, Abs, Lookup, Matches, OnLayer, Rest;
      prev, node := null, start;
      SeekStart(reg.live, level, start, fname, key, identifier);
      while !Matches(level, node, fname, key, identifier)
        invariant node in reg.live && OnLayer(reg.live, level, start, node)
        invariant prev == null <==> node == start
        invariant prev != null ==> prev in reg.live && prev.Next(level) == node
        invariant NoMatchBefore(reg.live, level, start, node, fname, key, identifier)
        decreases Rest(reg.live, node)
      {
        var next := node.Next(level);
        SeekStep(reg, nameOf, level, start, node, next, fname, key, identifier);
        if next == null {
          MissedOnLayer(reg, nameOf, level, start, node, fname, key, identifier);
          return prev, node, false;
        }
        prev, node := node, next;
      }
      FoundOnLayer(reg, nameOf, level, start, node, fname, key, identifier);
      found := true;
    }

    lemma BucketOf(fname: FName, key: Key, identifier: string)
      requires Valid() && fname == nameOf(key.fullName)
      ensures var b := TableIndex(fname);
              && b < buckets.Length
              && (buckets[b] == null ==> EmptyBucket(reg, fname, key, identifier)
                                         && !HasIdentifier(Lookup(Abs(reg), key), identifier))
              && (buckets[b] != null ==> LayerStart(reg.live, 1, buckets[b], fname, key))
    {
    }

    /** Walks down the layers from the entry of a bucket, to a given depth.  `reached` is the layer
        whose list had no match, or one more than the depth.  Along the way, `top` is the innermost
        layer where the node found was not the first, and `before` the node in front of it. */
    method Descend(depth: int, start: Node, fname: FName, key: Key, identifier: string)
      returns (reached: int, node: Node, top: nat, before: Node?)
      requires Valid() && 1 <= depth <= 4 && fname == nameOf(key.fullName)
      requires LayerStart(reg.live, 1, start, fname, key)
      ensures 1 <= reached <= depth + 1 && node in reg.live
      ensures reached <= depth ==> EndOfLayer(reg, reached, node, fname, key, identifier)
      ensures reached <= depth ==> !HasIdentifier(Lookup(Abs(reg), key), identifier)
      ensures reached == depth + 1 <= 4 ==> LayerStart(reg.live, reached, node, fname, key)
      ensures reached == 5 ==> KeyOf(node) == key && node.identifier == identifier
      ensures reached == 5 ==> HasIdentifier(Lookup(Abs(reg), key), identifier)
      ensures reached == depth + 1 ==> PlaceOf(reg, node, top, before)
    {
      hide Consistent, EndOfLayer, Head, PlaceOf, HasIdentifier, Abs, Lookup;
      reached, node, top, before := 1, start, 0, null;
      PlacedBy(reg, node, 0, null);
      while reached <= depth
        invariant 1 <= reached <= depth + 1 && node in reg.live
        invariant reached <= 4 ==> LayerStart(reg.live, reached, node, fname, key)
        invariant reached == 5 ==> KeyOf(node) == key && node.identifier == identifier
        invariant reached == 5 ==> HasIdentifier(Lookup(Abs(reg), key), identifier)
        invariant PlaceOf(reg, node, top, before)
      {
        var prev, next, found := Seek(reached, node, fname, key, identifier);
        if !found {
          return reached, next, top, before;
        }
        if prev != null {
          top, before := reached, prev;
          PlacedBy(reg, next, top, before);
        }
        reached, node := reached + 1, next;
      }
    }

    /** Looks a hook up from its bucket; layer 0 is an empty bucket. */
    method Find(depth: int, fname: FName, key: Key, identifier: string)
      returns (reached: int, node: Node?, top: nat, before: Node?)
      requires Valid() && 1 <= depth <= 4 && fname == nameOf(key.fullName)
      ensures 0 <= reached <= depth + 1
      ensures reached == 0 ==> EmptyBucket(reg, fname, key, identifier)
      ensures reached >= 1 ==> node != null && node in reg.live
      ensures 1 <= reached <= depth ==> EndOfLayer(reg, reached, node, fname, key, identifier)
      ensures reached <= depth ==> !HasIdentifier(Lookup(Abs(reg), key), identifier)
      ensures reached == depth + 1 <= 4 ==> LayerStart(reg.live, reached, node, fname, key)
      ensures reached == 5 ==> KeyOf(node) == key && node.identifier == identifier
      ensures reached == 5 ==> HasIdentifier(Lookup(Abs(reg), key), identifier)
      ensures reached == depth + 1 ==> PlaceOf(reg, node, top, before)
    {
      hide Consistent, EndOfLayer, EmptyBucket, LayerStart, Head, IsTop, HasIdentifier, Abs, Lookup, TableIndex,
        PlaceOf;
      BucketOf(fname, key, identifier);
      node := buckets[TableIndex(fname)];
      if node == null {
        return 0, null, 0, null;
      }
      reached, node, top, before := Descend(depth, node, fname, key, identifier);
    }

    method HasHook(func: string, hookType: HookType, identifier: string) returns (r: bool)
      requires Valid()
      ensures r <==> HasIdentifier(Lookup(Abs(reg), Key(func, hookType)), identifier)
    {
      hide Consistent, EndOfLayer, EmptyBucket, LayerStart, PlaceOf, ObjectName, HasIdentifier, Abs, Lookup;
      var fname, key := internName(ObjectName(func)), Key(func, hookType);
      var reached, _, _, _ := Find(4, fname, key, identifier);
      return reached == 5;
    }

    /** Sets one link, and records it. */
    method Link(level: int, last: Node, x: Node, ghost next: Registry)
      requires Mirrored() && 1 <= level <= 4
      requires last in Known(reg) && x !in Known(reg) && x.AllLinks() == NO_LINKS
      requires Known(next) == Known(reg) + {x} && next.buckets == reg.buckets
      requires next.links == reg.links[last := reg.links[last].Set(level, x)][x := NO_LINKS]
      modifies this`reg, last
      ensures Mirrored() && reg == next
    {
      hide Known, Links.Set, Links.At, Node.AllLinks;
      Relink(last, level, x);
      assert next.links == reg.links[x := NO_LINKS];
      reg := next;
    }

    /** Sets the entry of a bucket, and records it. */
    method LinkBucket(bucket: nat, x: Node, ghost next: Registry)
      requires Mirrored() && bucket < buckets.Length
      requires x !in Known(reg) && x.AllLinks() == NO_LINKS
      requires Known(next) == Known(reg) + {x} && next.buckets == reg.buckets[bucket := x]
      requires next.links == reg.links[x := NO_LINKS]
      modifies this`reg, buckets
      ensures Mirrored() && reg == next
    {
      hide Known;
      buckets[bucket] := x;
      assert buckets[..] == reg.buckets[bucket := x];
      reg := next;
    }

    /** Creates a node in an empty bucket. */
    method Enter(fname: FName, key: Key, identifier: string, callback: nat)
      requires Valid() && fname == nameOf(key.fullName)
      requires EmptyBucket(reg, fname, key, identifier)
      modifies this`reg, buckets
      ensures Valid()
      ensures forall n | n in reg.live && n !in old(reg.live) :: fresh(n)
      ensures AddsEntry(old(reg), reg, key, Entry(identifier, callback))
      ensures Lookup(old(Abs(reg)), key) == []
    {
      hide Consistent, NewNode, EmptyBucket, TableIndex, Abs, Lookup, AddsEntry, Added;
      ghost var stamp := reg.clock;
      var x := new Node(fname, key, identifier, callback, stamp, stamp, stamp, stamp);
      MakesNewNode(reg, nameOf, 0, null, x);
      AddedConsistent(reg, nameOf, 0, null, x);
      LinkBucket(TableIndex(fname), x, Added(reg, 0, null, x));
    }

    /** Creates a node behind the last one of a layer. */
    method Append(level: int, last: Node, fname: FName, key: Key, identifier: string, callback: nat)
      requires Valid() && 1 <= level <= 4 && fname == nameOf(key.fullName)
      requires last in reg.live && EndOfLayer(reg, level, last, fname, key, identifier)
      modifies this`reg, last
      ensures Valid()
      ensures forall n | n in reg.live && n !in old(reg.live) :: fresh(n)
      ensures AddsEntry(old(reg), reg, key, Entry(identifier, callback))
      ensures Lookup(old(Abs(reg)), key) == [] <==> level < 4
    {
      hide Consistent, NewNode, EndOfLayer, Links.Set, Links.At, Abs, Lookup, AddsEntry, Added;
      ghost var stamp := reg.clock;
      var x := new Node(fname, key, identifier, callback,
                        if level >= 2 then last.collisionGroup else stamp,
                        if level >= 3 then last.functionGroup else stamp,
                        if level >= 4 then last.typeGroup else stamp, stamp);
      MakesNewNode(reg, nameOf, level, last, x);
      AddedConsistent(reg, nameOf, level, last, x);
      Link(level, last, x, Added(reg, level, last, x));
    }

    method AddHook(func: string, hookType: HookType, identifier: string, callback: nat) returns (r: bool)
      requires Valid()
      modifies this`reg, buckets, reg.live
      ensures Valid()
      ensures forall n | n in reg.live && n !in old(reg.live) :: fresh(n)
      ensures AddsEntry(old(reg), reg, Key(func, hookType), Entry(identifier, callback))
      ensures r <==> Lookup(old(Abs(reg)), Key(func, hookType)) == []
    {
      hide Consistent, EmptyBucket, EndOfLayer, LayerStart, PlaceOf, ObjectName, Abs, Lookup, HasIdentifier, AddsEntry;
      var fname, key := internName(ObjectName(func)), Key(func, hookType);
      var reached, last, _, _ := Find(4, fname, key, identifier);
      if reached == 5 {
        // We already have this identifier
        AddsNothing(reg, key, Entry(identifier, callback));
        return false;
      }
      if reached == 0 {
        // Nothing in this bucket yet
        Enter(fname, key, identifier, callback);
        return true;
      }
      Append(reached, last, fname, key, identifier, callback);
      // A new entry at the end of an existing collection reports false as well
      return reached < 4;
    }

    /** Sets one link of a node which is already part of the structure. */
    method Relink(n: Node, level: int, t: Node?)
      requires Mirrored() && n in Known(reg) && 1 <= level <= 4
      modifies this`reg, n
      ensures Mirrored()
      ensures reg == old(reg).(links := old(reg.links)[n := old(reg.links)[n].Set(level, t)])
    {
      hide Links.Set, Links.At;
      n.SetNext(level, t);
      reg := reg.(links := reg.links[n := reg.links[n].Set(level, t)]);
    }

    /** The state while `node` is being promoted out of its layers. */
    ghost predicate Promoting(was: Registry, node: Node, level: int)
      reads this, buckets, Known(reg)
    {
      && node.bucket < |was.buckets| && node.bucket == TableIndex(node.fname)
      && Consistent(was, nameOf) && was.links.Keys == Known(was) && node in was.live
      && Mirrored() && reg == was.(links := reg.links)
      && PromotedDownTo(was, node, level, reg.links)
    }

    /** Leads the node in front of `node` past it, which completes the removal. */
    method Bypass(ghost was: Registry, node: Node, top: nat, before: Node)
      requires 1 <= top <= 4 && Promoting(was, node, top) && IsTop(was.live, node, top)
      requires before in was.live && was.links[before].At(top) == node
      modifies this`reg, before
      ensures Valid() && RemovesEntry(was, reg, KeyOf(node), node.identifier)
      ensures HasIdentifier(Lookup(Abs(was), KeyOf(node)), node.identifier)
    {
      hide Consistent, IsTop, PromotedDownTo, Links.Set, Abs, HasIdentifier, Lookup, RemovesEntry;
      ghost var promoted := reg.links;
      Relink(before, top, node.Next(top));
      BypassRemoves(was, nameOf, node, top, before, promoted, reg.buckets, reg.links);
      reg := Removed(was, node, top, reg.buckets, reg.links);
    }

    method BypassBucket(ghost was: Registry, node: Node)
      requires Promoting(was, node, 1) && IsTop(was.live, node, 0)
      modifies this`reg, buckets
      ensures Valid() && RemovesEntry(was, reg, KeyOf(node), node.identifier)
      ensures HasIdentifier(Lookup(Abs(was), KeyOf(node)), node.identifier)
    {
      hide Consistent, IsTop, PromotedDownTo, Abs, HasIdentifier, Lookup, RemovesEntry;
      buckets[TableIndex(node.fname)] := node.nextCollision;
      assert buckets[..] == was.buckets[node.bucket := reg.links[node].At(1)];
      BypassRemoves(was, nameOf, node, 0, null, reg.links, buckets[..], reg.links);
      reg := Removed(was, node, 0, buckets[..], reg.links);
    }

    /** Promotes the node which follows `node` on the layer below to head of this layer. */
    method Promote(ghost was: Registry, node: Node, ghost top: nat, level: int)
      requires Promoting(was, node, level + 1) && IsTop(was.live, node, top) && 1 <= level <= 3 && top <= level
      modifies this`reg, was.live
      ensures Promoting(was, node, level)
    {
      hide Consistent, IsTop, PromotedDownTo, Links.Set, Links.At;
      PromotionReady(was, nameOf, node, top, level, reg.links);
      var heir := node.Next(level + 1);
      if heir != null {
        Relink(heir, level, node.Next(level));
        Relink(node, level, heir);
      }
    }

    /** Takes a node out of every list it is on. */
    method Unhook(node: Node, top: nat, before: Node?)
      requires Valid() && node in reg.live && PlaceOf(reg, node, top, before)
      modifies this`reg, buckets, reg.live
      ensures Valid() && RemovesEntry(old(reg), reg, KeyOf(node), node.identifier)
      ensures HasIdentifier(Lookup(old(Abs(reg)), KeyOf(node)), node.identifier)
    {
      hide Consistent, IsTop, Abs, Lookup, HasIdentifier, RemovesEntry, TableIndex, PromotedDownTo;
      ghost var was := reg;
      PromotionReadies(node);

      // If we are not the head of a layer, leading our predecessor past us is all there is to do;
      // otherwise the node after us becomes the head of that layer, and we move a layer up
      if top == 4 {
        Bypass(was, node, 4, before);
        return;
      }
      Promote(was, node, top, 3);
      if top == 3 {
        Bypass(was, node, 3, before);
        return;
      }
      Promote(was, node, top, 2);
      if top == 2 {
        Bypass(was, node, 2, before);
        return;
      }
      Promote(was, node, top, 1);
      if top == 1 {
        Bypass(was, node, 1, before);
        return;
      }
      BypassBucket(was, node);
    }

    method RemoveHook(func: string, hookType: HookType, identifier: string) returns (r: bool)
      requires Valid()
      modifies this`reg, buckets, reg.live
      ensures Valid() && RemovesEntry(old(reg), reg, Key(func, hookType), identifier)
      ensures r <==> HasIdentifier(Lookup(old(Abs(reg)), Key(func, hookType)), identifier)
    {
      hide Consistent, EmptyBucket, EndOfLayer, LayerStart, PlaceOf, ObjectName, Abs, Lookup, HasIdentifier,
        RemovesEntry;
      var fname, key := internName(ObjectName(func)), Key(func, hookType);
      var reached, node, top, before := Find(4, fname, key, identifier);
      if reached < 5 {
        RemovesNothing(reg, key, identifier);
        return false;
      }
      Unhook(node, top, before);
      return true;
    }

    lemma PromotionReadies(node: Node)
      requires Valid() && node in reg.live
      ensures Promoting(reg, node, 4)
    {
      PromotionStarts(reg, node);
    }

    /** The head of the list of types of a function, or null when it is not hooked. */
    method PreprocessHook(initialized: bool, fname: FName, fullName: string) returns (r: Node?)
      requires Valid() && fname == nameOf(fullName)
      modifies this`shouldInjectNextCall
      ensures shouldInjectNextCall == (old(shouldInjectNextCall) && !initialized)
      ensures r == null <==>
        || !initialized || old(shouldInjectNextCall)
        || (forall x | x in reg.live :: x.fullName != fullName)
      ensures r != null ==> r in reg.live && r.fullName == fullName && Head(reg.live, 2, r)
      ensures Valid()
    {
      hide Consistent, PlaceOf, HasIdentifier, Abs, Lookup, TableIndex, Head;
      if !initialized {
        return null;
      }
      if shouldInjectNextCall {
        shouldInjectNextCall := false;
        return null;
      }
      var reached, node, _, _ := Find(2, fname, Key(fullName, Pre), []);
      if reached < 3 {
        return null;
      }
      return node;
    }

    method HasPostHooks(handle: Node) returns (r: bool)
      requires Valid() && EverHead(reg, 2, handle)
      ensures r ==> exists n | n in Known(reg) :: n.fullName == handle.fullName && n.hookType != Pre
      ensures !r ==> NoPostHooks(reg, handle)
      ensures Valid()
    {
      hide Consistent, TypeAhead, CoLived, EverHead, Before;
      HandleReady(handle);
      var node: Node? := handle;
      while node != null
        invariant node != null ==> node in Known(reg) && node.fullName == handle.fullName
        invariant forall x | x in reg.live ::
          CoLived(reg, handle, x) && x.fullName == handle.fullName && x.hookType != Pre ==>
                    node != null && TypeAhead(reg, node, x)
        decreases if node == null then {} else Rest(Known(reg), node) + {node}
      {
        if node.hookType == Post || node.hookType == PostUnconditional {
          return true;
        }
        TypeStepAll(node);
        node := node.nextType;
      }
      return false;
    }

    lemma HandleReady(handle: Node)
      requires Valid() && EverHead(reg, 2, handle)
      ensures handle in Known(reg)
      ensures forall x | x in reg.live :: CoLived(reg, handle, x) && x.fullName == handle.fullName ==>
        TypeAhead(reg, handle, x)
    {
      forall x | x in reg.live && CoLived(reg, handle, x) && x.fullName == handle.fullName
        ensures TypeAhead(reg, handle, x)
      {
        HandleStartsBefore(reg, nameOf, handle, x);
      }
    }

    lemma TypeStepAll(node: Node)
      requires Valid() && node in Known(reg)
      ensures var t := node.nextType;
        && (t != null ==> t in Known(reg) && t.fullName == node.fullName
                          && Rest(Known(reg), t) + {t} < Rest(Known(reg), node) + {node})
        && forall x | x in reg.live :: TypeAhead(reg, node, x) && x.hookType != node.hookType ==>
             t != null && TypeAhead(reg, t, x)
    {
      var t := node.nextType;
      assert t == reg.links[node].At(3);
      LinksLeadForwards(reg, nameOf, node, 3);
      forall x | x in reg.live && TypeAhead(reg, node, x) && x.hookType != node.hookType
        ensures t != null && TypeAhead(reg, t, x)
      {
        TypeStep(reg, nameOf, node, x);
      }
      if t != null {
        RestShrinks(Known(reg), node, t);
      }
    }

    /** Moves along the list of types of a handle to the hooks of one type. */
    method SeekType(handle: Node, hookType: HookType) returns (node: Node?)
      requires Valid() && EverHead(reg, 2, handle)
      ensures var key := Key(handle.fullName, hookType);
        if node == null then Ran(reg, reg, handle, key, [])
        else node in Known(reg) && NothingMissed(reg, reg, handle, key, node, []) && InOrder(reg, key, node, [])
    {
      hide Consistent, TypeAhead, CoLived, EverHead, Before, Rest;
      HandleReady(handle);
      node := handle;
      while node.hookType != hookType
        invariant node != null && node in Known(reg) && node.fullName == handle.fullName
        invariant forall x | x in reg.live ::
          CoLived(reg, handle, x) && x.fullName == handle.fullName && x.hookType == hookType ==>
                    TypeAhead(reg, node, x)
        decreases Rest(Known(reg), node) + {node}
      {
        TypeStepAll(node);
        if node.nextType == null {
          // No hooks of this type
          return null;
        }
        node := node.nextType;
      }
      WalkStarts(reg, nameOf, handle, Key(handle.fullName, hookType), node);
    }

    /** Calls the callbacks of all hooks of one type, starting from a handle. */
    method RunHooksOfType(handle: Node, hookType: HookType, steps: seq<Step>, details: Details)
      returns (block: bool, ghost called: seq<Node>, ghost walk: seq<seq<Registry>>)
      requires Valid() && EverHead(reg, 2, handle)
      modifies this, buckets, reg.live, details
      ensures Valid() && Changed(old(reg), reg, AddsInSteps(Taken(steps, |called|)))
      ensures forall n | n in reg.live && n !in old(reg.live) :: fresh(n)
      ensures Ran(old(reg), reg, handle, Key(handle.fullName, hookType), called)
      ensures block <==> Blocks(Taken(steps, |called|), details.hasReturn)
      ensures details.ret == WriteReturns(Taken(steps, |called|), details.hasReturn, old(details.ret))
      ensures details.events == old(details.events) + Hooks(called, steps, details.hasReturn, old(details.ret))
      ensures RanAll(old(reg), reg, called, walk, steps, nameOf)
      ensures Started(old(reg), handle, Key(handle.fullName, hookType), if called == [] then null else called[0])
      ensures AllFlat(steps) ==>
        (shouldInjectNextCall <==> old(shouldInjectNextCall) || AsksIn(steps, |called|))
      decreases steps, 1
    {
      hide AsksIn, OpsAt, AllFlat, Consistent, Blocks, WriteReturns, Taken, EverHead, Rest, NothingMissed, InOrder,
        Changed, Walking, Reported, Hooks, RanAll, AddsInSteps, Started;
      var node := SeekType(handle, hookType);
      ghost var ret, events, w :=
        details.ret, details.events, Walk(reg, handle, Key(handle.fullName, hookType), [], []);
      block := false;
      WalkingStarts(reg, handle, Key(handle.fullName, hookType), node, steps, nameOf);
      ReportedNothing(steps, details.hasReturn, ret, events);
      AsksNext(steps, 0);
      var k := 0;
      while node != null
        invariant Valid() && (node != null ==> node in Known(reg))
        invariant k == |w.called| && w.start == old(reg) && w.handle == handle &&
          w.key == Key(handle.fullName, hookType)
        invariant Walking(w, steps, reg, node, nameOf)
        invariant Reported(w.called, steps, details.hasReturn, ret, events, block, details.ret, details.events)
        invariant forall n | n in reg.live && n !in old(reg.live) :: fresh(n)
        invariant AllFlat(steps) ==> (shouldInjectNextCall <==> old(shouldInjectNextCall) || AsksIn(steps, k))
        decreases if k < |steps| then |steps| - k else 0, if node == null then {} else Rest(Known(reg), node) + {node}
      {
        ReportedOn(w.called, node, steps, details.hasReturn, ret, events, block, details.ret, details.events);
        AsksNext(steps, k);
        var b, next, states := Visit(node, steps, k, details, w);
        w := w.(called := w.called + [node], states := w.states + [states]);
        block, k, node := block || b, k + 1, next;
      }
      WalkingEnds(w, steps, reg, nameOf);
      called, walk := w.called, w.states;
      assert Reported(called, steps, details.hasReturn, ret, events, block, details.ret, details.events);
      ReportedMeans(called, steps, details.hasReturn, ret, events, block, details.ret, details.events);
    }

    /** Calls the callback of the hook stood on, and moves to the next one. */
    method Visit(node: Node, steps: seq<Step>, k: nat, details: Details, ghost w: Walk)
      returns (block: bool, next: Node?, ghost states: seq<Registry>)
      requires Valid() && k == |w.called| && Walking(w, steps, reg, node, nameOf) && node in Known(reg)
      modifies this, buckets, reg.live, details
      ensures Valid() && forall n | n in reg.live && n !in old(reg.live) :: fresh(n)
      ensures Walking(w.(called := w.called + [node], states := w.states + [states]), steps, reg, next, nameOf)
      ensures block == BlocksAt(steps, k, details.hasReturn)
      ensures details.ret == WriteAt(steps, k, details.hasReturn, old(details.ret))
      ensures details.events == old(details.events) + [Hook(node, old(details.ret))]
      ensures next != null ==> next in Known(reg)
      ensures AllFlat(steps) ==>
        (shouldInjectNextCall <==> old(shouldInjectNextCall) || InjectNext in OpsAt(steps, k))
      ensures k >= |steps| && next != null ==> Rest(Known(reg), next) + {next} < Rest(old(Known(reg)), node) + {node}
      decreases steps, 0
    {
      hide Consistent, StepBlocks, WriteReturn, AddsInOps, Walking, Changed, Rest, DoesAll;
      ghost var before := reg;
      block := false;
      details.events := details.events + [Hook(node, details.ret)];
      states := [reg];
      if k < |steps| {
        block, states := CallBack(steps[k], details);
      } else {
        Unchanged(reg);
        DoesNothing(reg, nameOf);
        assert AddsInOps([]) == 0 by { NothingAdded(); }
      }
      WalkingOn(w, steps, before, reg, node, states, nameOf);
      next := node.nextInCollection;
    }

    /** One call of a callback. */
    method CallBack(step: Step, details: Details) returns (block: bool, ghost states: seq<Registry>)
      requires Valid()
      modifies this, buckets, reg.live, details
      ensures Valid() && Changed(old(reg), reg, AddsInOps(step.ops))
      ensures forall n | n in reg.live && n !in old(reg.live) :: fresh(n)
      ensures block == StepBlocks(step, details.hasReturn)
      ensures details.ret == WriteReturn(step, details.hasReturn, old(details.ret))
      ensures details.events == old(details.events)
      ensures DoesAll(states, step.ops, nameOf) && states[0] == old(reg) && Last(states) == reg
      ensures Flat(step.ops) ==>
        (shouldInjectNextCall <==> old(shouldInjectNextCall) || InjectNext in step.ops)
      decreases step, 1
    {
      hide Consistent, Changed, AddsInOps;
      states := Perform(step.ops);
      details.ret := WriteReturn(step, details.hasReturn, details.ret);
      block := !StepThrows(step, details.hasReturn) && step.outcome.block;
    }

    /** The hooked function itself, and what it returns. */
    method CallOriginal(call: Call, details: Details) returns (value: int)
      requires Valid()
      modifies this, buckets, reg.live, details
      ensures Valid() && Changed(old(reg), reg, AddsInOps(call.original))
      ensures forall n | n in reg.live && n !in old(reg.live) :: fresh(n)
      ensures value == call.value && details.ret == old(details.ret)
      ensures call.original == [] ==> reg == old(reg)
      ensures Flat(call.original) ==>
        (shouldInjectNextCall <==> old(shouldInjectNextCall) || InjectNext in call.original)
      ensures details.events == old(details.events) + [Original]
      decreases call, 0
    {
      hide Consistent, Changed, AddsInOps;
      details.events := details.events + [Original];
      ghost var _ := Perform(call.original);
      value := call.value;
    }

    /** What a callback or a hooked function does to the hooks. */
    method Perform(ops: seq<Op>) returns (ghost states: seq<Registry>)
      requires Valid()
      modifies this, buckets, reg.live
      ensures Valid() && Changed(old(reg), reg, AddsInOps(ops))
      ensures forall n | n in reg.live && n !in old(reg.live) :: fresh(n)
      ensures DoesAll(states, ops, nameOf) && states[0] == old(reg) && Last(states) == reg
      ensures Flat(ops) ==> Abs(reg) == ApplyOps(old(Abs(reg)), ops)
      ensures ops == [] ==> reg == old(reg)
      ensures Flat(ops) ==> (shouldInjectNextCall <==> old(shouldInjectNextCall) || InjectNext in ops)
      decreases ops, 1
    {
      hide Consistent, Mirrored, Changed, Abs, Does, DoesAll;
      if ops == [] {
        Unchanged(reg);
        DoesNothing(reg, nameOf);
        return [reg];
      }
      ghost var start := reg;
      PerformOp(ops[0]);
      ghost var middle := reg;
      ghost var rest := Perform(ops[1..]);
      states := [start] + rest;
      DoesFirst(start, ops[0], rest, ops[1..], nameOf);
      assert [ops[0]] + ops[1..] == ops;
      ChangedTransitive(start, middle, reg, AddsInOp(ops[0]), AddsInOps(ops[1..]));
    }

    method PerformOp(op: Op)
      requires Valid()
      modifies this, buckets, reg.live
      ensures Valid() && Changed(old(reg), reg, AddsInOp(op))
      ensures forall n | n in reg.live && n !in old(reg.live) :: fresh(n)
      ensures !op.Invoke? ==> Abs(reg) == ApplyOp(old(Abs(reg)), op)
      ensures Does(old(reg), op, reg)
      ensures !op.Invoke? ==> shouldInjectNextCall == (op.InjectNext? || old(shouldInjectNextCall))
      ensures op.Invoke? && IdleCall(op.call) ==>
        shouldInjectNextCall == (old(shouldInjectNextCall) && !op.call.initialized)
      decreases op, 1
    {
      hide Consistent, Changed, Abs, AddsEntry, AddEntry, RemovesEntry, RemoveEntry, AddsInCall;
      ghost var start := reg;
      match op {
        case Add(func, hookType, identifier, callback) =>
          var _ := AddHook(func, hookType, identifier, callback);
          ChangedByAdding(start, reg, Key(func, hookType), Entry(identifier, callback));
        case Remove(func, hookType, identifier) =>
          var _ := RemoveHook(func, hookType, identifier);
          ChangedByRemoving(start, reg, Key(func, hookType), identifier);
        case Has(func, hookType, identifier) =>
          var _ := HasHook(func, hookType, identifier);
          Unchanged(reg);
        case InjectNext =>
          shouldInjectNextCall := true;
          Unchanged(reg);
        case Invoke(call) =>
          var _, _, _, _ := Dispatch(call, 0, null, 0);
      }
    }

    /** Where the arguments are read from; nothing, when called through `ProcessEvent`. */
    method ReadArgs(call: Call, frame: FFrame?, ghost n: nat) returns (originalCode: nat)
      requires Valid() && CanCall(call, frame, n)
      modifies frame
      ensures Valid()
      ensures frame != null ==> originalCode == old(frame.pos) && frame.pos == frame.Position(old(frame.pos), n)
    {
      hide Consistent, Arguments;
      originalCode := 0;
      if frame != null {
        var code, _ := frame.ExtractCurrentArgs(call.props, n);
        originalCode := code;
      }
    }

    /** Steps over the end token when blocked, else leaves the arguments to the function. */
    method PassArgs(block: bool, originalCode: nat, frame: FFrame?, ghost n: nat)
      requires Valid() &&
        (frame != null ==> frame.Encodes(originalCode, n) && frame.pos == frame.Position(originalCode, n))
      modifies frame
      ensures Valid()
      ensures frame != null ==> frame.pos == frame.Position(originalCode, n) + 1
    {
      hide Consistent;
      if frame != null {
        if block {
          frame.pos := frame.pos + 1;
        } else {
          frame.pos := originalCode;
          frame.ConsumeArgs(n);
        }
      }
    }

    /** The function reads its arguments itself. */
    method LeaveArgs(call: Call, frame: FFrame?, ghost n: nat)
      requires Valid() && CanCall(call, frame, n)
      modifies frame
      ensures Valid()
      ensures frame != null ==> frame.pos == frame.Position(old(frame.pos), n) + 1
    {
      hide Consistent, Arguments;
      if frame != null {
        frame.ConsumeArgs(n);
      }
    }

    /** Pre-hooks, then the function unless one of them blocked it. */
    method RunPre(handle: Node, call: Call, params: int, details: Details, frame: FFrame?, ghost n: nat)
      returns (slot: int, block: bool, ghost pre: seq<Node>)
      requires CanCall(call, frame, n)
      requires Valid() && handle in reg.live && Head(reg.live, 2, handle) && handle.fullName == call.fullName
      modifies this, buckets, reg.live, details, frame
      ensures Valid() && Changed(old(reg), reg, AddsBefore(call))
      ensures forall n | n in reg.live && n !in old(reg.live) :: fresh(n)
      ensures block == Blocks(Taken(call.pre, |pre|), details.hasReturn)
      ensures details.ret == WriteReturns(Taken(call.pre, |pre|), details.hasReturn, old(details.ret))
      ensures slot == if block then params else call.value
      ensures details.events == old(details.events) + Hooks(pre, call.pre, details.hasReturn, old(details.ret))
                                + if block then [] else [Original]
      ensures Phase(old(reg), reg, Key(call.fullName, Pre), pre, true)
      ensures AllIdle(call.pre) && call.original == [] ==> reg == old(reg)
      ensures FlatCall(call) ==>
        (shouldInjectNextCall <==>
          old(shouldInjectNextCall) || AsksIn(call.pre, |pre|) || (!block && InjectNext in call.original))
      ensures frame != null ==> frame.pos == frame.Position(old(frame.pos), n) + 1
      decreases call, 1
    {
      hide Consistent, Mirrored, Changed, Phase, Blocks, WriteReturns, Taken, AddsInSteps, AddsInOps, AddsBefore,
        EverHead, Head, Ran, RanAll, Started, AllIdle, Hooks, AsksIn;
      ghost var start := reg;
      var originalCode := ReadArgs(call, frame, n);
      Unchanged(start);
      HandleSurvives(start, start, nameOf, handle, 0);
      ghost var walk;
      block, pre, walk := RunHooksOfType(handle, Pre, call.pre, details);
      RanPhase(start, start, reg, nameOf, handle, Pre, pre, walk, 0, call.pre);
      PassArgs(block, originalCode, frame, n);
      slot := params;
      ghost var middle := reg;
      if !block {
        slot := CallOriginal(call, details);
      } else {
        Unchanged(reg);
        ChangedWeakens(middle, reg, 0, AddsInOps(call.original));
      }
      PreEnds(start, middle, reg, nameOf, call, pre);
    }

    /** The two kinds of post-hook, from a handle taken before anything ran. */
    method RunPostHooks(ghost start: Registry, ghost adds: nat, handle: Node, call: Call, block: bool, details: Details)
      returns (ghost post: seq<Node>, ghost unconditional: seq<Node>)
      requires Valid() && Consistent(start, nameOf) && Changed(start, reg, adds)
      requires handle in start.live && Head(start.live, 2, handle) && handle.fullName == call.fullName
      requires details.hasReturn == call.hasReturn
      modifies this, buckets, reg.live, details
      ensures Valid() && Changed(old(reg), reg, AddsAfter(call))
      ensures forall n | n in reg.live && n !in old(reg.live) :: fresh(n)
      ensures block ==> post == []
      ensures details.events == old(details.events) + PostTrace(call, post, unconditional, old(details.ret))
      ensures Phase(start, reg, Key(call.fullName, Post), post, !block)
      ensures Phase(start, reg, Key(call.fullName, PostUnconditional), unconditional, true)
      ensures AllIdle(call.post) && AllIdle(call.postUnconditional) ==> reg == old(reg)
      ensures FlatCall(call) ==>
        (shouldInjectNextCall <==>
          old(shouldInjectNextCall) || AsksIn(call.post, |post|) || AsksIn(call.postUnconditional, |unconditional|))
      decreases call, 0
    {
      hide Consistent, Changed, Phase, AddsInSteps, EverHead, Head, Ran, RanAll, Started, AllIdle, Mirrored, Blocks,
        WriteReturns, Taken, Hooks, AsksIn;
      AsksNext(call.post, 0);
      ghost var begin := reg;
      HandleSurvives(start, begin, nameOf, handle, adds);
      HooksNext([], handle, call.post, call.hasReturn, details.ret);
      TakenNone(call.post, call.hasReturn, details.ret);
      post := [];
      Unchanged(reg);
      if !block {
        var _, called, walk := RunHooksOfType(handle, Post, call.post, details);
        RanPhase(start, begin, reg, nameOf, handle, Post, called, walk, adds, call.post);
        post := called;
      } else {
        PhaseNotRun(start, reg, Key(call.fullName, Post));
        ChangedWeakens(begin, reg, 0, AddsInSteps(call.post));
        ChangedWeakens(start, reg, adds, adds + AddsInSteps(call.post));
      }
      ghost var middle := reg;
      HandleSurvives(start, middle, nameOf, handle, adds + AddsInSteps(call.post));
      var _, called, walk := RunHooksOfType(handle, PostUnconditional, call.postUnconditional, details);
      RanPhase(start, middle, reg, nameOf, handle, PostUnconditional, called, walk, adds + AddsInSteps(call.post),
               call.postUnconditional);
      unconditional := called;
      ChangedTransitive(begin, middle, reg, AddsInSteps(call.post), AddsInSteps(call.postUnconditional));
      PhaseLater(start, middle, reg, nameOf, Key(call.fullName, Post), post, !block, adds + AddsInSteps(call.post),
                 AddsInSteps(call.postUnconditional));
    }

    /** The rest of the try block: post-hooks, from a handle taken before anything ran. */
    method RunPost(ghost start: Registry, ghost adds: nat, handle: Node, call: Call, block: bool, slot: int,
                   details: Details, ghost d0: Dispatched)
      returns (threw: bool, ghost d: Dispatched)
      requires Valid() && Consistent(start, nameOf) && Changed(start, reg, adds)
      requires handle in start.live && Head(start.live, 2, handle) && handle.fullName == call.fullName
      requires d0 == Dispatched(block, false, false, d0.pre, [], [])
      requires details.hasReturn == call.hasReturn && details.ret == PreReturn(call, d0)
      requires details.ret.None? && !block ==> slot == call.value
      modifies this, buckets, reg.live, details
      ensures Valid() && Changed(old(reg), reg, AddsAfter(call))
      ensures forall n | n in reg.live && n !in old(reg.live) :: fresh(n)
      ensures d == Dispatched(block, threw, d.hasPost, d0.pre, d.post, d.unconditional)
      ensures d.threw <==>
        call.fault == InCopyFrom && d.hasPost && call.hasReturn && PreReturn(call, d0).None? && !block
      ensures d.threw || block ==> d.post == []
      ensures d.threw ==> d.unconditional == []
      ensures details.events == old(details.events) + PostTrace(call, d.post, d.unconditional, PostReturn(call, d0))
      ensures Phase(start, reg, Key(call.fullName, Post), d.post, !d.threw && !block)
      ensures Phase(start, reg, Key(call.fullName, PostUnconditional), d.unconditional, !d.threw)
      ensures PostsFound(start, reg, call.fullName, d.hasPost)
      ensures AllIdle(call.post) && AllIdle(call.postUnconditional) ==> reg == old(reg)
      ensures FlatCall(call) ==>
        (shouldInjectNextCall <==>
          || old(shouldInjectNextCall)
          || AsksIn(call.post, |d.post|) || AsksIn(call.postUnconditional, |d.unconditional|))
      decreases call, 1
    {
      hide Consistent, Mirrored, Changed, Phase, NoPostHooks, PreReturn, AddsInSteps, EverHead, Head, PostTrace, AsksIn;
      AsksNext(call.post, 0);
      AsksNext(call.postUnconditional, 0);
      ghost var begin := reg;
      Unchanged(reg);
      ChangedWeakens(begin, reg, 0, AddsAfter(call));
      threw, d := false, d0;
      NoPostTrace(call, PostReturn(call, d0));
      HandleSurvives(start, reg, nameOf, handle, adds);
      var any := HasPostHooks(handle);
      PostsLookedFor(start, reg, nameOf, handle, any, adds);
      d := d.(hasPost := any);
      if !any {
        NoneToCall(start, reg, nameOf, handle, Post, adds);
        NoneToCall(start, reg, nameOf, handle, PostUnconditional, adds);
        if block { PhaseNotRun(start, reg, Key(call.fullName, Post)); }
        return;
      }
      if call.hasReturn && details.ret.None? && !block {
        if call.fault == InCopyFrom {
          threw, d := true, d.(threw := true);
          PhaseNotRun(start, reg, Key(call.fullName, Post));
          PhaseNotRun(start, reg, Key(call.fullName, PostUnconditional));
          return;
        }
        details.ret := Some(slot);
      }
      ghost var post, unconditional := RunPostHooks(start, adds, handle, call, block, details);
      PostsFoundLater(start, begin, reg, nameOf, call.fullName, any, adds, AddsAfter(call));
      d := d.(post := post, unconditional := unconditional);
    }

    /** From the return value overwrite on. */
    method RunRest(ghost start: Registry, handle: Node, call: Call, block: bool, params: int, slot0: int,
                   details: Details, ghost d0: Dispatched)
      returns (slot: int, threw: bool, ghost d: Dispatched)
      requires Valid() && Consistent(start, nameOf) && Changed(start, reg, AddsBefore(call))
      requires handle in start.live && Head(start.live, 2, handle) && handle.fullName == call.fullName
      requires d0 == Dispatched(block, false, false, d0.pre, [], []) && details.events == PreTrace(call, d0)
      requires details.hasReturn == call.hasReturn && details.ret == PreReturn(call, d0)
      requires call.fault != InArgs && (call.fault == InOriginal ==> block)
      requires block == Blocks(Taken(call.pre, |d0.pre|), call.hasReturn) &&
        slot0 == if block then params else call.value
      requires Phase(start, reg, Key(call.fullName, Pre), d0.pre, true)
      modifies this, buckets, reg.live, details
      ensures Valid() && Changed(start, reg, AddsInTry(call))
      ensures forall n | n in reg.live && n !in old(reg.live) :: fresh(n)
      ensures Behaved(call, d) && details.events == TraceOf(call, d) && threw == d.threw
      ensures !d.threw ==> slot == SlotAfter(call, d, params)
      ensures PhasesOf(start, reg, call, d)
      ensures IdleCall(call) ==> reg == old(reg)
      ensures FlatCall(call) ==>
        (shouldInjectNextCall <==>
          || old(shouldInjectNextCall)
          || AsksIn(call.post, |d.post|) || AsksIn(call.postUnconditional, |d.unconditional|))
      ensures d.pre == d0.pre && d.blocked == block
      decreases call, 2
    {
      hide Consistent, Mirrored, Changed, Phase, AddsBefore, AddsAfter, AddsInTry, Head, Hooks, Blocks, WriteReturns,
        Taken, AsksIn, FlatCall;
      AsksNext(call.post, 0);
      AsksNext(call.postUnconditional, 0);
      slot, threw, d := slot0, true, d0.(threw := true);
      ghost var middle := reg;
      if details.ret.Some? {
        if call.fault == InCopyTo {
          NoPhases(start, reg, call.fullName);
          TryCutShort(start, reg, call);
          TraceShort(call, d);
          return;
        }
        slot := details.ret.value;
      }
      threw, d := RunPost(start, AddsBefore(call), handle, call, block, slot, details, d0);
      TryEnds(start, middle, reg, call);
      PhaseLater(start, middle, reg, nameOf, Key(call.fullName, Pre), d0.pre, true, AddsBefore(call), AddsAfter(call));
    }

    method MakeDetails(hasReturn: bool) returns (details: Details)
      requires Valid()
      ensures Valid() && fresh(details) && details.hasReturn == hasReturn && details.ret == None && details.events == []
    {
      hide Consistent;
      details := new Details(hasReturn);
    }

    /** The try block, from the handle on. */
    method RunHooks(handle: Node, call: Call, params: int, frame: FFrame?, ghost n: nat)
      returns (slot: int, threw: bool, ghost d: Dispatched, ghost trace: seq<Event>)
      requires Valid() && handle in reg.live && Head(reg.live, 2, handle) && handle.fullName == call.fullName
      requires CanCall(call, frame, n)
      modifies this, buckets, reg.live, frame
      ensures Valid() && Changed(old(reg), reg, AddsInTry(call))
      ensures forall n | n in reg.live && n !in old(reg.live) :: fresh(n)
      ensures Behaved(call, d) && trace == TraceOf(call, d) && threw == d.threw
      ensures call.fault == InArgs ==> threw
      ensures !d.threw ==> slot == SlotAfter(call, d, params)
      ensures PhasesOf(old(reg), reg, call, d)
      ensures IdleCall(call) ==> reg == old(reg)
      ensures FlatCall(call) ==> (shouldInjectNextCall <==> old(shouldInjectNextCall) || AsksInTry(call, d))
      ensures frame != null && call.fault == InArgs ==> frame.pos == old(frame.pos)
      ensures frame != null && call.fault != InArgs ==> frame.pos == frame.Position(old(frame.pos), n) + 1
      decreases call, 3
    {
      hide Consistent, Mirrored, Changed, Phase, AddsBefore, AddsAfter, AddsInTry, Head, Hooks, Blocks, WriteReturns,
        Taken, Arguments, FFrame.Position, FFrame.Encodes, SlotAfter, AsksIn, FlatCall;
      AsksNext(call.pre, 0);
      AsksNext(call.post, 0);
      AsksNext(call.postUnconditional, 0);
      ghost var start := reg;
      slot, threw, d, trace := params, true, Dispatched(false, true, false, [], [], []), [];
      Unchanged(reg);
      HooksNext([], handle, call.pre, call.hasReturn, None);
      NoPhases(start, reg, call.fullName);
      TraceShort(call, d);
      if call.fault == InArgs {
        ChangedWeakens(start, reg, 0, AddsInTry(call));
        return;
      }
      var details := MakeDetails(call.hasReturn);
      var block;
      ghost var pre;
      slot, block, pre := RunPre(handle, call, params, details, frame, n);
      d := Dispatched(block, true, false, pre, [], []);
      trace := details.events;
      TraceShort(call, d);
      if call.fault == InOriginal && !block {
        NoPhases(start, reg, call.fullName);
        TryCutShort(start, reg, call);
        return;
      }
      slot, threw, d := RunRest(start, handle, call, block, params, slot, details, d.(threw := false));
      trace := details.events;
    }

    /** The call outside of the try block, of code which still holds the arguments unless they were read. */
    method CallOutside(call: Call, unread: bool, frame: FFrame?, ghost n: nat) returns (value: int)
      requires Valid() && (unread ==> CanCall(call, frame, n))
      modifies this, buckets, reg.live, frame
      ensures Valid() && Changed(old(reg), reg, AddsInOps(call.fallback))
      ensures forall n | n in reg.live && n !in old(reg.live) :: fresh(n)
      ensures value == call.fallbackValue && (call.fallback == [] ==> reg == old(reg))
      ensures Flat(call.fallback) ==>
        (shouldInjectNextCall <==> old(shouldInjectNextCall) || InjectNext in call.fallback)
      ensures frame != null && unread ==> frame.pos == frame.Position(old(frame.pos), n) + 1
      decreases call, 0
    {
      hide Consistent, Changed, AddsInOps;
      if unread {
        LeaveArgs(call, frame, n);
      }
      ghost var _ := Perform(call.fallback);
      value := call.fallbackValue;
    }

    /** A call of an unreal function, hooked or not; through `CallFunction` when there is a frame to
        read the arguments from, else through `ProcessEvent`. */
    method Dispatch(call: Call, params: int, frame: FFrame?, ghost n: nat)
      returns (slot: int, ghost hooked: bool, ghost d: Dispatched, ghost trace: seq<Event>)
      requires Valid() && CanCall(call, frame, n)
      modifies this, buckets, reg.live, frame
      ensures Valid() && Changed(old(reg), reg, AddsInCall(call))
      ensures forall n | n in reg.live && n !in old(reg.live) :: fresh(n)
      ensures hooked <==> call.initialized && !old(shouldInjectNextCall)
                          && exists x | x in old(reg).live :: x.fullName == call.fullName
      ensures hooked ==> Behaved(call, d) && PhasesOf(old(reg), reg, call, d)
      ensures IdleCall(call) ==> reg == old(reg)
      ensures FlatCall(call) ==>
        (shouldInjectNextCall <==> (old(shouldInjectNextCall) && !call.initialized) || Asks(call, hooked, d))
      ensures IdleCall(call) ==> shouldInjectNextCall == (old(shouldInjectNextCall) && !call.initialized)
      ensures trace == (if hooked then TraceOf(call, d) else []) + if hooked && !d.threw then [] else [Original]
      ensures slot == if hooked && !d.threw then SlotAfter(call, d, params) else call.fallbackValue
      ensures frame != null && !(hooked && d.threw && call.fault != InArgs) ==>
        frame.pos == frame.Position(old(frame.pos), n) + 1
      decreases call, 4
    {
      hide Consistent, Mirrored, Changed, Phase, AddsInTry, AddsInCall, AddsInOps, Head, Arguments, Blocks,
        WriteReturns, Taken, ObjectName, Behaved, TraceOf, SlotAfter, AsksInTry, FlatCall;
      assert FlatCall(call) ==> Flat(call.fallback) by { FlatFallback(call); }
      ghost var start := reg;
      slot, d, trace := params, Dispatched(false, false, false, [], [], []), [];
      var handle := PreprocessHook(call.initialized, internName(ObjectName(call.fullName)), call.fullName);
      hooked := handle != null;
      Unchanged(reg);
      ChangedWeakens(start, reg, 0, AddsInTry(call));
      if handle != null {
        var threw;
        slot, threw, d, trace := RunHooks(handle, call, params, frame, n);
        if !threw {
          Unchanged(reg);
          ChangedWeakens(reg, reg, 0, AddsInOps(call.fallback));
          CallEnds(start, reg, reg, call);
          IdleAsks(call, hooked, d);
          return;
        }
      }
      ghost var middle := reg;
      slot := CallOutside(call, handle == null || call.fault == InArgs, frame, n);
      trace := trace + [Original];
      CallEnds(start, middle, reg, call);
      IdleAsks(call, hooked, d);
      if hooked {
        PhasesLater(start, middle, reg, nameOf, call, d);
      }
    }
  }
}

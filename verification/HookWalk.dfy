/** Walking the lists while they change: what an iterator still finds, standing on a node which may
    since have been removed. */
module HookWalk {
  import opened HookOrder
  import opened HookRegistry

  /** `n` was still live when `x` was inserted. */
  ghost predicate CoLived(reg: Registry, n: Node, x: Node) {
    n in Known(reg) && (n in reg.dead ==> x.birth < reg.dead[n].time)
  }

  lemma CoLivedGrouped(reg: Registry, nameOf: string -> FName, n: Node, x: Node)
    requires Consistent(reg, nameOf) && CoLived(reg, n, x) && x in reg.live
    ensures KeysGrouped(n, x)
  {
  }

  /** All four kinds of link lead forwards, among live and removed nodes alike. */
  lemma LinksLeadForwards(reg: Registry, nameOf: string -> FName, n: Node, level: int)
    requires Consistent(reg, nameOf) && n in Known(reg) && 1 <= level <= 4
    ensures var t := reg.links[n].At(level);
            t != null ==> t in Known(reg) && Before(n, t) && SameGroup(level - 1, n, t)
  {
  }

  /** A chain of links, of any kinds, through live and removed nodes. */
  ghost predicate Chain(reg: Registry, path: seq<Node>, levels: seq<int>) {
    && |path| == |levels| + 1
    && (forall i | 0 <= i < |path| :: path[i] in reg.links)
    && (forall i | 0 <= i < |levels| :: 1 <= levels[i] <= 4 && reg.links[path[i]].At(levels[i]) == path[i + 1])
  }

  /** No chain of links ever comes back to where it was, so shared ownership cannot leak. */
  lemma {:induction false} NoCycles(reg: Registry, nameOf: string -> FName, path: seq<Node>, levels: seq<int>)
    requires Consistent(reg, nameOf) && Chain(reg, path, levels) && levels != []
    ensures Before(path[0], path[|path| - 1]) && path[0] != path[|path| - 1]
    decreases |path|
  {
    LinksLeadForwards(reg, nameOf, path[0], levels[0]);
    assert path[1] == reg.links[path[0]].At(levels[0]);
    if |levels| > 1 {
      assert Chain(reg, path[1..], levels[1..]) by {
        forall i | 0 <= i < |levels| - 1 ensures reg.links[path[1..][i]].At(levels[1..][i]) == path[1..][i + 1] {
          assert reg.links[path[i + 1]].At(levels[i + 1]) == path[i + 2];
        }
      }
      NoCycles(reg, nameOf, path[1..], levels[1..]);
    }
  }

  // ---- looking for a hook -------------------------------------------------------------------

  /** Standing on `n`, walking the list of types, `x` has not been passed. */
  ghost predicate TypeAhead(reg: Registry, n: Node, x: Node) {
    CoLived(reg, n, x) && EverHead(reg, 3, n) && SameGroup(2, n, x) && !Before(x, n)
  }

  /** Standing on `n`, walking its collection, `x` has not been passed. */
  ghost predicate Ahead(reg: Registry, n: Node, x: Node) {
    CoLived(reg, n, x) && SameGroup(3, n, x) && !Before(x, n)
  }

  /** A hook which was there together with a handle is ahead of the handle. */
  lemma HandleStartsBefore(reg: Registry, nameOf: string -> FName, handle: Node, x: Node)
    requires Consistent(reg, nameOf) && EverHead(reg, 2, handle)
    requires x in reg.live && CoLived(reg, handle, x) && x.fullName == handle.fullName
    ensures TypeAhead(reg, handle, x)
  {
    CoLivedGrouped(reg, nameOf, handle, x);
    if handle in reg.live {
      HeadUp(reg.live, 2, handle);
      assert SameGroup(2, x, handle);
    } else {
      assert Frozen(reg, 2, handle, reg.links[handle].At(2));
    }
  }

  /** The hook found on the list of types is in the collection of every hook still ahead. */
  lemma TypeFound(reg: Registry, nameOf: string -> FName, n: Node, x: Node)
    requires Consistent(reg, nameOf) && x in reg.live && TypeAhead(reg, n, x) && n.hookType == x.hookType
    ensures Ahead(reg, n, x)
  {
    CoLivedGrouped(reg, nameOf, n, x);
  }

  lemma TypeStep(reg: Registry, nameOf: string -> FName, n: Node, x: Node)
    requires Consistent(reg, nameOf) && x in reg.live && TypeAhead(reg, n, x) && n.hookType != x.hookType
    ensures var t := reg.links[n].At(3); t != null && TypeAhead(reg, t, x)
  {
    var t := reg.links[n].At(3);
    assert !SameGroup(3, n, x) && Before(n, x);
    if n in reg.live {
      assert IsNext(reg.live, 3, n, t);
      assert Later(3, n, x);
    } else {
      assert Frozen(reg, 3, n, t);
    }
  }

  lemma CollectionStep(reg: Registry, nameOf: string -> FName, n: Node, x: Node)
    requires Consistent(reg, nameOf) && x in reg.live && Ahead(reg, n, x) && n != x
    ensures var t := reg.links[n].At(4); t != null && Ahead(reg, t, x)
  {
    var t := reg.links[n].At(4);
    assert Before(n, x);
    if n in reg.live {
      assert IsNext(reg.live, 4, n, t);
      assert Later(4, n, x);
    } else {
      assert Frozen(reg, 4, n, t);
    }
  }

  /** However the table changed in the meantime, what was ahead is still ahead. */
  lemma AheadSurvives(a: Registry, b: Registry, n: Node, x: Node)
    requires Evolves(a, b) && Ahead(a, n, x) && x.birth < a.clock
    ensures Ahead(b, n, x)
  {
  }

  lemma CoLivedSurvives(a: Registry, b: Registry, n: Node, x: Node)
    requires Evolves(a, b) && CoLived(a, n, x) && x.birth < a.clock
    ensures CoLived(b, n, x)
  {
  }

  // ---- bounded change -----------------------------------------------------------------------

  /** The table changed, gained at most `adds` hooks, and left the links of removed ones alone. */
  ghost predicate Changed(a: Registry, b: Registry, adds: nat) {
    Evolves(a, b) && LinksFrozen(a, b) && |Known(b)| <= |Known(a)| + adds
  }

  lemma Unchanged(a: Registry)
    ensures Changed(a, a, 0)
  {
  }

  lemma ChangedTransitive(a: Registry, b: Registry, c: Registry, adds: nat, adds': nat)
    requires Changed(a, b, adds) && Changed(b, c, adds')
    ensures Changed(a, c, adds + adds')
  {
    EvolvesTransitive(a, b, c);
    LinksFrozenTransitive(a, b, c);
  }

  lemma ChangedWeakens(a: Registry, b: Registry, adds: nat, adds': nat)
    requires Changed(a, b, adds) && adds <= adds'
    ensures Changed(a, b, adds')
  {
  }

  lemma ChangedByAdding(a: Registry, b: Registry, key: Key, entry: Entry)
    requires AddsEntry(a, b, key, entry)
    ensures Changed(a, b, 1) && Abs(b) == AddEntry(Abs(a), key, entry)
  {
  }

  lemma ChangedByRemoving(a: Registry, b: Registry, key: Key, identifier: string)
    requires RemovesEntry(a, b, key, identifier)
    ensures Changed(a, b, 0) && Abs(b) == RemoveEntry(Abs(a), key, identifier) && b.live <= a.live
  {
  }

  // ---- running the hooks of one type --------------------------------------------------------

  /** A hook which was there together with the handle, and which was never removed since `a`. */
  ghost predicate Wanted(a: Registry, b: Registry, handle: Node, key: Key, x: Node) {
    x in a.live && x in b.live && CoLived(a, handle, x) && KeyOf(x) == key
  }

  /** Every wanted hook was called, or is still ahead of `node`. */
  ghost predicate NothingMissed(a: Registry, b: Registry, handle: Node, key: Key, node: Node?, called: seq<Node>) {
    forall x | x in b.live :: Wanted(a, b, handle, key, x) ==> x in called || (node != null && Ahead(b, node, x))
  }

  /** Hooks are called in insertion order and never twice, and each was registered for this key. */
  ghost predicate InOrder(b: Registry, key: Key, node: Node?, called: seq<Node>) {
    && Ordered(called)
    && (forall n | n in called :: n in Known(b) && KeyOf(n) == key && (node != null ==> Before(n, node)))
    && (node != null ==> node in Known(b) && KeyOf(node) == key)
  }

  /** A walk begins at a hook, from an earlier time even, which is not behind any it should call. */
  ghost predicate Started(a: Registry, handle: Node, key: Key, first: Node?) {
    NothingMissed(a, a, handle, key, first, []) && InOrder(a, key, first, [])
  }

  /** A run of all hooks of one type, during which the table changed from `a` to `b`. */
  ghost predicate Ran(a: Registry, b: Registry, handle: Node, key: Key, called: seq<Node>) {
    NothingMissed(a, b, handle, key, null, called) && InOrder(b, key, null, called)
  }

  /** Calling `node`, during which the table changes from `b` to `c`, and following its link after. */
  lemma WalkStep(a: Registry, b: Registry, c: Registry, nameOf: string -> FName, handle: Node, key: Key,
                 node: Node, called: seq<Node>, adds: nat, adds': nat)
    requires Consistent(a, nameOf) && Consistent(b, nameOf) && Consistent(c, nameOf)
    requires Changed(a, b, adds) && Changed(b, c, adds')
    requires NothingMissed(a, b, handle, key, node, called) && InOrder(b, key, node, called)
    ensures node in c.links
    ensures var t := c.links[node].At(4);
      && NothingMissed(a, c, handle, key, t, called + [node]) && InOrder(c, key, t, called + [node])
      && (t != null ==> t in Known(c) && Rest(Known(c), t) + {t} < Rest(Known(c), node) + {node})
    ensures Changed(a, c, adds + adds')
  {
    ChangedTransitive(a, b, c, adds, adds');
    assert node in Known(c) && node in c.links && KeyOf(node) == key && Evolves(a, b) && Evolves(b, c);
    hide Consistent, Changed, Evolves, InOrder, Before, Rest, NothingMissed;
    LinkKeepsKey(c, nameOf, node);
    StillAhead(a, b, c, nameOf, handle, key, node, called);
    InOrderSnoc(b, c, key, node, c.links[node].At(4), called);
  }

  lemma InOrderSnoc(b: Registry, c: Registry, key: Key, node: Node, t: Node?, called: seq<Node>)
    requires InOrder(b, key, node, called) && Evolves(b, c)
    requires t != null ==> t in Known(c) && KeyOf(t) == key && Before(node, t)
    ensures InOrder(c, key, t, called + [node])
  {
  }

  /** The link of a collection leads to a hook for the same function and type, further on. */
  lemma LinkKeepsKey(reg: Registry, nameOf: string -> FName, n: Node)
    requires Consistent(reg, nameOf) && n in Known(reg) && n in reg.links
    ensures var t := reg.links[n].At(4);
      t != null ==> && t in Known(reg) && KeyOf(t) == KeyOf(n) && Before(n, t)
                    && Rest(Known(reg), t) + {t} < Rest(Known(reg), n) + {n}
  {
  }

  lemma RestShrinks(nodes: set<Node>, n: Node, t: Node)
    requires t in nodes && Before(n, t)
    ensures Rest(nodes, t) + {t} < Rest(nodes, n) + {n}
  {
  }

  lemma StillAhead(a: Registry, b: Registry, c: Registry, nameOf: string -> FName, handle: Node, key: Key,
                   node: Node, called: seq<Node>)
    requires Consistent(a, nameOf) && Consistent(b, nameOf) && Consistent(c, nameOf)
    requires Evolves(a, b) && Evolves(b, c) && node in c.links
    requires NothingMissed(a, b, handle, key, node, called)
    ensures NothingMissed(a, c, handle, key, c.links[node].At(4), called + [node])
  {
    hide Linked, GroupsKeyed, KeysDistinct, Listed, Ahead, CoLived, EverHead;
    var t := c.links[node].At(4);
    forall x | x in c.live && Wanted(a, c, handle, key, x)
      ensures x in called + [node] || (t != null && Ahead(c, t, x))
    {
      assert x in b.live && Wanted(a, b, handle, key, x);
      if x !in called && x != node {
        assert Ahead(b, node, x) && x.birth < b.clock;
        AheadSurvives(b, c, node, x);
        CollectionStep(c, nameOf, node, x);
      }
    }
  }

  lemma WalkStarts(reg: Registry, nameOf: string -> FName, handle: Node, key: Key, node: Node)
    requires Consistent(reg, nameOf) && node in Known(reg) && KeyOf(node) == key && key.fullName == handle.fullName
    requires forall x | x in reg.live :: CoLived(reg, handle, x) && KeyOf(x) == key ==> TypeAhead(reg, node, x)
    ensures NothingMissed(reg, reg, handle, key, node, []) && InOrder(reg, key, node, [])
  {
    forall x | x in reg.live && Wanted(reg, reg, handle, key, x) ensures Ahead(reg, node, x) {
      TypeFound(reg, nameOf, node, x);
    }
  }

  /** A run calls at most as many hooks as were ever inserted by its end. */
  lemma {:induction false} CallsBounded(called: seq<Node>, nodes: set<Node>)
    requires Ordered(called) && forall n | n in called :: n in nodes
    ensures |called| <= |nodes|
  {
    if called != [] {
      var last := called[|called| - 1];
      forall n | n in called[..|called| - 1] ensures n in nodes - {last} {
        var i :| 0 <= i < |called| - 1 && called[i] == n;
        assert Before(called[i], last);
      }
      CallsBounded(called[..|called| - 1], nodes - {last});
    }
  }

  /** ... which is at most the hooks known when it started, and those its callbacks add. */
  lemma CallsBoundedByAdds(a: Registry, b: Registry, handle: Node, key: Key, called: seq<Node>, adds: nat)
    requires Ran(a, b, handle, key, called) && Changed(a, b, adds)
    ensures |called| <= |Known(a)| + adds
  {
    CallsBounded(called, Known(b));
  }

  // ---- removed hooks which are called all the same ------------------------------------------

  /** The hook behind one which is still registered is registered too.  A removed hook is only found
      behind one which was removed no later. */
  lemma NextRemovedAfter(reg: Registry, nameOf: string -> FName, n: Node)
    requires Consistent(reg, nameOf) && n in Known(reg)
    ensures var t := reg.links[n].At(4);
      t != null && t !in reg.live ==>
        t in reg.dead && n in reg.dead && reg.dead[n].time <= reg.dead[t].time
  {
    var t := reg.links[n].At(4);
    if n in reg.live {
      assert IsNext(reg.live, 4, n, t);
    } else {
      assert Frozen(reg, 4, n, t);
    }
  }

  // ---- several runs from one handle ---------------------------------------------------------

  lemma LiveThroughout(a: Registry, b: Registry, nameOf: string -> FName, x: Node)
    requires Consistent(a, nameOf) && Consistent(b, nameOf) && Evolves(a, b)
    requires x in Known(a) && x in b.live
    ensures x in a.live
  {
  }

  /** Every hook for this key which was there at `start` and still is `now` was called. */
  ghost predicate CalledAll(start: Registry, now: Registry, key: Key, called: seq<Node>) {
    forall x | x in now.live :: x in start.live && KeyOf(x) == key ==> x in called
  }

  /** The handle was taken at `start`, and the hooks of one type ran, changing the table from `a` to
      `b`.  Every hook of that type which was there at the start and was never removed was called. */
  lemma StaleHandleComplete(start: Registry, a: Registry, b: Registry, nameOf: string -> FName,
                            handle: Node, key: Key, called: seq<Node>, adds: nat, adds': nat)
    requires Consistent(start, nameOf) && Consistent(a, nameOf) && Consistent(b, nameOf)
    requires Changed(start, a, adds) && Changed(a, b, adds')
    requires handle in start.live && Ran(a, b, handle, key, called)
    ensures CalledAll(start, b, key, called)
  {
    hide Linked, GroupsKeyed, KeysDistinct, Listed;
    forall x | x in b.live && x in start.live && KeyOf(x) == key ensures x in called {
      LiveThroughout(a, b, nameOf, x);
      CoLivedSurvives(start, a, handle, x);
      assert Wanted(a, b, handle, key, x);
    }
  }

  lemma HandleSurvives(start: Registry, now: Registry, nameOf: string -> FName, handle: Node, adds: nat)
    requires Consistent(start, nameOf) && Changed(start, now, adds) && handle in start.live &&
      Head(start.live, 2, handle)
    ensures EverHead(now, 2, handle)
  {
    assert EverHead(start, 2, handle);
  }

  /** No post-hook which the handle should lead to is left. */
  ghost predicate NoPostHooks(now: Registry, handle: Node) {
    forall x | x in now.live :: CoLived(now, handle, x) && x.fullName == handle.fullName ==> x.hookType == Pre
  }

  /** When no post-hook is to be found from the handle, there is none left which should be called. */
  lemma NoneToCall(start: Registry, now: Registry, nameOf: string -> FName, handle: Node, hookType: HookType, adds: nat)
    requires Consistent(start, nameOf) && Changed(start, now, adds) && handle in start.live
    requires NoPostHooks(now, handle) && hookType != Pre
    ensures Phase(start, now, Key(handle.fullName, hookType), [], true)
  {
    var key := Key(handle.fullName, hookType);
    forall x | x in now.live && x in start.live ensures KeyOf(x) != key {
      if KeyOf(x) == key { CoLivedSurvives(start, now, handle, x); }
    }
  }

  /** The hooks for one key which were called since `start`; all of those which should be, if the
      phase was completed. */
  ghost predicate Phase(start: Registry, now: Registry, key: Key, called: seq<Node>, complete: bool) {
    InOrder(now, key, null, called) && (complete ==> CalledAll(start, now, key, called))
  }

  lemma PhaseNotRun(start: Registry, now: Registry, key: Key)
    ensures Phase(start, now, key, [], false)
  {
  }

  lemma PhaseLater(start: Registry, now: Registry, later: Registry, nameOf: string -> FName, key: Key,
                   called: seq<Node>, complete: bool, adds: nat, adds': nat)
    requires Consistent(now, nameOf) && Consistent(later, nameOf)
    requires Changed(start, now, adds) && Changed(now, later, adds') && Phase(start, now, key, called, complete)
    ensures Phase(start, later, key, called, complete)
  {
  }
}

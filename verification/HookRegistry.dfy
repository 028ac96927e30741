/** What the hook table means, and what its nodes still promise after they were removed. */
module HookRegistry {
  import opened HookOrder

  /** When a node was removed, and the outermost level whose group it headed at that time. */
  datatype Grave = Grave(time: nat, top: nat)

  /** Every node which was ever inserted, the number of insertions so far, the live nodes of each
      (full name, type) in order, and the pointers the structure is made of. */
  datatype Registry = Registry(live: set<Node>, dead: map<Node, Grave>, clock: nat, lists: map<Key, seq<Node>>,
                               buckets: seq<Node?>, links: map<Node, Links>)

  datatype Entry = Entry(identifier: string, callback: nat)

  /** The data structure users see: per function and type, an ordered list of distinct identifiers. */
  type Table = map<Key, seq<Entry>>

  function Lookup(t: Table, key: Key): seq<Entry> {
    if key in t then t[key] else []
  }

  predicate HasIdentifier(s: seq<Entry>, identifier: string) {
    exists i | 0 <= i < |s| :: s[i].identifier == identifier
  }

  function AddEntry(t: Table, key: Key, entry: Entry): Table {
    if HasIdentifier(Lookup(t, key), entry.identifier) then t
    else t[key := Lookup(t, key) + [entry]]
  }

  function Without(s: seq<Entry>, identifier: string): seq<Entry> {
    if s == [] then []
    else if s[0].identifier == identifier then s[1..]
    else [s[0]] + Without(s[1..], identifier)
  }

  function RemoveEntry(t: Table, key: Key, identifier: string): Table {
    if HasIdentifier(Lookup(t, key), identifier) then t[key := Without(Lookup(t, key), identifier)]
    else t
  }

  ghost function Known(reg: Registry): set<Node> {
    reg.live + reg.dead.Keys
  }

  ghost function List(reg: Registry, key: Key): seq<Node> {
    if key in reg.lists then reg.lists[key] else []
  }

  ghost function Entries(s: seq<Node>): seq<Entry> {
    seq(|s|, i requires 0 <= i < |s| => Entry(s[i].identifier, s[i].callback))
  }

  ghost function Abs(reg: Registry): Table {
    map key | key in reg.lists :: Entries(reg.lists[key])
  }

  // ---- consistency --------------------------------------------------------------------------

  ghost predicate Stamped(reg: Registry) {
    && reg.live !! reg.dead.Keys
    && (forall n | n in Known(reg) ::
          && n.birth < reg.clock && n.collisionGroup < reg.clock
          && n.functionGroup < reg.clock && n.typeGroup < reg.clock)
    && BirthsDistinct(Known(reg))
    && (forall n | n in reg.dead :: n.birth < reg.dead[n].time <= reg.clock && reg.dead[n].top <= 4)
  }

  /** Members of one group agree on what the group stands for. */
  ghost predicate GroupsKeyed(reg: Registry, nameOf: string -> FName) {
    && (forall n | n in Known(reg) :: n.fname == nameOf(n.fullName) && n.bucket == TableIndex(n.fname))
    && (forall a, b | a in Known(reg) && b in Known(reg) ::
          && (SameGroup(1, a, b) ==> a.fname == b.fname)
          && (SameGroup(2, a, b) ==> a.fullName == b.fullName)
          && (SameGroup(3, a, b) ==> a.hookType == b.hookType))
  }

  /** Whether two nodes which stand for the same thing at some level are in the same group. */
  ghost predicate KeysGrouped(a: Node, b: Node) {
    && (a.fname == b.fname ==> SameGroup(1, a, b))
    && (a.fullName == b.fullName ==> SameGroup(2, a, b))
    && (KeyOf(a) == KeyOf(b) ==> SameGroup(3, a, b))
  }

  /** Keys are distinct within each layer, and two groups for one key never existed at a time. */
  ghost predicate KeysDistinct(reg: Registry) {
    && (forall a, b | a in reg.live && b in reg.live ::
          KeysGrouped(a, b) && (KeyOf(a) == KeyOf(b) && a.identifier == b.identifier ==> a == b))
    && (forall d, x | d in reg.dead && x in reg.live :: x.birth < reg.dead[d].time ==> KeysGrouped(d, x))
  }

  ghost predicate Ordered(s: seq<Node>) {
    forall i, j | 0 <= i < j < |s| :: Before(s[i], s[j])
  }

  ghost function Elements(s: seq<Node>): set<Node> {
    set n | n in s
  }

  ghost predicate Listed(reg: Registry) {
    && (forall key | key in reg.lists :: Ordered(reg.lists[key]))
    && (forall key, n | key in reg.lists && n in reg.lists[key] :: n in reg.live && KeyOf(n) == key)
    && (forall n | n in reg.live :: n in List(reg, KeyOf(n)))
  }

  /** What the frozen link of a removed node still guarantees: it never overshoots a live node
      which was already there at the time of the removal, and leads to a node which was live then. */
  ghost predicate Frozen(reg: Registry, level: int, r: Node, t: Node?)
    requires r in reg.dead
  {
    && (forall x | x in reg.live ::
          x.birth < reg.dead[r].time && Before(r, x) && SameGroup(level - 1, r, x)
          ==> t != null && !Before(x, t))
    && (forall x | x in reg.live :: x.birth < reg.dead[r].time && SameGroup(level, r, x) ==> !Before(x, r))
    && (t != null ==>
          && t in Known(reg) && Before(r, t) && SameGroup(level - 1, r, t)
          && t.birth < reg.dead[r].time
          && (t in reg.dead ==> reg.dead[r].time <= reg.dead[t].time && reg.dead[t].top <= level)
          && (t in reg.live ==> Head(reg.live, level, t)))
  }

  ghost predicate Linked(reg: Registry) {
    && |reg.buckets| == HASH_TABLE_SIZE
    && reg.links.Keys == Known(reg)
    && (forall b | 0 <= b < |reg.buckets| :: IsFirst(reg.live, b, reg.buckets[b]))
    && (forall n, m | n in reg.live && 1 <= m <= 4 :: IsNext(reg.live, m, n, reg.links[n].At(m)))
    && (forall d, m | d in reg.dead && 1 <= m <= 4 && reg.dead[d].top <= m ::
          Frozen(reg, m, d, reg.links[d].At(m)))
    && (forall d, m | d in reg.dead && 1 <= m <= 4 && m < reg.dead[d].top :: reg.links[d].At(m) == null)
  }

  ghost predicate Consistent(reg: Registry, nameOf: string -> FName) {
    Stamped(reg) && GroupsKeyed(reg, nameOf) && KeysDistinct(reg) && Listed(reg) && Linked(reg)
  }

  // ---- adding -------------------------------------------------------------------------------

  /** Inserting `x` behind `last` on the list of `level`, or into an empty bucket. */
  ghost function Added(reg: Registry, level: int, last: Node?, x: Node): Registry {
    Registry(reg.live + {x}, reg.dead, reg.clock + 1, reg.lists[KeyOf(x) := List(reg, KeyOf(x)) + [x]],
             if level == 0 && x.bucket < |reg.buckets| then reg.buckets[x.bucket := x] else reg.buckets,
             (if level >= 1 && last in reg.links then reg.links[last := reg.links[last].Set(level, x)]
              else reg.links)[x := NO_LINKS])
  }

  /** No live node matches this far down the layers. */
  ghost predicate Absent(live: set<Node>, level: int, fname: FName, key: Key, identifier: string) {
    forall n | n in live ::
      && (level <= 1 ==> n.fname != fname)
      && (level <= 2 ==> n.fullName != key.fullName)
      && (level <= 3 ==> KeyOf(n) != key)
      && !(KeyOf(n) == key && n.identifier == identifier)
  }

  /** `n` matches on every layer above `level`. */
  ghost predicate MatchesAbove(level: int, n: Node, fname: FName, key: Key) {
    && (level >= 2 ==> n.fname == fname)
    && (level >= 3 ==> n.fullName == key.fullName)
    && (level >= 4 ==> n.hookType == key.hookType)
  }

  /** `x` was stamped the way `AddHook` stamps a node which extends the list of `level` after
      `last`; level 0 is an empty bucket. */
  ghost predicate NewNode(reg: Registry, nameOf: string -> FName, level: int, last: Node?, x: Node) {
    && 0 <= level <= 4 && x !in Known(reg)
    && x.birth == reg.clock && x.fname == nameOf(x.fullName) && x.bucket == TableIndex(x.fname)
    && (level < 4 ==> x.typeGroup == reg.clock)
    && (level < 3 ==> x.functionGroup == reg.clock)
    && (level < 2 ==> x.collisionGroup == reg.clock)
    && (if level == 0 then forall n | n in reg.live :: n.bucket != x.bucket
        else last in reg.live && SameGroup(level - 1, last, x) && Head(reg.live, level, last)
             && IsNext(reg.live, level, last, null))
    && (level >= 1 ==> MatchesAbove(level, last, x.fname, KeyOf(x)))
    && Absent(reg.live, level, x.fname, KeyOf(x), x.identifier)
  }

  lemma MakesNewNode(reg: Registry, nameOf: string -> FName, level: int, last: Node?, x: Node)
    requires Consistent(reg, nameOf) && 0 <= level <= 4 && x !in Known(reg)
    requires x.birth == reg.clock && x.fname == nameOf(x.fullName) && x.bucket == TableIndex(x.fname)
    requires x.typeGroup == if level >= 4 && last != null then last.typeGroup else reg.clock
    requires x.functionGroup == if level >= 3 && last != null then last.functionGroup else reg.clock
    requires x.collisionGroup == if level >= 2 && last != null then last.collisionGroup else reg.clock
    requires if level == 0 then last == null && EmptyBucket(reg, x.fname, KeyOf(x), x.identifier)
             else last != null && EndOfLayer(reg, level, last, x.fname, KeyOf(x), x.identifier)
    ensures NewNode(reg, nameOf, level, last, x) && |reg.buckets| == HASH_TABLE_SIZE
  {
    if level == 0 {
      assert IsFirst(reg.live, x.bucket, reg.buckets[x.bucket]);
    } else {
      assert IsNext(reg.live, level, last, reg.links[last].At(level));
    }
  }

  lemma AddedStamped(reg: Registry, nameOf: string -> FName, level: int, last: Node?, x: Node)
    requires Stamped(reg) && NewNode(reg, nameOf, level, last, x)
    ensures Stamped(Added(reg, level, last, x))
  {
  }

  lemma AddedKeyed(reg: Registry, nameOf: string -> FName, level: int, last: Node?, x: Node)
    requires Stamped(reg) && GroupsKeyed(reg, nameOf) && NewNode(reg, nameOf, level, last, x)
    ensures GroupsKeyed(Added(reg, level, last, x), nameOf)
  {
    forall a | a in Known(reg)
      ensures (SameGroup(1, a, x) ==> a.fname == x.fname)
      ensures (SameGroup(2, a, x) ==> a.fullName == x.fullName)
      ensures (SameGroup(3, a, x) ==> a.hookType == x.hookType)
    {
      if level >= 2 {
        assert last in Known(reg);
        if SameGroup(1, a, x) { assert SameGroup(1, a, last); }
        if SameGroup(2, a, x) && level >= 3 { assert SameGroup(2, a, last); }
        if SameGroup(3, a, x) && level >= 4 { assert SameGroup(3, a, last); }
      }
    }
  }

  lemma AddedDistinct(reg: Registry, nameOf: string -> FName, level: int, last: Node?, x: Node)
    requires Stamped(reg) && GroupsKeyed(reg, nameOf) && KeysDistinct(reg)
    requires NewNode(reg, nameOf, level, last, x)
    ensures KeysDistinct(Added(reg, level, last, x))
    ensures forall n | n in reg.live && KeyOf(n) == KeyOf(x) :: Before(n, x)
  {
    forall n | n in reg.live ensures KeysGrouped(n, x) && KeysGrouped(x, n) {
      if level >= 1 { assert KeysGrouped(n, last); }
    }
  }

  lemma AddedListed(reg: Registry, level: int, last: Node?, x: Node)
    requires Listed(reg) && x !in reg.live
    requires forall n | n in reg.live && KeyOf(n) == KeyOf(x) :: Before(n, x)
    ensures Listed(Added(reg, level, last, x))
  {
    var key, reg' := KeyOf(x), Added(reg, level, last, x);
    var s := List(reg, key);
    assert reg'.lists[key][|s|] == x;
    forall n | n in reg'.live ensures n in List(reg', KeyOf(n)) {
      if n != x && KeyOf(n) == key {
        var i :| 0 <= i < |s| && s[i] == n;
        assert reg'.lists[key][i] == n;
      }
    }
  }

  /** An identifier is in the table exactly when a live node carries it. */
  lemma HasIdentifierLive(reg: Registry, key: Key, identifier: string)
    requires Listed(reg)
    ensures HasIdentifier(Lookup(Abs(reg), key), identifier)
       <==> exists n | n in reg.live :: KeyOf(n) == key && n.identifier == identifier
    ensures Lookup(Abs(reg), key) == [] <==> forall n | n in reg.live :: KeyOf(n) != key
  {
    var s := List(reg, key);
    assert Lookup(Abs(reg), key) == Entries(s);
    if n :| n in reg.live && KeyOf(n) == key {
      assert n in s;
    }
    if n :| n in reg.live && KeyOf(n) == key && n.identifier == identifier {
      var i :| 0 <= i < |s| && s[i] == n;
      assert Entries(s)[i].identifier == identifier;
    }
    if |s| > 0 { assert s[0] in reg.live && KeyOf(s[0]) == key; }
  }

  lemma AddedAbs(reg: Registry, level: int, last: Node?, x: Node)
    requires !HasIdentifier(Lookup(Abs(reg), KeyOf(x)), x.identifier)
    ensures Abs(Added(reg, level, last, x)) == AddEntry(Abs(reg), KeyOf(x), Entry(x.identifier, x.callback))
  {
    var s := List(reg, KeyOf(x));
    assert Entries(s + [x]) == Entries(s) + [Entry(x.identifier, x.callback)];
    assert Lookup(Abs(reg), KeyOf(x)) == Entries(s);
  }

  /** Linking `x` behind `last` is the only change the links of live nodes need. */
  lemma AddedKeepsLinks(reg: Registry, nameOf: string -> FName, level: int, last: Node, x: Node,
                        m: int, n: Node, t: Node?)
    requires Stamped(reg) && NewNode(reg, nameOf, level, last, x) && 1 <= level <= 4 && 1 <= m <= 4
    requires if n == x then t == null else n in reg.live && IsNext(reg.live, m, n, t)
    ensures IsNext(Added(reg, level, last, x).live, m, n, if n == last && m == level then x else t)
  {
    assert Joins(reg.live, level, last, x);
    if n == x {
      AppendedHasNoLinks(reg.live, level, last, x, m);
    } else {
      AppendKeepsLinks(reg.live, level, last, x, m, n, t);
    }
  }

  lemma AddedKeepsBuckets(reg: Registry, nameOf: string -> FName, level: int, last: Node?, x: Node, b: nat, t: Node?)
    requires Stamped(reg) && NewNode(reg, nameOf, level, last, x) && IsFirst(reg.live, b, t)
    ensures IsFirst(Added(reg, level, last, x).live, b, if level == 0 && b == x.bucket then x else t)
  {
  }

  lemma AddedToEmptyBucket(reg: Registry, nameOf: string -> FName, x: Node, m: int, n: Node, t: Node?)
    requires Stamped(reg) && NewNode(reg, nameOf, 0, null, x) && 1 <= m <= 4
    requires if n == x then t == null else n in reg.live && IsNext(reg.live, m, n, t)
    ensures IsNext(Added(reg, 0, null, x).live, m, n, t)
  {
  }

  /** Later insertions keep what a frozen link guarantees. */
  lemma AdditionKeepsFrozen(reg: Registry, nameOf: string -> FName, level: int, last: Node?, x: Node,
                            d: Node, m: int, t: Node?)
    requires Stamped(reg) && NewNode(reg, nameOf, level, last, x)
    requires d in reg.dead && 1 <= m <= 4 && Frozen(reg, m, d, t)
    ensures Frozen(Added(reg, level, last, x), m, d, t)
  {
    assert level >= 1 && t != null && t in reg.live && SameGroup(m, last, t) ==> !Before(last, t);
  }

  lemma AddedLinked(reg: Registry, nameOf: string -> FName, level: int, last: Node?, x: Node)
    requires Stamped(reg) && Linked(reg) && NewNode(reg, nameOf, level, last, x)
    ensures Linked(Added(reg, level, last, x))
    ensures Added(reg, level, last, x).links.Keys == Known(Added(reg, level, last, x))
  {
    hide IsNext, IsFirst, Frozen, Head, SameGroup, Before, BirthsDistinct, Absent, MatchesAbove;
    var reg' := Added(reg, level, last, x);
    forall n, m | n in reg'.live && 1 <= m <= 4 ensures IsNext(reg'.live, m, n, reg'.links[n].At(m)) {
      var t := if n == x then null else reg.links[n].At(m);
      if level == 0 {
        AddedToEmptyBucket(reg, nameOf, x, m, n, t);
      } else {
        AddedKeepsLinks(reg, nameOf, level, last, x, m, n, t);
      }
    }
    forall d, m | d in reg'.dead && 1 <= m <= 4 && reg'.dead[d].top <= m
      ensures Frozen(reg', m, d, reg'.links[d].At(m))
    {
      AdditionKeepsFrozen(reg, nameOf, level, last, x, d, m, reg.links[d].At(m));
    }
    forall b | 0 <= b < |reg'.buckets| ensures IsFirst(reg'.live, b, reg'.buckets[b]) {
      AddedKeepsBuckets(reg, nameOf, level, last, x, b, reg.buckets[b]);
    }
  }

  lemma AddedEvolves(reg: Registry, nameOf: string -> FName, level: int, last: Node?, x: Node)
    requires Stamped(reg) && NewNode(reg, nameOf, level, last, x)
    ensures Evolves(reg, Added(reg, level, last, x)) && |Known(Added(reg, level, last, x))| == |Known(reg)| + 1
    ensures Known(Added(reg, level, last, x)) == Known(reg) + {x}
    ensures Added(reg, level, last, x).live == reg.live + {x}
  {
    hide SameGroup, Before, BirthsDistinct, Absent, MatchesAbove, IsNext;
    assert Known(Added(reg, level, last, x)) == Known(reg) + {x};
    forall n, m | n in reg.live && 0 <= m <= 4 && Head(reg.live, m, n) ensures Head(reg.live + {x}, m, n) {
      HeadsStay(reg, nameOf, level, last, x, m, n);
    }
    hide Head;
  }

  lemma HeadsStay(reg: Registry, nameOf: string -> FName, level: int, last: Node?, x: Node, m: int, n: Node)
    requires Stamped(reg) && NewNode(reg, nameOf, level, last, x)
    requires n in reg.live && 0 <= m <= 4 && Head(reg.live, m, n)
    ensures Head(reg.live + {x}, m, n)
  {
  }

  lemma AddedPointers(reg: Registry, nameOf: string -> FName, level: int, last: Node?, x: Node)
    requires Linked(reg) && NewNode(reg, nameOf, level, last, x)
    ensures Added(reg, level, last, x).links
         == (if level >= 1 then reg.links[last := reg.links[last].Set(level, x)] else reg.links)[x := NO_LINKS]
    ensures Added(reg, level, last, x).buckets == if level == 0 then reg.buckets[x.bucket := x] else reg.buckets
  {
  }

  lemma AddedFrozen(reg: Registry, nameOf: string -> FName, level: int, last: Node?, x: Node)
    requires Stamped(reg) && NewNode(reg, nameOf, level, last, x)
    ensures LinksFrozen(reg, Added(reg, level, last, x)) && Added(reg, level, last, x).dead == reg.dead
  {
  }

  lemma AddedNew(reg: Registry, nameOf: string -> FName, level: int, last: Node?, x: Node)
    requires Listed(reg) && NewNode(reg, nameOf, level, last, x)
    ensures !HasIdentifier(Lookup(Abs(reg), KeyOf(x)), x.identifier)
    ensures Lookup(Abs(reg), KeyOf(x)) == [] <==> level < 4
    ensures x !in reg.live
  {
    HasIdentifierLive(reg, KeyOf(x), x.identifier);
  }

  lemma AddedConsistent(reg: Registry, nameOf: string -> FName, level: int, last: Node?, x: Node)
    requires Consistent(reg, nameOf) && NewNode(reg, nameOf, level, last, x)
    ensures Consistent(Added(reg, level, last, x), nameOf)
    ensures AddsEntry(reg, Added(reg, level, last, x), KeyOf(x), Entry(x.identifier, x.callback))
    ensures Lookup(Abs(reg), KeyOf(x)) == [] <==> level < 4
    ensures Known(Added(reg, level, last, x)) == Known(reg) + {x}
    ensures Added(reg, level, last, x).live == reg.live + {x}
    ensures Added(reg, level, last, x).links.Keys == Known(Added(reg, level, last, x))
    ensures Added(reg, level, last, x).links
         == (if level >= 1 then reg.links[last := reg.links[last].Set(level, x)] else reg.links)[x := NO_LINKS]
    ensures Added(reg, level, last, x).buckets == if level == 0 then reg.buckets[x.bucket := x] else reg.buckets
  {
    hide Stamped, GroupsKeyed, KeysDistinct, Listed, Linked, NewNode, Added, Abs, HasIdentifier, Evolves, LinksFrozen,
      Known, AddEntry;
    AddedFrozen(reg, nameOf, level, last, x);
    AddedNew(reg, nameOf, level, last, x);
    AddedStamped(reg, nameOf, level, last, x);
    AddedKeyed(reg, nameOf, level, last, x);
    AddedDistinct(reg, nameOf, level, last, x);
    AddedListed(reg, level, last, x);
    AddedAbs(reg, level, last, x);
    AddedLinked(reg, nameOf, level, last, x);
    AddedEvolves(reg, nameOf, level, last, x);
    AddedPointers(reg, nameOf, level, last, x);
  }

  // ---- removing -----------------------------------------------------------------------------

  ghost function Drop(s: seq<Node>, r: Node): seq<Node> {
    if s == [] then []
    else if s[0] == r then s[1..]
    else [s[0]] + Drop(s[1..], r)
  }

  /** Removing `r`, leaving the given pointers behind. */
  ghost function Removed(reg: Registry, r: Node, top: nat, buckets: seq<Node?>, links: map<Node, Links>): Registry {
    Registry(reg.live - {r}, reg.dead[r := Grave(reg.clock, top)], reg.clock,
             reg.lists[KeyOf(r) := Drop(List(reg, KeyOf(r)), r)], buckets, links)
  }

  lemma {:induction false} DropCutsOne(s: seq<Node>, r: Node) returns (i: nat)
    requires r in s
    ensures i < |s| && s[i] == r && Drop(s, r) == s[..i] + s[i + 1..]
  {
    if s[0] == r {
      i := 0;
    } else {
      i := DropCutsOne(s[1..], r);
      i := i + 1;
    }
  }

  /** Removal deletes exactly one entry, and keeps the order of the rest. */
  lemma {:induction false} WithoutCutsOne(s: seq<Entry>, identifier: string) returns (i: nat)
    requires HasIdentifier(s, identifier)
    ensures i < |s| && s[i].identifier == identifier && Without(s, identifier) == s[..i] + s[i + 1..]
  {
    if s[0].identifier == identifier {
      i := 0;
    } else {
      var rest := s[1..];
      assert HasIdentifier(rest, identifier) by {
        var k :| 0 <= k < |s| && s[k].identifier == identifier;
        assert rest[k - 1].identifier == identifier;
      }
      hide HasIdentifier;
      var j := WithoutCutsOne(rest, identifier);
      i := j + 1;
      assert s[..i] == [s[0]] + rest[..j] && s[i + 1..] == rest[j + 1..];
    }
  }

  lemma {:induction false} DropEntries(s: seq<Node>, r: Node)
    requires r in s
    requires forall i | 0 <= i < |s| :: s[i].identifier == r.identifier ==> s[i] == r
    ensures Entries(Drop(s, r)) == Without(Entries(s), r.identifier)
  {
    assert Entries(s)[1..] == Entries(s[1..]);
    if s[0] != r {
      DropEntries(s[1..], r);
      assert Entries([s[0]] + Drop(s[1..], r)) == [Entries(s)[0]] + Entries(Drop(s[1..], r));
    }
  }

  lemma RemovedKeyed(reg: Registry, nameOf: string -> FName, r: Node, top: nat, buckets: seq<Node?>,
                     links: map<Node, Links>)
    requires Stamped(reg) && GroupsKeyed(reg, nameOf) && r in reg.live && top <= 4
    ensures Stamped(Removed(reg, r, top, buckets, links)) && GroupsKeyed(Removed(reg, r, top, buckets, links), nameOf)
    ensures Known(Removed(reg, r, top, buckets, links)) == Known(reg)
    ensures Removed(reg, r, top, buckets, links).live == reg.live - {r}
  {
    assert Known(Removed(reg, r, top, buckets, links)) == Known(reg);
  }

  lemma RemovedDistinct(reg: Registry, r: Node, top: nat, buckets: seq<Node?>, links: map<Node, Links>)
    requires Stamped(reg) && KeysDistinct(reg) && r in reg.live
    ensures KeysDistinct(Removed(reg, r, top, buckets, links))
  {
  }

  lemma CutOrdered(s: seq<Node>, k: nat)
    requires Ordered(s) && k < |s|
    ensures Ordered(s[..k] + s[k + 1..])
    ensures Elements(s[..k] + s[k + 1..]) == Elements(s) - {s[k]}
  {
  }

  lemma DropOrdered(s: seq<Node>, r: Node)
    requires Ordered(s) && r in s
    ensures Ordered(Drop(s, r)) && Elements(Drop(s, r)) == Elements(s) - {r}
  {
    var k := DropCutsOne(s, r);
    CutOrdered(s, k);
  }

  lemma RemovedListed(reg: Registry, r: Node, top: nat, buckets: seq<Node?>, links: map<Node, Links>)
    requires Listed(reg) && r in reg.live
    ensures Listed(Removed(reg, r, top, buckets, links))
  {
    var reg', k := Removed(reg, r, top, buckets, links), KeyOf(r);
    assert r in List(reg, k) && k in reg.lists;
    var s := reg.lists[k];
    DropOrdered(s, r);
    assert reg'.lists == reg.lists[k := Drop(s, r)];
    forall key, n | key in reg'.lists && n in reg'.lists[key] ensures n in reg'.live && KeyOf(n) == key {
      if key == k { assert n in Elements(Drop(s, r)); } else { assert n in reg.lists[key]; }
    }
    forall n | n in reg'.live ensures n in List(reg', KeyOf(n)) {
      assert n in List(reg, KeyOf(n));
      if KeyOf(n) == k { assert n in Elements(s) - {r}; }
    }
  }

  lemma RemovedAbs(reg: Registry, r: Node, top: nat, buckets: seq<Node?>, links: map<Node, Links>)
    requires Listed(reg) && KeysDistinct(reg) && r in reg.live
    ensures HasIdentifier(Lookup(Abs(reg), KeyOf(r)), r.identifier)
    ensures Abs(Removed(reg, r, top, buckets, links)) == RemoveEntry(Abs(reg), KeyOf(r), r.identifier)
  {
    var s := List(reg, KeyOf(r));
    HasIdentifierLive(reg, KeyOf(r), r.identifier);
    DropEntries(s, r);
    assert Lookup(Abs(reg), KeyOf(r)) == Entries(s);
  }

  // ---- frozen links -------------------------------------------------------------------------

  /** The links a node is left with when it is removed. */
  lemma NewlyFrozen(reg: Registry, r: Node, top: nat, buckets: seq<Node?>, links: map<Node, Links>, level: int,
                    t: Node?)
    requires Stamped(reg) && r in reg.live && top <= level && 1 <= level <= 4
    requires Head(reg.live, level, r) && IsHeir(reg.live, level - 1, r, t)
    ensures Frozen(Removed(reg, r, top, buckets, links), level, r, t)
  {
  }

  /** Later removals keep what a frozen link guarantees. */
  lemma RemovalKeepsFrozen(reg: Registry, r: Node, top: nat, buckets: seq<Node?>, links: map<Node, Links>, d: Node,
                           level: int, t: Node?)
    requires Stamped(reg) && r in reg.live && d in reg.dead && 1 <= level <= 4
    requires forall m | 0 <= m <= 4 && Head(reg.live, m, r) :: top <= m
    requires Frozen(reg, level, d, t)
    ensures Frozen(Removed(reg, r, top, buckets, links), level, d, t)
  {
  }

  /** The levels whose group `r` heads are those from `top` on. */
  ghost predicate IsTop(live: set<Node>, r: Node, top: nat) {
    top <= 4 && forall m | 0 <= m <= 4 :: Head(live, m, r) <==> top <= m
  }

  ghost function PromotedLink(reg: Registry, r: Node, level: int, left: Links, n: Node, m: int): Node?
    requires r in reg.links && n in reg.links
  {
    if level <= m < 4 && n == left.At(m + 1) then reg.links[r].At(m) else reg.links[n].At(m)
  }

  /** The link a remaining node must end up with: whoever led to `r` takes over the link of `r`,
      and a node promoted to head inherits the link `r` had. */
  ghost function NewLink(reg: Registry, r: Node, top: nat, left: Links, n: Node, m: int): Node?
    requires r in reg.links && n in reg.links
  {
    if reg.links[n].At(m) == r then left.At(m) else PromotedLink(reg, r, top, left, n, m)
  }

  /** What the pointers must be once `r` is taken out of every list it was on. */
  ghost predicate Unlinked(reg: Registry, r: Node, top: nat, buckets: seq<Node?>, links: map<Node, Links>)
    requires reg.links.Keys == Known(reg) && r in reg.live
  {
    && links.Keys == reg.links.Keys && |buckets| == |reg.buckets|
    && (forall m | 1 <= m <= 4 && top <= m :: IsHeir(reg.live, m - 1, r, links[r].At(m)))
    && (forall m | 1 <= m <= 4 && m < top :: links[r].At(m) == reg.links[r].At(m))
    && (forall d | d in reg.dead :: links[d] == reg.links[d])
    && (forall n, m | n in reg.live && n != r && 1 <= m <= 4 ::
          links[n].At(m) == NewLink(reg, r, top, links[r], n, m))
    && (forall b | 0 <= b < |buckets| ::
          buckets[b] == if reg.buckets[b] == r then links[r].At(1) else reg.buckets[b])
  }

  lemma RemovedLinks(reg: Registry, r: Node, top: nat, left: Links, n: Node, m: int)
    requires Stamped(reg) && Linked(reg) && r in reg.live && IsTop(reg.live, r, top)
    requires forall m | 1 <= m <= 4 && top <= m :: IsHeir(reg.live, m - 1, r, left.At(m))
    requires 1 <= m <= 4 && n in reg.live && n != r
    ensures IsNext(reg.live - {r}, m, n, NewLink(reg, r, top, left, n, m))
  {
    var live, t, rt := reg.live, reg.links[n].At(m), reg.links[r].At(m);
    assert BirthsDistinct(live) && IsNext(live, m, n, t) && IsNext(live, m, r, rt);
    hide Stamped, Linked, Frozen, IsFirst, IsNext, IsHeir, Head, SameGroup, BirthsDistinct;
    var u: Node?;
    if top <= m < 4 {
      u := left.At(m + 1);
      assert IsHeir(live, m + 1 - 1, r, u);
    } else {
      u := FindHeir(live, m, r);
      if m == 4 {
        NoHeirAtLeaf(live, r);
        HeirUnique(live, 4, r, u, null);
      }
    }
    RemoveKeepsLinks(live, r, m, n, t, rt, u);
    if t == r {
      PredecessorUnique(live, r, m, n, m, n);
      HeirUp(live, m, r, u, rt);
      HeirUnique(live, m - 1, r, left.At(m), if u != null then u else rt);
    }
  }

  lemma RemovedLinked(reg: Registry, r: Node, top: nat, buckets: seq<Node?>, links: map<Node, Links>)
    requires Stamped(reg) && Linked(reg) && r in reg.live && IsTop(reg.live, r, top)
    requires Unlinked(reg, r, top, buckets, links)
    ensures Linked(Removed(reg, r, top, buckets, links))
  {
    var reg' := Removed(reg, r, top, buckets, links);
    assert Known(reg') == Known(reg);
    forall n, m | n in reg'.live && 1 <= m <= 4 ensures IsNext(reg'.live, m, n, links[n].At(m)) {
      RemovedLinks(reg, r, top, links[r], n, m);
    }
    forall d, m | d in reg'.dead && 1 <= m <= 4 && reg'.dead[d].top <= m
      ensures Frozen(reg', m, d, links[d].At(m))
    {
      if d == r {
        NewlyFrozen(reg, r, top, buckets, links, m, links[r].At(m));
      } else {
        RemovalKeepsFrozen(reg, r, top, buckets, links, d, m, links[d].At(m));
      }
    }
    forall b | 0 <= b < |buckets| ensures IsFirst(reg'.live, b, buckets[b]) {
      var u := FindHeir(reg.live, 0, r);
      if top <= 1 { HeirUnique(reg.live, 0, r, u, links[r].At(1)); }
      RemoveKeepsBuckets(reg.live, r, b, reg.buckets[b], u);
    }
  }

  lemma RemovedEvolves(reg: Registry, r: Node, top: nat, buckets: seq<Node?>, links: map<Node, Links>)
    requires Stamped(reg) && r in reg.live && IsTop(reg.live, r, top)
    ensures Evolves(reg, Removed(reg, r, top, buckets, links))
    ensures Known(Removed(reg, r, top, buckets, links)) == Known(reg)
    ensures Removed(reg, r, top, buckets, links).live == reg.live - {r}
  {
  }

  lemma RemovedConsistent(reg: Registry, nameOf: string -> FName, r: Node, top: nat, buckets: seq<Node?>,
                          links: map<Node, Links>)
    requires Consistent(reg, nameOf) && r in reg.live && IsTop(reg.live, r, top)
    requires Unlinked(reg, r, top, buckets, links)
    ensures Consistent(Removed(reg, r, top, buckets, links), nameOf)
    ensures HasIdentifier(Lookup(Abs(reg), KeyOf(r)), r.identifier)
    ensures Abs(Removed(reg, r, top, buckets, links)) == RemoveEntry(Abs(reg), KeyOf(r), r.identifier)
    ensures Evolves(reg, Removed(reg, r, top, buckets, links))
    ensures Known(Removed(reg, r, top, buckets, links)) == Known(reg)
    ensures Removed(reg, r, top, buckets, links).live == reg.live - {r}
  {
    assert reg.links.Keys == Known(reg) && top <= 4;
    hide Stamped, GroupsKeyed, KeysDistinct, Listed, Linked, Unlinked, IsTop, Evolves, Abs, HasIdentifier,
      RemoveEntry, Removed;
    RemovedEvolves(reg, r, top, buckets, links);
    RemovedKeyed(reg, nameOf, r, top, buckets, links);
    RemovedDistinct(reg, r, top, buckets, links);
    RemovedListed(reg, r, top, buckets, links);
    RemovedAbs(reg, r, top, buckets, links);
    RemovedLinked(reg, r, top, buckets, links);
  }

  /** Promoting the heir of `r` to head of one layer: the heir takes over the link of `r`, and `r`
      leads to the heir. */
  ghost function Promoted(links: map<Node, Links>, r: Node, level: int): map<Node, Links>
    requires r in links && (links[r].At(level + 1) != null ==> links[r].At(level + 1) in links)
  {
    var heir := links[r].At(level + 1);
    if heir == null then links
    else
      var given := links[heir := links[heir].Set(level, links[r].At(level))];
      given[r := given[r].Set(level, heir)]
  }

  /** The pointers after the promotions of all layers from `level` on. */
  ghost predicate PromotedDownTo(reg: Registry, r: Node, level: int, links: map<Node, Links>)
    requires reg.links.Keys == Known(reg) && r in reg.live
  {
    && links.Keys == reg.links.Keys
    && (forall m | level <= m <= 4 :: IsHeir(reg.live, m - 1, r, links[r].At(m)))
    && (forall m | 1 <= m < level :: links[r].At(m) == reg.links[r].At(m))
    && (forall d | d in reg.dead :: links[d] == reg.links[d])
    && (forall n, m | n in reg.live && n != r && 1 <= m <= 4 ::
          links[n].At(m) == PromotedLink(reg, r, level, links[r], n, m))
  }

  lemma PromotionStarts(reg: Registry, r: Node)
    requires Stamped(reg) && Linked(reg) && r in reg.live
    ensures PromotedDownTo(reg, r, 4, reg.links)
  {
  }

  lemma PromotionContinues(reg: Registry, r: Node, level: int, links: map<Node, Links>)
    requires Stamped(reg) && Linked(reg) && r in reg.live && 1 <= level <= 3
    requires Head(reg.live, level, r) && PromotedDownTo(reg, r, level + 1, links)
    ensures links[r].At(level + 1) != null ==> links[r].At(level + 1) in links && links[r].At(level + 1) != r
    ensures PromotedDownTo(reg, r, level, Promoted(links, r, level))
  {
    var heir, t := links[r].At(level + 1), reg.links[r].At(level);
    assert IsHeir(reg.live, level + 1 - 1, r, heir) && IsNext(reg.live, level, r, t);
    assert heir != r && (heir != null ==> heir in reg.live && heir !in reg.dead);
    assert reg.links.Keys == Known(reg) && r !in reg.dead;
    HeirUp(reg.live, level, r, heir, t);
    PromotionMoves(reg, r, level, links, heir, t);
  }

  lemma PromotionReady(reg: Registry, nameOf: string -> FName, r: Node, top: nat, level: int, links: map<Node, Links>)
    requires Consistent(reg, nameOf) && reg.links.Keys == Known(reg) && r in reg.live && 1 <= level <= 3
    requires IsTop(reg.live, r, top) && top <= level && PromotedDownTo(reg, r, level + 1, links)
    ensures r in links && links.Keys == Known(reg)
    ensures links[r].At(level + 1) != null ==> links[r].At(level + 1) in reg.live && links[r].At(level + 1) != r
    ensures PromotedDownTo(reg, r, level, Promoted(links, r, level))
  {
    assert IsHeir(reg.live, level + 1 - 1, r, links[r].At(level + 1));
    PromotionContinues(reg, r, level, links);
  }

  lemma PromotionMoves(reg: Registry, r: Node, level: int, links: map<Node, Links>, heir: Node?, t: Node?)
    requires reg.links.Keys == Known(reg) && reg.live !! reg.dead.Keys && r in reg.live && 1 <= level <= 3
    requires PromotedDownTo(reg, r, level + 1, links)
    requires heir == links[r].At(level + 1) && heir != r && (heir != null ==> heir in reg.live)
    requires t == reg.links[r].At(level)
    requires IsHeir(reg.live, level - 1, r, if heir != null then heir else t)
    ensures PromotedDownTo(reg, r, level, Promoted(links, r, level))
  {
    hide IsHeir;
    var links' := Promoted(links, r, level);
    forall m | 1 <= m <= 4
      ensures links'[r].At(m) == if m == level && heir != null then heir else links[r].At(m)
    {
    }
    forall n, m | n in reg.live && n != r && 1 <= m <= 4
      ensures links'[n].At(m) == if m == level && n == heir then t else links[n].At(m)
    {
    }
  }

  /** After the promotions, the node in front of `r` is led past it. */
  lemma BypassUnlinks(reg: Registry, r: Node, top: nat, before: Node?, promoted: map<Node, Links>,
                      buckets: seq<Node?>, links: map<Node, Links>)
    requires Stamped(reg) && Linked(reg) && r in reg.live && IsTop(reg.live, r, top) && r.bucket < |reg.buckets|
    requires PromotedDownTo(reg, r, if top == 0 then 1 else top, promoted)
    requires if top == 0 then before == null
             else before != null && before in reg.live && reg.links[before].At(top) == r
    requires buckets == if top == 0 then reg.buckets[r.bucket := promoted[r].At(1)] else reg.buckets
    requires links == if top == 0 then promoted
                      else promoted[before := promoted[before].Set(top, promoted[r].At(top))]
    ensures Unlinked(reg, r, top, buckets, links)
  {
    assert BirthsDistinct(reg.live);
    forall n, m | n in reg.live && n != r && 1 <= m <= 4
      ensures links[n].At(m) == NewLink(reg, r, top, links[r], n, m)
    {
      if reg.links[n].At(m) == r {
        PredecessorUnique(reg.live, r, m, n, m, n);
        if top >= 1 { PredecessorUnique(reg.live, r, m, n, top, before); }
      }
    }
    forall b | 0 <= b < |buckets|
      ensures buckets[b] == if reg.buckets[b] == r then links[r].At(1) else reg.buckets[b]
    {
      var u := FindHeir(reg.live, 0, r);
      RemoveKeepsBuckets(reg.live, r, b, reg.buckets[b], u);
    }
  }

  // ---- walking one layer --------------------------------------------------------------------

  /** `node` is on the list of this layer which starts at `start`. */
  ghost predicate OnLayer(live: set<Node>, level: int, start: Node, node: Node) {
    && node in live && SameGroup(level - 1, start, node) && Head(live, level, node)
    && (node == start || Before(start, node))
  }

  ghost predicate NoMatchBefore(live: set<Node>, level: int, start: Node, node: Node,
                                fname: FName, key: Key, identifier: string) {
    forall x | x in live :: SameGroup(level - 1, start, x) && Before(x, node) ==>
      !Matches(level, x, fname, key, identifier)
  }

  ghost predicate NoMatch(live: set<Node>, level: int, start: Node, fname: FName, key: Key, identifier: string) {
    forall x | x in live :: SameGroup(level - 1, start, x) ==> !Matches(level, x, fname, key, identifier)
  }

  lemma SeekStart(live: set<Node>, level: int, start: Node, fname: FName, key: Key, identifier: string)
    requires 1 <= level <= 4 && LayerStart(live, level, start, fname, key)
    ensures start in live && OnLayer(live, level, start, start)
    ensures NoMatchBefore(live, level, start, start, fname, key, identifier)
  {
  }

  lemma SeekStep(reg: Registry, nameOf: string -> FName, level: int, start: Node, node: Node, next: Node?,
                 fname: FName, key: Key, identifier: string)
    requires Stamped(reg) && GroupsKeyed(reg, nameOf) && 1 <= level <= 4
    requires OnLayer(reg.live, level, start, node) && IsNext(reg.live, level, node, next)
    requires NoMatchBefore(reg.live, level, start, node, fname, key, identifier)
    requires !Matches(level, node, fname, key, identifier)
    ensures next == null ==> NoMatch(reg.live, level, start, fname, key, identifier)
    ensures next != null ==>
      && next in reg.live && OnLayer(reg.live, level, start, next) && next != start
      && NoMatchBefore(reg.live, level, start, next, fname, key, identifier)
      && Rest(reg.live, next) < Rest(reg.live, node)
  {
    forall x | x in reg.live && SameGroup(level - 1, start, x) && !Later(level, node, x)
      ensures Before(x, node) || !Matches(level, x, fname, key, identifier)
    {
    }
    if next != null {
      assert next in Rest(reg.live, node) && next !in Rest(reg.live, next);
    }
  }

  /** The first node of the group whose list of this layer is walked next. */
  ghost predicate LayerStart(live: set<Node>, level: int, n: Node, fname: FName, key: Key) {
    n in live && Head(live, level - 1, n) && n.bucket == TableIndex(fname) && MatchesAbove(level, n, fname, key)
  }

  /** `last` ends the list of this layer, and a new node may be put behind it. */
  ghost predicate EndOfLayer(reg: Registry, level: int, last: Node, fname: FName, key: Key, identifier: string) {
    && last in reg.live && last.bucket == TableIndex(fname) && Head(reg.live, level, last)
    && last in reg.links && reg.links[last].At(level) == null
    && MatchesAbove(level, last, fname, key) && Absent(reg.live, level, fname, key, identifier)
  }

  lemma NoMatchAbsent(reg: Registry, nameOf: string -> FName, level: int, start: Node,
                      fname: FName, key: Key, identifier: string)
    requires Consistent(reg, nameOf) && 1 <= level <= 4
    requires fname == nameOf(key.fullName) && LayerStart(reg.live, level, start, fname, key)
    requires NoMatch(reg.live, level, start, fname, key, identifier)
    ensures Absent(reg.live, level, fname, key, identifier)
  {
    forall n | n in reg.live
      ensures (n.fname == fname ==> SameGroup(0, start, n))
      ensures (level >= 2 && n.fname == fname ==> SameGroup(1, start, n))
      ensures (level >= 3 && n.fullName == key.fullName ==> SameGroup(2, start, n))
      ensures (level >= 4 && KeyOf(n) == key ==> SameGroup(3, start, n))
    {
      assert KeysGrouped(start, n);
    }
  }

  /** What the walks of the layers above matched, the whole group matches. */
  lemma GroupMatches(reg: Registry, nameOf: string -> FName, level: int, start: Node, node: Node, fname: FName,
                     key: Key)
    requires GroupsKeyed(reg, nameOf) && start in reg.live && node in reg.live && 1 <= level <= 4
    requires SameGroup(level - 1, start, node) && MatchesAbove(level, start, fname, key)
    ensures MatchesAbove(level, node, fname, key) && node.bucket == start.bucket
  {
  }

  lemma FoundOnLayer(reg: Registry, nameOf: string -> FName, level: int, start: Node, node: Node,
                     fname: FName, key: Key, identifier: string)
    requires Consistent(reg, nameOf) && 1 <= level <= 4
    requires LayerStart(reg.live, level, start, fname, key) && OnLayer(reg.live, level, start, node)
    requires Matches(level, node, fname, key, identifier)
    ensures level < 4 ==> LayerStart(reg.live, level + 1, node, fname, key)
    ensures level == 4 ==> KeyOf(node) == key && node.identifier == identifier
    ensures level == 4 ==> HasIdentifier(Lookup(Abs(reg), key), identifier)
    ensures Head(reg.live, level, node) && (node != start ==> !Head(reg.live, level - 1, node))
  {
    hide Stamped, GroupsKeyed, KeysDistinct, Listed, Linked, HasIdentifier, Abs, Lookup;
    HasIdentifierLive(reg, key, identifier);
    GroupMatches(reg, nameOf, level, start, node, fname, key);
  }

  lemma MissedOnLayer(reg: Registry, nameOf: string -> FName, level: int, start: Node, last: Node,
                      fname: FName, key: Key, identifier: string)
    requires Consistent(reg, nameOf) && 1 <= level <= 4 && fname == nameOf(key.fullName)
    requires LayerStart(reg.live, level, start, fname, key) && OnLayer(reg.live, level, start, last)
    requires NoMatch(reg.live, level, start, fname, key, identifier)
    requires last in reg.links && reg.links[last].At(level) == null
    ensures EndOfLayer(reg, level, last, fname, key, identifier)
    ensures !HasIdentifier(Lookup(Abs(reg), key), identifier)
  {
    NoMatchAbsent(reg, nameOf, level, start, fname, key, identifier);
    HasIdentifierLive(reg, key, identifier);
  }

  // ---- what every run of operations keeps ---------------------------------------------------

  /** `n` heads its group of this level, or did so when it was removed. */
  ghost predicate EverHead(reg: Registry, level: int, n: Node) {
    && n in Known(reg)
    && (n in reg.live ==> Head(reg.live, level, n))
    && (n in reg.dead ==> reg.dead[n].top <= level)
  }

  /** How the registry may change over time: nodes are only ever born and removed, a removed node
      never comes back, and both births and removals carry the time they happened at. */
  ghost predicate Evolves(a: Registry, b: Registry) {
    && a.clock <= b.clock
    && Known(a) <= Known(b)
    && (forall n | n in a.dead :: n in b.dead && b.dead[n] == a.dead[n])
    && (forall n | n in b.dead && n !in a.dead :: a.clock <= b.dead[n].time)
    && (forall n | n in Known(b) && n !in Known(a) :: a.clock <= n.birth)
    && (forall n, m | n in Known(a) && 0 <= m <= 4 && EverHead(a, m, n) :: EverHead(b, m, n))
  }

  lemma EvolvesTransitive(a: Registry, b: Registry, c: Registry)
    requires Evolves(a, b) && Evolves(b, c)
    ensures Evolves(a, c)
  {
  }

  /** The links of nodes which were removed by `a` are the same in `b`. */
  ghost predicate LinksFrozen(a: Registry, b: Registry) {
    forall d | d in a.dead && d in a.links :: d in b.links && b.links[d] == a.links[d]
  }

  lemma LinksFrozenTransitive(a: Registry, b: Registry, c: Registry)
    requires Evolves(a, b) && LinksFrozen(a, b) && LinksFrozen(b, c)
    ensures LinksFrozen(a, c)
  {
  }

  /** One call of `AddHook`: time moves on, and the entry is appended if its identifier is new. */
  ghost predicate AddsEntry(a: Registry, b: Registry, key: Key, entry: Entry) {
    && Evolves(a, b) && LinksFrozen(a, b)
    && Abs(b) == AddEntry(Abs(a), key, entry)
    && |Known(b)| == |Known(a)| + (if HasIdentifier(Lookup(Abs(a), key), entry.identifier) then 0 else 1)
    && b.dead == a.dead && a.live <= b.live
    && forall n | n in b.live && n !in a.live :: KeyOf(n) == key && n.identifier == entry.identifier
  }

  lemma AddsNothing(reg: Registry, key: Key, entry: Entry)
    requires HasIdentifier(Lookup(Abs(reg), key), entry.identifier)
    ensures AddsEntry(reg, reg, key, entry) && Lookup(Abs(reg), key) != []
  {
  }

  /** One call of `RemoveHook`: the entry is cut out if it is there; its node stays known, and keeps
      the link of its collection. */
  ghost predicate RemovesEntry(a: Registry, b: Registry, key: Key, identifier: string) {
    && Evolves(a, b) && LinksFrozen(a, b)
    && Abs(b) == RemoveEntry(Abs(a), key, identifier)
    && Known(b) == Known(a) && b.live <= a.live
    && forall n | n in a.live && n !in b.live ::
         && KeyOf(n) == key && n.identifier == identifier
         && n in a.links && n in b.links && b.links[n].At(4) == a.links[n].At(4)
  }

  lemma RemovesNothing(reg: Registry, key: Key, identifier: string)
    requires !HasIdentifier(Lookup(Abs(reg), key), identifier)
    ensures RemovesEntry(reg, reg, key, identifier)
  {
  }

  /** Promotions change the links of the removed node, but not the one of its collection. */
  lemma LastLinkStays(reg: Registry, r: Node, top: nat, buckets: seq<Node?>, links: map<Node, Links>)
    requires Stamped(reg) && Linked(reg) && r in reg.live && IsTop(reg.live, r, top)
    requires Unlinked(reg, r, top, buckets, links)
    ensures r in reg.links && r in links && links[r].At(4) == reg.links[r].At(4)
    ensures LinksFrozen(reg, Removed(reg, r, top, buckets, links))
    ensures Removed(reg, r, top, buckets, links).links == links
  {
    hide Before, SameGroup;
    assert IsNext(reg.live, 4, r, reg.links[r].At(4));
    NextIsHeir(reg.live, r, reg.links[r].At(4));
    HeirUnique(reg.live, 3, r, links[r].At(4), reg.links[r].At(4));
  }

  lemma NextIsHeir(live: set<Node>, r: Node, t: Node?)
    requires r in live && IsNext(live, 4, r, t)
    ensures IsHeir(live, 3, r, t)
  {
  }

  /** Taking `r` out of every list it is on removes exactly its entry. */
  lemma BypassRemoves(reg: Registry, nameOf: string -> FName, r: Node, top: nat, before: Node?,
                      promoted: map<Node, Links>, buckets: seq<Node?>, links: map<Node, Links>)
    requires Consistent(reg, nameOf) && r in reg.live && IsTop(reg.live, r, top)
    requires reg.links.Keys == Known(reg) && PromotedDownTo(reg, r, if top == 0 then 1 else top, promoted)
    requires if top == 0 then before == null
             else before != null && before in reg.live && reg.links[before].At(top) == r
    requires r.bucket < |reg.buckets|
    requires buckets == if top == 0 then reg.buckets[r.bucket := promoted[r].At(1)] else reg.buckets
    requires links == if top == 0 then promoted
                      else promoted[before := promoted[before].Set(top, promoted[r].At(top))]
    ensures Consistent(Removed(reg, r, top, buckets, links), nameOf)
    ensures RemovesEntry(reg, Removed(reg, r, top, buckets, links), KeyOf(r), r.identifier)
    ensures HasIdentifier(Lookup(Abs(reg), KeyOf(r)), r.identifier)
  {
    BypassUnlinks(reg, r, top, before, promoted, buckets, links);
    hide Stamped, GroupsKeyed, KeysDistinct, Listed, Linked, IsTop, Abs, HasIdentifier, Evolves, LinksFrozen, Removed,
      Unlinked;
    RemovedConsistent(reg, nameOf, r, top, buckets, links);
    LastLinkStays(reg, r, top, buckets, links);
  }

  ghost predicate EmptyBucket(reg: Registry, fname: FName, key: Key, identifier: string) {
    && TableIndex(fname) < |reg.buckets| && reg.buckets[TableIndex(fname)] == null
    && Absent(reg.live, 0, fname, key, identifier)
  }

  /** `top` is the outermost level whose group `n` heads, and `before` leads to `n` on that layer. */
  ghost predicate PlaceOf(reg: Registry, n: Node, top: nat, before: Node?) {
    && IsTop(reg.live, n, top)
    && if top == 0 then before == null
       else before != null && before in reg.live && before in reg.links && reg.links[before].At(top) == n
  }

  lemma PlacedBy(reg: Registry, n: Node, top: nat, before: Node?)
    requires top <= 4 && Head(reg.live, top, n) && (top == 0 || !Head(reg.live, top - 1, n))
    requires if top == 0 then before == null
             else before != null && before in reg.live && before in reg.links && reg.links[before].At(top) == n
    ensures PlaceOf(reg, n, top, before)
  {
  }
}

/** Hook nodes and the order they are kept in.

    A node belongs to four nested groups: its hash bucket, the nodes of its FName, the nodes of its
    full name, and the nodes of its hook type.  Every time a group comes into being it is given a
    fresh stamp, so a group which empties and is later re-created is a different group.  Sorting
    nodes by (bucket, collision group, function group, type group, birth) puts each group in one
    contiguous run, and all four kinds of link lead forwards in this order. */
module HookOrder {
  type uint32 = n: nat | n < 0x1_0000_0000

  datatype FName = FName(index: uint32, number: uint32)

  datatype HookType = Pre | Post | PostUnconditional

  datatype Key = Key(fullName: string, hookType: HookType)

  const HASH_TABLE_SIZE: nat := 0x1000

  /** The two halves of a name, read as one little endian 64 bit integer, modulo the table size. */
  function TableIndex(fname: FName): (r: nat)
    ensures r < HASH_TABLE_SIZE
  {
    (fname.index + fname.number * 0x1_0000_0000) % HASH_TABLE_SIZE
  }

  /** The hash throws away the number of the name. */
  lemma TableIndexIgnoresNumber(fname: FName)
    ensures TableIndex(fname) == fname.index % HASH_TABLE_SIZE
  {
  }

  class Node {
    const fname: FName
    const fullName: string
    const hookType: HookType
    const identifier: string
    const callback: nat

    var nextCollision: Node?
    var nextFunction: Node?
    var nextType: Node?
    var nextInCollection: Node?

    ghost const bucket: nat
    ghost const collisionGroup: nat
    ghost const functionGroup: nat
    ghost const typeGroup: nat
    ghost const birth: nat

    constructor (fname: FName, key: Key, identifier: string, callback: nat,
                 ghost collisionGroup: nat, ghost functionGroup: nat, ghost typeGroup: nat, ghost birth: nat)
      ensures this.fname == fname && KeyOf(this) == key && this.identifier == identifier && this.callback == callback
      ensures bucket == TableIndex(fname)
      ensures this.collisionGroup == collisionGroup && this.functionGroup == functionGroup
      ensures this.typeGroup == typeGroup && this.birth == birth
      ensures AllLinks() == NO_LINKS
    {
      this.fname, this.fullName, this.hookType := fname, key.fullName, key.hookType;
      this.bucket := TableIndex(fname);
      this.identifier, this.callback := identifier, callback;
      this.collisionGroup, this.functionGroup, this.typeGroup, this.birth :=
        collisionGroup, functionGroup, typeGroup, birth;
      nextCollision, nextFunction, nextType, nextInCollection := null, null, null, null;
    }

    function AllLinks(): Links
      reads this
    {
      Links(nextCollision, nextFunction, nextType, nextInCollection)
    }

    method SetNext(level: int, t: Node?)
      requires 1 <= level <= 4
      modifies this
      ensures AllLinks() == old(AllLinks()).Set(level, t)
    {
      if level == 1 {
        nextCollision := t;
      } else if level == 2 {
        nextFunction := t;
      } else if level == 3 {
        nextType := t;
      } else {
        nextInCollection := t;
      }
    }

    /** The link of one layer. */
    function Next(level: int): Node?
      reads this
    {
      AllLinks().At(level)
    }
  }

  /** The four links of a node; layer 1 is collision, 2 function, 3 type, 4 collection. */
  datatype Links = Links(collision: Node?, function_: Node?, type_: Node?, collection: Node?) {
    function At(level: int): Node? {
      if level == 1 then collision
      else if level == 2 then function_
      else if level == 3 then type_
      else if level == 4 then collection
      else null
    }

    function Set(level: int, t: Node?): (r: Links)
      ensures forall m | 1 <= m <= 4 :: r.At(m) == if m == level then t else At(m)
    {
      if level == 1 then this.(collision := t)
      else if level == 2 then this.(function_ := t)
      else if level == 3 then this.(type_ := t)
      else if level == 4 then this.(collection := t)
      else this
    }
  }

  const NO_LINKS := Links(null, null, null, null)

  function KeyOf(n: Node): Key {
    Key(n.fullName, n.hookType)
  }

  /** Whether two nodes share their group of the given level: 0 bucket, 1 FName, 2 full name,
      3 type, 4 the node itself. */
  ghost predicate SameGroup(level: int, a: Node, b: Node) {
    if level >= 4 then a == b
    else
      && a.bucket == b.bucket
      && (level >= 1 ==> a.collisionGroup == b.collisionGroup)
      && (level >= 2 ==> a.functionGroup == b.functionGroup)
      && (level >= 3 ==> a.typeGroup == b.typeGroup)
  }

  /** The strict lexicographic order on (bucket, collision, function, type, birth). */
  ghost predicate Before(a: Node, b: Node) {
    if a.bucket != b.bucket then a.bucket < b.bucket
    else if a.collisionGroup != b.collisionGroup then a.collisionGroup < b.collisionGroup
    else if a.functionGroup != b.functionGroup then a.functionGroup < b.functionGroup
    else if a.typeGroup != b.typeGroup then a.typeGroup < b.typeGroup
    else a.birth < b.birth
  }

  /** The nodes which come after `n`. */
  ghost function Rest(nodes: set<Node>, n: Node): set<Node> {
    set x | x in nodes && Before(n, x)
  }

  /** What a node must have to be found while walking the list of one layer. */
  predicate Matches(level: int, n: Node, fname: FName, key: Key, identifier: string) {
    if level == 1 then n.fname == fname
    else if level == 2 then n.fullName == key.fullName
    else if level == 3 then n.hookType == key.hookType
    else n.identifier == identifier
  }

  ghost predicate BirthsDistinct(nodes: set<Node>) {
    forall a, b | a in nodes && b in nodes :: a.birth == b.birth ==> a == b
  }

  /** The first live node of its group. */
  ghost predicate Head(live: set<Node>, level: int, n: Node) {
    forall x | x in live :: SameGroup(level, x, n) ==> !Before(x, n)
  }

  /** `x` starts, or lies in, a later group of this level than `n`, inside the same enclosing group. */
  ghost predicate Later(level: int, n: Node, x: Node) {
    Before(n, x) && SameGroup(level - 1, n, x) && !SameGroup(level, n, x)
  }

  /** The link a live node must carry: heads lead to the head of the following group, every other
      node carries no link of this level. */
  ghost predicate IsNext(live: set<Node>, level: int, n: Node, t: Node?) {
    if !Head(live, level, n) then t == null
    else if t == null then forall x | x in live :: !Later(level, n, x)
    else
      && t in live && Later(level, n, t)
      && forall x | x in live :: Later(level, n, x) ==> !Before(x, t)
  }

  /** The earliest live node of a group after `n`. */
  ghost predicate IsHeir(live: set<Node>, level: int, n: Node, t: Node?) {
    if t == null then forall x | x in live :: !(Before(n, x) && SameGroup(level, n, x))
    else
      && t in live && Before(n, t) && SameGroup(level, n, t)
      && forall x | x in live :: Before(n, x) && SameGroup(level, n, x) ==> !Before(x, t)
  }

  /** The entry of a bucket. */
  ghost predicate IsFirst(live: set<Node>, bucket: nat, t: Node?) {
    if t == null then forall x | x in live :: x.bucket != bucket
    else
      && t in live && t.bucket == bucket
      && forall x | x in live :: x.bucket == bucket ==> !Before(x, t)
  }

  // ---- facts about the order alone ----------------------------------------------------------

  lemma HeadUp(live: set<Node>, level: int, n: Node)
    requires 0 <= level < 4 && Head(live, level, n)
    ensures Head(live, level + 1, n)
  {
  }

  // ---- adding a node ------------------------------------------------------------------------

  /** `x` is a new node which joins the groups of `last` below `level`, and starts fresh groups
      from `level` on. */
  ghost predicate Joins(live: set<Node>, level: int, last: Node, x: Node) {
    && 1 <= level <= 4
    && last in live && x !in live
    && SameGroup(level - 1, last, x)
    && (forall n | n in live ::
          && n.birth < x.birth
          && (level <= 1 ==> n.collisionGroup < x.collisionGroup)
          && (level <= 2 ==> n.functionGroup < x.functionGroup)
          && (level <= 3 ==> n.typeGroup < x.typeGroup))
  }

  /** Appending to the list of one layer changes the link of the last node, and no other. */
  lemma AppendKeepsLinks(live: set<Node>, level: int, last: Node, x: Node, m: int, n: Node, t: Node?)
    requires Joins(live, level, last, x)
    requires Head(live, level, last) && IsNext(live, level, last, null)
    requires 1 <= m <= 4 && n in live && IsNext(live, m, n, t)
    requires BirthsDistinct(live)
    ensures IsNext(live + {x}, m, n, if n == last && m == level then x else t)
  {
  }

  /** The new node itself heads its fresh groups, and carries no links. */
  lemma AppendedHasNoLinks(live: set<Node>, level: int, last: Node, x: Node, m: int)
    requires Joins(live, level, last, x)
    requires Head(live, level, last) && IsNext(live, level, last, null)
    requires 1 <= m <= 4
    ensures IsNext(live + {x}, m, x, null)
    ensures Before(last, x)
  {
  }

  // ---- removing a node ----------------------------------------------------------------------

  lemma HeirUp(live: set<Node>, level: int, r: Node, u: Node?, t: Node?)
    requires 1 <= level <= 4 && r in live
    requires Head(live, level, r) && IsNext(live, level, r, t) && IsHeir(live, level, r, u)
    ensures IsHeir(live, level - 1, r, if u != null then u else t)
  {
  }

  lemma NoHeirAtLeaf(live: set<Node>, r: Node)
    ensures IsHeir(live, 4, r, null) && Head(live, 4, r)
  {
  }

  lemma HeirUnique(live: set<Node>, level: int, r: Node, t: Node?, u: Node?)
    requires BirthsDistinct(live)
    requires IsHeir(live, level, r, t) && IsHeir(live, level, r, u)
    ensures t == u
  {
  }

  ghost predicate IsLeast(s: set<Node>, t: Node) {
    t in s && forall x | x in s :: !Before(x, t)
  }

  lemma {:induction false} LeastExists(s: set<Node>) returns (t: Node)
    requires s != {}
    ensures IsLeast(s, t)
  {
    t :| t in s;
    if s != {t} {
      var u := LeastExists(s - {t});
      if Before(u, t) { t := u; }
      assert forall x | x in s :: x == t || x == u || x in s - {t};
    }
  }

  lemma FindHeir(live: set<Node>, level: int, r: Node) returns (t: Node?)
    ensures IsHeir(live, level, r, t)
  {
    var s := set x | x in live && Before(r, x) && SameGroup(level, r, x);
    if s == {} {
      t := null;
      forall x | x in live ensures !(Before(r, x) && SameGroup(level, r, x)) { assert x !in s; }
    } else {
      t := LeastExists(s);
      forall x | x in live && Before(r, x) && SameGroup(level, r, x) ensures !Before(x, t) { assert x in s; }
    }
  }

  /** Removing `r`: the node which led to `r` must skip it, the node promoted to head of the group
      of `r` inherits the link of `r`, and every other link stays. */
  lemma RemoveKeepsLinks(live: set<Node>, r: Node, m: int, n: Node, t: Node?, rt: Node?, u: Node?)
    requires 1 <= m <= 4 && r in live && n in live && n != r
    requires BirthsDistinct(live)
    requires IsNext(live, m, n, t) && IsNext(live, m, r, rt) && IsHeir(live, m, r, u)
    ensures IsNext(live - {r}, m, n,
                   if t == r then (if u != null then u else rt)
                   else if Head(live, m, r) && n == u then rt
                   else t)
  {
    var rest := live - {r};
    if t == r {
      assert Head(live, m, r);
      assert Head(rest, m, n);
    } else if Head(live, m, r) && n == u {
      assert Head(rest, m, n);
      forall x | x in rest ensures Later(m, n, x) <==> Later(m, r, x) {}
    } else if Head(live, m, n) {
      assert Head(rest, m, n);
    } else {
      var y :| y in live && SameGroup(m, y, n) && Before(y, n);
      if y == r {
        if Head(live, m, r) {
          assert u != null && Before(u, n) && SameGroup(m, u, n);
        } else {
          var z :| z in live && SameGroup(m, z, r) && Before(z, r);
          assert z in rest && SameGroup(m, z, n) && Before(z, n);
        }
      }
      assert !Head(rest, m, n);
    }
  }

  /** A node has at most one predecessor, in at most one layer. */
  lemma PredecessorUnique(live: set<Node>, r: Node, m: int, n: Node, m': int, n': Node)
    requires 1 <= m <= 4 && 1 <= m' <= 4
    requires r in live && n in live && n' in live
    requires BirthsDistinct(live)
    requires IsNext(live, m, n, r) && IsNext(live, m', n', r)
    ensures m == m' && n == n'
    ensures Head(live, m, r) && !Head(live, m - 1, r)
  {
  }

  lemma RemoveKeepsBuckets(live: set<Node>, r: Node, bucket: nat, t: Node?, u: Node?)
    requires r in live && IsFirst(live, bucket, t) && IsHeir(live, 0, r, u)
    requires BirthsDistinct(live)
    ensures IsFirst(live - {r}, bucket, if t == r then u else t)
    ensures t == r ==> Head(live, 0, r)
    ensures bucket == r.bucket && Head(live, 0, r) ==> t == r
  {
  }
}

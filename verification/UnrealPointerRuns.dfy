/** Whole runs of operations on named pointers, and what they come to. */
module UnrealPointerRuns {
  import opened Ownership
  import opened UnrealPointer

  /** One operation on named pointers; one which names no pointer, or a name in use, does nothing. */
  datatype Op =
    | MakeNull(x: nat)
    | MakeOwner(x: nat, block: Block, fault: OwnerFault)
    | MakeAlias(x: nat, other: nat, ptr: int)
    | MakeCopy(x: nat, other: nat)
    | MakeMove(x: nat, other: nat)
    | AssignCopy(x: nat, other: nat)
    | AssignMove(x: nat, other: nat)
    | Drop(x: nat)

  // ---- what operations mean -----------------------------------------------------------------

  datatype Option = None | Some(value: nat)

  /** What a name stands for: the block it holds, if any, and the address it points to. */
  datatype Var = Var(block: Option, ptr: int)

  const NULL := Var(None, 0)

  /** The names in use, and all blocks which were ever made. */
  datatype View = View(vars: map<nat, Var>, blocks: seq<Block>)

  ghost function HoldersOf(vars: map<nat, Var>, b: nat): set<nat> {
    set x | x in vars && vars[x].block == Some(b)
  }

  /** `x` is the last to hold an object whose destructor throws. */
  ghost predicate LastHolderThrows(v: View, x: nat)
    requires x in v.vars
  {
    var block := v.vars[x].block;
    block.Some? && block.value < |v.blocks| && HoldersOf(v.vars, block.value) == {x} && v.blocks[block.value].Throws()
  }

  /** There is no more room for a holder of what `x` holds. */
  ghost predicate AtLimit(vars: map<nat, Var>, x: nat)
    requires x in vars
  {
    vars[x].block.Some? && |HoldersOf(vars, vars[x].block.value)| == MAX_REFS
  }

  ghost function Share(v: View, x: nat, other: nat, ptr: int): View {
    if x in v.vars || other !in v.vars || AtLimit(v.vars, other) then v
    else v.(vars := v.vars[x := Var(v.vars[other].block, ptr)])
  }

  ghost function Apply(v: View, op: Op): View {
    match op
    case MakeNull(x) => if x in v.vars then v else v.(vars := v.vars[x := NULL])
    case MakeOwner(x, block, fault) =>
      if x in v.vars || fault != NoFault then v
      else View(v.vars[x := Var(Some(|v.blocks|), block.Base())], v.blocks + [block])
    case MakeAlias(x, other, ptr) => Share(v, x, other, ptr)
    case MakeCopy(x, other) => Share(v, x, other, if other in v.vars then v.vars[other].ptr else 0)
    case MakeMove(x, other) =>
      if x in v.vars || other !in v.vars then v else v.(vars := v.vars[x := v.vars[other]][other := NULL])
    case AssignCopy(x, other) =>
      if x !in v.vars || other !in v.vars then v
      else if x == other || LastHolderThrows(v, x) || AtLimit(v.vars[x := NULL], other) then
        v.(vars := v.vars[x := NULL])
      else v.(vars := v.vars[x := v.vars[other]])
    case AssignMove(x, other) =>
      if x !in v.vars || other !in v.vars then v
      else v.(vars := v.vars[x := v.vars[other]][other := v.vars[x]])
    case Drop(x) => v.(vars := v.vars - {x})
  }

  ghost function ApplyAll(v: View, ops: seq<Op>): View {
    if ops == [] then v else Apply(ApplyAll(v, ops[..|ops| - 1]), ops[|ops| - 1])
  }

  // ---- what a program stands for ------------------------------------------------------------

  type Names = map<nat, Pointer>

  /** Every pointer has one name. */
  ghost predicate Named(names: Names, own: Owners) {
    && (forall x | x in names :: names[x] in own)
    && (forall p | p in own :: exists x :: x in names && names[x] == p)
    && Distinct(names)
  }

  ghost predicate Distinct(names: Names) {
    forall x, y | x in names && y in names && names[x] == names[y] :: x == y
  }

  ghost function IdOf(c: Control?): Option {
    if c == null then None else Some(c.id)
  }

  ghost function Ptrs(names: Names): (ptrs: map<nat, int>)
    reads names.Values
    ensures ptrs.Keys == names.Keys
  {
    map x | x in names :: names[x].ptr
  }

  ghost function VarsOf(names: Names, own: Owners, ptrs: map<nat, int>): (vars: map<nat, Var>)
    ensures vars.Keys == names.Keys
  {
    map x | x in names ::
      Var(if names[x] in own then IdOf(own[names[x]]) else None, if x in ptrs then ptrs[x] else 0)
  }

  ghost function BlocksOf(controls: seq<Control>): (blocks: seq<Block>)
    ensures |blocks| == |controls|
  {
    seq(|controls|, i requires 0 <= i < |controls| => controls[i].block)
  }

  ghost function ViewOf(program: Program, names: Names): View
    reads program, names.Values
  {
    View(VarsOf(names, program.own, Ptrs(names)), BlocksOf(program.controls))
  }

  lemma NamedMore(names: Names, own: Owners, x: nat, p: Pointer, after: Owners, more: Names)
    requires Named(names, own) && x !in names && p !in own && after.Keys == own.Keys + {p} && more == names[x := p]
    ensures Named(more, after)
  {
    forall q | q in after ensures exists y :: y in more && more[y] == q {
      if q == p {
        assert x in more;
      } else {
        assert q in own;
        var y :| y in names && names[y] == q;
        assert y in more;
      }
    }
    forall y | y in more ensures more[y] in after {
      if y != x { assert names[y] in own.Keys; }
    }
  }

  lemma NamedLess(names: Names, own: Owners, x: nat)
    requires Named(names, own) && x in names
    ensures Named(names - {x}, own - {names[x]})
  {
    forall q | q in own - {names[x]} ensures exists y :: y in names - {x} && (names - {x})[y] == q {
      var y :| y in names && names[y] == q;
      assert y in names - {x};
    }
  }

  lemma NamedSame(names: Names, own: Owners, after: Owners)
    requires Named(names, own) && after.Keys == own.Keys
    ensures Named(names, after)
  {
  }

  lemma VarsMore(names: Names, own: Owners, ptrs: map<nat, int>, x: nat, p: Pointer, c: Control?, ptr: int)
    requires Named(names, own) && ptrs.Keys == names.Keys && x !in names && p !in own
    ensures VarsOf(names[x := p], own[p := c], ptrs[x := ptr]) == VarsOf(names, own, ptrs)[x := Var(IdOf(c), ptr)]
  {
  }

  lemma VarsSet(names: Names, own: Owners, ptrs: map<nat, int>, x: nat, c: Control?, ptr: int)
    requires Named(names, own) && ptrs.Keys == names.Keys && x in names
    ensures VarsOf(names, own[names[x] := c], ptrs[x := ptr]) == VarsOf(names, own, ptrs)[x := Var(IdOf(c), ptr)]
  {
    NamesOwn(names, own);
    NamesDistinct(names, own);
    hide Named;
    forall y | y in names && y != x ensures own[names[x] := c][names[y]] == own[names[y]] {}
  }

  lemma VarsLess(names: Names, own: Owners, ptrs: map<nat, int>, x: nat)
    requires Named(names, own) && ptrs.Keys == names.Keys && x in names
    ensures VarsOf(names - {x}, own - {names[x]}, ptrs - {x}) == VarsOf(names, own, ptrs) - {x}
  {
    NamesOwn(names, own);
    NamesDistinct(names, own);
    hide Named;
    forall y | y in names && y != x ensures names[y] in own - {names[x]} {}
  }

  // ---- holders by name ----------------------------------------------------------------------

  /** Each control block is at its place, and so its number stands for it. */
  ghost predicate Numbered(own: Owners, controls: seq<Control>) {
    && (forall i | 0 <= i < |controls| :: controls[i].id == i)
    && (forall p | p in own && own[p] != null :: own[p] in controls)
  }

  lemma {:induction false} ImageSize(names: Names, xs: set<nat>)
    requires xs <= names.Keys && Distinct(names)
    ensures |set x | x in xs :: names[x]| == |xs|
  {
    var image := set x | x in xs :: names[x];
    if xs != {} {
      var x :| x in xs;
      ImageSize(names, xs - {x});
      assert image == (set y | y in xs - {x} :: names[y]) + {names[x]};
    }
  }

  lemma HoldersImage(names: Names, own: Owners, ptrs: map<nat, int>, controls: seq<Control>, c: Control)
    requires Named(names, own) && Numbered(own, controls) && c in controls
    ensures HoldersOf(VarsOf(names, own, ptrs), c.id) <= names.Keys
    ensures Holders(own, c) == set x | x in HoldersOf(VarsOf(names, own, ptrs), c.id) :: names[x]
  {
    var xs := HoldersOf(VarsOf(names, own, ptrs), c.id);
    forall p: object ensures p in Holders(own, c) <==> p in set x | x in xs :: names[x] {
      if p in Holders(own, c) {
        var x :| x in names && names[x] == p;
        assert x in xs;
      }
      if p in set x | x in xs :: names[x] {
        var x :| x in xs && names[x] == p;
        SameNumber(own, controls, names[x], c);
      }
    }
  }

  /** The pointers which hold a block are those whose names hold it. */
  lemma HoldersByName(names: Names, own: Owners, ptrs: map<nat, int>, controls: seq<Control>, c: Control)
    requires Named(names, own) && Numbered(own, controls) && c in controls
    ensures |Holders(own, c)| == |HoldersOf(VarsOf(names, own, ptrs), c.id)|
    ensures forall x | x in names :: Holders(own, c) == {names[x]} <==> HoldersOf(VarsOf(names, own, ptrs), c.id) == {x}
  {
    hide Named, Numbered, Holders, HoldersOf, VarsOf;
    var xs := HoldersOf(VarsOf(names, own, ptrs), c.id);
    HoldersImage(names, own, ptrs, controls, c);
    NamesDistinct(names, own);
    ImageSize(names, xs);
    forall x | x in names ensures Holders(own, c) == {names[x]} <==> xs == {x} {
      ImageSingle(names, xs, x);
    }
  }

  lemma ImageSingle(names: Names, xs: set<nat>, x: nat)
    requires Distinct(names) && xs <= names.Keys && x in names
    ensures (set y | y in xs :: names[y]) == {names[x]} <==> xs == {x}
  {
    var image := set y | y in xs :: names[y];
    if image == {names[x]} {
      assert names[x] in image;
      forall y | y in xs ensures y == x { assert names[y] in image; }
    }
  }

  lemma SameNumber(own: Owners, controls: seq<Control>, p: Pointer, c: Control)
    requires Numbered(own, controls) && p in own && c in controls && IdOf(own[p]) == Some(c.id)
    ensures own[p] == c
  {
  }

  /** Whether giving up or taking a reference throws can be told from the names. */
  lemma ThrowsByName(names: Names, own: Owners, ptrs: map<nat, int>, controls: seq<Control>, x: nat)
    requires Named(names, own) && Numbered(own, controls) && x in names
    ensures var v := View(VarsOf(names, own, ptrs), BlocksOf(controls));
      && (LastThrows(own, names[x]) <==> LastHolderThrows(v, x))
      && (Full(own, names[x]) <==> AtLimit(v.vars, x))
  {
    hide Holders, HoldersOf;
    if own[names[x]] != null {
      HoldersByName(names, own, ptrs, controls, own[names[x]]);
    }
  }

  /** In terms of names: every count is right, and a block is destroyed and freed, once, when the last
      name to hold it gives it up, and not before. */
  ghost predicate Balanced(controls: seq<Control>, v: View)
    reads controls
  {
    && BlocksOf(controls) == v.blocks
    && forall b | 0 <= b < |controls| ::
         && controls[b].refs == |HoldersOf(v.vars, b)|
         && controls[b].cleanups == if HoldersOf(v.vars, b) == {} then v.blocks[b].CleanedUp() else []
  }

  lemma ValidBalanced(program: Program, names: Names)
    requires program.Valid() && Named(names, program.own)
    ensures Balanced(program.controls, ViewOf(program, names))
  {
    hide Holders, HoldersOf, Named;
    forall b | 0 <= b < |program.controls|
      ensures |Holders(program.own, program.controls[b])| == |HoldersOf(ViewOf(program, names).vars, b)|
    {
      HoldersByName(names, program.own, Ptrs(names), program.controls, program.controls[b]);
    }
  }

  // ---- operations, on values ----------------------------------------------------------------

  ghost function ValueOf(names: Names, own: Owners, ptrs: map<nat, int>, controls: seq<Control>): View {
    View(VarsOf(names, own, ptrs), BlocksOf(controls))
  }

  lemma PtrsAre(names: Names, ptrs: map<nat, int>, x: nat, ptr: int)
    requires ptrs.Keys == names.Keys && x in names
    requires forall y | y in names :: names[y].ptr == if y == x then ptr else ptrs[y]
    ensures Ptrs(names) == ptrs[x := ptr]
  {
  }

  lemma VarsAt(names: Names, own: Owners, ptrs: map<nat, int>, x: nat)
    requires x in names && names[x] in own && x in ptrs
    ensures VarsOf(names, own, ptrs)[x] == Var(IdOf(own[names[x]]), ptrs[x])
  {
  }

  function Put<T>(m: map<nat, T>, x: nat, t: T): map<nat, T> {
    m[x := t]
  }

  lemma ViewMove(names: Names, own: Owners, ptrs: map<nat, int>, x: nat, other: nat, p: Pointer)
    requires Named(names, own) && ptrs.Keys == names.Keys && x !in names && other in names && p !in own
    ensures VarsOf(names[x := p], own[p := own[names[other]]][names[other] := null],
      Put(Put(ptrs, x, ptrs[other]), other, 0))
         == Put(Put(VarsOf(names, own, ptrs), x, VarsOf(names, own, ptrs)[other]), other, NULL)
  {
    hide VarsOf, Named;
    NamesOwn(names, own);
    NamedMore(names, own, x, p, own[p := own[names[other]]], names[x := p]);
    VarsAt(names, own, ptrs, other);
    VarsMore(names, own, ptrs, x, p, own[names[other]], ptrs[other]);
    VarsSet(names[x := p], own[p := own[names[other]]], ptrs[x := ptrs[other]], other, null, 0);
  }

  lemma ViewSwap(names: Names, own: Owners, ptrs: map<nat, int>, x: nat, other: nat)
    requires Named(names, own) && ptrs.Keys == names.Keys && x in names && other in names
    ensures var (vars, p, q) := (VarsOf(names, own, ptrs), names[x], names[other]);
      VarsOf(names, own[p := own[q]][q := own[p]], Put(Put(ptrs, x, ptrs[other]), other, ptrs[x]))
      == Put(Put(vars, x, vars[other]), other, vars[x])
  {
    hide VarsOf, Named;
    NamesOwn(names, own);
    NamedSame(names, own, own[names[x] := own[names[other]]]);
    VarsAt(names, own, ptrs, x);
    VarsAt(names, own, ptrs, other);
    VarsSet(names, own, ptrs, x, own[names[other]], ptrs[other]);
    VarsSet(names, own[names[x] := own[names[other]]], ptrs[x := ptrs[other]], other, own[names[x]], ptrs[x]);
  }

  lemma MakeNullMeans(names: Names, own: Owners, ptrs: map<nat, int>, controls: seq<Control>, x: nat, p: Pointer)
    requires Named(names, own) && ptrs.Keys == names.Keys && x !in names && p !in own
    ensures ValueOf(names[x := p], own[p := null], ptrs[x := 0], controls)
         == Apply(ValueOf(names, own, ptrs, controls), MakeNull(x))
  {
    hide VarsOf, Named;
    VarsMore(names, own, ptrs, x, p, null, 0);
  }

  lemma MakeOwnerMeans(names: Names, own: Owners, ptrs: map<nat, int>, controls: seq<Control>, x: nat, block: Block,
                       p: Pointer, c: Control)
    requires Named(names, own) && ptrs.Keys == names.Keys && x !in names && p !in own
    requires c.block == block && c.id == |controls|
    ensures ValueOf(names[x := p], own[p := c], ptrs[x := block.Base()], controls + [c])
         == Apply(ValueOf(names, own, ptrs, controls), MakeOwner(x, block, NoFault))
  {
    hide VarsOf, Named;
    VarsMore(names, own, ptrs, x, p, c, block.Base());
    assert BlocksOf(controls + [c]) == BlocksOf(controls) + [block];
  }

  lemma ShareFails(names: Names, own: Owners, ptrs: map<nat, int>, controls: seq<Control>, x: nat, other: nat, ptr: int)
    requires Named(names, own) && Numbered(own, controls) && other in names && names[other] in own
    requires Full(own, names[other])
    ensures Share(ValueOf(names, own, ptrs, controls), x, other, ptr) == ValueOf(names, own, ptrs, controls)
  {
    hide VarsOf, Named, Full, AtLimit;
    ThrowsByName(names, own, ptrs, controls, other);
  }

  lemma ShareMeans(names: Names, own: Owners, ptrs: map<nat, int>, controls: seq<Control>, x: nat, other: nat, ptr: int,
                   p: Pointer)
    requires Named(names, own) && Numbered(own, controls) && ptrs.Keys == names.Keys && x !in names && other in names
    requires names[other] in own && !Full(own, names[other]) && p !in own
    ensures ValueOf(names[x := p], own[p := own[names[other]]], ptrs[x := ptr], controls)
         == Share(ValueOf(names, own, ptrs, controls), x, other, ptr)
  {
    hide VarsOf, Named, Full, AtLimit;
    ThrowsByName(names, own, ptrs, controls, other);
    VarsAt(names, own, ptrs, other);
    VarsMore(names, own, ptrs, x, p, own[names[other]], ptr);
  }

  lemma MoveMeans(names: Names, own: Owners, ptrs: map<nat, int>, controls: seq<Control>, x: nat, other: nat,
                  p: Pointer)
    requires Named(names, own) && ptrs.Keys == names.Keys && x !in names && other in names && p !in own
    ensures names[other] in own
    ensures ValueOf(names[x := p], own[p := own[names[other]]][names[other] := null],
                    Put(Put(ptrs, x, ptrs[other]), other, 0), controls)
         == Apply(ValueOf(names, own, ptrs, controls), MakeMove(x, other))
  {
    hide VarsOf, Named;
    NamesOwn(names, own);
    ViewMove(names, own, ptrs, x, other, p);
  }

  lemma AssignMoveMeans(names: Names, own: Owners, ptrs: map<nat, int>, controls: seq<Control>, x: nat, other: nat)
    requires Named(names, own) && ptrs.Keys == names.Keys && x in names && other in names
    ensures names[x] in own && names[other] in own
    ensures ValueOf(names, own[names[x] := own[names[other]]][names[other] := own[names[x]]],
                    Put(Put(ptrs, x, ptrs[other]), other, ptrs[x]), controls)
         == Apply(ValueOf(names, own, ptrs, controls), AssignMove(x, other))
  {
    hide VarsOf, Named;
    NamesOwn(names, own);
    ViewSwap(names, own, ptrs, x, other);
  }

  lemma CopyByName(names: Names, own: Owners, ptrs: map<nat, int>, controls: seq<Control>, x: nat, other: nat)
    requires Named(names, own) && Numbered(own, controls) && ptrs.Keys == names.Keys && x in names && other in names
    ensures names[x] in own && names[other] in own
    ensures var v := View(VarsOf(names, own, ptrs), BlocksOf(controls));
      && (LastThrows(own, names[x]) <==> LastHolderThrows(v, x))
      && (Full(own[names[x] := null], names[other]) <==> AtLimit(v.vars[x := NULL], other))
  {
    hide VarsOf, BlocksOf, Named, LastThrows, LastHolderThrows, Full, AtLimit;
    NamesOwn(names, own);
    ThrowsByName(names, own, ptrs, controls, x);
    NamedSame(names, own, own[names[x] := null]);
    ThrowsByName(names, own[names[x] := null], ptrs[x := 0], controls, other);
    VarsSet(names, own, ptrs, x, null, 0);
  }

  lemma AssignCopyMeans(names: Names, own: Owners, ptrs: map<nat, int>, controls: seq<Control>, x: nat, other: nat,
                        threw: bool)
    requires Named(names, own) && Numbered(own, controls) && ptrs.Keys == names.Keys && x in names && other in names
    requires names[x] in own && names[other] in own
    requires threw <==> LastThrows(own, names[x]) || Full(own[names[x] := null], names[other])
    ensures var lost := x == other || threw;
      ValueOf(names, own[names[x] := if lost then null else own[names[other]]],
        ptrs[x := if lost then 0 else ptrs[other]],
              controls)
      == Apply(ValueOf(names, own, ptrs, controls), AssignCopy(x, other))
  {
    hide VarsOf, Named, LastThrows, LastHolderThrows, Full, AtLimit;
    CopyByName(names, own, ptrs, controls, x, other);
    VarsSet(names, own, ptrs, x, null, 0);
    VarsSet(names, own, ptrs, x, own[names[other]], ptrs[other]);
    VarsAt(names, own, ptrs, other);
  }

  lemma DropMeans(names: Names, own: Owners, ptrs: map<nat, int>, controls: seq<Control>, x: nat)
    requires Named(names, own) && ptrs.Keys == names.Keys && x in names
    ensures names[x] in own
    ensures ValueOf(names - {x}, own - {names[x]}, ptrs - {x}, controls)
         == Apply(ValueOf(names, own, ptrs, controls), Drop(x))
  {
    VarsLess(names, own, ptrs, x);
  }

  lemma DropNothing(v: View, x: nat)
    requires x !in v.vars
    ensures Apply(v, Drop(x)) == v
  {
    assert v.vars - {x} == v.vars;
  }

  lemma Means(program: Program, names: Names)
    requires program.Valid() && Named(names, program.own)
    ensures Numbered(program.own, program.controls) && Distinct(names)
    ensures forall p | p in program.own :: p.control == program.own[p]
    ensures forall x | x in names :: names[x] in program.own && Ptrs(names)[x] == names[x].ptr
  {
  }

  lemma OthersDiffer(names: Names, x: nat)
    requires Distinct(names) && x in names
    ensures forall y | y in names && y != x :: names[y] != names[x]
  {
  }

  lemma PtrsMore(names: Names, ptrs: map<nat, int>, x: nat, p: Pointer)
    requires ptrs.Keys == names.Keys && forall y | y in names && y != x :: names[y].ptr == ptrs[y]
    ensures Ptrs(names[x := p]) == ptrs[x := p.ptr]
  {
  }

  lemma PtrsLess(names: Names, ptrs: map<nat, int>, x: nat)
    requires ptrs.Keys == names.Keys && forall y | y in names && y != x :: names[y].ptr == ptrs[y]
    ensures Ptrs(names - {x}) == ptrs - {x}
  {
  }

  lemma OwnerFails(v: View, x: nat, block: Block, fault: OwnerFault)
    requires fault != NoFault
    ensures Apply(v, MakeOwner(x, block, fault)) == v
  {
  }

  lemma ShareOps(v: View, x: nat, other: nat, ptr: int, op: Op, names: Names, own: Owners, ptrs: map<nat, int>)
    requires v.vars == VarsOf(names, own, ptrs) && other in names && other in ptrs
    requires op == MakeAlias(x, other, ptr) || (op == MakeCopy(x, other) && ptr == ptrs[other])
    ensures Apply(v, op) == Share(v, x, other, ptr)
  {
    hide Share;
  }

  // ---- running ------------------------------------------------------------------------------

  method RunMakeNull(program: Program, names: Names, x: nat) returns (after: Names)
    requires program.Valid() && Named(names, program.own) && x !in names
    modifies program, program.own.Keys, program.controls
    ensures program.Valid() && Named(after, program.own) && old(program.controls) <= program.controls
    ensures forall p | p in program.own && p !in old(program.own) :: fresh(p)
    ensures forall i | |old(program.controls)| <= i < |program.controls| :: fresh(program.controls[i])
    ensures ViewOf(program, after) == Apply(old(ViewOf(program, names)), MakeNull(x))
  {
    hide Program.Valid, Named, Distinct, Numbered, LastThrows, Full, VarsOf, BlocksOf, Ptrs, Apply, Share;
    ghost var own, ptrs, controls := program.own, Ptrs(names), program.controls;
    Means(program, names);
    var p := program.NewNull();
    after := names[x := p];
    NamedMore(names, own, x, p, program.own, after);
    MakeNullMeans(names, own, ptrs, controls, x, p);
    PtrsMore(names, ptrs, x, p);
  }

  method RunMakeOwner(program: Program, names: Names, x: nat, block: Block, fault: OwnerFault) returns (after: Names)
    requires program.Valid() && Named(names, program.own) && x !in names
    modifies program, program.own.Keys, program.controls
    ensures program.Valid() && Named(after, program.own) && old(program.controls) <= program.controls
    ensures forall p | p in program.own && p !in old(program.own) :: fresh(p)
    ensures forall i | |old(program.controls)| <= i < |program.controls| :: fresh(program.controls[i])
    ensures ViewOf(program, after) == Apply(old(ViewOf(program, names)), MakeOwner(x, block, fault))
  {
    hide Program.Valid, Named, Distinct, Numbered, LastThrows, Full, VarsOf, BlocksOf, Ptrs, Apply, Share;
    ghost var own, ptrs, controls := program.own, Ptrs(names), program.controls;
    Means(program, names);
    var p := program.NewOwner(block, fault);
    if p == null {
      assert Apply(ViewOf(program, names), MakeOwner(x, block, fault)) == ViewOf(program, names) by {
        OwnerFails(ViewOf(program, names), x, block, fault);
      }
      return names;
    }
    after := names[x := p];
    NamedMore(names, own, x, p, program.own, after);
    MakeOwnerMeans(names, own, ptrs, controls, x, block, p, p.control);
    PtrsMore(names, ptrs, x, p);
  }

  method RunShare(program: Program, names: Names, x: nat, other: nat, ptr: int, op: Op) returns (after: Names)
    requires program.Valid() && Named(names, program.own) && x !in names && other in names
    requires op == MakeAlias(x, other, ptr) || (op == MakeCopy(x, other) && ptr == names[other].ptr)
    modifies program, program.own.Keys, program.controls
    ensures program.Valid() && Named(after, program.own) && old(program.controls) <= program.controls
    ensures forall p | p in program.own && p !in old(program.own) :: fresh(p)
    ensures forall i | |old(program.controls)| <= i < |program.controls| :: fresh(program.controls[i])
    ensures ViewOf(program, after) == Apply(old(ViewOf(program, names)), op)
  {
    hide Program.Valid, Named, Distinct, Numbered, LastThrows, Full, VarsOf, BlocksOf, Ptrs, Apply, Share;
    ghost var own, ptrs, controls := program.own, Ptrs(names), program.controls;
    Means(program, names);
    ShareOps(ViewOf(program, names), x, other, ptr, op, names, own, ptrs);
    var p := program.Alias(names[other], ptr);
    if p == null {
      ShareFails(names, own, ptrs, controls, x, other, ptr);
      return names;
    }
    after := names[x := p];
    NamedMore(names, own, x, p, program.own, after);
    ShareMeans(names, own, ptrs, controls, x, other, ptr, p);
    PtrsMore(names, ptrs, x, p);
  }

  method RunMove(program: Program, names: Names, x: nat, other: nat) returns (after: Names)
    requires program.Valid() && Named(names, program.own) && x !in names && other in names
    modifies program, program.own.Keys, program.controls
    ensures program.Valid() && Named(after, program.own) && old(program.controls) <= program.controls
    ensures forall p | p in program.own && p !in old(program.own) :: fresh(p)
    ensures forall i | |old(program.controls)| <= i < |program.controls| :: fresh(program.controls[i])
    ensures ViewOf(program, after) == Apply(old(ViewOf(program, names)), MakeMove(x, other))
  {
    hide Program.Valid, Named, Distinct, Numbered, LastThrows, Full, VarsOf, BlocksOf, Ptrs, Apply, Share;
    ghost var own, ptrs, controls := program.own, Ptrs(names), program.controls;
    Means(program, names);
    ghost var q := names[other];
    OthersDiffer(names, other);
    var p := program.Move(names[other]);
    after := names[x := p];
    NamedMore(names, own, x, p, own[p := own[q]], after);
    NamedSame(after, own[p := own[q]], program.own);
    MoveMeans(names, own, ptrs, controls, x, other, p);
    PtrsAre(after, Put(ptrs, x, ptrs[other]), other, 0);
  }

  method RunAssignCopy(program: Program, names: Names, x: nat, other: nat) returns (after: Names)
    requires program.Valid() && Named(names, program.own) && x in names && other in names
    modifies program, program.own.Keys, program.controls
    ensures program.Valid() && Named(after, program.own) && old(program.controls) <= program.controls
    ensures forall p | p in program.own && p !in old(program.own) :: fresh(p)
    ensures forall i | |old(program.controls)| <= i < |program.controls| :: fresh(program.controls[i])
    ensures ViewOf(program, after) == Apply(old(ViewOf(program, names)), AssignCopy(x, other))
  {
    hide Program.Valid, Named, Distinct, Numbered, LastThrows, Full, VarsOf, BlocksOf, Ptrs, Apply, Share;
    ghost var own, ptrs, controls := program.own, Ptrs(names), program.controls;
    Means(program, names);
    after := names;
    OthersDiffer(names, x);
    var threw := program.CopyAssign(names[x], names[other]);
    NamedSame(names, own, program.own);
    AssignCopyMeans(names, own, ptrs, controls, x, other, threw);
    assert forall y | y in names && y != x :: names[y].ptr == ptrs[y];
    PtrsAre(names, ptrs, x, if x == other || threw then 0 else ptrs[other]);
  }

  method RunAssignMove(program: Program, names: Names, x: nat, other: nat) returns (after: Names)
    requires program.Valid() && Named(names, program.own) && x in names && other in names
    modifies program, program.own.Keys, program.controls
    ensures program.Valid() && Named(after, program.own) && old(program.controls) <= program.controls
    ensures forall p | p in program.own && p !in old(program.own) :: fresh(p)
    ensures forall i | |old(program.controls)| <= i < |program.controls| :: fresh(program.controls[i])
    ensures ViewOf(program, after) == Apply(old(ViewOf(program, names)), AssignMove(x, other))
  {
    hide Program.Valid, Named, Distinct, Numbered, LastThrows, Full, VarsOf, BlocksOf, Ptrs, Apply, Share;
    ghost var own, ptrs, controls := program.own, Ptrs(names), program.controls;
    Means(program, names);
    after := names;
    OthersDiffer(names, x);
    OthersDiffer(names, other);
    program.MoveAssign(names[x], names[other]);
    NamedSame(names, own, program.own);
    AssignMoveMeans(names, own, ptrs, controls, x, other);
    PtrsAre(names, Put(ptrs, x, ptrs[other]), other, ptrs[x]);
  }

  method RunDrop(program: Program, names: Names, x: nat) returns (after: Names)
    requires program.Valid() && Named(names, program.own)
    modifies program, program.own.Keys, program.controls
    ensures program.Valid() && Named(after, program.own) && old(program.controls) <= program.controls
    ensures forall p | p in program.own && p !in old(program.own) :: fresh(p)
    ensures forall i | |old(program.controls)| <= i < |program.controls| :: fresh(program.controls[i])
    ensures ViewOf(program, after) == Apply(old(ViewOf(program, names)), Drop(x))
    ensures after == names - {x}
  {
    hide Program.Valid, Named, Distinct, Numbered, LastThrows, Full, VarsOf, BlocksOf, Ptrs, Apply, Share;
    ghost var own, ptrs, controls := program.own, Ptrs(names), program.controls;
    Means(program, names);
    after := names - {x};
    if x in names {
      OthersDiffer(names, x);
      var threw := program.Destroy(names[x]);
      NamedLess(names, own, x);
      DropMeans(names, own, ptrs, controls, x);
      PtrsLess(names, ptrs, x);
    } else {
      assert after == names;
      DropNothing(ViewOf(program, names), x);
    }
  }

  /** Performs one operation, which does to the program what it means. */
  method Perform(program: Program, names: Names, op: Op) returns (after: Names)
    requires program.Valid() && Named(names, program.own)
    modifies program, program.own.Keys, program.controls
    ensures program.Valid() && Named(after, program.own) && old(program.controls) <= program.controls
    ensures forall p | p in program.own && p !in old(program.own) :: fresh(p)
    ensures forall i | |old(program.controls)| <= i < |program.controls| :: fresh(program.controls[i])
    ensures ViewOf(program, after) == Apply(old(ViewOf(program, names)), op)
    ensures op.Drop? ==> after == names - {op.x}
  {
    hide Named, Program.Valid, VarsOf, BlocksOf, Ptrs, LastHolderThrows, AtLimit;
    var isNew := op.x !in names;
    after := names;
    match op
    case MakeNull(x) =>
      if isNew { after := RunMakeNull(program, names, x); }
    case MakeOwner(x, block, fault) =>
      if isNew { after := RunMakeOwner(program, names, x, block, fault); }
    case MakeAlias(x, other, ptr) =>
      if isNew && other in names { after := RunShare(program, names, x, other, ptr, op); }
    case MakeCopy(x, other) =>
      if isNew && other in names { after := RunShare(program, names, x, other, names[other].ptr, op); }
    case MakeMove(x, other) =>
      if isNew && other in names { after := RunMove(program, names, x, other); }
    case AssignCopy(x, other) =>
      if !isNew && other in names { after := RunAssignCopy(program, names, x, other); }
    case AssignMove(x, other) =>
      if !isNew && other in names { after := RunAssignMove(program, names, x, other); }
    case Drop(x) =>
      after := RunDrop(program, names, x);
  }

  const NOTHING := View(map[], [])

  /** Any run of operations leaves the names and blocks it means to, and in balance. */
  method RunOps(ops: seq<Op>) returns (program: Program, names: Names)
    ensures fresh(program) && fresh(program.own.Keys) && fresh(program.controls)
    ensures program.Valid() && Named(names, program.own)
    ensures ViewOf(program, names) == ApplyAll(NOTHING, ops) && Balanced(program.controls, ApplyAll(NOTHING, ops))
  {
    hide Named, Program.Valid, VarsOf, BlocksOf, Ptrs, Apply, Balanced;
    program := new Program();
    names := map[];
    NothingNamed(program);
    for i := 0 to |ops|
      invariant fresh(program) && fresh(program.own.Keys) && fresh(program.controls)
      invariant program.Valid() && Named(names, program.own)
      invariant ViewOf(program, names) == ApplyAll(NOTHING, ops[..i])
    {
      assert ops[..i + 1][..i] == ops[..i];
      names := Perform(program, names, ops[i]);
    }
    assert ops[..|ops|] == ops;
    ValidBalanced(program, names);
  }

  lemma NothingNamed(program: Program)
    requires program.own == map[] && program.controls == []
    ensures Named(map[], program.own) && ViewOf(program, map[]) == NOTHING
  {
  }

  /** Once all names are dropped after any run, exactly the blocks the run made were cleaned up, each
      once: its elements destroyed in order, and then its memory freed. */
  method Run(ops: seq<Op>) returns (program: Program)
    ensures fresh(program) && program.Valid() && program.own == map[]
    ensures BlocksOf(program.controls) == ApplyAll(NOTHING, ops).blocks
    ensures forall b | 0 <= b < |program.controls| ::
      program.controls[b].refs == 0 && program.controls[b].cleanups == ApplyAll(NOTHING, ops).blocks[b].CleanedUp()
  {
    hide Named, Program.Valid, VarsOf, BlocksOf, Ptrs, Balanced, Apply, ApplyAll, ViewOf;
    var names;
    program, names := RunOps(ops);
    ghost var blocks := ApplyAll(NOTHING, ops).blocks;
    assert BlocksOf(program.controls) == blocks by { ViewHasBlocks(program, names); }
    while names != map[]
      invariant fresh(program) && fresh(program.own.Keys) && fresh(program.controls)
      invariant program.Valid() && Named(names, program.own)
      invariant BlocksOf(program.controls) == blocks
      decreases |names|
    {
      var x :| x in names;
      ghost var was := ViewOf(program, names);
      ViewHasBlocks(program, names);
      names := Perform(program, names, Drop(x));
      ViewHasBlocks(program, names);
      DropKeepsBlocks(was, x);
    }
    AllDropped(program, blocks);
  }

  lemma ViewHasBlocks(program: Program, names: Names)
    ensures ViewOf(program, names).blocks == BlocksOf(program.controls)
  {
  }

  lemma DropKeepsBlocks(v: View, x: nat)
    ensures Apply(v, Drop(x)).blocks == v.blocks
  {
  }

  lemma AllDropped(program: Program, blocks: seq<Block>)
    requires program.Valid() && Named(map[], program.own) && BlocksOf(program.controls) == blocks
    ensures program.own == map[]
    ensures forall b | 0 <= b < |program.controls| ::
      program.controls[b].refs == 0 && program.controls[b].cleanups == blocks[b].CleanedUp()
  {
    ValidBalanced(program, map[]);
    assert program.own == map[];
  }

  lemma NamesDistinct(names: Names, own: Owners)
    requires Named(names, own)
    ensures Distinct(names)
  {
  }

  lemma NamesOwn(names: Names, own: Owners)
    requires Named(names, own)
    ensures forall x | x in names :: names[x] in own
  {
  }
}

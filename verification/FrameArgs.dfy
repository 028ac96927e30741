/** Reading the arguments of a call out of the bytecode. */
module FrameArgs {
  const EXPR_TOKEN_END_FUNCTION_PARAMS: nat := 0x16

  datatype Prop = Prop(offset: nat, isReturn: bool)

  /** The value of an expression, and how many bytes of code it takes. */
  datatype Expr = Expr(size: nat, value: int)

  function Arguments(props: seq<Prop>): seq<Prop> {
    if props == [] then []
    else (if props[0].isReturn then [] else [props[0]]) + Arguments(props[1..])
  }

  /** The arguments are the properties which are not the return value, each as often. */
  lemma {:induction false} ArgumentsExact(props: seq<Prop>, p: Prop)
    ensures multiset(Arguments(props))[p] == if p.isReturn then 0 else multiset(props)[p]
  {
    if props != [] {
      assert props == [props[0]] + props[1..];
      ArgumentsExact(props[1..], p);
    }
  }

  /** ... in the same order. */
  lemma {:induction false} ArgumentsInOrder(props: seq<Prop>, k: nat)
    requires k < |props| && !props[k].isReturn
    ensures ArgumentAt(props, k)
  {
    if k > 0 {
      ArgumentsInOrder(props[1..], k - 1);
      assert props[..k][1..] == props[1..][..k - 1];
    }
  }

  /** The next argument is the next property, if that is one. */
  lemma ArgumentsFrom(props: seq<Prop>, k: nat, i: nat)
    requires k <= |props| && i <= |Arguments(props)| && Arguments(props)[i..] == Arguments(props[k..])
    ensures i < |Arguments(props)| ==> k < |props|
    ensures k < |props| && props[k].isReturn ==> Arguments(props)[i..] == Arguments(props[k + 1..])
    ensures k < |props| && !props[k].isReturn ==>
      && i < |Arguments(props)| && Arguments(props)[i] == props[k]
      && Arguments(props)[i + 1..] == Arguments(props[k + 1..])
  {
    if k < |props| {
      assert props[k..][1..] == props[k + 1..];
      if !props[k].isReturn {
        assert Arguments(props)[i..] == [props[k]] + Arguments(props[k + 1..]);
        assert Arguments(props)[i] == Arguments(props)[i..][0];
        assert Arguments(props)[i + 1..] == Arguments(props)[i..][1..];
      }
    }
  }

  /** The `k`-th property comes behind as many arguments as there are among the properties before it. */
  predicate ArgumentAt(props: seq<Prop>, k: nat)
    requires k < |props|
  {
    var i := |Arguments(props[..k])|;
    i < |Arguments(props)| && Arguments(props)[i] == props[k]
  }

  class FFrame {
    const code: seq<nat>
    /** What the engine makes of the expression at a position. */
    const eval: nat -> Expr
    var pos: nat

    constructor (code: seq<nat>, eval: nat -> Expr, pos: nat)
      ensures this.code == code && this.eval == eval && this.pos == pos
    {
      this.code, this.eval, this.pos := code, eval, pos;
    }

    /** From this position on, the code holds `n` expressions followed by the end token. */
    ghost predicate Encodes(from: nat, n: nat)
      decreases n
    {
      && from < |code|
      && if n == 0 then code[from] == EXPR_TOKEN_END_FUNCTION_PARAMS
         else (
           && code[from] != EXPR_TOKEN_END_FUNCTION_PARAMS && eval(from).size > 0
           && Encodes(from + eval(from).size, n - 1))
    }

    /** Where the i-th expression starts. */
    function Position(from: nat, i: nat): nat
      decreases i
    {
      if i == 0 then from else Position(from + eval(from).size, i - 1)
    }

    /** The argument values, written to the offsets of the argument properties. */
    function WriteArgs(props: seq<Prop>, from: nat, n: nat): map<nat, int>
      requires n <= |props|
    {
      if n == 0 then map[] else WriteArgs(props, from, n - 1)[props[n - 1].offset := eval(Position(from, n - 1)).value]
    }

    lemma {:induction false} PositionNext(from: nat, i: nat)
      ensures Position(from, i + 1) == Position(from, i) + eval(Position(from, i)).size
      decreases i
    {
      if i > 0 { PositionNext(from + eval(from).size, i - 1); }
    }

    lemma {:induction false} EncodesFrom(from: nat, n: nat, i: nat)
      requires Encodes(from, n) && i <= n
      ensures Encodes(Position(from, i), n - i)
      decreases i
    {
      if i > 0 { EncodesFrom(from + eval(from).size, n - 1, i - 1); }
    }

    /** The i-th value ends up at the offset of the i-th argument. */
    lemma {:induction false} ArgumentWritten(props: seq<Prop>, from: nat, n: nat, i: nat)
      requires i < n <= |props|
      requires forall j, k | 0 <= j < k < |props| :: props[j].offset != props[k].offset
      ensures props[i].offset in WriteArgs(props, from, n)
      ensures WriteArgs(props, from, n)[props[i].offset] == eval(Position(from, i)).value
    {
      if i < n - 1 { ArgumentWritten(props, from, n - 1, i); }
    }

    lemma {:induction false} WrittenOffsets(args: seq<Prop>, from: nat, n: nat)
      requires n <= |args|
      ensures WriteArgs(args, from, n).Keys == set i | 0 <= i < n :: args[i].offset
    {
      if n > 0 { WrittenOffsets(args, from, n - 1); }
    }

    /** Offsets being distinct, nothing is written where the return value is. */
    lemma ReturnNotWritten(props: seq<Prop>, from: nat, n: nat, p: Prop)
      requires n <= |Arguments(props)| && p in props && p.isReturn
      requires forall j, k | 0 <= j < k < |props| :: props[j].offset != props[k].offset
      ensures p.offset !in WriteArgs(Arguments(props), from, n)
    {
      WrittenOffsets(Arguments(props), from, n);
      forall i | 0 <= i < n ensures Arguments(props)[i].offset != p.offset {
        var q := Arguments(props)[i];
        ArgumentsExact(props, q);
        assert q in multiset(Arguments(props)) && q in multiset(props);
      }
    }

    /** The code ends where there are no expressions left. */
    lemma EncodesNext(from: nat, n: nat)
      requires Encodes(from, n)
      ensures from < |code| && (code[from] == EXPR_TOKEN_END_FUNCTION_PARAMS <==> n == 0)
      ensures n > 0 ==> Encodes(from + eval(from).size, n - 1)
    {
    }

    /** `i` of the arguments were read, and `k` of the properties looked at. */
    ghost predicate Reading(props: seq<Prop>, from: nat, n: nat, k: nat, i: nat, at: nat, args: map<nat, int>) {
      && i <= n <= |Arguments(props)| && at == Position(from, i) && Encodes(at, n - i)
      && k <= |props| && Arguments(props)[i..] == Arguments(props[k..])
      && args == WriteArgs(Arguments(props), from, i)
    }

    lemma ReadingStarts(props: seq<Prop>, from: nat, n: nat)
      requires Encodes(from, n) && n <= |Arguments(props)|
      ensures Reading(props, from, n, 0, 0, from, map[])
    {
    }

    lemma ReadingNext(props: seq<Prop>, from: nat, n: nat, k: nat, i: nat, at: nat, args: map<nat, int>)
      requires Reading(props, from, n, k, i, at, args)
      ensures at < |code| && (code[at] == EXPR_TOKEN_END_FUNCTION_PARAMS <==> i == n)
      ensures i == n ==> at == Position(from, n) && args == WriteArgs(Arguments(props), from, n)
      ensures i < n ==> k < |props|
      ensures i < n && props[k].isReturn ==> Reading(props, from, n, k + 1, i, at, args)
      ensures i < n && !props[k].isReturn ==>
        Reading(props, from, n, k + 1, i + 1, at + eval(at).size, args[props[k].offset := eval(at).value])
    {
      EncodesNext(at, n - i);
      ArgumentsFrom(props, k, i);
      PositionNext(from, i);
    }

    /** Evaluates the arguments into the args struct, leaving the code on the end token. */
    method ExtractCurrentArgs(props: seq<Prop>, ghost n: nat) returns (original: nat, args: map<nat, int>)
      requires Encodes(pos, n) && n <= |Arguments(props)|
      modifies this
      ensures original == old(pos)
      ensures pos == Position(old(pos), n)
      ensures args == WriteArgs(Arguments(props), old(pos), n)
    {
      original, args := pos, map[];
      if props == [] {
        return;
      }
      hide Encodes, Arguments, Position, WriteArgs, Reading;
      var k := 0;
      ghost var i := 0;
      ReadingStarts(props, original, n);
      ReadingNext(props, original, n, k, i, pos, args);
      while code[pos] != EXPR_TOKEN_END_FUNCTION_PARAMS
        invariant Reading(props, original, n, k, i, pos, args) && pos < |code|
        invariant code[pos] == EXPR_TOKEN_END_FUNCTION_PARAMS <==> i == n
        invariant i <= n && k <= |props|
        decreases |props| - k
      {
        ReadingNext(props, original, n, k, i, pos, args);
        if !props[k].isReturn {
          var expr := eval(pos);
          args := args[props[k].offset := expr.value];
          pos := pos + expr.size;
          i := i + 1;
        }
        k := k + 1;
        ReadingNext(props, original, n, k, i, pos, args);
      }
      ReadingNext(props, original, n, k, i, pos, args);
    }

    /** How the engine leaves the code when it evaluates the arguments itself. */
    method ConsumeArgs(ghost n: nat)
      requires Encodes(pos, n)
      modifies this
      ensures pos == Position(old(pos), n) + 1
    {
      ghost var i := 0;
      ghost var from := pos;
      while code[pos] != EXPR_TOKEN_END_FUNCTION_PARAMS
        invariant i <= n && pos == Position(from, i) && Encodes(pos, n - i)
        decreases n - i
      {
        PositionNext(from, i);
        pos := pos + eval(pos).size;
        i := i + 1;
      }
      pos := pos + 1;
    }
  }
}

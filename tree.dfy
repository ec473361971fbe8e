/** The instruction tree built by the structurer, and its flattening back to tags. */
module Tree {
  import opened Ops

  /** src/main.rs enum `Instruction`: six leaves and `Loop`, which owns its body. */
  datatype Instruction = Increment | Decrement | ShiftLeft | ShiftRight | PrintChar | GetChar
                       | Loop(body: seq<Instruction>)

  predicate IsBracket(o: Op)
  {
    o == LoopStart || o == LoopEnd
  }

  /** The leaf that the structurer appends for a non-bracket tag. */
  function Leaf(o: Op): (i: Instruction)
    requires !IsBracket(o)
    ensures !i.Loop? && Tag(i) == o
  {
    match o
    case Increment => Instruction.Increment
    case Decrement => Instruction.Decrement
    case ShiftLeft => Instruction.ShiftLeft
    case ShiftRight => Instruction.ShiftRight
    case PrintChar => Instruction.PrintChar
    case GetChar => Instruction.GetChar
  }

  /** The tag a leaf came from. */
  function Tag(i: Instruction): (o: Op)
    requires !i.Loop?
    ensures !IsBracket(o)
  {
    match i
    case Increment => Op.Increment
    case Decrement => Op.Decrement
    case ShiftLeft => Op.ShiftLeft
    case ShiftRight => Op.ShiftRight
    case PrintChar => Op.PrintChar
    case GetChar => Op.GetChar
  }

  /** Writes the tree back as tags: `Loop(b)` becomes `LoopStart`, the body, `LoopEnd`. */
  function Flatten(p: seq<Instruction>): seq<Op>
  {
    if p == [] then []
    else
      match p[0]
      case Loop(b) => [LoopStart] + Flatten(b) + [LoopEnd] + Flatten(p[1..])
      case _ => [Tag(p[0])] + Flatten(p[1..])
  }

  /** Number of leaf instructions in the whole tree. */
  function LeafCount(p: seq<Instruction>): nat
  {
    if p == [] then 0
    else (match p[0] case Loop(b) => LeafCount(b) case _ => 1) + LeafCount(p[1..])
  }

  /** Number of `Loop` nodes in the whole tree. */
  function LoopCount(p: seq<Instruction>): nat
  {
    if p == [] then 0
    else (match p[0] case Loop(b) => 1 + LoopCount(b) case _ => 0) + LoopCount(p[1..])
  }

  /** How deeply `Loop` nodes are nested. */
  function NestingDepth(p: seq<Instruction>): nat
  {
    if p == [] then 0
    else
      var here := match p[0] case Loop(b) => 1 + NestingDepth(b) case _ => 0;
      var rest := NestingDepth(p[1..]);
      if here < rest then rest else here
  }

  lemma {:induction false} FlattenAppend(a: seq<Instruction>, b: seq<Instruction>)
    ensures Flatten(a + b) == Flatten(a) + Flatten(b)
  {
    if a == [] {
      assert a + b == b;
    } else {
      assert (a + b)[0] == a[0] && (a + b)[1..] == a[1..] + b;
      FlattenAppend(a[1..], b);
    }
  }

  lemma FlattenSingleLoop(body: seq<Instruction>)
    ensures Flatten([Loop(body)]) == [LoopStart] + Flatten(body) + [LoopEnd]
  {
    assert [Loop(body)][1..] == [];
  }

  /** Whatever tree is flattened, its brackets are properly nested. */
  lemma {:induction false} FlattenNested(p: seq<Instruction>)
    ensures Nested(Flatten(p))
  {
    if p == [] {
      assert Flatten(p)[..0] == [];
    } else {
      FlattenNested(p[1..]);
      match p[0]
      case Loop(b) =>
        FlattenNested(b);
        NestedWrap(Flatten(b));
        NestedAppend([LoopStart] + Flatten(b) + [LoopEnd], Flatten(p[1..]));
      case _ =>
        var t := [Tag(p[0])];
        assert Nested(t) by {
          assert t[..0] == [] && t[..1] == t;
        }
        NestedAppend(t, Flatten(p[1..]));
    }
  }

  /** In `a + [LoopEnd] + rest` with `a` well nested, the first underflow is right after `a`. */
  lemma FirstUnderflow(a: seq<Op>, rest: seq<Op>)
    requires Nested(a)
    ensures Depth((a + [LoopEnd] + rest)[..|a| + 1]) == -1
  {
    assert (a + [LoopEnd] + rest)[..|a| + 1] == a + [LoopEnd];
    DepthAppend(a, [LoopEnd]);
  }

  /** If a shorter well nested `x` is followed by `LoopEnd`, the longer side's prefix underflows there. */
  lemma UnderflowInside(x: seq<Op>, xs: seq<Op>, y: seq<Op>, ys: seq<Op>)
    requires Nested(x) && |x| < |y|
    requires x + [LoopEnd] + xs == y + [LoopEnd] + ys
    ensures Depth(y[..|x| + 1]) == -1
  {
    FirstUnderflow(x, xs);
    assert (x + [LoopEnd] + xs)[..|x| + 1] == y[..|x| + 1];
  }

  /** A loop body is recovered from the tags following its `LoopStart`. */
  lemma BodyBoundary(x: seq<Op>, xs: seq<Op>, y: seq<Op>, ys: seq<Op>)
    requires Nested(x) && Nested(y)
    requires x + [LoopEnd] + xs == y + [LoopEnd] + ys
    ensures x == y && xs == ys
  {
    var w := x + [LoopEnd] + xs;
    if |x| < |y| {
      UnderflowInside(x, xs, y, ys);
      assert false;
    } else if |y| < |x| {
      UnderflowInside(y, ys, x, xs);
      assert false;
    }
    assert x == w[..|x|] == y;
    assert xs == w[|x| + 1..] == ys;
  }

  /** The first tag of a flattening comes from the first instruction. */
  lemma FirstTag(p: seq<Instruction>)
    ensures p == [] <==> Flatten(p) == []
    ensures p != [] ==> Flatten(p)[0] == if p[0].Loop? then LoopStart else Tag(p[0])
  {
  }

  /** Tag sequences have a unique tree: two trees with the same flattening are equal. */
  lemma {:induction false} FlattenInjective(a: seq<Instruction>, b: seq<Instruction>)
    requires Flatten(a) == Flatten(b)
    ensures a == b
  {
    FirstTag(a);
    FirstTag(b);
    if a == [] && b == [] {
    } else if a == [] || b == [] {
      assert false;
    } else if a[0].Loop? && b[0].Loop? {
      var x, y := a[0].body, b[0].body;
      FlattenNested(x);
      FlattenNested(y);
      assert Flatten(x) + [LoopEnd] + Flatten(a[1..]) == Flatten(a)[1..];
      assert Flatten(y) + [LoopEnd] + Flatten(b[1..]) == Flatten(b)[1..];
      BodyBoundary(Flatten(x), Flatten(a[1..]), Flatten(y), Flatten(b[1..]));
      FlattenInjective(x, y);
      FlattenInjective(a[1..], b[1..]);
      assert a == [a[0]] + a[1..] && b == [b[0]] + b[1..];
    } else if !a[0].Loop? && !b[0].Loop? {
      assert Flatten(a)[1..] == Flatten(a[1..]) && Flatten(b)[1..] == Flatten(b[1..]);
      FlattenInjective(a[1..], b[1..]);
      assert a == [a[0]] + a[1..] && b == [b[0]] + b[1..];
    } else {
      assert false;
    }
  }

  /** Every leaf is one non-bracket tag and every `Loop` one `LoopStart` and one `LoopEnd`. */
  lemma {:induction false} FlattenCounts(p: seq<Instruction>)
    ensures LoopCount(p) == multiset(Flatten(p))[LoopStart] == multiset(Flatten(p))[LoopEnd]
    ensures LeafCount(p) == |Flatten(p)| - multiset(Flatten(p))[LoopStart] - multiset(Flatten(p))[LoopEnd]
  {
    if p != [] {
      FlattenCounts(p[1..]);
      if p[0].Loop? {
        FlattenCounts(p[0].body);
      }
    }
  }

  /** The nesting depth of the tree is the deepest bracket nesting of its flattening. */
  lemma {:induction false} FlattenPeak(p: seq<Instruction>)
    ensures NestingDepth(p) == Peak(Flatten(p))
  {
    if p != [] {
      FlattenPeak(p[1..]);
      FlattenNested(p[1..]);
      match p[0]
      case Loop(b) =>
        FlattenPeak(b);
        FlattenNested(b);
        var w := [LoopStart] + Flatten(b) + [LoopEnd];
        NestedWrap(Flatten(b));
        PeakAppend(w, Flatten(p[1..]));
      case _ =>
        PeakAppend([Tag(p[0])], Flatten(p[1..]));
        PeakNonNegative(Flatten(p[1..]));
    }
  }
}

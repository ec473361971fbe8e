/** Operation tags produced by the lexer, and the bracket depth they carry. */
module Ops {
  /** One tag per command character (src/main.rs enum `Op`). */
  datatype Op = Increment | Decrement | ShiftLeft | ShiftRight | PrintChar | GetChar | LoopStart | LoopEnd

  /** Change of loop nesting contributed by one tag. */
  function Delta(o: Op): int
  {
    if o == LoopStart then 1 else if o == LoopEnd then -1 else 0
  }

  /** Number of `LoopStart` minus number of `LoopEnd`. */
  function Depth(ops: seq<Op>): int
  {
    if ops == [] then 0 else Delta(ops[0]) + Depth(ops[1..])
  }

  /** No prefix closes more loops than it has opened. */
  ghost predicate NeverUnderflows(ops: seq<Op>)
  {
    forall j :: 0 <= j <= |ops| ==> Depth(ops[..j]) >= 0
  }

  /** Every `LoopStart` is matched by a later `LoopEnd` and conversely. */
  ghost predicate Nested(ops: seq<Op>)
  {
    NeverUnderflows(ops) && Depth(ops) == 0
  }

  /** Deepest loop nesting reached by any prefix. */
  function Peak(ops: seq<Op>): int
  {
    if ops == [] then 0
    else
      var rest := Delta(ops[0]) + Peak(ops[1..]);
      if rest < 0 then 0 else rest
  }

  lemma {:induction false} DepthAppend(a: seq<Op>, b: seq<Op>)
    ensures Depth(a + b) == Depth(a) + Depth(b)
  {
    if a == [] {
      assert a + b == b;
    } else {
      assert (a + b)[1..] == a[1..] + b;
      DepthAppend(a[1..], b);
    }
  }

  /** Extending by one tag keeps the prefix property exactly when the new total is non-negative. */
  lemma NeverUnderflowsSnoc(a: seq<Op>, o: Op)
    ensures NeverUnderflows(a + [o]) <==> NeverUnderflows(a) && Depth(a + [o]) >= 0
  {
    var b := a + [o];
    forall j | 0 <= j <= |a| ensures b[..j] == a[..j] { }
    assert b[..|b|] == b;
    if NeverUnderflows(a) && Depth(b) >= 0 {
      forall j | 0 <= j <= |b| ensures Depth(b[..j]) >= 0 {
        if j <= |a| { assert b[..j] == a[..j]; }
      }
    }
  }

  /** Two sequences without underflow whose first part does not go below zero concatenate safely. */
  lemma NeverUnderflowsAppend(a: seq<Op>, b: seq<Op>)
    requires NeverUnderflows(a) && NeverUnderflows(b) && Depth(a) >= 0
    ensures NeverUnderflows(a + b)
  {
    forall j | 0 <= j <= |a + b| ensures Depth((a + b)[..j]) >= 0 {
      if j <= |a| {
        assert (a + b)[..j] == a[..j];
      } else {
        assert (a + b)[..j] == a + b[..j - |a|];
        DepthAppend(a, b[..j - |a|]);
      }
    }
  }

  /** Well nested sequences are closed under concatenation. */
  lemma NestedAppend(a: seq<Op>, b: seq<Op>)
    requires Nested(a) && Nested(b)
    ensures Nested(a + b)
  {
    NeverUnderflowsAppend(a, b);
    DepthAppend(a, b);
  }

  /** Wrapping a well nested sequence in a loop keeps it well nested and one level deeper. */
  lemma {:induction false} NestedWrap(a: seq<Op>)
    requires Nested(a)
    ensures Nested([LoopStart] + a + [LoopEnd])
    ensures Peak([LoopStart] + a + [LoopEnd]) == 1 + Peak(a)
  {
    var w := [LoopStart] + a + [LoopEnd];
    DepthAppend([LoopStart] + a, [LoopEnd]);
    DepthAppend([LoopStart], a);
    forall j | 0 <= j <= |w| ensures Depth(w[..j]) >= 0 {
      if 1 <= j <= |a| + 1 {
        assert w[..j] == [LoopStart] + a[..j - 1];
        DepthAppend([LoopStart], a[..j - 1]);
      } else if j == |a| + 2 {
        assert w[..j] == w;
      }
    }
    assert w[1..] == a + [LoopEnd];
    PeakAppend(a, [LoopEnd]);
    PeakNonNegative(a);
  }

  lemma {:induction false} PeakNonNegative(a: seq<Op>)
    ensures Peak(a) >= 0
  {
  }

  /** `Peak` is the prefix maximum: no prefix is deeper, and some prefix reaches it. */
  lemma {:induction false} PeakBounds(ops: seq<Op>)
    ensures forall j :: 0 <= j <= |ops| ==> Depth(ops[..j]) <= Peak(ops)
    ensures exists j :: 0 <= j <= |ops| && Depth(ops[..j]) == Peak(ops)
  {
    assert ops[..0] == [];
    if ops != [] {
      var rest := ops[1..];
      PeakBounds(rest);
      PeakNonNegative(ops);
      forall j | 1 <= j <= |ops|
        ensures Depth(ops[..j]) == Delta(ops[0]) + Depth(rest[..j - 1])
      {
        assert ops[..j][1..] == rest[..j - 1];
      }
      if Delta(ops[0]) + Peak(rest) >= 0 {
        var k :| 0 <= k <= |rest| && Depth(rest[..k]) == Peak(rest);
        assert Depth(ops[..k + 1]) == Peak(ops);
      }
    }
  }

  /** The peak of a concatenation: the first part's peak, or the second's lifted by the first's depth. */
  lemma {:induction false} PeakAppend(a: seq<Op>, b: seq<Op>)
    ensures Peak(a + b) == if Peak(a) >= Depth(a) + Peak(b) then Peak(a) else Depth(a) + Peak(b)
  {
    if a == [] {
      assert a + b == b;
      PeakNonNegative(b);
    } else {
      assert (a + b)[1..] == a[1..] + b;
      PeakAppend(a[1..], b);
      PeakNonNegative(b);
      PeakNonNegative(a[1..]);
    }
  }
}

/**
 * The interpreter of src/main.rs: validation, lexing, structuring and evaluation of one source
 * text, as the imperative methods of `Interpreter` over its fields and over a `Machine`.
 */
module Interpreter {
  import opened Wrappers
  import opened Ops
  import opened Lexing
  import opened Tree
  import opened Semantics

  /** The tape, the cursor and the two byte streams that `eval_liner` updates in place. */
  class Machine {
    var memory: seq<uint8>
    var adress: nat
    var input: seq<seq<uint8>>
    var output: seq<uint8>

    function State(): Config
      reads this
    {
      Config(memory, adress, input, output)
    }

    /** `vec![0]` and address 0, with the input still to be read and nothing written. */
    constructor (input: seq<seq<uint8>>)
      ensures State() == Initial(input)
    {
      memory := [0];
      adress := 0;
      this.input := input;
      output := [];
    }
  }

  /** What a run of the interpreter produces. */
  datatype Outcome = Rejected(msg: string) | Ran(status: Status, output: seq<uint8>)

  /** The structurer's stack of unfinished sequences, written back as the tags that opened them. */
  function Pending(queue: seq<seq<Instruction>>): seq<Op>
  {
    if queue == [] then []
    else Pending(queue[..|queue| - 1]) + Flatten(queue[|queue| - 1]) + [LoopStart]
  }

  /** Pushing a sequence on the stack records it followed by the `LoopStart` that suspended it. */
  lemma PendingPush(queue: seq<seq<Instruction>>, s: seq<Instruction>)
    ensures Pending(queue + [s]) == Pending(queue) + Flatten(s) + [LoopStart]
  {
    assert (queue + [s])[..|queue|] == queue;
  }

  /** Closing a loop: the finished body, wrapped in `Loop`, ends the sequence popped from the stack. */
  lemma CloseLoop(rest: seq<seq<Instruction>>, v: seq<Instruction>, body: seq<Instruction>)
    ensures Pending(rest + [v]) + Flatten(body) + [LoopEnd] == Pending(rest) + Flatten(v + [Loop(body)])
  {
    var a, fv, fb := Pending(rest), Flatten(v), Flatten(body);
    calc {
      Pending(rest + [v]) + fb + [LoopEnd];
    == { PendingPush(rest, v); }
      a + fv + [LoopStart] + fb + [LoopEnd];
    == { SeqAssoc(a, fv, fb); }
      a + (fv + ([LoopStart] + fb + [LoopEnd]));
    == { FlattenSingleLoop(body); }
      a + (fv + Flatten([Loop(body)]));
    == { FlattenAppend(v, [Loop(body)]); }
      a + Flatten(v + [Loop(body)]);
    }
  }

  /**
   * Once every tag is read, the sequence under construction is the suffix of the tags after the
   * last `LoopStart` left open, and the whole tag sequence when none is left open.
   */
  lemma PendingSuffix(queue: seq<seq<Instruction>>, cur: seq<Instruction>, ops: seq<Op>)
    requires ops == Pending(queue) + Flatten(cur)
    ensures |Flatten(cur)| <= |ops| && ops[|ops| - |Flatten(cur)|..] == Flatten(cur)
    ensures queue == [] ==> Flatten(cur) == ops
    ensures queue != [] ==> |Flatten(cur)| < |ops| && ops[|ops| - |Flatten(cur)| - 1] == LoopStart
  {
    if queue != [] {
      PendingPush(queue[..|queue| - 1], queue[|queue| - 1]);
      assert queue == queue[..|queue| - 1] + [queue[|queue| - 1]];
    }
  }

  lemma SeqAssoc(a: seq<Op>, fv: seq<Op>, fb: seq<Op>)
    ensures a + fv + [LoopStart] + fb + [LoopEnd] == a + (fv + ([LoopStart] + fb + [LoopEnd]))
  {
  }

  class Interpreter {
    const source: string
    var ops: seq<Op>
    var inst: seq<Instruction>

    /** Between runs the tags are properly nested and the tree is exactly their structure. */
    ghost predicate Valid()
      reads this
    {
      Nested(ops) && Flatten(inst) == ops
    }

    /** src/main.rs `new`: empty tag and instruction sequences. */
    constructor (s: string)
      ensures source == s && ops == [] && inst == []
      ensures Valid()
    {
      source := s;
      ops := [];
      inst := [];
      new;
      assert ops[..0] == [];
    }

    /** Accepts exactly the sources whose bracket counter never drops below 0 and ends at 0. */
    method Validate() returns (r: Result<()>)
      ensures r.Ok? <==> WellNested(source)
      ensures r.Err? ==> r.msg == "Invalid source."
    {
      var count := 0;
      for i := 0 to |source|
        invariant count == Balance(source[..i])
        invariant forall j :: 0 <= j <= i ==> Balance(source[..j]) >= 0
      {
        var c := source[i];
        assert source[..i + 1][..i] == source[..i];
        if c == '[' {
          count := count + 1;
        } else if c == ']' {
          count := count - 1;
        }
        if count < 0 {
          return Err("Invalid source.");
        }
      }
      assert source[..|source|] == source;
      if count != 0 {
        return Err("Invalid source.");
      }
      return Ok(());
    }

    /** Appends one tag per command character of the source, in source order. */
    method LexCode()
      modifies this`ops
      ensures ops == old(ops) + Lex(source)
    {
      for i := 0 to |source|
        invariant ops == old(ops) + Lex(source[..i])
      {
        assert source[..i + 1][..i] == source[..i];
        match LexChar(source[i]) {
          case Some(v) => ops := ops + [v];
          case None =>
        }
      }
      assert source[..|source|] == source;
    }

    /**
     * One pass with a stack of unfinished sequences. It fails (the `unwrap` panics) exactly when
     * some prefix of the tags closes a loop it never opened. Otherwise the tree built flattens to
     * the tags after the last unmatched `LoopStart`, so to all of them when the tags are nested.
     */
    method BuildInstruction() returns (ok: bool)
      modifies this`inst
      ensures ok <==> NeverUnderflows(ops)
      ensures !ok ==> inst == old(inst)
      ensures ok ==> |Flatten(inst)| <= |ops| && ops[|ops| - |Flatten(inst)|..] == Flatten(inst)
      ensures ok && Depth(ops) == 0 ==> Flatten(inst) == ops
      ensures ok && Depth(ops) != 0 ==>
                |Flatten(inst)| < |ops| && ops[|ops| - |Flatten(inst)| - 1] == LoopStart
    {
      var queue: seq<seq<Instruction>> := [];
      var cur: seq<Instruction> := [];
      for i := 0 to |ops|
        invariant inst == old(inst)
        invariant ops[..i] == Pending(queue) + Flatten(cur)
        invariant |queue| == Depth(ops[..i])
        invariant forall j :: 0 <= j <= i ==> Depth(ops[..j]) >= 0
      {
        var o := ops[i];
        assert ops[..i + 1] == ops[..i] + [o];
        DepthAppend(ops[..i], [o]);
        if o == LoopStart {
          PendingPush(queue, cur);
          queue := queue + [cur];
          cur := [];
        } else if o == LoopEnd {
          if |queue| == 0 {
            return false;
          }
          var v := queue[|queue| - 1];
          assert queue == queue[..|queue| - 1] + [v];
          CloseLoop(queue[..|queue| - 1], v, cur);
          queue := queue[..|queue| - 1];
          cur := v + [Loop(cur)];
        } else {
          FlattenAppend(cur, [Leaf(o)]);
          cur := cur + [Leaf(o)];
        }
      }
      assert ops[..|ops|] == ops;
      PendingSuffix(queue, cur, ops);
      inst := cur;
      ok := true;
    }

    /**
     * src/main.rs `eval_liner`: runs `p` on the machine, each loop re-checking its cell after every
     * full pass of its body. Each pass spends one unit of fuel.
     */
    method EvalLiner(p: seq<Instruction>, m: Machine, fuel: nat) returns (st: Status)
      requires m.State().Valid()
      modifies m
      ensures Trace(st, m.State()) == Exec(p, old(m.State()), fuel)
      decreases fuel, SeqSize(p)
    {
      ghost var start := m.State();
      for i := 0 to |p|
        invariant m.State().Valid()
        invariant Exec(p, start, fuel) == Exec(p[i..], m.State(), fuel)
      {
        ghost var here := m.State();
        assert p[i..][0] == p[i] && p[i..][1..] == p[i + 1..];
        match p[i] {
          case Increment =>
            var cell: int := m.memory[m.adress];
            m.memory := m.memory[m.adress := (cell + 1) % 256];
          case Decrement =>
            var cell: int := m.memory[m.adress];
            m.memory := m.memory[m.adress := (cell - 1) % 256];
          case ShiftLeft =>
            if m.adress == 0 {
              m.memory := [0] + m.memory;
            } else {
              m.adress := m.adress - 1;
            }
          case ShiftRight =>
            m.adress := m.adress + 1;
            if m.adress == |m.memory| {
              m.memory := m.memory + [0];
            }
          case PrintChar =>
            m.output := m.output + [m.memory[m.adress]];
          case GetChar =>
            if m.input == [] || m.input[0] == [] {
              return InputFault;
            }
            m.memory := m.memory[m.adress := m.input[0][0]];
            m.input := m.input[1..];
          case Loop(body) =>
            if m.memory[m.adress] != 0 {
              var f: nat := fuel;
              while true
                invariant f <= fuel
                invariant m.State().Valid()
                invariant Repeat(body, here, fuel) == Repeat(body, m.State(), f)
                decreases f
              {
                if f == 0 {
                  return OutOfFuel;
                }
                ghost var pass := m.State();
                RepeatUnfold(body, pass, f);
                f := f - 1;
                st := EvalLiner(body, m, f);
                if st != Finished {
                  return st;
                }
                if m.memory[m.adress] == 0 {
                  break;
                }
              }
            }
        }
      }
      st := Finished;
    }

    /** src/main.rs `eval_instruction`: the tree evaluated from a fresh tape. */
    method EvalInstruction(input: seq<seq<uint8>>, fuel: nat) returns (status: Status, output: seq<uint8>)
      ensures status == Exec(inst, Initial(input), fuel).status
      ensures output == Exec(inst, Initial(input), fuel).cfg.output
    {
      var m := new Machine(input);
      status := EvalLiner(inst, m, fuel);
      output := m.output;
    }

    /**
     * src/main.rs `run`: a source that fails validation is rejected before anything else happens;
     * otherwise its tags are appended, the tree rebuilt and evaluated.
     */
    method Run(input: seq<seq<uint8>>, fuel: nat) returns (r: Outcome)
      requires Valid()
      modifies this`ops, this`inst
      ensures Valid()
      ensures r.Rejected? <==> !WellNested(source)
      ensures r.Rejected? ==> r.msg == "Invalid source." && ops == old(ops) && inst == old(inst)
      ensures r.Ran? ==> ops == old(ops) + Lex(source)
      ensures r.Ran? ==> r.status == Exec(inst, Initial(input), fuel).status
      ensures r.Ran? ==> r.output == Exec(inst, Initial(input), fuel).cfg.output
    {
      var v := Validate();
      if v.Err? {
        return Rejected(v.msg);
      }
      WellNestedIsNested(source);
      NestedAppend(ops, Lex(source));
      LexCode();
      var ok := BuildInstruction();
      assert ok;
      var status, output := EvalInstruction(input, fuel);
      r := Ran(status, output);
    }
  }
}

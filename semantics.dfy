/**
 * What evaluating an instruction tree does to the tape, the cursor and the two byte streams.
 * Loops may run forever, so evaluation carries fuel: one unit is spent per pass of a loop body.
 */
module Semantics {
  import opened Tree

  /** An unsigned 8-bit tape cell (Rust `u8`). */
  type uint8 = x: int | 0 <= x < 256

  /**
   * The evaluator's state: the growable tape `memory`, the cursor `adress`, the input lines not
   * read yet (each a sequence of bytes) and the bytes written so far.
   */
  datatype Config = Config(memory: seq<uint8>, adress: nat, input: seq<seq<uint8>>, output: seq<uint8>)
  {
    /** The cursor addresses a cell of the tape. */
    predicate Valid()
    {
      adress < |memory|
    }

    function Cell(): uint8
      requires Valid()
    {
      memory[adress]
    }
  }

  /** How an evaluation ended: normally, by a panic in `GetChar`, or because the fuel ran out. */
  datatype Status = Finished | InputFault | OutOfFuel

  datatype Trace = Trace(status: Status, cfg: Config)

  /** The state `eval_instruction` starts from: one zero cell, cursor 0, nothing written. */
  function Initial(input: seq<seq<uint8>>): (c: Config)
    ensures c.Valid() && c.Cell() == 0
  {
    Config([0], 0, input, [])
  }

  /** The cell `d` places right of the cursor on the unbounded tape; cells never touched hold 0. */
  function At(c: Config, d: int): uint8
  {
    var k := c.adress + d;
    if 0 <= k < |c.memory| then c.memory[k] else 0
  }

  /** `output` grew by appending and `input` shrank by dropping lines from the front. */
  predicate Extends(c: Config, c': Config)
  {
    |c.output| <= |c'.output| && c'.output[..|c.output|] == c.output &&
    |c'.input| <= |c.input| && c'.input == c.input[|c.input| - |c'.input|..]
  }

  lemma ExtendsTransitive(c: Config, c': Config, c'': Config)
    requires Extends(c, c') && Extends(c', c'')
    ensures Extends(c, c'')
  {
    assert c''.output[..|c.output|] == c''.output[..|c'.output|][..|c.output|];
  }

  /** One leaf instruction (src/main.rs `eval_liner`, every arm but `Loop`). */
  function Step(i: Instruction, c: Config): (r: Trace)
    requires c.Valid() && !i.Loop?
    ensures r.cfg.Valid() && r.status != OutOfFuel
  {
    match i
    case Increment =>
      Trace(Finished, c.(memory := c.memory[c.adress := (c.Cell() + 1) % 256]))
    case Decrement =>
      Trace(Finished, c.(memory := c.memory[c.adress := (c.Cell() - 1) % 256]))
    case ShiftLeft =>
      if c.adress == 0 then Trace(Finished, c.(memory := [0] + c.memory))
      else Trace(Finished, c.(adress := c.adress - 1))
    case ShiftRight =>
      var a := c.adress + 1;
      if a == |c.memory| then Trace(Finished, c.(memory := c.memory + [0], adress := a))
      else Trace(Finished, c.(adress := a))
    case PrintChar =>
      Trace(Finished, c.(output := c.output + [c.Cell()]))
    case GetChar =>
      if c.input == [] || c.input[0] == [] then Trace(InputFault, c)
      else Trace(Finished, c.(memory := c.memory[c.adress := c.input[0][0]], input := c.input[1..]))
  }

  /** Size of a tree, counting every node; it bounds the recursion of the evaluator. */
  function SeqSize(p: seq<Instruction>): nat
  {
    if p == [] then 0
    else (match p[0] case Loop(b) => 1 + SeqSize(b) case _ => 1) + SeqSize(p[1..])
  }

  /** Runs a sequence of instructions in order, stopping at the first that does not finish. */
  function Exec(p: seq<Instruction>, c: Config, fuel: nat): (r: Trace)
    requires c.Valid()
    ensures r.cfg.Valid()
    decreases fuel, SeqSize(p), 1
  {
    if p == [] then Trace(Finished, c)
    else
      assert SeqSize([p[0]]) <= SeqSize(p) by { assert [p[0]][1..] == []; }
      var r0 := ExecOne(p[0], c, fuel);
      if r0.status != Finished then r0
      else Exec(p[1..], r0.cfg, fuel)
  }

  /**
   * Running `p` then `q` is running `p` and, only when it finished, `q` from where it stopped:
   * a fault or an exhausted loop ends the whole run.
   */
  lemma {:induction false} ExecAppend(p: seq<Instruction>, q: seq<Instruction>, c: Config, fuel: nat)
    requires c.Valid()
    ensures Exec(p + q, c, fuel) ==
            if Exec(p, c, fuel).status == Finished then Exec(q, Exec(p, c, fuel).cfg, fuel) else Exec(p, c, fuel)
    decreases |p|
  {
    if p == [] {
      assert p + q == q;
    } else {
      assert (p + q)[0] == p[0] && (p + q)[1..] == p[1..] + q;
      var r0 := ExecOne(p[0], c, fuel);
      if r0.status == Finished {
        ExecAppend(p[1..], q, r0.cfg, fuel);
      }
    }
  }

  /** One instruction: a leaf steps; a `Loop` is skipped when the cell is 0 and repeated otherwise. */
  function ExecOne(i: Instruction, c: Config, fuel: nat): (r: Trace)
    requires c.Valid()
    ensures r.cfg.Valid()
    ensures i.Loop? && c.Cell() == 0 ==> r == Trace(Finished, c)
    ensures i.Loop? && r.status == Finished ==> r.cfg.Cell() == 0
    decreases fuel, SeqSize([i]), 0
  {
    match i
    case Loop(body) =>
      assert SeqSize([i]) == 1 + SeqSize(body) by { assert [i][1..] == []; }
      if c.Cell() == 0 then Trace(Finished, c) else Repeat(body, c, fuel)
    case _ => Step(i, c)
  }

  /** The `loop` of a `Loop` node: run the body, stop once the cell at the cursor is 0. */
  function Repeat(body: seq<Instruction>, c: Config, fuel: nat): (r: Trace)
    requires c.Valid()
    ensures r.cfg.Valid()
    ensures r.status == Finished ==> r.cfg.Cell() == 0
    decreases fuel, SeqSize(body), 1
  {
    if fuel == 0 then Trace(OutOfFuel, c)
    else
      var r0 := Exec(body, c, fuel - 1);
      if r0.status != Finished || r0.cfg.Cell() == 0 then r0
      else Repeat(body, r0.cfg, fuel - 1)
  }

  /** `Increment` adds one modulo 256 to the cell under the cursor and touches nothing else. */
  lemma IncrementEffect(c: Config)
    requires c.Valid()
    ensures var r := Step(Increment, c);
      r.status == Finished && |r.cfg.memory| == |c.memory| && r.cfg.adress == c.adress &&
      r.cfg.input == c.input && r.cfg.output == c.output &&
      At(r.cfg, 0) == (At(c, 0) + 1) % 256 &&
      forall d :: d != 0 ==> At(r.cfg, d) == At(c, d)
  {
  }

  /** `Decrement` subtracts one modulo 256 from the cell under the cursor and touches nothing else. */
  lemma DecrementEffect(c: Config)
    requires c.Valid()
    ensures var r := Step(Decrement, c);
      r.status == Finished && |r.cfg.memory| == |c.memory| && r.cfg.adress == c.adress &&
      r.cfg.input == c.input && r.cfg.output == c.output &&
      At(r.cfg, 0) == (if At(c, 0) == 0 then 255 else At(c, 0) - 1) &&
      forall d :: d != 0 ==> At(r.cfg, d) == At(c, d)
  {
  }

  /** `Increment` and `Decrement` undo each other. */
  lemma IncrementDecrementInverse(c: Config)
    requires c.Valid()
    ensures Step(Decrement, Step(Increment, c).cfg).cfg == c
    ensures Step(Increment, Step(Decrement, c).cfg).cfg == c
  {
    assert c.memory[c.adress := c.Cell()] == c.memory;
  }

  /**
   * `ShiftLeft` moves the cursor one cell left on the unbounded tape. At cell 0 it grows the tape by
   * one zero cell at the front and keeps the cursor at 0; otherwise only the cursor moves.
   */
  lemma ShiftLeftEffect(c: Config)
    requires c.Valid()
    ensures var r := Step(ShiftLeft, c);
      r.status == Finished && r.cfg.input == c.input && r.cfg.output == c.output &&
      (c.adress == 0 ==> r.cfg.adress == 0 && r.cfg.memory == [0] + c.memory) &&
      (c.adress != 0 ==> r.cfg.adress == c.adress - 1 && r.cfg.memory == c.memory) &&
      forall d :: At(r.cfg, d) == At(c, d - 1)
  {
  }

  /**
   * `ShiftRight` moves the cursor one cell right on the unbounded tape, appending one zero cell
   * exactly when the cursor would leave the tape.
   */
  lemma ShiftRightEffect(c: Config)
    requires c.Valid()
    ensures var r := Step(ShiftRight, c);
      r.status == Finished && r.cfg.input == c.input && r.cfg.output == c.output &&
      r.cfg.adress == c.adress + 1 &&
      r.cfg.memory == (if c.adress + 1 == |c.memory| then c.memory + [0] else c.memory) &&
      forall d :: At(r.cfg, d) == At(c, d + 1)
  {
  }

  /** `PrintChar` appends the cell under the cursor to the output and changes nothing else. */
  lemma PrintCharEffect(c: Config)
    requires c.Valid()
    ensures Step(PrintChar, c) == Trace(Finished, c.(output := c.output + [At(c, 0)]))
  {
  }

  /**
   * `GetChar` consumes one input line and stores its first byte under the cursor; with no line left,
   * or an empty one, it faults without changing anything.
   */
  lemma GetCharEffect(c: Config)
    requires c.Valid()
    ensures var r := Step(GetChar, c);
      (r.status == InputFault <==> c.input == [] || c.input[0] == []) &&
      (r.status == InputFault ==> r.cfg == c) &&
      (r.status == Finished ==>
         r.cfg.input == c.input[1..] && At(r.cfg, 0) == c.input[0][0] &&
         r.cfg.adress == c.adress && |r.cfg.memory| == |c.memory| && r.cfg.output == c.output &&
         forall d :: d != 0 ==> At(r.cfg, d) == At(c, d))
  {
  }

  /** A `Loop` whose cell is 0 is skipped; one that finishes leaves its cell at 0. */
  lemma LoopSemantics(body: seq<Instruction>, c: Config, fuel: nat)
    requires c.Valid()
    ensures c.Cell() == 0 ==> Exec([Loop(body)], c, fuel) == Trace(Finished, c)
    ensures Exec([Loop(body)], c, fuel).status == Finished ==> Exec([Loop(body)], c, fuel).cfg.Cell() == 0
  {
    assert [Loop(body)][1..] == [];
  }

  /** `n` copies of one instruction. */
  function Repeated(i: Instruction, n: nat): (p: seq<Instruction>)
    ensures |p| == n && forall k :: 0 <= k < n ==> p[k] == i
  {
    if n == 0 then [] else [i] + Repeated(i, n - 1)
  }

  /** A tape of `n` zero cells. */
  function Zeros(n: nat): (z: seq<uint8>)
    ensures |z| == n && forall k :: 0 <= k < n ==> z[k] == 0
  {
    if n == 0 then [] else [0] + Zeros(n - 1)
  }

  /** `n` increments add `n` modulo 256 to the cell under the cursor. */
  lemma IncrementsAdd(c: Config, n: nat, fuel: nat)
    requires c.Valid()
    ensures Exec(Repeated(Increment, n), c, fuel) ==
            Trace(Finished, c.(memory := c.memory[c.adress := (c.Cell() + n) % 256]))
  {
    IncrementsBump(c, n, fuel);
    BumpIsAdd(c.Cell(), n);
  }

  /** The cell value after `n` wrapping increments. */
  function Bump(x: uint8, n: nat): uint8
    decreases n
  {
    if n == 0 then x else Bump((x + 1) % 256, n - 1)
  }

  lemma {:induction false} BumpIsAdd(x: uint8, n: nat)
    ensures Bump(x, n) == (x + n) % 256
    decreases n
  {
    if n > 0 {
      var y := (x + 1) % 256;
      BumpIsAdd(y, n - 1);
      assert Bump(x, n) == Bump(y, n - 1);
      ModStep(x, y, n);
    }
  }

  lemma ModStep(x: int, y: int, n: int)
    requires y == (x + 1) % 256
    ensures (y + (n - 1)) % 256 == (x + n) % 256
  {
  }

  lemma {:induction false} IncrementsBump(c: Config, n: nat, fuel: nat)
    requires c.Valid()
    ensures Exec(Repeated(Increment, n), c, fuel) ==
            Trace(Finished, c.(memory := c.memory[c.adress := Bump(c.Cell(), n)]))
    decreases n
  {
    var p := Repeated(Increment, n);
    if n == 0 {
      assert c.memory[c.adress := c.Cell()] == c.memory;
    } else {
      var c1 := c.(memory := c.memory[c.adress := (c.Cell() + 1) % 256]);
      assert ExecOne(p[0], c, fuel) == Trace(Finished, c1);
      assert p[1..] == Repeated(Increment, n - 1);
      IncrementsBump(c1, n - 1, fuel);
      assert Exec(p, c, fuel) == Exec(p[1..], c1, fuel);
      assert c1.memory[c.adress := Bump(c1.Cell(), n - 1)] == c.memory[c.adress := Bump(c.Cell(), n)];
    }
  }

  /** Cells wrap: any multiple of 256 increments restores a cell, and decrementing a zero cell gives 255. */
  lemma CellsWrap(c: Config, n: nat, fuel: nat)
    requires c.Valid() && n % 256 == 0
    ensures Exec(Repeated(Increment, n), c, fuel) == Trace(Finished, c)
    ensures c.Cell() == 0 ==> Step(Decrement, c).cfg.Cell() == 255
  {
    IncrementsAdd(c, n, fuel);
    ModMultiple(c.Cell(), n);
    assert c.memory[c.adress := c.Cell()] == c.memory;
  }

  lemma ModMultiple(x: uint8, n: int)
    requires n % 256 == 0
    ensures (x + n) % 256 == x
  {
  }

  /** `k` left shifts from the left end of an all-zero tape prepend `k` zero cells. */
  lemma {:induction false} ShiftsLeftGrow(m: nat, k: nat, input: seq<seq<uint8>>, output: seq<uint8>, fuel: nat)
    requires m >= 1
    ensures Exec(Repeated(ShiftLeft, k), Config(Zeros(m), 0, input, output), fuel) ==
            Trace(Finished, Config(Zeros(m + k), 0, input, output))
    decreases k
  {
    var p, c := Repeated(ShiftLeft, k), Config(Zeros(m), 0, input, output);
    if k > 0 {
      var c1 := Config(Zeros(m + 1), 0, input, output);
      assert [0] + Zeros(m) == Zeros(m + 1);
      assert ExecOne(p[0], c, fuel) == Trace(Finished, c1);
      assert p[1..] == Repeated(ShiftLeft, k - 1);
      ShiftsLeftGrow(m + 1, k - 1, input, output, fuel);
      assert Exec(p, c, fuel) == Exec(p[1..], c1, fuel);
    }
  }

  /** `k` right shifts from the right end of the tape append `k` zero cells and follow them. */
  lemma {:induction false} ShiftsRightGrow(c: Config, k: nat, fuel: nat)
    requires c.Valid() && c.adress == |c.memory| - 1
    ensures Exec(Repeated(ShiftRight, k), c, fuel) ==
            Trace(Finished, c.(memory := c.memory + Zeros(k), adress := c.adress + k))
    decreases k
  {
    var p := Repeated(ShiftRight, k);
    if k == 0 {
      assert c.memory + Zeros(0) == c.memory;
    } else {
      var c1 := c.(memory := c.memory + [0], adress := c.adress + 1);
      assert ExecOne(p[0], c, fuel) == Trace(Finished, c1);
      assert p[1..] == Repeated(ShiftRight, k - 1);
      ShiftsRightGrow(c1, k - 1, fuel);
      assert Exec(p, c, fuel) == Exec(p[1..], c1, fuel);
      assert c1.memory + Zeros(k - 1) == c.memory + Zeros(k);
    }
  }

  /** From the initial state, `k` shifts in one direction leave a tape of `k + 1` zero cells. */
  lemma InitialShifts(input: seq<seq<uint8>>, k: nat, fuel: nat)
    ensures Exec(Repeated(ShiftLeft, k), Initial(input), fuel) == Trace(Finished, Config(Zeros(k + 1), 0, input, []))
    ensures Exec(Repeated(ShiftRight, k), Initial(input), fuel) == Trace(Finished, Config(Zeros(k + 1), k, input, []))
  {
    assert Zeros(1) == [0];
    ShiftsLeftGrow(1, k, input, [], fuel);
    ShiftsRightGrow(Initial(input), k, fuel);
    assert [0] + Zeros(k) == Zeros(k + 1);
  }

  /**
   * The byte streams only move forward: evaluation appends to the output and consumes input lines
   * from the front, whatever the program and however it ends.
   */
  lemma {:induction false} ExecExtends(p: seq<Instruction>, c: Config, fuel: nat)
    requires c.Valid()
    ensures Extends(c, Exec(p, c, fuel).cfg)
    decreases fuel, SeqSize(p), 1
  {
    if p == [] {
      assert c.output[..|c.output|] == c.output;
    } else {
      assert SeqSize([p[0]]) <= SeqSize(p) by { assert [p[0]][1..] == []; }
      var r0 := ExecOne(p[0], c, fuel);
      ExecOneExtends(p[0], c, fuel);
      if r0.status == Finished {
        ExecExtends(p[1..], r0.cfg, fuel);
        ExtendsTransitive(c, r0.cfg, Exec(p[1..], r0.cfg, fuel).cfg);
      }
    }
  }

  lemma {:induction false} ExecOneExtends(i: Instruction, c: Config, fuel: nat)
    requires c.Valid()
    ensures Extends(c, ExecOne(i, c, fuel).cfg)
    decreases fuel, SeqSize([i]), 0
  {
    if !i.Loop? {
      StepExtends(i, c);
    } else if c.Cell() == 0 {
      assert c.output[..|c.output|] == c.output;
    } else {
      assert SeqSize([i]) == 1 + SeqSize(i.body) by { assert [i][1..] == []; }
      RepeatExtends(i.body, c, fuel);
    }
  }

  lemma {:induction false} RepeatExtends(body: seq<Instruction>, c: Config, fuel: nat)
    requires c.Valid()
    ensures Extends(c, Repeat(body, c, fuel).cfg)
    decreases fuel, SeqSize(body), 1
  {
    if fuel == 0 {
      assert c.output[..|c.output|] == c.output;
    } else {
      var r0 := Exec(body, c, fuel - 1);
      RepeatUnfold(body, c, fuel);
      ExecExtends(body, c, fuel - 1);
      if r0.status == Finished && r0.cfg.Cell() != 0 {
        RepeatExtends(body, r0.cfg, fuel - 1);
        ExtendsTransitive(c, r0.cfg, Repeat(body, r0.cfg, fuel - 1).cfg);
      }
    }
  }

  lemma StepExtends(i: Instruction, c: Config)
    requires c.Valid() && !i.Loop?
    ensures Extends(c, Step(i, c).cfg)
  {
    assert c.output[..|c.output|] == c.output;
  }

  /** Fuel is only a bound: a run that finishes or faults with some fuel gives the same trace with more. */
  lemma {:induction false} ExecFuelMonotone(p: seq<Instruction>, c: Config, fuel: nat, more: nat)
    requires c.Valid() && fuel <= more
    requires Exec(p, c, fuel).status != OutOfFuel
    ensures Exec(p, c, more) == Exec(p, c, fuel)
    decreases fuel, SeqSize(p), 1
  {
    if p != [] {
      assert SeqSize([p[0]]) <= SeqSize(p) by { assert [p[0]][1..] == []; }
      var r0 := ExecOne(p[0], c, fuel);
      ExecOneFuelMonotone(p[0], c, fuel, more);
      if r0.status == Finished {
        ExecFuelMonotone(p[1..], r0.cfg, fuel, more);
      }
    }
  }

  lemma {:induction false} ExecOneFuelMonotone(i: Instruction, c: Config, fuel: nat, more: nat)
    requires c.Valid() && fuel <= more
    requires ExecOne(i, c, fuel).status != OutOfFuel
    ensures ExecOne(i, c, more) == ExecOne(i, c, fuel)
    decreases fuel, SeqSize([i]), 0
  {
    if i.Loop? && c.Cell() != 0 {
      assert SeqSize([i]) == 1 + SeqSize(i.body) by { assert [i][1..] == []; }
      RepeatFuelMonotone(i.body, c, fuel, more);
    }
  }

  /** One pass of a loop body, then the exit test. */
  lemma RepeatUnfold(body: seq<Instruction>, c: Config, fuel: nat)
    requires c.Valid() && fuel > 0
    ensures var r0 := Exec(body, c, fuel - 1);
      Repeat(body, c, fuel) ==
      if r0.status != Finished || r0.cfg.Cell() == 0 then r0 else Repeat(body, r0.cfg, fuel - 1)
  {
  }

  lemma {:induction false} RepeatFuelMonotone(body: seq<Instruction>, c: Config, fuel: nat, more: nat)
    requires c.Valid() && fuel <= more
    requires Repeat(body, c, fuel).status != OutOfFuel
    ensures Repeat(body, c, more) == Repeat(body, c, fuel)
    decreases fuel, SeqSize(body), 1
  {
    assert fuel > 0;
    var r0 := Exec(body, c, fuel - 1);
    RepeatUnfold(body, c, fuel);
    ExecFuelMonotone(body, c, fuel - 1, more - 1);
    RepeatUnfold(body, c, more);
    if r0.status == Finished && r0.cfg.Cell() != 0 {
      RepeatFuelMonotone(body, r0.cfg, fuel - 1, more - 1);
    }
  }
}

/** What concrete programs do, proved end to end. */
module Scenarios {
  import opened Ops
  import opened Lexing
  import opened Tree
  import opened Semantics
  import opened Interpreter

  /** `+++.` is accepted, lexes to four tags, and prints the single byte 3. */
  lemma PrintsThree()
    ensures WellNested("+++.")
    ensures Lex("+++.") == [Op.Increment, Op.Increment, Op.Increment, Op.PrintChar]
    ensures Flatten([Instruction.Increment, Instruction.Increment, Instruction.Increment, Instruction.PrintChar])
            == Lex("+++.")
    ensures Exec([Instruction.Increment, Instruction.Increment, Instruction.Increment, Instruction.PrintChar],
                 Initial([]), 0) == Trace(Finished, Config([3], 0, [], [3]))
  {
    var s := "+++.";
    var t := [Instruction.Increment, Instruction.Increment, Instruction.Increment, Instruction.PrintChar];
    LexPointwise(s, Flatten(t));
    assert Lex(s) == Flatten(t);
    FlattenNested(t);
    WellNestedIsNested(s);
  }

  /** One more character of a text adds its tags and its bracket count to those of the shorter prefix. */
  lemma PrefixStep(s: string, k: nat)
    requires 0 < k <= |s|
    ensures Lex(s[..k]) == Lex(s[..k - 1]) + Emit(s[k - 1])
    ensures Balance(s[..k]) == Balance(s[..k - 1]) + (if s[k - 1] == '[' then 1 else if s[k - 1] == ']' then -1 else 0)
  {
    assert s[..k][..k - 1] == s[..k - 1];
  }

  /** The tree of `+[>+<-]`: an increment followed by one loop of four leaves. */
  function MoveTree(): (t: seq<Instruction>)
    ensures |t| == 2 && t[1].Loop? && LeafCount(t) == 5 && LoopCount(t) == 1
  {
    [Instruction.Increment, Loop([Instruction.ShiftRight, Instruction.Increment,
                                  Instruction.ShiftLeft, Instruction.Decrement])]
  }

  /** `+[>+<-]` lexes to exactly the tags of its tree. */
  lemma MoveTags()
    ensures Lex("+[>+<-]") == Flatten(MoveTree())
  {
    FlattenSingleLoop([Instruction.ShiftRight, Instruction.Increment, Instruction.ShiftLeft, Instruction.Decrement]);
    LexPointwise("+[>+<-]", Flatten(MoveTree()));
  }

  /** `+[>+<-]` moves the value of the first cell into a new second cell with one pass of its loop. */
  lemma MovesCell()
    ensures WellNested("+[>+<-]")
    ensures Flatten(MoveTree()) == Lex("+[>+<-]")
    ensures Exec(MoveTree(), Initial([]), 1) == Trace(Finished, Config([0, 1], 0, [], []))
  {
    MoveTags();
    FlattenNested(MoveTree());
    WellNestedIsNested("+[>+<-]");
  }

  /** The same program started from the tape `[1, 0]`: the leading `+` makes the first cell 2, so the loop passes twice. */
  lemma MovesCellFromOne()
    ensures Exec(MoveTree(), Config([1, 0], 0, [], []), 2) == Trace(Finished, Config([0, 2], 0, [], []))
  {
  }

  /** An unmatched `]` or `[` is rejected, and so is a `]` that comes before its `[`. */
  lemma RejectsUnbalanced()
    ensures !WellNested("+]")
    ensures !WellNested("[+")
    ensures Balance("][") == 0 && !WellNested("][")
  {
    var a, b, c := "+]", "[+", "][";
    assert a[..0] == [] && b[..0] == [] && c[..0] == [];
    PrefixStep(a, 1);
    PrefixStep(a, 2);
    assert a[..2] == a;
    PrefixStep(b, 1);
    PrefixStep(b, 2);
    assert b[..2] == b;
    PrefixStep(c, 1);
    PrefixStep(c, 2);
    assert c[..2] == c;
  }

  /** A source with no command character builds no instruction and changes nothing when run. */
  lemma CommentsOnly(input: seq<seq<uint8>>, fuel: nat)
    ensures Lex("hello world") == []
    ensures Exec([], Initial(input), fuel) == Trace(Finished, Initial(input))
  {
    LexEmptyIffComments("hello world");
  }

  /** `,` with no input line left faults, and nothing after it runs or prints. */
  lemma GetCharWithoutInput(q: seq<Instruction>, fuel: nat)
    ensures Exec([Instruction.GetChar] + q, Initial([]), fuel) == Trace(InputFault, Initial([]))
  {
    ExecAppend([Instruction.GetChar], q, Initial([]), fuel);
  }

  /** The whole interpreter on `+++.` with no input: it runs to completion and prints 3. */
  method RunPrintsThree()
  {
    var it := new Interpreter("+++.");
    var r := it.Run([], 0);
    PrintsThree();
    var t := [Instruction.Increment, Instruction.Increment, Instruction.Increment, Instruction.PrintChar];
    FlattenInjective(it.inst, t);
    assert r == Ran(Finished, [3]);
  }

  /** The whole interpreter on `+]`: rejected before anything runs. */
  method RunRejects()
  {
    var it := new Interpreter("+]");
    var r := it.Run([], 0);
    RejectsUnbalanced();
    assert r == Rejected("Invalid source.");
  }
}

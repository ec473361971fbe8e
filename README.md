# A verified model of a brainfuck interpreter

This project models the interpreter of `src/main.rs`, a brainfuck interpreter written in Rust. Its
`Interpreter` holds a source text, the tag sequence (`Op`) lexed from it and the instruction tree
(`Instruction`) built from those tags. `run` passes the text through four stages:

1. **Validation.** A bracket counter rejects the text with `"Invalid source."` as soon as it drops
   below zero, or at the end when it is not zero.
2. **Lexing.** The eight command characters `+ - < > . , [ ]` map to tags and every other character
   is dropped.
3. **Structuring.** A stack of open loop frames turns the flat tags into a tree of `Loop` nodes.
4. **Evaluation.** The tree runs over a byte tape that starts as one zero cell and grows at either
   end. Cells wrap modulo 256, `.` writes the cell under the cursor, `,` reads one input line and
   stores its first byte, and a loop is entered only on a non-zero cell and left only on a zero one.

How the stages appear in the model:

- Modules `Ops`, `Lexing`, `Tree` and `Semantics` give each stage a value-level meaning. `Lex`,
  `Balance` and `WellNested` cover the text. `Flatten` maps a tree back to its tags. `Exec` is the
  evaluator's semantics.
- Module `Interpreter` holds the imperative code. `class Interpreter` has the fields of the Rust
  struct, and its methods are the Rust methods with their loops and loop invariants. `class Machine`
  is the mutable tape, cursor and byte streams that `eval_liner` threads through its recursion.
- Every method is proved against the functions above. The functions are tied to one another by
  lemmas:
  - The validator accepts exactly the texts whose tags are properly nested.
  - The structurer's `unwrap` cannot fail on such tags.
  - The tree it builds is the unique tree whose flattening is the tag sequence.
- Module `Scenarios` proves what concrete programs do.

Divergence: a brainfuck loop may run forever. The evaluator therefore carries `fuel`, and one unit is
spent per pass of a loop body. `OutOfFuel` means that the fuel given was not enough. Running with
more fuel never changes a result that finished with less (`ExecFuelMonotone`).

Rejection carries the message `"Invalid source."`. The program `+[>+<-]` run from the initial tape
`[0]` ends with `[0, 1]` (`Scenarios.MovesCell`); run from `[1, 0]` it ends with `[0, 2]`
(`Scenarios.MovesCellFromOne`).

## Model

| member | source | states |
|---|---|---|
| Interpreter.Interpreter.constructor | src/main.rs:45-51 | a new interpreter holds the source and empty tag and instruction sequences, which satisfy the class invariant (tags nested, tree flattens to them) |
| Interpreter.Interpreter.Validate | src/main.rs:95-111 | returns Ok exactly when the bracket counter never goes negative on a prefix and ends at 0; every rejection carries "Invalid source." |
| Lexing.Balance | src/main.rs:96-102 | the validator's counter over a text: each character moves it by at most one, so it stays between minus and plus the text's length |
| Lexing.UnderflowIsFinal | src/main.rs:103-105 | once the counter is negative on a prefix, no continuation of the text can be accepted, so rejecting at that point is sound |
| Lexing.WellNestedIsNested | src/main.rs:95-111 | the validator's acceptance condition on characters is the same as proper nesting of the lexed tags |
| Lexing.BalanceIsDepth | src/main.rs:97-102 | the validator's counter equals the loop depth of the tags lexed from the same text |
| Lexing.NeverNegativeIsNeverUnderflows | src/main.rs:103-105 | the counter never drops below 0 on any prefix exactly when no prefix of the tags closes more loops than it opened |
| Interpreter.Interpreter.LexCode | src/main.rs:112-130 | appends to the tag field exactly the lexing of the source, leaving the tags already there in place |
| Lexing.LexChar | src/main.rs:114-124 | the lexer's table: a character that maps to a tag is that tag's command character, and a character that maps to nothing is no tag's command character |
| Lexing.Lex | src/main.rs:112-130 | the tags pushed for a whole text, at most one per character |
| Lexing.TableIsBijective | src/main.rs:114-124 | the character table is one-to-one: each tag has exactly one command character, and that character maps back to it |
| Lexing.LexAppend | src/main.rs:113-129 | lexing a concatenation is the concatenation of the lexings, so the lexer is a per-character filter-map |
| Lexing.LexLength | src/main.rs:113-129 | the tag sequence is never longer than the text, and equally long exactly when every character is a command |
| Lexing.LexEmptyIffComments | src/main.rs:123 | a text lexes to no tags exactly when it has no command character |
| Lexing.InsertedCommentsIgnored | src/main.rs:123 | inserting comment text anywhere leaves the tag sequence unchanged |
| Lexing.LexPointwise | src/main.rs:113-129 | a text of command characters lexes to its characters' table entries, position by position |
| Lexing.LexRenderRoundTrip | src/main.rs:114-124 | rendering any tag sequence as command characters and lexing it gives the same tags back |
| Interpreter.Interpreter.BuildInstruction | src/main.rs:131-160 | the pop on line 148 succeeds exactly when no prefix of the tags underflows, and a failure leaves the tree untouched; on success the tree flattens to the whole tag sequence when the tags end at depth 0, otherwise to the suffix after the last unclosed `[` |
| Interpreter.PendingPush | src/main.rs:142-146 | pushing the current frame on `[` extends the tags represented by the stack by that frame and an opening bracket |
| Interpreter.CloseLoop | src/main.rs:147-152 | closing a frame on `]` wraps the current frame in a `Loop`, appends it to the popped frame, and keeps the tags represented by stack and frame |
| Interpreter.PendingSuffix | src/main.rs:158-159 | once every tag is read, the stored tree flattens to the tags after the last `[` left open, and to all the tags when none is left open |
| Tree.Leaf | src/main.rs:135-141 | a non-bracket tag becomes a leaf instruction whose tag is that same tag |
| Tree.Tag | src/main.rs:29-37 | the tag of a leaf instruction is never a bracket |
| Tree.FlattenAppend | src/main.rs:154-157 | flattening distributes over concatenation of instruction sequences |
| Tree.FlattenSingleLoop | src/main.rs:147-152 | a `Loop` flattens to its body's tags between `[` and `]` |
| Tree.FlattenNested | src/main.rs:131-160 | every instruction tree flattens to a properly nested tag sequence |
| Tree.BodyBoundary | src/main.rs:147-152 | in a nested tag sequence the `]` that closes a loop is determined uniquely |
| Tree.FirstTag | src/main.rs:135-153 | a sequence is empty exactly when its flattening is, and its first tag is `[` for a loop and the leaf's tag otherwise |
| Tree.FlattenInjective | src/main.rs:131-160 | two trees with the same flattening are equal, so the tree the structurer builds is the only one for its tags |
| Tree.FlattenCounts | src/main.rs:131-160 | the number of loops equals the number of `[` tags and of `]` tags, and the leaves are all the other tags |
| Tree.FlattenPeak | src/main.rs:131-160 | the tree's nesting depth is the largest bracket depth reached over the prefixes of its tags |
| Ops.DepthAppend | src/main.rs:142-152 | the loop depth of concatenated tags is the sum of the depths |
| Ops.NeverUnderflowsSnoc | src/main.rs:147-148 | appending one tag keeps the no-underflow property exactly when the new depth is non-negative |
| Ops.NeverUnderflowsAppend | src/main.rs:147-148 | two underflow-free tag sequences concatenate to one, when the first ends at a non-negative depth |
| Ops.NestedAppend | src/main.rs:131-160 | properly nested tag sequences are closed under concatenation |
| Ops.NestedWrap | src/main.rs:142-152 | wrapping a nested tag sequence in `[`…`]` keeps it nested and raises its peak depth by one |
| Ops.PeakBounds | src/main.rs:142-152 | the peak depth is the prefix maximum of the bracket depth: no prefix is deeper, and some prefix reaches it |
| Ops.PeakAppend | src/main.rs:142-152 | the peak depth of concatenated tags is the larger of the first's peak and the first's depth plus the second's peak |
| Semantics.Initial | src/main.rs:162-163 | the evaluator starts on a valid state whose cell under the cursor is 0 |
| Semantics.Step | src/main.rs:172-203 | every leaf instruction keeps the cursor on the tape and never runs out of fuel |
| Semantics.Exec | src/main.rs:172-215 | evaluating a sequence keeps the cursor on the tape |
| Semantics.ExecOne | src/main.rs:173-214 | one instruction keeps the cursor on the tape; a `Loop` on a zero cell is skipped without change (line 205), and a `Loop` that finishes leaves the cell at 0 |
| Semantics.ExecAppend | src/main.rs:172-215 | running two sequences one after the other runs the second only when the first finished, from where the first stopped; a fault or an exhausted loop ends the whole run |
| Semantics.Repeat | src/main.rs:204-213 | the loop keeps the cursor on the tape, and when it finishes the cell under the cursor is 0 |
| Semantics.IncrementEffect | src/main.rs:174-176 | `+` adds one modulo 256 to the cell under the cursor and changes nothing else |
| Semantics.DecrementEffect | src/main.rs:177-179 | `-` subtracts one modulo 256 from the cell under the cursor (0 becomes 255) and changes nothing else |
| Semantics.IncrementDecrementInverse | src/main.rs:174-179 | `+` then `-`, and `-` then `+`, restore the state exactly |
| Semantics.ShiftLeftEffect | src/main.rs:180-186 | at cell 0, `<` inserts a zero cell at the front and keeps the cursor at 0, otherwise it moves the cursor; either way the unbounded tape seen from the cursor shifts by one |
| Semantics.ShiftRightEffect | src/main.rs:187-192 | `>` moves the cursor right and appends a zero cell exactly when it would leave the tape |
| Semantics.PrintCharEffect | src/main.rs:193-195 | `.` appends the cell under the cursor to the output and changes nothing else |
| Semantics.GetCharEffect | src/main.rs:196-203 | `,` faults exactly when no input line is left or the line is empty; otherwise it consumes one line and stores its first byte under the cursor |
| Semantics.LoopSemantics | src/main.rs:204-213 | a loop on a zero cell is skipped without change, and a loop that finishes leaves the cell at 0 |
| Semantics.IncrementsAdd | src/main.rs:174-176 | `n` consecutive `+` add `n` modulo 256 to the cell and change nothing else |
| Semantics.CellsWrap | src/main.rs:174-179 | any multiple of 256 increments leaves the state unchanged, and `-` on a zero cell gives 255 |
| Semantics.ShiftsLeftGrow | src/main.rs:180-186 | `k` left shifts at cell 0 of an all-zero tape grow it by `k` cells and keep the cursor at 0 |
| Semantics.ShiftsRightGrow | src/main.rs:187-192 | `k` right shifts from the last cell append `k` zero cells and end on the last one |
| Semantics.InitialShifts | src/main.rs:162-192 | from the initial tape, `k` shifts in one direction give a tape of `k + 1` zero cells, with the cursor at 0 after `<` and at `k` after `>` |
| Semantics.ExtendsTransitive | src/main.rs:193-203 | output that only grows and input that is only consumed from the front compose over successive steps |
| Semantics.StepExtends | src/main.rs:193-203 | a leaf instruction only appends to the output and only consumes input from the front |
| Semantics.ExecExtends | src/main.rs:172-215 | a whole evaluation only appends to the output and only consumes input from the front |
| Semantics.ExecOneExtends | src/main.rs:173-214 | one instruction, loops included, only appends to the output and only consumes input from the front |
| Semantics.RepeatExtends | src/main.rs:206-211 | a loop only appends to the output and only consumes input from the front |
| Semantics.ExecFuelMonotone | src/main.rs:172-215 | an evaluation that finished or faulted with some fuel gives the same result with any more fuel |
| Semantics.ExecOneFuelMonotone | src/main.rs:173-214 | the same fuel monotonicity for a single instruction |
| Semantics.RepeatFuelMonotone | src/main.rs:206-211 | the same fuel monotonicity for the repetition of a loop body |
| Semantics.RepeatUnfold | src/main.rs:206-211 | one pass of a loop runs the body once and then stops on a zero cell or a fault, or repeats |
| Interpreter.Machine.constructor | src/main.rs:161-164 | a new machine is in the evaluator's initial state: tape `[0]`, cursor 0, the whole input unread, no output |
| Interpreter.Interpreter.EvalLiner | src/main.rs:167-216 | updating the machine in place with the `for` loop and the inner `loop` leaves it exactly in the state the semantics `Exec` gives for the same tree and fuel, with the same status |
| Interpreter.Interpreter.EvalInstruction | src/main.rs:161-166 | the status and output of running the stored tree from the initial tape are those of `Exec` from `Initial` |
| Interpreter.Interpreter.Run | src/main.rs:88-94 | rejects exactly the texts that are not well nested, changing nothing; otherwise it appends the lexed tags, rebuilds the tree without a failing pop, and returns the status and output of evaluating it, keeping the class invariant |
| Scenarios.PrintsThree | src/main.rs:88-94 | `+++.` is accepted, lexes to three increments and a print, and writes the single byte 3 |
| Scenarios.MovesCell | src/main.rs:204-213 | `+[>+<-]` is accepted and, from the initial tape, ends with the tape `[0, 1]` |
| Scenarios.MovesCellFromOne | src/main.rs:204-213 | `+[>+<-]` started from the tape `[1, 0]` ends with `[0, 2]` |
| Scenarios.RejectsUnbalanced | src/main.rs:95-111 | `+]` and `[+` are rejected; `][` has a final count of 0 and is still rejected |
| Scenarios.CommentsOnly | src/main.rs:112-130 | `hello world` lexes to no tags, and the empty program changes nothing |
| Scenarios.GetCharWithoutInput | src/main.rs:196-203 | `,` followed by any program, with no input line, faults at the `,`: nothing after it runs and nothing is written |

## Left out

- The command line is not modelled: argument handling, the help text, reading the source file and its
  error exit (src/main.rs:220-248).
- The debug printers `Op::to_string`, `print_instruction` and `print_instruction_with_indent` are not
  modelled. They are not called on any path of `run`.
- Console I/O becomes data. Standard input is a sequence of lines given to the evaluator, each a
  sequence of bytes that includes its line terminator. Standard output is the sequence of cell values
  printed.
- The output is the cell values, not their text. `print!("{}", b as char)` writes bytes of 128 and
  above as two UTF-8 bytes, and the model does not encode them.
- An error returned by `read_line`, which panics, is not modelled. End of input panics when line 202
  indexes an empty string, and that case is modelled as `InputFault`.
- Interpreter.Interpreter.EvalLiner: divergence is bounded by fuel; a non-terminating program is
  modelled as `OutOfFuel` for every fuel, not as an infinite run.
- Semantics.IncrementEffect: models the wrapping `u8` arithmetic of a release build. A debug build
  panics on `+` at 255 and on `-` at 0, and the model does not include that panic.
- Interpreter.Interpreter.Validate: the model's counter is unbounded. The source's `count` is an
  `i32` (src/main.rs:96-100). When a text's bracket depth exceeds 2^31-1, a release build wraps the
  count to a negative value and line 103 rejects the text, and a debug build panics. The model
  accepts such a text when it is balanced.
- Memory exhaustion from tape growth and stack exhaustion from deep loop nesting are not modelled.
- Interpreter.Interpreter.BuildInstruction: the Rust method panics on an unmatched `]`. The model
  returns `false` and leaves the tree as it was. After validation `run` never reaches that case, and
  `Run` proves it.

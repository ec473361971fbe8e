/** The lexer's fixed character table and the tag sequence it produces. */
module Lexing {
  import opened Wrappers
  import opened Ops

  /** The table of src/main.rs `lex_code`: eight command characters, everything else is a comment. */
  function LexChar(c: char): (r: Option<Op>)
    ensures r.Some? ==> Render(r.value) == c
    ensures r.None? ==> forall o :: Render(o) != c
  {
    match c
    case '+' => Some(Increment)
    case '-' => Some(Decrement)
    case '<' => Some(ShiftLeft)
    case '>' => Some(ShiftRight)
    case '.' => Some(PrintChar)
    case ',' => Some(GetChar)
    case '[' => Some(LoopStart)
    case ']' => Some(LoopEnd)
    case _ => None
  }

  predicate IsCommand(c: char)
  {
    LexChar(c).Some?
  }

  /** The tags emitted for one character: none or exactly one. */
  function Emit(c: char): seq<Op>
  {
    match LexChar(c)
    case Some(o) => [o]
    case None => []
  }

  /** The tag sequence of a whole source text, built left to right. */
  function Lex(s: string): (r: seq<Op>)
    ensures |r| <= |s|
  {
    if s == [] then [] else Lex(s[..|s| - 1]) + Emit(s[|s| - 1])
  }

  /** The command character of each tag: the table read backwards. */
  function Render(o: Op): char
  {
    match o
    case Increment => '+'
    case Decrement => '-'
    case ShiftLeft => '<'
    case ShiftRight => '>'
    case PrintChar => '.'
    case GetChar => ','
    case LoopStart => '['
    case LoopEnd => ']'
  }

  function RenderAll(ops: seq<Op>): string
  {
    if ops == [] then [] else RenderAll(ops[..|ops| - 1]) + [Render(ops[|ops| - 1])]
  }

  /** The table is one-to-one: exactly the eight rendered characters are commands, and each maps back. */
  lemma TableIsBijective(c: char, o: Op)
    ensures LexChar(Render(o)) == Some(o)
    ensures LexChar(c) == Some(o) <==> c == Render(o)
  {
  }

  /** Lexing distributes over concatenation of source texts. */
  lemma {:induction false} LexAppend(a: string, b: string)
    ensures Lex(a + b) == Lex(a) + Lex(b)
  {
    if b == [] {
      assert a + b == a;
    } else {
      var b' := b[..|b| - 1];
      assert (a + b)[..|a + b| - 1] == a + b';
      LexAppend(a, b');
    }
  }

  /** Lexing keeps at most one tag per character, so the output is never longer than the source. */
  lemma {:induction false} LexLength(s: string)
    ensures |Lex(s)| <= |s|
    ensures |Lex(s)| == |s| <==> forall i :: 0 <= i < |s| ==> IsCommand(s[i])
  {
    if s != [] {
      var s' := s[..|s| - 1];
      LexLength(s');
      if |Lex(s)| == |s| {
        assert |Lex(s')| == |s'| && IsCommand(s[|s| - 1]);
        forall i | 0 <= i < |s| ensures IsCommand(s[i]) {
          if i < |s'| { assert s'[i] == s[i]; }
        }
      }
      if forall i :: 0 <= i < |s| ==> IsCommand(s[i]) {
        forall i | 0 <= i < |s'| ensures IsCommand(s'[i]) { assert s'[i] == s[i]; }
      }
    }
  }

  /** A text made only of comment characters lexes to nothing, and only such a text does. */
  lemma {:induction false} LexEmptyIffComments(t: string)
    ensures Lex(t) == [] <==> forall i :: 0 <= i < |t| ==> !IsCommand(t[i])
  {
    if t != [] {
      var t' := t[..|t| - 1];
      LexEmptyIffComments(t');
      if Lex(t) == [] {
        assert Lex(t') == [] && !IsCommand(t[|t| - 1]);
        forall i | 0 <= i < |t| ensures !IsCommand(t[i]) {
          if i < |t'| { assert t'[i] == t[i]; }
        }
      }
      if forall i :: 0 <= i < |t| ==> !IsCommand(t[i]) {
        forall i | 0 <= i < |t'| ensures !IsCommand(t'[i]) { assert t'[i] == t[i]; }
      }
    }
  }

  /** A text of command characters only lexes to its characters' table entries, one by one. */
  lemma {:induction false} LexPointwise(s: string, ops: seq<Op>)
    requires |s| == |ops|
    requires forall i :: 0 <= i < |s| ==> LexChar(s[i]) == Some(ops[i])
    ensures Lex(s) == ops
  {
    if s != [] {
      var n := |s| - 1;
      LexPointwise(s[..n], ops[..n]);
      assert ops == ops[..n] + [ops[n]];
    }
  }

  /** Inserting comment text anywhere in a source leaves its tag sequence unchanged. */
  lemma InsertedCommentsIgnored(a: string, t: string, b: string)
    requires forall i :: 0 <= i < |t| ==> !IsCommand(t[i])
    ensures Lex(a + t + b) == Lex(a + b)
  {
    LexEmptyIffComments(t);
    LexAppend(a + t, b);
    LexAppend(a, t);
    LexAppend(a, b);
  }

  /** Rendering tags as their command characters and lexing the text gives the tags back. */
  lemma {:induction false} LexRenderRoundTrip(ops: seq<Op>)
    ensures Lex(RenderAll(ops)) == ops
  {
    if ops != [] {
      var ops', o := ops[..|ops| - 1], ops[|ops| - 1];
      LexRenderRoundTrip(ops');
      var x := RenderAll(ops);
      assert x[..|x| - 1] == RenderAll(ops') && x[|x| - 1] == Render(o);
      TableIsBijective(Render(o), o);
      assert Emit(Render(o)) == [o];
      assert ops == ops' + [o];
    }
  }

  /** The running `[`/`]` counter of the validator, over the characters read so far. */
  function Balance(s: string): (b: int)
    ensures -|s| <= b <= |s|
  {
    if s == [] then 0
    else
      var c := s[|s| - 1];
      Balance(s[..|s| - 1]) + (if c == '[' then 1 else if c == ']' then -1 else 0)
  }

  /** The counter never drops below zero on any prefix. */
  ghost predicate NeverNegative(s: string)
  {
    forall i :: 0 <= i <= |s| ==> Balance(s[..i]) >= 0
  }

  /** What the validator accepts: the counter never goes negative and ends at zero. */
  ghost predicate WellNested(s: string)
  {
    NeverNegative(s) && Balance(s) == 0
  }

  /** Counting brackets in the text is counting loop tags in its lexing. */
  lemma {:induction false} BalanceIsDepth(s: string)
    ensures Balance(s) == Depth(Lex(s))
  {
    if s != [] {
      BalanceIsDepth(s[..|s| - 1]);
      DepthAppend(Lex(s[..|s| - 1]), Emit(s[|s| - 1]));
    }
  }

  /** The validator's prefix test on characters is the structurer's prefix test on tags. */
  lemma {:induction false} NeverNegativeIsNeverUnderflows(s: string)
    ensures NeverNegative(s) <==> NeverUnderflows(Lex(s))
  {
    if s == [] {
      assert s[..0] == s;
      assert Lex(s)[..0] == Lex(s);
    } else {
      var s' := s[..|s| - 1];
      NeverNegativeIsNeverUnderflows(s');
      assert NeverNegative(s) <==> NeverNegative(s') && Balance(s) >= 0 by {
        forall i | 0 <= i <= |s'| ensures s[..i] == s'[..i] { }
        assert s[..|s|] == s;
      }
      BalanceIsDepth(s);
      var e := Emit(s[|s| - 1]);
      if e == [] {
        assert Lex(s) == Lex(s');
        BalanceIsDepth(s');
        assert s'[..|s'|] == s';
      } else {
        NeverUnderflowsSnoc(Lex(s'), e[0]);
        assert Lex(s) == Lex(s') + [e[0]];
      }
    }
  }

  /** The validator accepts a text exactly when its tags are properly nested. */
  lemma WellNestedIsNested(s: string)
    ensures WellNested(s) <==> Nested(Lex(s))
  {
    NeverNegativeIsNeverUnderflows(s);
    BalanceIsDepth(s);
  }

  /** A prefix that closes more loops than it opened dooms every continuation. */
  lemma UnderflowIsFinal(s: string, t: string)
    requires Balance(s) < 0
    ensures !WellNested(s + t)
  {
    assert (s + t)[..|s|] == s;
  }
}

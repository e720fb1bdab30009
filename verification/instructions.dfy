/** The instruction assembler `parse` of parse.php: opcode lookup, operand
    count check, and classification of each operand in argument order. */
module Instructions {
  import opened Wrappers
  import opened Chars
  import opened Opcodes
  import opened Operands
  import opened Grammar
  import opened Text

  /** Exit codes of the core. */
  const HeaderError: nat := 21
  const UnknownOpcode: nat := 22
  const LexicalError: nat := 23

  /** The content of one `instruction` element apart from its order: the
      opcode and the operands that were emitted. */
  datatype Assembled = Assembled(op: Opcode, args: seq<Arg>)

  /** The classification of each operand token against its kind, at its
      1-based position. */
  function Outcomes(tokens: seq<string>, kinds: seq<Kind>, first: nat := 1): (outs: seq<Outcome>)
    requires |tokens| == |kinds|
    ensures |outs| == |tokens|
    ensures forall i :: 0 <= i < |outs| && outs[i].Emit? ==> outs[i].arg.pos == first + i
    decreases |tokens|
  {
    if tokens == [] then []
    else [Classify(tokens[0], kinds[0], first)] + Outcomes(tokens[1..], kinds[1..], first + 1)
  }

  lemma {:induction false} OutcomesAt(tokens: seq<string>, kinds: seq<Kind>, i: nat, first: nat := 1)
    requires |tokens| == |kinds| && i < |tokens|
    ensures Outcomes(tokens, kinds, first)[i] == Classify(tokens[i], kinds[i], first + i)
    decreases i
  {
    if i > 0 {
      OutcomesAt(tokens[1..], kinds[1..], i - 1, first + 1);
    }
  }

  /** The operands emitted by a list of outcomes, in order. */
  function Emitted(outs: seq<Outcome>): (args: seq<Arg>)
    ensures |args| <= |outs|
    ensures forall a :: a in args ==> Emit(a) in outs
    ensures forall i :: 0 <= i < |outs| && outs[i].Emit? ==> outs[i].arg in args
  {
    if outs == [] then []
    else if outs[0].Emit? then [outs[0].arg] + Emitted(outs[1..])
    else Emitted(outs[1..])
  }

  /** Operands are emitted left to right, so their positions increase and stay
      within the operand count. */
  lemma {:induction false} EmittedOrdered(outs: seq<Outcome>, first: nat)
    requires forall i :: 0 <= i < |outs| && outs[i].Emit? ==> outs[i].arg.pos == first + i
    ensures forall j :: 0 <= j < |Emitted(outs)| ==> first <= Emitted(outs)[j].pos < first + |outs|
    ensures forall j, k :: 0 <= j < k < |Emitted(outs)| ==> Emitted(outs)[j].pos < Emitted(outs)[k].pos
  {
    if outs != [] {
      var tail := outs[1..];
      assert forall i :: 0 <= i < |tail| && tail[i].Emit? ==> tail[i].arg.pos == first + 1 + i by {
        forall i | 0 <= i < |tail| && tail[i].Emit?
          ensures tail[i].arg.pos == first + 1 + i
        {
          assert tail[i] == outs[i + 1];
        }
      }
      EmittedOrdered(tail, first + 1);
      var rest := Emitted(tail);
      if outs[0].Emit? {
        var args := Emitted(outs);
        assert args == [outs[0].arg] + rest;
        assert outs[0].arg.pos == first + 0;
        forall j | 1 <= j < |args|
          ensures first < args[j].pos < first + |outs|
        {
          assert args[j] == rest[j - 1];
        }
      } else {
        assert Emitted(outs) == rest;
      }
    }
  }

  /** When every outcome emits, every operand is there, in order. */
  lemma {:induction false} EmittedAll(outs: seq<Outcome>)
    requires forall i :: 0 <= i < |outs| ==> outs[i].Emit?
    ensures |Emitted(outs)| == |outs|
    ensures forall i :: 0 <= i < |outs| ==> Emitted(outs)[i] == outs[i].arg
  {
    if outs != [] {
      var tail := outs[1..];
      assert forall i :: 0 <= i < |tail| ==> tail[i] == outs[i + 1];
      EmittedAll(tail);
      var args := Emitted(outs);
      assert args == [outs[0].arg] + Emitted(tail);
      forall i | 0 <= i < |outs|
        ensures args[i] == outs[i].arg
      {
        if i > 0 {
          assert args[i] == Emitted(tail)[i - 1] && tail[i - 1] == outs[i];
        }
      }
    }
  }

  /** The operands of one instruction, handled left to right: the first
      failure stops the run with code 23, a skipped operand leaves a gap. */
  function Collect(outs: seq<Outcome>, line: int): (r: Result<seq<Arg>>)
    ensures r.Ok? <==> forall i :: 0 <= i < |outs| ==> !outs[i].Fail?
    ensures r.Err? ==> r == Err(LexicalError, line)
    ensures r.Ok? ==> r.value == Emitted(outs)
  {
    if outs == [] then Ok([])
    else
      match outs[0]
      case Fail => Err(LexicalError, line)
      case Skip => Collect(outs[1..], line)
      case Emit(a) =>
        var rest :- Collect(outs[1..], line);
        Ok([a] + rest)
  }

  /** `parse($opcode, $args, ...)`: the opcode is upper-cased and looked up
      (code 22 when unknown), the operand count must match the table (code 23
      before any operand is looked at), then each operand is classified. The
      order number is the main loop's counter; it is attached there. */
  function Assemble(opTok: string, args: seq<string>, line: int): (r: Result<Assembled>)
    ensures Lookup(Upper(opTok)).None? ==> r == Err(UnknownOpcode, line)
    ensures Lookup(Upper(opTok)).Some? && |args| != |Kinds(Lookup(Upper(opTok)).value)| ==>
      r == Err(LexicalError, line)
    ensures r.Err? ==> r.line == line && (r.code == UnknownOpcode || r.code == LexicalError)
    ensures r.Ok? ==> Name(r.value.op) == Upper(opTok)
    ensures r.Ok? ==> |args| == |Kinds(r.value.op)| && |r.value.args| <= |args|
  {
    match Lookup(Upper(opTok))
    case None => Err(UnknownOpcode, line)
    case Some(op) =>
      LookupSound(Upper(opTok), op);
      if |args| != |Kinds(op)| then Err(LexicalError, line)
      else
        var outs := Outcomes(args, Kinds(op));
        var operands :- Collect(outs, line);
        Ok(Assembled(op, operands))
  }

  /** The operands of an accepted instruction carry their positions among
      the source operands, in increasing order; a skipped operand leaves a gap
      but never shifts the positions of the others. */
  lemma AssemblePositions(opTok: string, args: seq<string>, line: int)
    ensures var r := Assemble(opTok, args, line);
      r.Ok? ==>
        && (forall j :: 0 <= j < |r.value.args| ==> 1 <= r.value.args[j].pos <= |args|)
        && (forall j, k :: 0 <= j < k < |r.value.args| ==> r.value.args[j].pos < r.value.args[k].pos)
  {
    if Assemble(opTok, args, line).Ok? {
      var op := Lookup(Upper(opTok)).value;
      EmittedOrdered(Outcomes(args, Kinds(op)), 1);
    }
  }

  /** An opcode with the right number of well-formed operands is accepted
      with all its operands, numbered from 1 in order. */
  lemma AcceptWellFormed(opTok: string, op: Opcode, args: seq<string>, line: int)
    requires Upper(opTok) == Name(op)
    requires |args| == |Kinds(op)|
    requires forall i :: 0 <= i < |args| ==> Classify(args[i], Kinds(op)[i], i + 1).Emit?
    ensures var r := Assemble(opTok, args, line);
      && r.Ok? && r.value.op == op && |r.value.args| == |args|
      && forall i :: 0 <= i < |args| ==> r.value.args[i] == Classify(args[i], Kinds(op)[i], i + 1).arg
  {
    var outs := Outcomes(args, Kinds(op));
    AllOutcomesEmit(args, Kinds(op));
    AcceptOutcomes(opTok, op, args, line);
    EmittedAll(outs);
    forall i | 0 <= i < |args|
      ensures Emitted(outs)[i] == Classify(args[i], Kinds(op)[i], i + 1).arg
    {
      OutcomesAt(args, Kinds(op), i);
    }
  }

  lemma AllOutcomesEmit(args: seq<string>, kinds: seq<Kind>)
    requires |args| == |kinds|
    requires forall i :: 0 <= i < |args| ==> Classify(args[i], kinds[i], i + 1).Emit?
    ensures forall i :: 0 <= i < |args| ==> Outcomes(args, kinds)[i].Emit?
  {
    forall i | 0 <= i < |args|
      ensures Outcomes(args, kinds)[i].Emit?
    {
      OutcomesAt(args, kinds, i);
    }
  }

  lemma AcceptOutcomes(opTok: string, op: Opcode, args: seq<string>, line: int)
    requires Upper(opTok) == Name(op)
    requires |args| == |Kinds(op)|
    requires forall i :: 0 <= i < |args| ==> Outcomes(args, Kinds(op))[i].Emit?
    ensures Assemble(opTok, args, line) == Ok(Assembled(op, Emitted(Outcomes(args, Kinds(op)))))
  {
    LookupName(op);
  }

  /** With a known opcode and the right count, the instruction is refused
      with error 23 exactly when some operand is refused, and is otherwise
      accepted with the emitted operands, a skipped one leaving a gap. */
  lemma AssembleOperands(opTok: string, op: Opcode, args: seq<string>, line: int)
    requires Upper(opTok) == Name(op)
    requires |args| == |Kinds(op)|
    ensures var r := Assemble(opTok, args, line);
      && (r.Err? <==> exists i :: 0 <= i < |args| && Classify(args[i], Kinds(op)[i], i + 1).Fail?)
      && (r.Err? ==> r == Err(LexicalError, line))
      && (r.Ok? ==> r.value == Assembled(op, Emitted(Outcomes(args, Kinds(op)))))
  {
    LookupName(op);
    var outs := Outcomes(args, Kinds(op));
    forall i | 0 <= i < |args|
      ensures outs[i] == Classify(args[i], Kinds(op)[i], i + 1)
    {
      OutcomesAt(args, Kinds(op), i);
    }
  }

  /** `MOVE <var> <frame>@<not a name>`, such as `MOVE GF@x GF@1x`: the
      second operand has a frame prefix but is no variable, so it is dropped
      without an error and `MOVE` keeps one operand. */
  lemma MoveSkippedOperand(opTok: string, x: string, y: string, line: int)
    requires Upper(opTok) == "MOVE"
    requires ValidVar(x)
    requires IsFrame(SymbPrefix(y)) && !ValidVar(y)
    ensures Assemble(opTok, [x, y], line) == Ok(Assembled(Move, [Arg(1, TVar, EscapeAmp(x))]))
  {
    var outs := MoveSkippedOutcomes(x, y);
    var a1 := outs[0].arg;
    assert Emitted(outs) == [a1] by {
      assert Emitted(outs) == [a1] + Emitted(outs[1..]);
      assert Emitted(outs[1..]) == Emitted(outs[1..][1..]);
      assert outs[1..][1..] == [];
    }
    assert forall i :: 0 <= i < |outs| ==> !outs[i].Fail?;
    assert Collect(outs, line) == Ok([a1]);
    LookupName(Move);
  }

  lemma MoveSkippedOutcomes(x: string, y: string) returns (outs: seq<Outcome>)
    requires ValidVar(x)
    requires IsFrame(SymbPrefix(y)) && !ValidVar(y)
    ensures outs == Outcomes([x, y], Kinds(Move))
    ensures outs == [Emit(Arg(1, TVar, EscapeAmp(x))), Skip]
  {
    var args := [x, y];
    assert Kinds(Move) == [KVar, KSymb];
    outs := Outcomes(args, Kinds(Move));
    OutcomesAt(args, Kinds(Move), 0);
    OutcomesAt(args, Kinds(Move), 1);
  }

  /** Whatever the spelling of a known opcode, a wrong operand count is
      error 23, never a truncated or padded operand list. */
  lemma ArityMismatch(opTok: string, op: Opcode, args: seq<string>, line: int)
    requires Upper(opTok) == Name(op)
    requires |args| != |Kinds(op)|
    ensures Assemble(opTok, args, line) == Err(LexicalError, line)
  {
    LookupName(op);
  }

  /** A token that spells no opcode is error 22, whatever its operands. */
  lemma UnknownOpcodeAnyArgs(opTok: string, args: seq<string>, args': seq<string>, line: int)
    requires forall op: Opcode :: Upper(opTok) != Name(op)
    ensures Assemble(opTok, args, line) == Err(UnknownOpcode, line)
    ensures Assemble(opTok, args, line) == Assemble(opTok, args', line)
  {
    LookupNone(Upper(opTok));
  }

  /** An `int@<n>` operand whose literal has no further `@`. */
  lemma SymbIntOperand(n: string, pos: nat)
    requires '@' !in n && IsIntLiteral(n)
    ensures Classify("int@" + n, KSymb, pos) == Emit(Arg(pos, TConst(CInt), n))
  {
    var t := "int@" + n;
    assert ConstName(CInt) + "@" == "int@";
    assert t == ConstName(CInt) + "@" + n + "" by {
      assert n + "" == n;
    }
    SymbConstPiece(CInt, n, "", pos);
  }

  /** `MOVE <var> int@<n>`, in any letter case, is the instruction `MOVE`
      with a `var` operand, `&` escaped, and an `int` operand. */
  lemma MoveVarInt(opTok: string, x: string, n: string, line: int)
    requires Upper(opTok) == "MOVE"
    requires ValidVar(x)
    requires '@' !in n && IsIntLiteral(n)
    ensures Assemble(opTok, [x, "int@" + n], line)
      == Ok(Assembled(Move, [Arg(1, TVar, EscapeAmp(x)), Arg(2, TConst(CInt), n)]))
  {
    var args := [x, "int@" + n];
    var a1 := Arg(1, TVar, EscapeAmp(x));
    var a2 := Arg(2, TConst(CInt), n);
    assert Kinds(Move) == [KVar, KSymb];
    assert Classify(x, KVar, 1) == Emit(a1);
    SymbIntOperand(n, 2);
    assert forall i :: 0 <= i < |args| ==> Classify(args[i], Kinds(Move)[i], i + 1).Emit? by {
      assert args[0] == x && args[1] == "int@" + n;
    }
    AcceptWellFormed(opTok, Move, args, line);
    var r := Assemble(opTok, args, line);
    assert r.value.args[0] == a1 && r.value.args[1] == a2;
    assert r.value.args == [a1, a2];
  }
}

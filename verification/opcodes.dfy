/** The opcode table of `parse` in parse.php: the 35 IPPcode23 opcodes and
    the operand kinds each one takes, in order. */
module Opcodes {
  import opened Wrappers
  import opened Chars

  datatype Opcode =
    | CreateFrame | PushFrame | PopFrame | Return | Break
    | DefVar | Pops
    | Call | Label | Jump
    | Pushs | Write | Exit | DPrint
    | Not | Move | Int2Char | StrLen | Type
    | Read
    | Add | Sub | Mul | IDiv | Lt | Gt | Eq | And | Or | Stri2Int | GetChar | SetChar | Concat
    | JumpIfEq | JumpIfNEq

  /** The four operand grammars of `chek_and_print_arguments`. */
  datatype Kind = KVar | KLabel | KSymb | KType

  /** The upper-case name that selects the opcode and that is emitted as the
      `opcode` attribute. */
  function Name(op: Opcode): string {
    match op
    case CreateFrame => "CREATEFRAME"
    case PushFrame => "PUSHFRAME"
    case PopFrame => "POPFRAME"
    case Return => "RETURN"
    case Break => "BREAK"
    case DefVar => "DEFVAR"
    case Pops => "POPS"
    case Call => "CALL"
    case Label => "LABEL"
    case Jump => "JUMP"
    case Pushs => "PUSHS"
    case Write => "WRITE"
    case Exit => "EXIT"
    case DPrint => "DPRINT"
    case Not => "NOT"
    case Move => "MOVE"
    case Int2Char => "INT2CHAR"
    case StrLen => "STRLEN"
    case Type => "TYPE"
    case Read => "READ"
    case Add => "ADD"
    case Sub => "SUB"
    case Mul => "MUL"
    case IDiv => "IDIV"
    case Lt => "LT"
    case Gt => "GT"
    case Eq => "EQ"
    case And => "AND"
    case Or => "OR"
    case Stri2Int => "STRI2INT"
    case GetChar => "GETCHAR"
    case SetChar => "SETCHAR"
    case Concat => "CONCAT"
    case JumpIfEq => "JUMPIFEQ"
    case JumpIfNEq => "JUMPIFNEQ"
  }

  /** The `switch` of `parse` on the upper-cased opcode: the opcode whose
      name is `s`, if there is one. */
  function Lookup(s: string): Option<Opcode> {
    match s
    case "CREATEFRAME" => Some(CreateFrame)
    case "PUSHFRAME" => Some(PushFrame)
    case "POPFRAME" => Some(PopFrame)
    case "RETURN" => Some(Return)
    case "BREAK" => Some(Break)
    case "DEFVAR" => Some(DefVar)
    case "POPS" => Some(Pops)
    case "CALL" => Some(Call)
    case "LABEL" => Some(Label)
    case "JUMP" => Some(Jump)
    case "PUSHS" => Some(Pushs)
    case "WRITE" => Some(Write)
    case "EXIT" => Some(Exit)
    case "DPRINT" => Some(DPrint)
    case "NOT" => Some(Not)
    case "MOVE" => Some(Move)
    case "INT2CHAR" => Some(Int2Char)
    case "STRLEN" => Some(StrLen)
    case "TYPE" => Some(Type)
    case "READ" => Some(Read)
    case "ADD" => Some(Add)
    case "SUB" => Some(Sub)
    case "MUL" => Some(Mul)
    case "IDIV" => Some(IDiv)
    case "LT" => Some(Lt)
    case "GT" => Some(Gt)
    case "EQ" => Some(Eq)
    case "AND" => Some(And)
    case "OR" => Some(Or)
    case "STRI2INT" => Some(Stri2Int)
    case "GETCHAR" => Some(GetChar)
    case "SETCHAR" => Some(SetChar)
    case "CONCAT" => Some(Concat)
    case "JUMPIFEQ" => Some(JumpIfEq)
    case "JUMPIFNEQ" => Some(JumpIfNEq)
    case _ => None
  }

  /** The lookup finds only an opcode with exactly the name looked up. */
  lemma LookupSound(s: string, op: Opcode)
    requires Lookup(s) == Some(op)
    ensures Name(op) == s
  {
  }

  /** Every opcode is found by its own name. */
  lemma LookupName(op: Opcode)
    ensures Lookup(Name(op)) == Some(op)
  {
    match op
    case CreateFrame => assert Lookup("CREATEFRAME") == Some(CreateFrame);
    case PushFrame => assert Lookup("PUSHFRAME") == Some(PushFrame);
    case PopFrame => assert Lookup("POPFRAME") == Some(PopFrame);
    case Return => assert Lookup("RETURN") == Some(Return);
    case Break => assert Lookup("BREAK") == Some(Break);
    case DefVar => assert Lookup("DEFVAR") == Some(DefVar);
    case Pops => assert Lookup("POPS") == Some(Pops);
    case Call => assert Lookup("CALL") == Some(Call);
    case Label => assert Lookup("LABEL") == Some(Label);
    case Jump => assert Lookup("JUMP") == Some(Jump);
    case Pushs => assert Lookup("PUSHS") == Some(Pushs);
    case Write => assert Lookup("WRITE") == Some(Write);
    case Exit => assert Lookup("EXIT") == Some(Exit);
    case DPrint => assert Lookup("DPRINT") == Some(DPrint);
    case Not => assert Lookup("NOT") == Some(Not);
    case Move => assert Lookup("MOVE") == Some(Move);
    case Int2Char => assert Lookup("INT2CHAR") == Some(Int2Char);
    case StrLen => assert Lookup("STRLEN") == Some(StrLen);
    case Type => assert Lookup("TYPE") == Some(Type);
    case Read => assert Lookup("READ") == Some(Read);
    case Add => assert Lookup("ADD") == Some(Add);
    case Sub => assert Lookup("SUB") == Some(Sub);
    case Mul => assert Lookup("MUL") == Some(Mul);
    case IDiv => assert Lookup("IDIV") == Some(IDiv);
    case Lt => assert Lookup("LT") == Some(Lt);
    case Gt => assert Lookup("GT") == Some(Gt);
    case Eq => assert Lookup("EQ") == Some(Eq);
    case And => assert Lookup("AND") == Some(And);
    case Or => assert Lookup("OR") == Some(Or);
    case Stri2Int => assert Lookup("STRI2INT") == Some(Stri2Int);
    case GetChar => assert Lookup("GETCHAR") == Some(GetChar);
    case SetChar => assert Lookup("SETCHAR") == Some(SetChar);
    case Concat => assert Lookup("CONCAT") == Some(Concat);
    case JumpIfEq => assert Lookup("JUMPIFEQ") == Some(JumpIfEq);
    case JumpIfNEq => assert Lookup("JUMPIFNEQ") == Some(JumpIfNEq);
  }

  /** The lookup fails exactly for a string that names no opcode. */
  lemma LookupNone(s: string)
    ensures Lookup(s).None? <==> forall op: Opcode :: Name(op) != s
  {
    if Lookup(s).Some? {
      LookupSound(s, Lookup(s).value);
    }
    forall op: Opcode | Name(op) == s
      ensures Lookup(s).Some?
    {
      LookupName(op);
    }
  }

  /** Different opcodes have different names. */
  lemma NameInjective(a: Opcode, b: Opcode)
    requires Name(a) == Name(b)
    ensures a == b
  {
    LookupName(a);
    LookupName(b);
  }

  /** Names are upper case, so the lookup of an upper-cased token is
      case-insensitive: it succeeds exactly for the spellings of a name that
      differ from it only in letter case. */
  lemma LookupUpper(t: string, op: Opcode)
    ensures Lookup(Upper(t)) == Some(op) <==> Upper(t) == Name(op)
  {
    if Upper(t) == Name(op) {
      LookupName(op);
    }
    if Lookup(Upper(t)) == Some(op) {
      LookupSound(Upper(t), op);
    }
  }

  /** The operand kinds of each opcode, in argument order. */
  function Kinds(op: Opcode): (ks: seq<Kind>)
    ensures |ks| <= 3
    ensures ks in Shapes
  {
    match op
    case CreateFrame | PushFrame | PopFrame | Return | Break => []
    case DefVar | Pops => [KVar]
    case Call | Label | Jump => [KLabel]
    case Pushs | Write | Exit | DPrint => [KSymb]
    case Not | Move | Int2Char | StrLen | Type => [KVar, KSymb]
    case Read => [KVar, KType]
    case Add | Sub | Mul | IDiv | Lt | Gt | Eq | And | Or | Stri2Int | GetChar | SetChar | Concat =>
      [KVar, KSymb, KSymb]
    case JumpIfEq | JumpIfNEq => [KLabel, KSymb, KSymb]
  }

  /** The eight operand signatures the language has. */
  const Shapes: set<seq<Kind>> := {
    [], [KVar], [KLabel], [KSymb], [KVar, KSymb], [KVar, KType],
    [KVar, KSymb, KSymb], [KLabel, KSymb, KSymb]
  }

  /** Only the two conditional jumps start with a label and take more than
      one operand; only `READ` takes a type. */
  lemma KindsLabelAndType(op: Opcode)
    ensures KType in Kinds(op) <==> op == Read
    ensures |Kinds(op)| > 1 && Kinds(op)[0] == KLabel <==> op == JumpIfEq || op == JumpIfNEq
  {
  }
}

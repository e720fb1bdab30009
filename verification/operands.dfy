/** The operand classifier `chek_and_print_arguments` of parse.php: checks one
    operand token against the grammar of its kind and yields the operand the
    instruction record receives (its position, type tag and escaped text). */
module Operands {
  import opened Chars
  import opened Text
  import opened Grammar
  import opened Opcodes

  /** The `type` attribute of an emitted operand. */
  datatype ArgType = TVar | TLabel | TType | TConst(c: ConstType)

  function TypeName(t: ArgType): string {
    match t
    case TVar => "var"
    case TLabel => "label"
    case TType => "type"
    case TConst(c) => ConstName(c)
  }

  /** One operand element: `arg<pos>` with its type and text. */
  datatype Arg = Arg(pos: nat, typ: ArgType, text: string)

  /** What classifying one operand does: append an operand, append nothing
      and carry on, or stop the run with code 23. */
  datatype Outcome = Emit(arg: Arg) | Skip | Fail

  /** The `var` case. */
  function ClassifyVar(t: string, pos: nat): (o: Outcome)
    ensures !o.Skip?
    ensures o.Emit? ==> o.arg.pos == pos && o.arg.typ == TVar
  {
    if ValidVar(t) then Emit(Arg(pos, TVar, EscapeAmp(t))) else Fail
  }

  /** A `var` operand is accepted exactly when it is a valid variable, and
      its text is the variable with `&` escaped, which a reader decodes back
      to the token. */
  lemma VarSpec(t: string, pos: nat)
    ensures var o := ClassifyVar(t, pos);
      && (o.Emit? <==> ValidVar(t))
      && (o.Emit? ==> o.arg.text == EscapeAmp(t) && UnescapeAmp(o.arg.text) == t)
  {
    UnescapeEscapeAmp(t);
  }

  /** `str_replace(["<", ">", "&"], ["&lt;", "&gt;", "&amp;"], t)`: the three
      replacements run one after the other over the whole text. */
  function LabelEscape(t: string): string {
    ReplaceChar(ReplaceChar(ReplaceChar(t, '<', "&lt;"), '>', "&gt;"), '&', Amp)
  }

  /** A valid label holds neither `<` nor `>`, so its escaping is the `&amp;`
      escaping alone, and a reader decodes it back to the label. */
  lemma LabelEscapeIsEscapeAmp(t: string)
    requires ValidLabel(t)
    ensures LabelEscape(t) == EscapeAmp(t)
    ensures UnescapeAmp(LabelEscape(t)) == t
  {
    IdentExcludes(t);
    UnescapeEscapeAmp(t);
  }

  /** The `label` case. */
  function ClassifyLabel(t: string, pos: nat): (o: Outcome)
    ensures !o.Skip?
    ensures o.Emit? ==> o.arg.pos == pos && o.arg.typ == TLabel
  {
    if ValidLabel(t) then Emit(Arg(pos, TLabel, LabelEscape(t))) else Fail
  }

  /** A `label` operand is accepted exactly when it is a valid label, and its
      text is the label with `&` escaped, which a reader decodes back to the
      token. */
  lemma LabelSpec(t: string, pos: nat)
    ensures var o := ClassifyLabel(t, pos);
      && (o.Emit? <==> ValidLabel(t))
      && (o.Emit? ==> o.arg.text == EscapeAmp(t) && UnescapeAmp(o.arg.text) == t)
  {
    if ValidLabel(t) {
      LabelEscapeIsEscapeAmp(t);
    }
  }

  /** The `type` case: one of the four type names, emitted unchanged. */
  function ClassifyType(t: string, pos: nat): (o: Outcome)
    ensures !o.Skip?
    ensures o.Emit? <==> t == "nil" || t == "bool" || t == "int" || t == "string"
    ensures o.Emit? ==> o.arg == Arg(pos, TType, t)
  {
    if ParseConstType(t).Some? then Emit(Arg(pos, TType, t)) else Fail
  }

  /** The text before the first `@` of a `symb` token (all of it when there
      is no `@`). */
  function SymbPrefix(t: string): string {
    Explode(t, '@')[0]
  }

  /** The value `check_const` receives for a constant of type `c`: for
      `string`, everything after the first `@`, with `&` escaped; for the
      other types, only the piece between the first and the second `@`. */
  function ConstValue(c: ConstType, t: string): string {
    if c == CString then EscapeAmp(Field(ExplodeOnce(t, '@'), 1))
    else Field(Explode(t, '@'), 1)
  }

  /** The `symb` case, as written: a frame-prefixed token that is not a valid
      variable yields no operand and no error, and a valid one is emitted
      without `&` escaping. */
  function ClassifySymb(t: string, pos: nat): (o: Outcome)
    ensures o.Emit? ==> o.arg.pos == pos
    ensures o.Skip? ==> IsFrame(SymbPrefix(t))
    ensures o.Emit? && o.arg.typ.TConst? ==> CheckConst(o.arg.typ.c, o.arg.text)
  {
    var prefix := SymbPrefix(t);
    if IsFrame(prefix) then
      if ValidVar(t) then Emit(Arg(pos, TVar, t)) else Skip
    else
      match ParseConstType(prefix)
      case None => Fail
      case Some(c) =>
        var v := ConstValue(c, t);
        if CheckConst(c, v) then Emit(Arg(pos, TConst(c), v)) else Fail
  }

  /** What the `symb` case promises: a token with a frame prefix is a
      variable, emitted as written, or else skipped; a token with a constant
      prefix is that constant, emitted only when `check_const` accepts its
      value; any other prefix fails. */
  lemma SymbSpec(t: string, pos: nat)
    ensures var o := ClassifySymb(t, pos);
      && (o.Skip? <==> IsFrame(SymbPrefix(t)) && !ValidVar(t))
      && (o.Emit? && o.arg.typ == TVar <==> ValidVar(t))
      && (o.Emit? && o.arg.typ == TVar ==> o.arg.text == t)
      && (o.Emit? ==> o.arg.typ.TVar? || (o.arg.typ.TConst? && TypeName(o.arg.typ) == SymbPrefix(t)))
      && (o.Emit? && o.arg.typ.TConst? ==> CheckConst(o.arg.typ.c, o.arg.text))
      && (ParseConstType(SymbPrefix(t)).None? && !IsFrame(SymbPrefix(t)) ==> o.Fail?)
  {
    if ValidVar(t) {
      VarHasFramePrefix(t);
    }
  }

  /** `chek_and_print_arguments` for an operand of kind `k` at position `pos`. */
  function Classify(t: string, k: Kind, pos: nat): (o: Outcome)
    ensures o.Emit? ==> o.arg.pos == pos
    ensures o.Skip? ==> k == KSymb
  {
    match k
    case KVar => ClassifyVar(t, pos)
    case KLabel => ClassifyLabel(t, pos)
    case KSymb => ClassifySymb(t, pos)
    case KType => ClassifyType(t, pos)
  }

  /** Whether a token is accepted is independent of its position. */
  lemma ClassifyPositionIndependent(t: string, k: Kind, p: nat, q: nat)
    ensures Classify(t, k, p).Emit? <==> Classify(t, k, q).Emit?
    ensures Classify(t, k, p).Skip? <==> Classify(t, k, q).Skip?
    ensures Classify(t, k, p).Emit? ==>
      Classify(t, k, q).arg == Classify(t, k, p).arg.(pos := q)
  {
  }

  /** A token whose prefix names a constant type is that constant: emitted
      with the value `check_const` accepts, or else a failure. */
  lemma SymbConst(t: string, c: ConstType, pos: nat)
    requires SymbPrefix(t) == ConstName(c)
    ensures ClassifySymb(t, pos)
      == if CheckConst(c, ConstValue(c, t)) then Emit(Arg(pos, TConst(c), ConstValue(c, t))) else Fail
  {
    if ValidVar(t) {
      VarHasFramePrefix(t);
    }
  }

  /** A string constant is the whole text after the first `@`, further `@`s
      included; it is accepted iff its escapes are well formed, and emitted
      with its escapes untouched and only `&` escaped. */
  lemma {:induction false} SymbString(v: string, pos: nat)
    ensures var o := ClassifySymb("string@" + v, pos);
      && (o.Emit? <==> EscapesWellFormed(v))
      && (!o.Emit? ==> o.Fail?)
      && (o.Emit? ==> o.arg == Arg(pos, TConst(CString), EscapeAmp(v)) && UnescapeAmp(o.arg.text) == v)
  {
    var t := "string@" + v;
    assert SymbPrefix(t) == ConstName(CString) && ConstValue(CString, t) == EscapeAmp(v) by {
      assert t == "string" + ['@'] + v;
      ExplodeOnceHead(t, '@');
      ExplodeOnceSplit("string", v, '@');
    }
    SymbConst(t, CString, pos);
    assert CheckConst(CString, EscapeAmp(v)) <==> EscapesWellFormed(v) by {
      StringLiteralEscapeAmp(v);
      StringLiteralIff(v);
    }
    UnescapeEscapeAmp(v);
  }

  lemma {:induction false} ExplodeOnceSplit(a: string, b: string, sep: char)
    requires sep !in a
    ensures ExplodeOnce(a + [sep] + b, sep) == [a, b]
  {
    var parts := ExplodeOnce(a + [sep] + b, sep);
    assert sep in a + [sep] + b by { assert (a + [sep] + b)[|a|] == sep; }
    assert a + [sep] + b == parts[0] + [sep] + parts[1];
    PrefixBeforeSep(a, parts[0], b, parts[1], sep);
  }

  /** Two splits of one text at a separator that neither first piece contains
      are the same split. */
  lemma {:induction false} PrefixBeforeSep(a: string, a': string, b: string, b': string, sep: char)
    requires sep !in a && sep !in a'
    requires a + [sep] + b == a' + [sep] + b'
    ensures a == a' && b == b'
  {
    var s := a + [sep] + b;
    assert s[..|a|] == a && s[|a|] == sep;
    IndexOfFirst(s, sep, |a|);
    assert s[..|a'|] == a' && s[|a'|] == sep;
    IndexOfFirst(s, sep, |a'|);
    assert a == s[..|a|] == a';
    assert b == s[|a| + 1..] == b';
  }

  /** For `nil`, `bool` and `int` only the piece between the first and the
      second `@` is checked and emitted; anything after a second `@` is
      ignored. */
  lemma SymbConstPiece(c: ConstType, v: string, rest: string, pos: nat)
    requires c != CString
    requires '@' !in v
    ensures var o := ClassifySymb(ConstName(c) + "@" + v + rest, pos);
      && (rest == [] || rest[0] == '@' ==>
           && (o.Emit? <==> CheckConst(c, v))
           && (!o.Emit? ==> o.Fail?)
           && (o.Emit? ==> o.arg == Arg(pos, TConst(c), v)))
  {
    if rest == [] || rest[0] == '@' {
      var t := ConstName(c) + "@" + v + rest;
      assert SymbPrefix(t) == ConstName(c) && ConstValue(c, t) == v by {
        assert t == ConstName(c) + ("@" + (v + rest));
        ExplodeLead(ConstName(c), "@" + (v + rest), '@');
        assert ("@" + (v + rest))[1..] == v + rest;
        ExplodeLead(v, rest, '@');
      }
      SymbConst(t, c, pos);
    }
  }

  /** `explode` starts with the text before the first separator and goes on
      with the pieces of the rest. */
  lemma {:induction false} ExplodeLead(a: string, b: string, sep: char)
    requires sep !in a
    requires b == [] || b[0] == sep
    ensures Explode(a + b, sep)[0] == a
    ensures b != [] ==> Explode(a + b, sep) == [a] + Explode(b[1..], sep)
  {
    if a == [] {
      assert a + b == b;
    } else {
      assert (a + b)[1..] == a[1..] + b;
      ExplodeLead(a[1..], b, sep);
      assert a == [a[0]] + a[1..];
    }
  }

  /** A `symb` that is a valid variable is emitted as `var` with its text as
      written, `&` included. */
  lemma SymbVar(t: string, pos: nat)
    requires ValidVar(t)
    ensures ClassifySymb(t, pos) == Emit(Arg(pos, TVar, t))
  {
    VarHasFramePrefix(t);
  }

  /** A `symb` variable is emitted as written. */
  lemma SymbVarExample()
    ensures ClassifySymb("GF@x", 1) == Emit(Arg(1, TVar, "GF@x"))
  {
    assert "GF@x"[..2] == "GF" && "GF@x"[3..] == "x";
    SymbVar("GF@x", 1);
  }

  /** `int@5` yields the integer `5`. */
  lemma SymbIntExample()
    ensures ClassifySymb("int@5", 2) == Emit(Arg(2, TConst(CInt), "5"))
  {
    assert "int@5" == ConstName(CInt) + "@" + "5" + "" by {
      assert ConstName(CInt) + "@" + "5" == "int@5";
    }
    SymbConstPiece(CInt, "5", "", 2);
  }

  /** A bare `string`, with no `@`, is the empty string constant. */
  lemma SymbBareStringExample()
    ensures ClassifySymb("string", 1) == Emit(Arg(1, TConst(CString), ""))
  {
    ExplodeNone("string", '@');
  }

  /** An unknown prefix stops the run. */
  lemma SymbUnknownPrefixExample()
    ensures ClassifySymb("foo@bar", 1) == Fail
  {
    assert "foo@bar" == "foo" + "@bar";
    ExplodeLead("foo", "@bar", '@');
  }

  /** A malformed integer stops the run. */
  lemma SymbBadIntExample()
    ensures ClassifySymb("int@1.5", 1) == Fail
  {
    assert "int@1.5" == ConstName(CInt) + "@" + "1.5" + "" by {
      assert ConstName(CInt) + "@" + "1.5" == "int@1.5";
    }
    SymbConstPiece(CInt, "1.5", "", 1);
    IntLiteralExamples();
  }

  /** A frame-prefixed `symb` that is not a valid variable is dropped: no
      operand and no error. */
  lemma SymbSkippedExample()
    ensures ClassifySymb("GF@1x", 1) == Skip
  {
    assert "GF@1x" == "GF" + "@1x";
    ExplodeLead("GF", "@1x", '@');
    assert "GF@1x"[3..][0] == '1';
  }

  /** `GF@x` is kept as is and a frame-less variable is refused. */
  lemma VarExamples()
    ensures ClassifyVar("GF@x", 1) == Emit(Arg(1, TVar, "GF@x"))
    ensures ClassifyVar("x", 1) == Fail
  {
    assert "GF@x"[..2] == "GF" && "GF@x"[3..] == "x";
    assert EscapeAmp("GF@x") == "GF@x";
  }

  /** An `&` inside a label is kept and emitted as `&amp;`; the characters
      around it are emitted unchanged. */
  lemma LabelWithAmp(a: string, b: string, pos: nat)
    requires ValidLabel(a) && '&' !in a && '&' !in b
    requires forall i :: 0 <= i < |b| ==> IsIdentChar(b[i])
    ensures ClassifyLabel(a + "&" + b, pos) == Emit(Arg(pos, TLabel, a + Amp + b))
  {
    var t := a + "&" + b;
    assert ValidLabel(t) by {
      assert t[0] == a[0];
      forall i | 1 <= i < |t|
        ensures IsIdentChar(t[i])
      {
        if i < |a| {
          assert t[i] == a[i];
        } else if i == |a| {
          assert t[i] == '&';
        } else {
          assert t[i] == b[i - |a| - 1];
        }
      }
    }
    LabelSpec(t, pos);
    ReplaceCharAppend(a + "&", b, '&', Amp);
    ReplaceCharAppend(a, "&", '&', Amp);
    assert ReplaceChar("&", '&', Amp) == Amp;
  }
}

/** The main loop of parse.php: every line is normalised, its non-empty
    tokens are collected, the first of them must be the header alone on its
    line, and every later line whose first token is non-empty is one
    instruction, numbered from 1. */
module Translator {
  import opened Wrappers
  import opened Chars
  import opened Normalizer
  import opened Grammar
  import opened Text
  import opened Opcodes
  import opened Operands
  import opened Instructions

  /** The language identifier, as `correct_header` compares it after
      upper-casing. */
  const HeaderName: string := ".IPPCODE23"

  /** One `instruction` element: its order, its opcode and its operands. */
  datatype Instruction = Instruction(order: nat, op: Opcode, args: seq<Arg>)

  /** What the loop carries from one line to the next: whether the header has
      been seen, every non-empty token so far, the order counter and the
      instructions built so far. */
  datatype State = State(header: bool, tokens: seq<string>, order: nat, program: seq<Instruction>)

  const Start: State := State(false, [], 0, [])

  /** One input line as the loop sees it: its tokens, and what `parse` makes
      of them should the loop hand them over. Assembly is pure, so computing
      it for every line changes nothing; the loop consults it only for the
      lines it passes to `parse`. */
  datatype Line = Line(tokens: seq<string>, asm: Result<Assembled>)

  /** Line `i` normalised, split, and assembled from its first token and the
      rest. */
  function Prepare(line: string, i: int): Line {
    var lt := Tokenize(line);
    Line(lt, Assemble(lt[0], lt[1..], i))
  }

  /** The non-empty tokens of a line, in order (the inner `for $j` loop). */
  function NonEmpty(ts: seq<string>): (r: seq<string>)
    ensures |r| <= |ts|
    ensures forall k :: 0 <= k < |r| ==> r[k] != []
    ensures r == [] <==> forall k :: 0 <= k < |ts| ==> ts[k] == []
  {
    if ts == [] then []
    else if ts[0] != [] then [ts[0]] + NonEmpty(ts[1..])
    else NonEmpty(ts[1..])
  }

  /** A token line with at least one non-empty token. */
  predicate HasToken(lt: seq<string>) {
    NonEmpty(lt) != []
  }

  /** The header line: one token, which upper-cases to the identifier. */
  predicate IsHeaderLine(lt: seq<string>) {
    |lt| == 1 && Upper(lt[0]) == HeaderName
  }

  /** Whether a token line is handed to `parse` once the header has been
      seen: its first token must be present and non-empty. */
  predicate StartsInstruction(lt: seq<string>) {
    |lt| > 0 && lt[0] != []
  }

  /** One pass of the `for $i` loop over line `i`. */
  function Step(s: State, l: Line, i: int): Result<State> {
    var tokens := s.tokens + NonEmpty(l.tokens);
    if !s.header && |tokens| != 0 then
      if Upper(tokens[0]) == HeaderName then
        if |l.tokens| == 1 then Ok(s.(header := true, tokens := tokens))
        else Err(HeaderError, i)
      else Err(HeaderError, i)
    else if s.header && StartsInstruction(l.tokens) then
      match l.asm
      case Err(code, line) => Err(code, line)
      case Ok(a) => Ok(State(true, tokens, s.order + 1, s.program + [Instruction(s.order + 1, a.op, a.args)]))
    else Ok(s.(tokens := tokens))
  }

  /** A step either fails, with error 21 exactly while the header is still
      missing, or extends the collected tokens by the line's non-empty tokens
      and the program by at most one instruction, keeping the header once
      seen. */
  lemma StepShape(s: State, l: Line, i: int)
    requires l.asm.Err? ==> l.asm.line == i
    ensures Step(s, l, i).Err? ==> Step(s, l, i).line == i
    ensures Step(s, l, i).Err? ==> (Step(s, l, i).code == HeaderError <==> !s.header || l.asm.code == HeaderError)
    ensures Step(s, l, i).Ok? ==> Step(s, l, i).value.tokens == s.tokens + NonEmpty(l.tokens)
    ensures Step(s, l, i).Ok? && s.header ==> Step(s, l, i).value.header
    ensures Step(s, l, i).Ok? ==> |s.program| <= |Step(s, l, i).value.program| <= |s.program| + 1
    ensures Step(s, l, i).Ok? ==> Step(s, l, i).value.program[..|s.program|] == s.program
  {
  }

  /** The loop over the prepared lines `ls`, line `i` being `ls[i]`. */
  function Run(ls: seq<Line>): Result<State>
    decreases |ls|
  {
    if ls == [] then Ok(Start)
    else
      var s :- Run(ls[..|ls| - 1]);
      Step(s, ls[|ls| - 1], |ls| - 1)
  }

  /** Every line, prepared. */
  function Lex(lines: seq<string>): (ls: seq<Line>)
    ensures |ls| == |lines|
    ensures forall i :: 0 <= i < |lines| ==> ls[i] == Prepare(lines[i], i)
  {
    seq(|lines|, i requires 0 <= i < |lines| => Prepare(lines[i], i))
  }

  /** The loop, then the check that some token was seen at all (error 21,
      reported at line 0). */
  function Finish(ls: seq<Line>): Result<seq<Instruction>> {
    var s :- Run(ls);
    if |ls| == 0 || |s.tokens| == 0 then Err(HeaderError, 0) else Ok(s.program)
  }

  /** The whole translation of the input lines. */
  function Translate(lines: seq<string>): Result<seq<Instruction>> {
    Finish(Lex(lines))
  }

  /** What holds between lines: before the header nothing has been collected;
      after it, the counter equals the number of instructions and the Nth
      instruction has order N. */
  predicate Inv(s: State) {
    && (!s.header ==> s.tokens == [] && s.program == [] && s.order == 0)
    && (s.header ==> s.tokens != [] && Upper(s.tokens[0]) == HeaderName)
    && s.order == |s.program|
    && forall k :: 0 <= k < |s.program| ==> s.program[k].order == k + 1
  }


  lemma StepInv(s: State, l: Line, i: int)
    requires Inv(s)
    ensures Step(s, l, i).Ok? ==> Inv(Step(s, l, i).value)
  {
    var r := Step(s, l, i);
    if r.Ok? && s.header && StartsInstruction(l.tokens) {
      var s' := r.value;
      assert s'.program == s.program + [s'.program[|s.program|]];
      assert s'.tokens[0] == s.tokens[0];
    }
  }

  lemma {:induction false} RunInv(ls: seq<Line>)
    ensures Run(ls).Ok? ==> Inv(Run(ls).value)
    decreases |ls|
  {
    if ls != [] {
      RunInv(ls[..|ls| - 1]);
      var s := Run(ls[..|ls| - 1]);
      if s.Ok? {
        StepInv(s.value, ls[|ls| - 1], |ls| - 1);
      }
    }
  }

  /** The Nth instruction of a translated program has order N. */
  lemma TranslateOrders(lines: seq<string>)
    ensures Translate(lines).Ok? ==>
      forall k :: 0 <= k < |Translate(lines).value| ==> Translate(lines).value[k].order == k + 1
  {
    RunInv(Lex(lines));
  }

  /** Lines without a token leave the state as it was before the header. */
  lemma {:induction false} RunTokenless(ls: seq<Line>)
    requires forall j :: 0 <= j < |ls| ==> !HasToken(ls[j].tokens)
    ensures Run(ls) == Ok(Start)
    decreases |ls|
  {
    if ls != [] {
      RunTokenless(ls[..|ls| - 1]);
    }
  }

  /** Input without any token, the empty input included, is error 21 at
      line 0. */
  lemma NoTokens(lines: seq<string>)
    requires forall j :: 0 <= j < |lines| ==> !HasToken(Tokenize(lines[j]))
    ensures Translate(lines) == Err(HeaderError, 0)
  {
    RunTokenless(Lex(lines));
  }

  /** The first line with a token decides the header: it must be the header
      line, or the loop stops there with error 21. */
  lemma HeaderGate(ls: seq<Line>, h: nat)
    requires h < |ls|
    requires forall j :: 0 <= j < h ==> !HasToken(ls[j].tokens)
    requires HasToken(ls[h].tokens)
    ensures IsHeaderLine(ls[h].tokens) ==> Run(ls[..h + 1]) == Ok(State(true, ls[h].tokens, 0, []))
    ensures !IsHeaderLine(ls[h].tokens) ==> Run(ls[..h + 1]) == Err(HeaderError, h)
  {
    var pre := ls[..h + 1][..h];
    assert pre == ls[..h];
    RunTokenless(pre);
    var lt := ls[h].tokens;
    var ne := NonEmpty(lt);
    assert Start.tokens + ne == ne;
    if |lt| == 1 {
      assert lt[0] != [] by { assert ne != []; }
      assert ne == lt;
    }
  }

  /** An error on some line ends the loop with that error. */
  lemma {:induction false} RunErrPersists(ls: seq<Line>, n: nat)
    requires n <= |ls|
    requires Run(ls[..n]).Err?
    ensures Run(ls) == Run(ls[..n])
    decreases |ls| - n
  {
    if n < |ls| {
      var m := |ls| - 1;
      assert ls[..m][..n] == ls[..n];
      RunErrPersists(ls[..m], n);
      assert Run(ls[..m]).Err?;
    } else {
      assert ls[..n] == ls;
    }
  }

  /** A loop that finishes without error has met the header on its first
      line with a token. */
  lemma {:induction false} RunNeedsHeader(ls: seq<Line>, h: nat)
    requires h < |ls|
    requires forall j :: 0 <= j < h ==> !HasToken(ls[j].tokens)
    requires HasToken(ls[h].tokens)
    requires Run(ls).Ok?
    ensures IsHeaderLine(ls[h].tokens)
  {
    HeaderGate(ls, h);
    if !IsHeaderLine(ls[h].tokens) {
      RunErrPersists(ls, h + 1);
    }
  }

  /** A translation that succeeds has the header on its first line with a
      token. */
  lemma TranslateNeedsHeader(lines: seq<string>, h: nat)
    requires h < |lines|
    requires forall j :: 0 <= j < h ==> !HasToken(Tokenize(lines[j]))
    requires HasToken(Tokenize(lines[h]))
    ensures Translate(lines).Ok? ==> IsHeaderLine(Tokenize(lines[h]))
  {
    var ls := Lex(lines);
    if Translate(lines).Ok? {
      assert Run(ls).Ok?;
      RunNeedsHeader(ls, h);
    }
  }

  /** The program only grows: no line changes an instruction made earlier. */
  lemma {:induction false} RunPrefix(ls: seq<Line>, n: nat)
    requires n <= |ls|
    requires Run(ls).Ok?
    ensures Run(ls[..n]).Ok?
    ensures Run(ls[..n]).value.program <= Run(ls).value.program
    decreases |ls| - n
  {
    if n == |ls| {
      assert ls[..n] == ls;
    } else {
      var m := |ls| - 1;
      assert ls[..m][..n] == ls[..n];
      RunPrefix(ls[..m], n);
    }
  }

  /** One more line runs one more step from the state so far. */
  lemma RunSnoc(ls: seq<Line>, l: Line)
    ensures Run(ls + [l]) == (if Run(ls).Ok? then Step(Run(ls).value, l, |ls|) else Run(ls))
  {
    assert (ls + [l])[..|ls|] == ls;
  }

  /** After the header, a line whose first token is not empty is handed to
      `parse`: it becomes the next instruction, numbered one more than the
      last, or the loop stops with that line's error. */
  lemma AppendInstruction(ls: seq<Line>, l: Line)
    requires Run(ls).Ok? && Run(ls).value.header
    requires StartsInstruction(l.tokens)
    ensures var s := Run(ls).value;
      && (l.asm.Ok? ==>
            var ins := Instruction(|s.program| + 1, l.asm.value.op, l.asm.value.args);
            Run(ls + [l]) == Ok(State(true, s.tokens + NonEmpty(l.tokens), |s.program| + 1, s.program + [ins])))
      && (l.asm.Err? ==> Run(ls + [l]) == Err(l.asm.code, l.asm.line))
  {
    RunInv(ls);
    RunSnoc(ls, l);
  }

  /** After the header, a line that is not handed to `parse` adds nothing to
      the program. */
  lemma SkipLine(ls: seq<Line>, l: Line)
    requires Run(ls).Ok? && Run(ls).value.header
    requires !StartsInstruction(l.tokens)
    ensures Run(ls + [l]).Ok?
    ensures Run(ls + [l]).value.program == Run(ls).value.program
  {
    RunSnoc(ls, l);
  }

  /** A header line followed by one instruction line translates to that one
      instruction, with order 1, or fails with that line's error. */
  lemma HeaderThenLine(h: Line, l: Line)
    requires IsHeaderLine(h.tokens)
    requires StartsInstruction(l.tokens)
    ensures l.asm.Ok? ==> Finish([h, l]) == Ok([Instruction(1, l.asm.value.op, l.asm.value.args)])
    ensures l.asm.Err? ==> Finish([h, l]) == Err(l.asm.code, l.asm.line)
  {
    assert |h.tokens[0]| == |HeaderName|;
    assert NonEmpty(h.tokens) != [];
    HeaderGate([h, l], 0);
    assert [h, l][..1] == [h] && [h, l][0] == h;
    assert [h] + [l] == [h, l];
    AppendInstruction([h], l);
    if l.asm.Ok? {
      var a := l.asm.value;
      assert [] + [Instruction(1, a.op, a.args)] == [Instruction(1, a.op, a.args)];
    }
  }

  /** The identifier holds no white space, NUL or `#`. */
  lemma HeaderNameChars()
    ensures forall j :: 0 <= j < |HeaderName| ==> IsTokenChar(HeaderName[j])
  {
    forall j | 0 <= j < |HeaderName|
      ensures IsTokenChar(HeaderName[j])
    {
      if j < 5 {
        assert HeaderName[..5] == ".IPPC";
        assert HeaderName[j] == ".IPPC"[j];
      } else {
        assert HeaderName[5..] == "ODE23";
        assert HeaderName[j] == "ODE23"[j - 5];
      }
    }
  }

  /** Upper-casing changes letters alone, so a text whose upper-cased form
      is made of token characters is made of token characters. */
  lemma UpperTokenChars(h: string, u: string)
    requires Upper(h) == u
    requires forall j :: 0 <= j < |u| ==> IsTokenChar(u[j])
    ensures forall j :: 0 <= j < |h| ==> IsTokenChar(h[j])
  {
    forall j | 0 <= j < |h|
      ensures IsTokenChar(h[j])
    {
      assert UpperChar(h[j]) == u[j];
    }
  }

  /** Any spelling of the header is made of token characters only. */
  lemma HeaderChars(h: string)
    requires Upper(h) == HeaderName
    ensures h != [] && forall j :: 0 <= j < |h| ==> IsTokenChar(h[j])
  {
    HeaderNameChars();
    UpperTokenChars(h, HeaderName);
  }

  /** From text to instructions: a header line, in any letter case, followed
      by a line of tokens written out with single spaces, both as `file()`
      returns them, is the one instruction `parse` makes of those tokens, with
      order 1, or that instruction's error on line 1. */
  lemma TranslateHeaderAndLine(h: string, ts: seq<string>, tail: string)
    requires Upper(h) == HeaderName
    requires |ts| >= 1
    requires forall k :: 0 <= k < |ts| ==> ts[k] != []
    requires forall k, j :: 0 <= k < |ts| && 0 <= j < |ts[k]| ==> IsTokenChar(ts[k][j])
    requires tail == "" || tail == "\n"
    ensures var r := Assemble(ts[0], ts[1..], 1);
      && (r.Ok? ==> Translate([h + "\n", JoinSpaces(ts) + tail]) == Ok([Instruction(1, r.value.op, r.value.args)]))
      && (r.Err? ==> Translate([h + "\n", JoinSpaces(ts) + tail]) == Err(r.code, 1))
  {
    HeaderChars(h);
    assert JoinSpaces([h]) == h;
    TokenizeJoinLine([h], "\n");
    TokenizeJoinLine(ts, tail);
    LexPair(h + "\n", JoinSpaces(ts) + tail);
    HeaderThenLine(Prepare(h + "\n", 0), Prepare(JoinSpaces(ts) + tail, 1));
  }

  /** Two lines lex to the two prepared lines. */
  lemma LexPair(a: string, b: string)
    ensures Lex([a, b]) == [Prepare(a, 0), Prepare(b, 1)]
  {
    var ls := Lex([a, b]);
    assert ls[0] == Prepare(a, 0) && ls[1] == Prepare(b, 1);
  }

  /** The tokens of a `MOVE <var> int@<n>` line survive normalisation. */
  lemma MoveTokenChars(opTok: string, x: string, n: string)
    requires Upper(opTok) == "MOVE"
    requires ValidVar(x)
    requires IsIntLiteral(n)
    ensures var ts := [opTok, x, "int@" + n];
      forall k, j :: 0 <= k < |ts| && 0 <= j < |ts[k]| ==> IsTokenChar(ts[k][j])
  {
    var c := "int@" + n;
    var ts := [opTok, x, c];
    assert forall j :: 0 <= j < |opTok| ==> IsTokenChar(opTok[j]) by {
      assert forall j :: 0 <= j < |"MOVE"| ==> IsTokenChar("MOVE"[j]);
      UpperTokenChars(opTok, "MOVE");
    }
    VarChars(x);
    assert forall j :: 0 <= j < |c| ==> IsTokenChar(c[j]) by {
      IntLiteralChars(n);
      forall j | 0 <= j < |c|
        ensures IsTokenChar(c[j])
      {
        if j >= 4 {
          assert c[j] == n[j - 4];
        }
      }
    }
    forall k, j | 0 <= k < |ts| && 0 <= j < |ts[k]|
      ensures IsTokenChar(ts[k][j])
    {
      if k == 0 {
        assert ts[k] == opTok;
      } else if k == 1 {
        assert ts[k] == x;
      } else {
        assert ts[k] == c;
      }
    }
  }

  /** The opening example of the language: the header, in any letter case,
      then `MOVE <var> int@<n>` written out with single spaces, both lines as
      `file()` returns them, is one `MOVE` instruction with order 1, a `var`
      first operand with `&` escaped and an `int` second operand as written. */
  lemma TranslateMove(h: string, opTok: string, x: string, n: string, tail: string)
    requires Upper(h) == HeaderName
    requires Upper(opTok) == "MOVE"
    requires ValidVar(x)
    requires '@' !in n && IsIntLiteral(n)
    requires tail == "" || tail == "\n"
    ensures Translate([h + "\n", JoinSpaces([opTok, x, "int@" + n]) + tail])
      == Ok([Instruction(1, Move, [Arg(1, TVar, EscapeAmp(x)), Arg(2, TConst(CInt), n)])])
  {
    var ts := [opTok, x, "int@" + n];
    MoveTokenChars(opTok, x, n);
    assert |opTok| == 4;
    TranslateHeaderAndLine(h, ts, tail);
    assert ts[1..] == [x, "int@" + n];
    MoveVarInt(opTok, x, n, 1);
  }

  /** A form feed after the last token of an instruction line adds an empty
      operand: `RETURN\f`, in any letter case, is `RETURN` with one operand,
      error 23. */
  lemma ReturnFormFeed(opTok: string, line: int)
    requires Upper(opTok) == "RETURN"
    ensures Tokenize(opTok + "\U{C}") == [opTok, ""]
    ensures Assemble(opTok, [""], line) == Err(LexicalError, line)
  {
    assert forall j :: 0 <= j < |"RETURN"| ==> IsTokenChar("RETURN"[j]);
    UpperTokenChars(opTok, "RETURN");
    TrailingFormFeed(opTok);
    ArityMismatch(opTok, Return, [""], line);
  }

  /** Collecting the non-empty tokens one at a time. */
  lemma NonEmptySnoc(ts: seq<string>, t: string)
    ensures NonEmpty(ts + [t]) == NonEmpty(ts) + (if t != [] then [t] else [])
  {
    if ts != [] {
      assert (ts + [t])[1..] == ts[1..] + [t];
      NonEmptySnoc(ts[1..], t);
    }
  }

  /** The inner `for $j` loop: appends the non-empty tokens of a line, one
      at a time, to the tokens collected so far. */
  method AppendNonEmpty(tokens: seq<string>, lt: seq<string>) returns (all: seq<string>)
    ensures all == tokens + NonEmpty(lt)
  {
    all := tokens;
    var j := 0;
    while j < |lt|
      invariant 0 <= j <= |lt|
      invariant all == tokens + NonEmpty(lt[..j])
    {
      NonEmptySnoc(lt[..j], lt[j]);
      assert lt[..j + 1] == lt[..j] + [lt[j]];
      if |lt[j]| > 0 {
        all := all + [lt[j]];
      }
      j := j + 1;
    }
    assert lt[..j] == lt;
  }

  /** One pass of the `for $i` loop as the source runs it: tokens first,
      then the header check, or the assembled instruction. */
  method StepLine(s: State, l: Line, i: int) returns (r: Result<State>)
    ensures r == Step(s, l, i)
  {
    var lt := l.tokens;
    var all := AppendNonEmpty(s.tokens, lt);
    if !s.header && |all| != 0 {
      if Upper(all[0]) == HeaderName && |lt| == 1 {
        return Ok(s.(header := true, tokens := all));
      }
      return Err(HeaderError, i);
    }
    if s.header && |lt| > 0 && lt[0] != [] {
      var order := s.order + 1;
      if l.asm.Err? {
        return Err(l.asm.code, l.asm.line);
      }
      return Ok(State(true, all, order, s.program + [Instruction(order, l.asm.value.op, l.asm.value.args)]));
    }
    return Ok(s.(tokens := all));
  }

  /** The imperative loop of parse.php over the prepared lines: one pass
      per line, stopping at the first error, then the final check for a
      missing header. */
  method TranslateLines(ls: seq<Line>) returns (r: Result<seq<Instruction>>)
    ensures r == Finish(ls)
  {
    var header, tokens, order, program := false, [], 0, [];
    var i := 0;
    while i < |ls|
      invariant 0 <= i <= |ls|
      invariant Run(ls[..i]) == Ok(State(header, tokens, order, program))
    {
      assert ls[..i + 1] == ls[..i] + [ls[i]];
      RunSnoc(ls[..i], ls[i]);
      var step := StepLine(State(header, tokens, order, program), ls[i], i);
      if step.Err? {
        RunErrPersists(ls, i + 1);
        return Err(step.code, step.line);
      }
      header, tokens, order, program := step.value.header, step.value.tokens, step.value.order, step.value.program;
      i := i + 1;
    }
    assert ls[..i] == ls;
    if |ls| == 0 || |tokens| == 0 {
      return Err(HeaderError, 0);
    }
    return Ok(program);
  }
}

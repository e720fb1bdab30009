/** The lexical grammars of parse.php: the identifier, variable and label
    patterns of `chek_and_print_arguments` and the constant grammars of
    `check_const`, each written as a predicate on a token. */
module Grammar {
  import opened Chars
  import opened Text
  import opened Wrappers

  /** `[a-zA-Z_\-$&%*!?][\w\-$&%*!?]*`, anchored at both ends. */
  predicate ValidIdent(s: string) {
    |s| >= 1 && IsIdentStart(s[0]) && forall i :: 1 <= i < |s| ==> IsIdentChar(s[i])
  }

  /** The three frame prefixes `GF`, `LF` and `TF`. */
  predicate IsFrame(p: string) {
    p == "GF" || p == "LF" || p == "TF"
  }

  /** `^(LF|TF|GF)@` followed by an identifier. */
  predicate ValidVar(s: string) {
    |s| >= 3 && IsFrame(s[..2]) && s[2] == '@' && ValidIdent(s[3..])
  }

  /** A label is a bare identifier. */
  predicate ValidLabel(s: string) {
    ValidIdent(s)
  }

  /** Identifier characters never include `@`, `<`, `>`, `#`, a backslash or
      white space. */
  lemma IdentExcludes(s: string)
    requires ValidIdent(s)
    ensures '@' !in s && '<' !in s && '>' !in s && '#' !in s && '\\' !in s
    ensures forall i :: 0 <= i < |s| ==> !IsSpace(s[i])
  {
    forall c | c in s
      ensures c != '@' && c != '<' && c != '>' && c != '#' && c != '\\'
    {
      var i :| 0 <= i < |s| && s[i] == c;
      assert IsIdentStart(c) || IsIdentChar(c);
    }
  }

  /** A variable is made of identifier characters and the one `@` after its
      frame. */
  lemma VarChars(s: string)
    requires ValidVar(s)
    ensures forall j :: 0 <= j < |s| ==> IsIdentChar(s[j]) || s[j] == '@'
  {
    forall j | 0 <= j < |s|
      ensures IsIdentChar(s[j]) || s[j] == '@'
    {
      if j < 2 {
        assert s[j] == s[..2][j];
      } else if j > 2 {
        assert s[j] == s[3..][j - 3];
      }
    }
  }

  /** A well-formed variable holds exactly one `@`, right after the frame, so
      `explode("@", ...)` splits it into the frame and the name. */
  lemma VarExplodes(s: string)
    requires ValidVar(s)
    ensures Explode(s, '@') == [s[..2], s[3..]]
  {
    IdentExcludes(s[3..]);
    assert s == s[..2] + "@" + s[3..];
    assert '@' !in s[..2];
    ExplodeThrough(s[..2], s[3..], '@');
  }

  lemma {:induction false} ExplodeThrough(a: string, b: string, sep: char)
    requires sep !in a && sep !in b
    ensures Explode(a + [sep] + b, sep) == [a, b]
  {
    if a == [] {
      assert a + [sep] + b == [sep] + b;
      assert ([sep] + b)[1..] == b;
      ExplodeNone(b, sep);
    } else {
      assert (a + [sep] + b)[1..] == a[1..] + [sep] + b;
      ExplodeThrough(a[1..], b, sep);
      assert a == [a[0]] + a[1..];
    }
  }

  lemma {:induction false} ExplodeNone(s: string, sep: char)
    requires sep !in s
    ensures Explode(s, sep) == [s]
  {
    if s != [] {
      ExplodeNone(s[1..], sep);
      assert s == [s[0]] + s[1..];
    }
  }

  /** A valid variable's text begins with one of the frame names. */
  lemma VarHasFramePrefix(s: string)
    requires ValidVar(s)
    ensures IsFrame(Explode(s, '@')[0])
  {
    VarExplodes(s);
  }

  predicate AllDigits(s: string) {
    forall i :: 0 <= i < |s| ==> IsDigit(s[i])
  }

  predicate AllOctDigits(s: string) {
    forall i :: 0 <= i < |s| ==> IsOctDigit(s[i])
  }

  predicate AllHexDigits(s: string) {
    forall i :: 0 <= i < |s| ==> IsHexDigit(s[i])
  }

  /** `0|[1-9][0-9]*|0x[0-9a-fA-F]+|0[oO]?[0-7]+`; the hexadecimal prefix is
      the lower-case `0x` only. */
  predicate IsIntBody(b: string) {
    || b == "0"
    || (|b| >= 1 && '1' <= b[0] <= '9' && AllDigits(b[1..]))
    || (|b| >= 3 && b[0] == '0' && b[1] == 'x' && AllHexDigits(b[2..]))
    || (|b| >= 2 && b[0] == '0' && AllOctDigits(b[1..]))
    || (|b| >= 3 && b[0] == '0' && (b[1] == 'o' || b[1] == 'O') && AllOctDigits(b[2..]))
  }

  predicate IsSign(c: char) {
    c == '+' || c == '-'
  }

  /** `^[+-]?(...)$` of `check_const("int", ...)`. */
  predicate IsIntLiteral(v: string) {
    if |v| >= 1 && IsSign(v[0]) then IsIntBody(v[1..]) else IsIntBody(v)
  }

  /** The decimal digit of a value below ten. */
  function DigitChar(d: nat): (c: char)
    requires d < 10
    ensures IsDigit(c) && (c == '0' <==> d == 0)
  {
    ('0' as int + d) as char
  }

  /** The decimal numeral of a natural number, without leading zeros. */
  function Decimal(n: nat): (r: string)
    ensures |r| >= 1 && AllDigits(r)
    ensures r[0] == '0' <==> n == 0
  {
    if n < 10 then [DigitChar(n)]
    else
      var h := Decimal(n / 10);
      var r := h + [DigitChar(n % 10)];
      assert r[0] == h[0];
      r
  }

  /** Every run of decimal digits without a leading zero, or `0` alone, with
      or without a sign, passes the integer check. */
  lemma IntLiteralDigits(sign: string, d: string)
    requires sign == "" || sign == "+" || sign == "-"
    requires |d| >= 1 && AllDigits(d)
    requires d[0] == '0' ==> d == "0"
    ensures IsIntLiteral(sign + d)
  {
    var v := sign + d;
    assert v[|sign|..] == d;
    if d[0] != '0' {
      assert AllDigits(d[1..]) by {
        forall i | 0 <= i < |d[1..]|
          ensures IsDigit(d[1..][i])
        {
          assert d[1..][i] == d[i + 1];
        }
      }
    }
  }

  /** In particular, every integer written in decimal, with or without a
      sign, passes the integer check. */
  lemma IntLiteralDecimal(sign: string, n: nat)
    requires sign == "" || sign == "+" || sign == "-"
    ensures IsIntLiteral(sign + Decimal(n))
  {
    var d := Decimal(n);
    if d[0] == '0' {
      assert d == [DigitChar(0)];
    }
    IntLiteralDigits(sign, d);
  }

  /** An integer literal holds only word characters and signs. */
  lemma IntLiteralChars(v: string)
    requires IsIntLiteral(v)
    ensures forall j :: 0 <= j < |v| ==> IsWordChar(v[j]) || IsSign(v[j])
  {
    var k := if |v| >= 1 && IsSign(v[0]) then 1 else 0;
    var b := v[k..];
    assert IsIntBody(b);
    forall j | k <= j < |v|
      ensures IsWordChar(v[j])
    {
      var i := j - k;
      assert v[j] == b[i];
      if i >= 2 && |b| >= 3 && b[0] == '0' && b[1] == 'x' && AllHexDigits(b[2..]) {
        assert b[i] == b[2..][i - 2];
      } else if i >= 2 && |b| >= 3 && b[0] == '0' && (b[1] == 'o' || b[1] == 'O') && AllOctDigits(b[2..]) {
        assert b[i] == b[2..][i - 2];
      } else if i >= 1 {
        assert b[i] == b[1..][i - 1];
      }
    }
  }

  predicate IsBoolLiteral(v: string) {
    v == "true" || v == "false"
  }

  predicate IsNilLiteral(v: string) {
    v == "nil"
  }

  /** `preg_replace('/([\\][\d]{3})/', '', v)`: one left-to-right pass
      deleting each backslash followed by three digits. */
  function RemoveEscapes(v: string): (r: string)
    ensures |r| <= |v|
    ensures '\\' !in v ==> r == v
    ensures forall x :: x in r ==> x in v
  {
    if |v| >= 4 && v[0] == '\\' && IsDigit(v[1]) && IsDigit(v[2]) && IsDigit(v[3])
    then RemoveEscapes(v[4..])
    else if v == [] then []
    else [v[0]] + RemoveEscapes(v[1..])
  }

  /** `check_const("string", v)`: no backslash is left once the escapes are
      deleted (the empty string passes). */
  predicate IsStringLiteral(v: string) {
    '\\' !in RemoveEscapes(v)
  }

  /** Backslash only as the start of a three-digit escape. */
  predicate EscapesWellFormed(v: string) {
    forall i :: 0 <= i < |v| && v[i] == '\\' ==>
      i + 3 < |v| && IsDigit(v[i + 1]) && IsDigit(v[i + 2]) && IsDigit(v[i + 3])
  }

  /** The string grammar, stated without the deletion pass: a constant is
      valid exactly when every backslash in it opens a three-digit escape.
      Any three digits do, whatever character code they name. */
  lemma {:induction false} StringLiteralIff(v: string)
    ensures IsStringLiteral(v) <==> EscapesWellFormed(v)
    decreases |v|
  {
    if |v| >= 4 && v[0] == '\\' && IsDigit(v[1]) && IsDigit(v[2]) && IsDigit(v[3]) {
      StringLiteralIff(v[4..]);
      WellFormedStep(v, 4);
    } else if v == [] {
    } else {
      assert RemoveEscapes(v) == [v[0]] + RemoveEscapes(v[1..]);
      if v[0] == '\\' {
        assert !EscapesWellFormed(v);
      } else {
        StringLiteralIff(v[1..]);
        WellFormedStep(v, 1);
      }
    }
  }

  /** Dropping a prefix that starts no escape and holds no backslash past its
      first character keeps well-formedness of the rest equivalent. */
  lemma WellFormedStep(v: string, n: nat)
    requires 1 <= n <= |v|
    requires forall i :: 1 <= i < n ==> v[i] != '\\'
    requires v[0] == '\\' ==> n == 4 && IsDigit(v[1]) && IsDigit(v[2]) && IsDigit(v[3])
    ensures EscapesWellFormed(v) ==> EscapesWellFormed(v[n..])
    ensures v[0] != '\\' || n == 4 ==> (EscapesWellFormed(v[n..]) ==> EscapesWellFormed(v))
  {
    var w := v[n..];
    if EscapesWellFormed(v) {
      forall i | 0 <= i < |w| && w[i] == '\\'
        ensures i + 3 < |w| && IsDigit(w[i + 1]) && IsDigit(w[i + 2]) && IsDigit(w[i + 3])
      {
        assert v[n + i] == '\\';
      }
    }
    if (v[0] != '\\' || n == 4) && EscapesWellFormed(w) {
      forall i | 0 <= i < |v| && v[i] == '\\'
        ensures i + 3 < |v| && IsDigit(v[i + 1]) && IsDigit(v[i + 2]) && IsDigit(v[i + 3])
      {
        if i >= n {
          assert w[i - n] == '\\';
        }
      }
    }
  }

  /** `&amp;` escaping before the check, as parse.php does it, neither makes
      nor breaks a string constant. */
  lemma {:induction false} StringLiteralEscapeAmp(v: string)
    ensures IsStringLiteral(EscapeAmp(v)) <==> IsStringLiteral(v)
  {
    StringLiteralIff(v);
    StringLiteralIff(EscapeAmp(v));
    WellFormedEscapeAmp(v);
  }

  lemma {:induction false} WellFormedEscapeAmp(v: string)
    ensures EscapesWellFormed(EscapeAmp(v)) <==> EscapesWellFormed(v)
    decreases |v|
  {
    if v == [] {
      return;
    }
    var e := EscapeAmp(v);
    var c := v[0];
    if c == '&' {
      assert e == Amp + EscapeAmp(v[1..]);
      WellFormedEscapeAmp(v[1..]);
      WellFormedStep(v, 1);
      assert e[5..] == EscapeAmp(v[1..]);
      WellFormedStep(e, 5);
    } else if c != '\\' {
      assert e == [c] + EscapeAmp(v[1..]);
      WellFormedEscapeAmp(v[1..]);
      WellFormedStep(v, 1);
      assert e[1..] == EscapeAmp(v[1..]);
      WellFormedStep(e, 1);
    } else if |v| >= 4 && IsDigit(v[1]) && IsDigit(v[2]) && IsDigit(v[3]) {
      EscapeAmpDigits(v);
      assert e == v[..4] + EscapeAmp(v[4..]);
      WellFormedEscapeAmp(v[4..]);
      WellFormedStep(v, 4);
      assert e[4..] == EscapeAmp(v[4..]);
      WellFormedStep(e, 4);
    } else {
      assert !EscapesWellFormed(v);
      BrokenEscapeStaysBroken(v);
    }
  }

  /** The three digits of an escape pass through `&amp;` escaping untouched. */
  lemma EscapeAmpDigits(v: string)
    requires |v| >= 4 && v[0] == '\\' && IsDigit(v[1]) && IsDigit(v[2]) && IsDigit(v[3])
    ensures EscapeAmp(v) == v[..4] + EscapeAmp(v[4..])
  {
    assert v[1..][1..][1..][1..] == v[4..];
    calc {
      EscapeAmp(v);
      [v[0]] + EscapeAmp(v[1..]);
      [v[0]] + ([v[1]] + EscapeAmp(v[1..][1..]));
      [v[0]] + ([v[1]] + ([v[2]] + EscapeAmp(v[1..][1..][1..])));
      [v[0]] + ([v[1]] + ([v[2]] + ([v[3]] + EscapeAmp(v[4..]))));
    }
    assert v[..4] == [v[0], v[1], v[2], v[3]];
  }

  /** A backslash that opens no escape still opens none after escaping `&`:
      the first non-digit among the next three characters survives, and a
      too-short tail stays too short. */
  lemma BrokenEscapeStaysBroken(v: string)
    requires |v| >= 1 && v[0] == '\\'
    requires !(|v| >= 4 && IsDigit(v[1]) && IsDigit(v[2]) && IsDigit(v[3]))
    ensures !EscapesWellFormed(EscapeAmp(v))
  {
    var e := EscapeAmp(v);
    assert e == [v[0]] + EscapeAmp(v[1..]);
    assert e[0] == '\\';
    var w := v[1..];
    var k: nat;
    if |w| == 0 || !IsDigit(w[0]) {
      k := 0;
    } else if |w| == 1 || !IsDigit(w[1]) {
      k := 1;
    } else {
      k := 2;
    }
    DigitPrefixSurvives(w, k);
    var ew := EscapeAmp(w);
    assert e[1..] == ew;
    if k < |ew| {
      assert e[k + 1] == ew[k];
    }
    assert !(0 + 3 < |e| && IsDigit(e[1]) && IsDigit(e[2]) && IsDigit(e[3]));
  }

  /** Escaping `&` keeps a run of `k` leading digits and what ends it: the end
      of the text or a non-digit. */
  lemma {:induction false} DigitPrefixSurvives(w: string, k: nat)
    requires k <= |w|
    requires forall j :: 0 <= j < k ==> IsDigit(w[j])
    requires k == |w| || !IsDigit(w[k])
    ensures var e := EscapeAmp(w); k <= |e| && (k == |e| || !IsDigit(e[k]))
    decreases k
  {
    var e := EscapeAmp(w);
    if k == 0 {
      if w != [] {
        if w[0] == '&' {
          assert e[0] == '&';
        } else {
          assert e[0] == w[0];
        }
      }
    } else {
      DigitPrefixSurvives(w[1..], k - 1);
      assert e == [w[0]] + EscapeAmp(w[1..]);
    }
  }

  /** The four constant types of `check_const`. */
  datatype ConstType = CNil | CBool | CInt | CString

  /** The type prefix a constant token carries before its first `@`, and
      the `type` attribute its operand is emitted with. */
  function ConstName(t: ConstType): string {
    match t
    case CNil => "nil"
    case CBool => "bool"
    case CInt => "int"
    case CString => "string"
  }

  /** Reads a type prefix; the four names are the only prefixes it accepts. */
  function ParseConstType(p: string): (r: Option<ConstType>)
    ensures r.Some? <==> (p == "nil" || p == "bool" || p == "int" || p == "string")
    ensures r.Some? ==> ConstName(r.value) == p
  {
    if p == "nil" then Some(CNil)
    else if p == "bool" then Some(CBool)
    else if p == "int" then Some(CInt)
    else if p == "string" then Some(CString)
    else None
  }

  lemma ParseConstName(t: ConstType)
    ensures ParseConstType(ConstName(t)) == Some(t)
  {
  }

  /** `check_const(type, v)`. */
  predicate CheckConst(t: ConstType, v: string) {
    match t
    case CInt => IsIntLiteral(v)
    case CBool => IsBoolLiteral(v)
    case CNil => IsNilLiteral(v)
    case CString => IsStringLiteral(v)
  }

  /** Sample constants: `-5`, `0x1A`, `007`, `0o17` and `+0` are integers;
      the empty text, `1.5`, `08`, `0X1A` and `0o` are not. */
  lemma IntLiteralExamples()
    ensures IsIntLiteral("-5") && IsIntLiteral("0x1A") && IsIntLiteral("007")
    ensures IsIntLiteral("0o17") && IsIntLiteral("+0")
    ensures !IsIntLiteral("") && !IsIntLiteral("1.5") && !IsIntLiteral("08")
    ensures !IsIntLiteral("0X1A") && !IsIntLiteral("0o")
  {
    assert "1.5"[1..][0] == '.';
    assert "08"[1..][0] == '8';
    assert "0X1A"[1..][0] == 'X';
    assert "0X1A"[1] == 'X';
  }

  /** Sample string constants that pass: an escape with any three digits,
      whatever character code they name. */
  lemma StringLiteralExamples()
    ensures IsStringLiteral("") && IsStringLiteral("a\\064b") && IsStringLiteral("\\999")
  {
    assert RemoveEscapes("\\064b") == RemoveEscapes("b") == "b";
    assert RemoveEscapes("a\\064b") == "a" + RemoveEscapes("\\064b");
    assert RemoveEscapes("\\999") == RemoveEscapes("") == "";
  }

  /** Sample string constants that fail: a lone backslash, an escape with
      two digits, and an escaped backslash. */
  lemma StringLiteralRejected()
    ensures !IsStringLiteral("\\") && !IsStringLiteral("a\\06b") && !IsStringLiteral("\\\\123")
  {
    assert RemoveEscapes("\\") == "\\";
    assert RemoveEscapes("a\\06b") == "a" + RemoveEscapes("\\06b");
    assert RemoveEscapes("\\06b")[0] == '\\';
    assert RemoveEscapes("\\\\123") == "\\" + RemoveEscapes("\\123");
  }
}

/** PHP string primitives the parser uses: `str_replace` of one character,
    the `&` to `&amp;` escaping, and `explode`. */
module Text {

  /** Index of the first `c` in `s`. */
  function IndexOf(s: string, c: char): (i: nat)
    requires c in s
    ensures i < |s| && s[i] == c
    ensures c !in s[..i]
  {
    if s[0] == c then 0 else 1 + IndexOf(s[1..], c)
  }

  /** The first occurrence is the one with none before it. */
  lemma IndexOfFirst(s: string, c: char, h: nat)
    requires h < |s| && s[h] == c && c !in s[..h]
    ensures IndexOf(s, c) == h
  {
  }

  /** Number of occurrences of `c` in `s`. */
  function Count(s: string, c: char): nat {
    if s == [] then 0 else (if s[0] == c then 1 else 0) + Count(s[1..], c)
  }

  /** `str_replace(c, rep, s)` for a one-character search string. */
  function ReplaceChar(s: string, c: char, rep: string): (r: string)
    ensures c !in s ==> r == s
    ensures c !in rep ==> c !in r
    ensures forall x :: x in r ==> x in s || x in rep
  {
    if s == [] then []
    else if s[0] == c then rep + ReplaceChar(s[1..], c, rep)
    else [s[0]] + ReplaceChar(s[1..], c, rep)
  }

  /** Replacement works character by character, so it distributes over
      concatenation. */
  lemma {:induction false} ReplaceCharAppend(a: string, b: string, c: char, rep: string)
    ensures ReplaceChar(a + b, c, rep) == ReplaceChar(a, c, rep) + ReplaceChar(b, c, rep)
  {
    if a == [] {
      assert a + b == b;
    } else {
      assert (a + b)[0] == a[0] && (a + b)[1..] == a[1..] + b;
      ReplaceCharAppend(a[1..], b, c, rep);
      if a[0] == c {
        assert ReplaceChar(a, c, rep) == rep + ReplaceChar(a[1..], c, rep);
      } else {
        assert ReplaceChar(a, c, rep) == [a[0]] + ReplaceChar(a[1..], c, rep);
      }
    }
  }

  const Amp: string := "&amp;"

  /** `str_replace("&", "&amp;", s)`. */
  function EscapeAmp(s: string): (r: string)
    ensures forall x :: x in r ==> x in s || x in Amp
  {
    ReplaceChar(s, '&', Amp)
  }

  /** Each `&` grows by the four characters of `amp;`; nothing else changes
      length. */
  lemma {:induction false} EscapeAmpLength(s: string)
    ensures |EscapeAmp(s)| == |s| + 4 * Count(s, '&')
  {
    if s != [] {
      EscapeAmpLength(s[1..]);
    }
  }

  /** The XML reader's inverse of `EscapeAmp`: every `&amp;` becomes `&`. */
  function UnescapeAmp(s: string): string {
    if s == [] then []
    else if |s| >= 5 && s[..5] == Amp then "&" + UnescapeAmp(s[5..])
    else [s[0]] + UnescapeAmp(s[1..])
  }

  /** Escaping loses nothing: a reader that decodes `&amp;` gets the token back. */
  lemma {:induction false} UnescapeEscapeAmp(s: string)
    ensures UnescapeAmp(EscapeAmp(s)) == s
  {
    if s == [] {
    } else if s[0] == '&' {
      var r := EscapeAmp(s);
      assert r == Amp + EscapeAmp(s[1..]);
      assert r[..5] == Amp;
      assert r[5..] == EscapeAmp(s[1..]);
      UnescapeEscapeAmp(s[1..]);
      assert s == "&" + s[1..];
    } else {
      var r := EscapeAmp(s);
      assert r == [s[0]] + EscapeAmp(s[1..]);
      assert r[1..] == EscapeAmp(s[1..]);
      if |r| >= 5 {
        assert r[..5][0] == s[0];
        assert r[..5] != Amp;
      }
      UnescapeEscapeAmp(s[1..]);
      assert s == [s[0]] + s[1..];
    }
  }

  /** `explode(sep, s)`: the pieces of `s` between occurrences of `sep`. */
  function Explode(s: string, sep: char): (parts: seq<string>)
    ensures |parts| == Count(s, sep) + 1
    ensures forall i :: 0 <= i < |parts| ==> sep !in parts[i]
  {
    if s == [] then [[]]
    else
      var rest := Explode(s[1..], sep);
      if s[0] == sep then [[]] + rest
      else [[s[0]] + rest[0]] + rest[1..]
  }

  /** `implode(sep, parts)`. */
  function Implode(parts: seq<string>, sep: char): string
    requires |parts| >= 1
  {
    if |parts| == 1 then parts[0] else parts[0] + [sep] + Implode(parts[1..], sep)
  }

  /** `explode` splits and loses nothing: joining the pieces restores the text. */
  lemma {:induction false} ImplodeExplode(s: string, sep: char)
    ensures Implode(Explode(s, sep), sep) == s
  {
    if s != [] {
      var rest := Explode(s[1..], sep);
      ImplodeExplode(s[1..], sep);
      if s[0] == sep {
        assert Explode(s, sep) == [[]] + rest;
        assert (([[]] + rest)[1..]) == rest;
        assert s == [] + [sep] + s[1..];
      } else {
        var parts := Explode(s, sep);
        assert parts == [[s[0]] + rest[0]] + rest[1..];
        if |rest| == 1 {
          assert s == [s[0]] + rest[0];
        } else {
          assert parts[1..] == rest[1..];
          assert Implode(rest, sep) == rest[0] + [sep] + Implode(rest[1..], sep);
          assert s == [s[0]] + s[1..];
        }
      }
    }
  }

  /** Element `i` of an exploded text; PHP reads a missing element as null,
      which every later use in the parser coerces to the empty string. */
  function Field(parts: seq<string>, i: nat): string {
    if i < |parts| then parts[i] else ""
  }

  /** `explode(sep, s, 2)`: the text before the first `sep` and, when `sep`
      occurs, everything after it. */
  function ExplodeOnce(s: string, sep: char): (parts: seq<string>)
    ensures 1 <= |parts| <= 2
    ensures sep !in parts[0]
    ensures |parts| == 2 <==> sep in s
    ensures |parts| == 2 ==> s == parts[0] + [sep] + parts[1]
    ensures |parts| == 1 ==> parts[0] == s
  {
    if s == [] then [[]]
    else if s[0] == sep then [[], s[1..]]
    else
      var rest := ExplodeOnce(s[1..], sep);
      assert s == [s[0]] + s[1..];
      [[s[0]] + rest[0]] + rest[1..]
  }

  /** The unlimited and the two-piece `explode` agree on the leading piece. */
  lemma {:induction false} ExplodeOnceHead(s: string, sep: char)
    ensures ExplodeOnce(s, sep)[0] == Explode(s, sep)[0]
  {
    if s != [] && s[0] != sep {
      ExplodeOnceHead(s[1..], sep);
    }
  }
}

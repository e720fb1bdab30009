/** The line normaliser of parse.php: `remove_comments_and_whitespace`
    (the global replacement of `/\s*#.*$/m` by nothing, then `trim`) and
    `separate` (`preg_split('/\s+/', ...)`). */
module Normalizer {
  import opened Chars
  import opened Text

  /** Start of the longest run of `\s` characters that ends at `h`. */
  function SpaceRunStart(s: string, h: nat): (p: nat)
    requires h <= |s|
    ensures p <= h
    ensures forall k :: p <= k < h ==> IsSpace(s[k])
    ensures p == 0 || !IsSpace(s[p - 1])
  {
    if h > 0 && IsSpace(s[h - 1]) then SpaceRunStart(s, h - 1) else h
  }

  /** Index of the first line feed at or after `i`, or `|s|`: where `.*$`
      stops under the `m` flag. */
  function LineEnd(s: string, i: nat): (e: nat)
    requires i <= |s|
    ensures i <= e <= |s|
    ensures forall k :: i <= k < e ==> s[k] != '\n'
    ensures e == |s| || s[e] == '\n'
    decreases |s| - i
  {
    if i == |s| || s[i] == '\n' then i else LineEnd(s, i + 1)
  }

  /** `preg_replace('/\s*#.*$/m', '', s)`: the leftmost match begins at the
      white-space run before the first `#` and ends before the next line
      feed; the scan then resumes at that line feed. */
  function StripComments(s: string): (r: string)
    ensures '#' !in r
    ensures '#' !in s ==> r == s
    ensures |r| <= |s|
    ensures forall x :: x in r ==> x in s
    decreases |s|
  {
    if '#' !in s then s
    else
      var h := IndexOf(s, '#');
      var p := SpaceRunStart(s, h);
      var e := LineEnd(s, h);
      assert '#' !in s[..p] by { assert s[..p] == s[..h][..p]; }
      s[..p] + StripComments(s[e..])
  }

  /** PHP's `trim` at the front. */
  function TrimLeft(s: string): (r: string)
    ensures r == [] || !IsTrimChar(r[0])
    ensures |r| <= |s| && r == s[|s| - |r|..]
    ensures forall k :: 0 <= k < |s| - |r| ==> IsTrimChar(s[k])
  {
    if s != [] && IsTrimChar(s[0]) then TrimLeft(s[1..]) else s
  }

  /** PHP's `trim` at the back. */
  function TrimRight(s: string): (r: string)
    ensures r == [] || !IsTrimChar(r[|r| - 1])
    ensures |r| <= |s| && r == s[..|r|]
    ensures forall k :: |r| <= k < |s| ==> IsTrimChar(s[k])
  {
    if s != [] && IsTrimChar(s[|s| - 1]) then TrimRight(s[..|s| - 1]) else s
  }

  /** PHP's `trim` with its default character list. */
  function Trim(s: string): (r: string)
    ensures r == [] || (!IsTrimChar(r[0]) && !IsTrimChar(r[|r| - 1]))
    ensures forall x :: x in r ==> x in s
  {
    var l := TrimLeft(s);
    var r := TrimRight(l);
    assert r == [] || r[0] == l[0];
    r
  }

  /** `trim` removes exactly the surrounding trim characters and nothing of
      the text between them. */
  lemma {:induction false} TrimExact(a: string, m: string, b: string)
    requires forall k :: 0 <= k < |a| ==> IsTrimChar(a[k])
    requires forall k :: 0 <= k < |b| ==> IsTrimChar(b[k])
    requires m == [] || (!IsTrimChar(m[0]) && !IsTrimChar(m[|m| - 1]))
    ensures Trim(a + m + b) == m
  {
    if m == [] {
      assert a + m + b == (a + b) + [];
      TrimLeftExact(a + b, []);
    } else {
      assert a + m + b == a + (m + b);
      TrimLeftExact(a, m + b);
      TrimRightExact(m, b);
    }
  }

  lemma {:induction false} TrimLeftExact(a: string, t: string)
    requires forall k :: 0 <= k < |a| ==> IsTrimChar(a[k])
    requires t == [] || !IsTrimChar(t[0])
    ensures TrimLeft(a + t) == t
  {
    if a != [] {
      assert (a + t)[1..] == a[1..] + t;
      TrimLeftExact(a[1..], t);
    }
  }

  lemma {:induction false} TrimRightExact(t: string, b: string)
    requires forall k :: 0 <= k < |b| ==> IsTrimChar(b[k])
    requires t == [] || !IsTrimChar(t[|t| - 1])
    ensures TrimRight(t + b) == t
  {
    if b != [] {
      var b' := b[..|b| - 1];
      assert (t + b)[..|t + b| - 1] == t + b';
      TrimRightExact(t, b');
    } else {
      assert t + b == t;
    }
  }

  /** Index of the first `\s` character, or `|s|`. */
  function FirstSpace(s: string): (i: nat)
    ensures i <= |s|
    ensures forall k :: 0 <= k < i ==> !IsSpace(s[k])
    ensures i == |s| || IsSpace(s[i])
  {
    if s == [] || IsSpace(s[0]) then 0 else 1 + FirstSpace(s[1..])
  }

  /** End of the run of `\s` characters starting at `i`. */
  function SpaceRunEnd(s: string, i: nat): (j: nat)
    requires i <= |s|
    ensures i <= j <= |s|
    ensures forall k :: i <= k < j ==> IsSpace(s[k])
    ensures j == |s| || !IsSpace(s[j])
    decreases |s| - i
  {
    if i < |s| && IsSpace(s[i]) then SpaceRunEnd(s, i + 1) else i
  }

  /** `preg_split('/\s+/', s)`: the pieces between maximal runs of `\s`.
      Pieces hold no white space, the first is empty exactly when `s` is
      empty or begins with white space, and none is empty when `s` neither
      begins nor ends with white space. */
  function Split(s: string): (r: seq<string>)
    ensures |r| >= 1
    decreases |s|
  {
    var i := FirstSpace(s);
    if i == |s| then [s]
    else [s[..i]] + Split(s[SpaceRunEnd(s, i + 1)..])
  }

  /** The first piece is empty exactly when the text is empty or starts
      with white space. */
  lemma SplitHeadEmpty(s: string)
    ensures Split(s)[0] == [] <==> s == [] || IsSpace(s[0])
  {
    var i := FirstSpace(s);
    if i < |s| {
      assert Split(s)[0] == s[..i];
    }
  }

  /** No piece holds white space. */
  lemma {:induction false} SplitNoSpace(s: string)
    ensures forall k, j :: 0 <= k < |Split(s)| && 0 <= j < |Split(s)[k]| ==> !IsSpace(Split(s)[k][j])
    decreases |s|
  {
    var i := FirstSpace(s);
    if i < |s| {
      var rest := s[SpaceRunEnd(s, i + 1)..];
      SplitNoSpace(rest);
      var t := Split(rest);
      var r := Split(s);
      assert r == [s[..i]] + t;
      forall k, j | 0 <= k < |r| && 0 <= j < |r[k]|
        ensures !IsSpace(r[k][j])
      {
        if k > 0 {
          assert r[k] == t[k - 1];
        }
      }
    }
  }

  /** A text that neither starts nor ends with white space splits into
      non-empty pieces only. */
  lemma {:induction false} SplitNonEmpty(s: string)
    requires s != [] && !IsSpace(s[0]) && !IsSpace(s[|s| - 1])
    ensures forall k :: 0 <= k < |Split(s)| ==> Split(s)[k] != []
    decreases |s|
  {
    var i := FirstSpace(s);
    if i < |s| {
      var j := SpaceRunEnd(s, i + 1);
      var rest := s[j..];
      SplitInner(s);
      SplitNonEmpty(rest);
      var t := Split(rest);
      var r := Split(s);
      forall k | 0 <= k < |r|
        ensures r[k] != []
      {
        if k > 0 {
          assert r[k] == t[k - 1];
        }
      }
    }
  }

  /** One split step inside a text that neither starts nor ends with white
      space: a non-empty first piece, and a rest with the same property. */
  lemma SplitInner(s: string)
    requires s != [] && !IsSpace(s[0]) && !IsSpace(s[|s| - 1])
    requires FirstSpace(s) < |s|
    ensures var i := FirstSpace(s); var j := SpaceRunEnd(s, i + 1);
      && 0 < i && j < |s|
      && !IsSpace(s[j..][0]) && !IsSpace(s[j..][|s[j..]| - 1])
      && Split(s) == [s[..i]] + Split(s[j..])
  {
    var i := FirstSpace(s);
    assert i != 0 && i != |s| - 1 && IsSpace(s[i]);
    var j := SpaceRunEnd(s, i + 1);
    assert i + 1 <= |s| - 1 && !IsSpace(s[|s| - 1]);
    assert j < |s|;
    var rest := s[j..];
    assert rest[0] == s[j] && rest[|rest| - 1] == s[|s| - 1];
    assert Split(s) == [s[..i]] + Split(rest);
  }

  /** Every piece is made of characters of the text. */
  lemma {:induction false} SplitChars(s: string)
    ensures forall k, x :: 0 <= k < |Split(s)| && x in Split(s)[k] ==> x in s
    decreases |s|
  {
    var i := FirstSpace(s);
    if i < |s| {
      var j := SpaceRunEnd(s, i + 1);
      var rest := s[j..];
      SplitChars(rest);
      var t := Split(rest);
      var r := Split(s);
      assert r == [s[..i]] + t;
      forall k, x | 0 <= k < |r| && x in r[k]
        ensures x in s
      {
        if k == 0 {
          assert x in s[..i];
        } else {
          assert x in t[k - 1];
          assert x in rest;
        }
      }
    }
  }

  /** Tokens written out separated by single spaces. */
  function JoinSpaces(ts: seq<string>): string
    requires |ts| >= 1
  {
    if |ts| == 1 then ts[0] else ts[0] + " " + JoinSpaces(ts[1..])
  }

  /** Splitting inverts joining: non-empty tokens without white space,
      written out with single spaces, split back into the same tokens. */
  lemma {:induction false} SplitJoinSpaces(ts: seq<string>)
    requires |ts| >= 1
    requires forall k :: 0 <= k < |ts| ==> ts[k] != []
    requires forall k, j :: 0 <= k < |ts| && 0 <= j < |ts[k]| ==> !IsSpace(ts[k][j])
    ensures Split(JoinSpaces(ts)) == ts
  {
    if |ts| == 1 {
      FirstSpaceOfPrefix(ts[0], []);
    } else {
      var rest := JoinSpaces(ts[1..]);
      SplitJoinSpaces(ts[1..]);
      JoinSpacesHead(ts[1..]);
      SplitCons(ts[0], rest);
      assert ts == [ts[0]] + ts[1..];
    }
  }

  /** One token, one space, and a text that starts with a token. */
  lemma SplitCons(t: string, u: string)
    requires forall j :: 0 <= j < |t| ==> !IsSpace(t[j])
    requires u != [] && !IsSpace(u[0])
    ensures Split(t + " " + u) == [t] + Split(u)
  {
    var s := t + " " + u;
    assert s == t + (" " + u);
    FirstSpaceOfPrefix(t, " " + u);
    assert s[|t| + 1] == u[0];
    assert SpaceRunEnd(s, |t| + 1) == |t| + 1;
    assert s[..|t|] == t;
    assert s[|t| + 1..] == u;
  }

  lemma JoinSpacesHead(ts: seq<string>)
    requires |ts| >= 1 && ts[0] != []
    ensures JoinSpaces(ts) != [] && JoinSpaces(ts)[0] == ts[0][0]
  {
  }

  lemma {:induction false} FirstSpaceOfPrefix(t: string, u: string)
    requires forall j :: 0 <= j < |t| ==> !IsSpace(t[j])
    requires u == [] || IsSpace(u[0])
    ensures FirstSpace(t + u) == |t|
  {
    if t != [] {
      assert (t + u)[1..] == t[1..] + u;
      FirstSpaceOfPrefix(t[1..], u);
    } else {
      assert t + u == u;
    }
  }

  /** `separate(remove_comments_and_whitespace(line))`: the tokens of one line. */
  function Tokenize(line: string): (ts: seq<string>)
    ensures |ts| >= 1
  {
    Split(Trim(StripComments(line)))
  }

  /** A character that normalisation leaves in place inside a token: no
      `\s`, no NUL (which `trim` strips) and no `#`. */
  predicate IsTokenChar(c: char) {
    !IsSpace(c) && c != '\0' && c != '#'
  }

  /** The last character of a space-joined line is the last character of its
      last token. */
  lemma {:induction false} JoinSpacesLast(ts: seq<string>)
    requires |ts| >= 1 && ts[|ts| - 1] != []
    ensures var s := JoinSpaces(ts); var t := ts[|ts| - 1];
      s != [] && s[|s| - 1] == t[|t| - 1]
  {
    if |ts| > 1 {
      JoinSpacesLast(ts[1..]);
      assert ts[1..][|ts| - 2] == ts[|ts| - 1];
    }
  }

  /** Joining adds only spaces, so a character other than the space that no
      token holds is not in the line: no `#`, hence no comment, and no line
      feed. */
  lemma {:induction false} JoinSpacesAvoids(ts: seq<string>, c: char)
    requires |ts| >= 1
    requires c != ' '
    requires forall k :: 0 <= k < |ts| ==> c !in ts[k]
    ensures c !in JoinSpaces(ts)
  {
    if |ts| > 1 {
      JoinSpacesAvoids(ts[1..], c);
      assert ts[0] + " " + JoinSpaces(ts[1..]) == JoinSpaces(ts);
    }
  }

  /** Normalisation inverts writing tokens out with single spaces: a line
      made of non-empty tokens of token characters gives back those tokens. */
  lemma TokenizeJoin(ts: seq<string>)
    requires |ts| >= 1
    requires forall k :: 0 <= k < |ts| ==> ts[k] != []
    requires forall k, j :: 0 <= k < |ts| && 0 <= j < |ts[k]| ==> IsTokenChar(ts[k][j])
    ensures Tokenize(JoinSpaces(ts)) == ts
  {
    var s := JoinSpaces(ts);
    assert StripComments(s) == s by {
      forall k | 0 <= k < |ts|
        ensures '#' !in ts[k]
      {
        assert forall j :: 0 <= j < |ts[k]| ==> ts[k][j] != '#';
      }
      JoinSpacesAvoids(ts, '#');
    }
    assert Trim(s) == s by {
      JoinSpacesHead(ts);
      JoinSpacesLast(ts);
      var t := ts[|ts| - 1];
      assert IsTokenChar(ts[0][0]) && IsTokenChar(t[|t| - 1]);
      assert [] + s + [] == s;
      TrimExact([], s, []);
    }
    SplitJoinSpaces(ts);
  }

  /** `trim` keeps a form feed, so one after a token splits off an empty
      last token. */
  lemma TrailingFormFeed(t: string)
    requires t != []
    requires forall j :: 0 <= j < |t| ==> IsTokenChar(t[j])
    ensures Tokenize(t + "\U{C}") == [t, ""]
  {
    var s := t + "\U{C}";
    assert forall j :: 0 <= j < |t| ==> s[j] == t[j];
    assert '#' !in s by {
      assert forall j :: 0 <= j < |s| ==> s[j] != '#';
    }
    TrimKeeps(s);
    SplitLastSpace(t, '\U{C}');
  }

  /** `trim` leaves a text alone whose ends are no trim characters. */
  lemma TrimKeeps(s: string)
    requires s != [] && !IsTrimChar(s[0]) && !IsTrimChar(s[|s| - 1])
    ensures Trim(s) == s
  {
    assert TrimLeft(s) == s;
  }

  /** A text without white space, then one white-space character, splits
      into the text and an empty last piece. */
  lemma SplitLastSpace(t: string, c: char)
    requires forall j :: 0 <= j < |t| ==> !IsSpace(t[j])
    requires IsSpace(c)
    ensures Split(t + [c]) == [t, ""]
  {
    var s := t + [c];
    assert forall j :: 0 <= j < |t| ==> s[j] == t[j];
    FirstSpaceExact(s, |t|);
    assert s[..|t|] == t;
    assert s[|s|..] == [];
  }

  lemma {:induction false} FirstSpaceExact(s: string, i: nat)
    requires i <= |s|
    requires forall k :: 0 <= k < i ==> !IsSpace(s[k])
    requires i == |s| || IsSpace(s[i])
    ensures FirstSpace(s) == i
  {
    if i > 0 {
      FirstSpaceExact(s[1..], i - 1);
    }
  }

  /** The same for a line as `file()` returns it, with or without its line
      feed. */
  lemma TokenizeJoinLine(ts: seq<string>, tail: string)
    requires |ts| >= 1
    requires forall k :: 0 <= k < |ts| ==> ts[k] != []
    requires forall k, j :: 0 <= k < |ts| && 0 <= j < |ts[k]| ==> IsTokenChar(ts[k][j])
    requires tail == "" || tail == "\n"
    ensures Tokenize(JoinSpaces(ts) + tail) == ts
  {
    TokenizeJoin(ts);
    if tail == "" {
      assert JoinSpaces(ts) + tail == JoinSpaces(ts);
    } else {
      assert forall k :: 0 <= k < |ts| ==> '\n' !in ts[k] by {
        forall k | 0 <= k < |ts|
          ensures '\n' !in ts[k]
        {
          assert forall j :: 0 <= j < |ts[k]| ==> ts[k][j] != '\n';
        }
      }
      JoinSpacesAvoids(ts, '\n');
      TokenizeLF(JoinSpaces(ts));
    }
  }

  /** A normalised line holds no comment character and splits into tokens
      without white space, of which there is at least one. */
  lemma TokenizeShape(line: string)
    ensures |Tokenize(line)| >= 1
    ensures forall k, x :: 0 <= k < |Tokenize(line)| && x in Tokenize(line)[k] ==> x != '#' && !IsSpace(x)
  {
    var ts := Tokenize(line);
    SplitChars(Trim(StripComments(line)));
    SplitNoSpace(Trim(StripComments(line)));
    forall k, x | 0 <= k < |ts| && x in ts[k]
      ensures x != '#' && !IsSpace(x)
    {
      var j :| 0 <= j < |ts[k]| && ts[k][j] == x;
    }
  }

  /** On a line without form feed (the only `\s` character `trim` keeps), a
      normalised line is either the single empty token of a blank line or a
      list of non-empty tokens. */
  lemma TokenizeNonEmptyTokens(line: string)
    requires '\U{C}' !in line
    ensures var ts := Tokenize(line);
      ts == [[]] || forall k :: 0 <= k < |ts| ==> ts[k] != []
  {
    var t := Trim(StripComments(line));
    assert '\U{C}' !in t;
    if t == [] {
      assert Split(t) == [[]];
    } else {
      assert !IsSpace(t[0]) && !IsSpace(t[|t| - 1]);
      SplitNonEmpty(t);
    }
  }

  /** A blank line, trim characters only and its line feed included, yields
      the single empty token, which the main loop ignores. */
  lemma BlankLine(ws: string)
    requires forall k :: 0 <= k < |ws| ==> IsTrimChar(ws[k])
    ensures Tokenize(ws) == [[]]
  {
    assert '#' !in ws by {
      forall k | 0 <= k < |ws|
        ensures ws[k] != '#'
      {
        assert IsTrimChar(ws[k]);
      }
    }
    assert [] + [] + ws == ws;
    TrimExact([], [], ws);
    assert FirstSpace([]) == 0;
  }

  /** Trailing trim characters, a line feed among them, change nothing
      `trim` returns. */
  lemma TrimAppend(s: string, b: string)
    requires forall k :: 0 <= k < |b| ==> IsTrimChar(b[k])
    ensures Trim(s + b) == Trim(s)
  {
    if TrimLeft(s) == [] {
      assert forall k :: 0 <= k < |s + b| ==> IsTrimChar((s + b)[k]);
      assert (s + b) + [] == s + b;
      TrimLeftExact(s + b, []);
    } else {
      TrimLeftAppend(s, b);
      TrimRightAppend(TrimLeft(s), b);
    }
  }

  lemma {:induction false} TrimLeftAppend(s: string, b: string)
    requires TrimLeft(s) != []
    ensures TrimLeft(s + b) == TrimLeft(s) + b
  {
    assert (s + b)[0] == s[0];
    if IsTrimChar(s[0]) {
      assert (s + b)[1..] == s[1..] + b;
      TrimLeftAppend(s[1..], b);
      assert TrimLeft(s + b) == TrimLeft(s[1..] + b);
    }
  }

  lemma {:induction false} TrimRightAppend(l: string, b: string)
    requires forall k :: 0 <= k < |b| ==> IsTrimChar(b[k])
    ensures TrimRight(l + b) == TrimRight(l)
  {
    if b == [] {
      assert l + b == l;
    } else {
      var b' := b[..|b| - 1];
      assert (l + b)[..|l + b| - 1] == l + b';
      TrimRightAppend(l, b');
    }
  }

  /** On a line without line feed, the line feed `file()` keeps at its end
      survives comment removal as the line's last character. */
  lemma StripCommentsLF(s: string)
    requires '\n' !in s
    ensures StripComments(s + "\n") == StripComments(s) + "\n"
  {
    var t := s + "\n";
    assert t[..|s|] == s && t[|s|] == '\n';
    if '#' in s {
      var h := IndexOf(s, '#');
      assert t[..h] == s[..h];
      IndexOfFirst(t, '#', h);
      var p := SpaceRunStart(s, h);
      SpaceRunStartExact(t, p, h);
      LineEndExact(t, h, |s|);
      LineEndExact(s, h, |s|);
      assert t[..p] == s[..p];
      assert t[|s|..] == "\n";
      assert s[|s|..] == [];
    } else {
      assert '#' !in t;
    }
  }

  /** The line feed `file()` keeps at the end of a line changes nothing the
      line normalises to. */
  lemma TokenizeLF(s: string)
    requires '\n' !in s
    ensures Tokenize(s + "\n") == Tokenize(s)
  {
    StripCommentsLF(s);
    TrimAppend(StripComments(s), "\n");
  }

  /** A line of only white space and a comment yields the single empty token,
      which the main loop ignores. */
  lemma {:induction false} CommentOnlyLine(ws: string, comment: string, tail: string)
    requires forall k :: 0 <= k < |ws| ==> IsSpace(ws[k])
    requires '\n' !in comment
    requires tail == "" || tail == "\n"
    ensures Tokenize(ws + "#" + comment + tail) == [[]]
  {
    var s := ws + "#" + comment + tail;
    assert s == [] + ws + "#" + comment + tail;
    StripCommentsLine([], ws, comment, tail);
    assert StripComments(s) == tail;
    assert tail == [] + [] + tail;
    TrimExact([], [], tail);
    assert Trim(tail) == [];
    assert FirstSpace([]) == 0;
  }

  /** A comment after code is cut together with the white space before it;
      the line feed that ends the line stays. */
  lemma {:induction false} StripCommentsLine(code: string, ws: string, comment: string, tail: string)
    requires '#' !in code
    requires code == [] || !IsSpace(code[|code| - 1])
    requires forall k :: 0 <= k < |ws| ==> IsSpace(ws[k])
    requires '\n' !in comment
    requires tail == "" || tail == "\n"
    ensures StripComments(code + ws + "#" + comment + tail) == code + tail
  {
    var s := code + ws + "#" + comment + tail;
    var h := |code| + |ws|;
    assert s[..h] == code + ws;
    assert '#' !in s[..h];
    assert s[h] == '#';
    IndexOfFirst(s, '#', h);
    SpaceRunStartExact(s, |code|, h);
    var e := |s| - |tail|;
    LineEndExact(s, h, e);
    assert StripComments(s) == s[..|code|] + StripComments(s[e..]);
    assert s[..|code|] == code;
    assert s[e..] == tail;
    assert '#' !in tail;
  }

  lemma {:induction false} SpaceRunStartExact(s: string, p: nat, h: nat)
    requires p <= h <= |s|
    requires forall k :: p <= k < h ==> IsSpace(s[k])
    requires p == 0 || !IsSpace(s[p - 1])
    ensures SpaceRunStart(s, h) == p
    decreases h
  {
    if h > p {
      SpaceRunStartExact(s, p, h - 1);
    }
  }

  lemma {:induction false} LineEndExact(s: string, i: nat, e: nat)
    requires i <= e <= |s|
    requires forall k :: i <= k < e ==> s[k] != '\n'
    requires e == |s| || s[e] == '\n'
    ensures LineEnd(s, i) == e
    decreases e - i
  {
    if i < e {
      LineEndExact(s, i + 1, e);
    }
  }
}

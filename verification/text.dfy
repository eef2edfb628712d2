/** JavaScript's `String.prototype.trim`, which every label in the content
    script goes through. */
module Text {

  /** The characters `trim` strips: ECMAScript's WhiteSpace (tab, vertical tab,
      form feed, space, no-break space, byte order mark and the Unicode "Zs"
      space separators) and LineTerminator (line feed, carriage return, line
      and paragraph separators). */
  predicate IsWhitespace(c: char)
  {
    c == '\t' || c == '\n' || c == '\U{000B}' || c == '\U{000C}' || c == '\r' || c == ' '
    || c == '\U{00A0}' || c == '\U{1680}' || ('\U{2000}' <= c <= '\U{200A}')
    || c == '\U{2028}' || c == '\U{2029}' || c == '\U{202F}' || c == '\U{205F}'
    || c == '\U{3000}' || c == '\U{FEFF}'
  }

  /** Every character is whitespace (the empty string included). */
  predicate Blank(s: string)
  {
    forall k :: 0 <= k < |s| ==> IsWhitespace(s[k])
  }

  /** Neither end of `s` is whitespace. */
  predicate Trimmed(s: string)
  {
    s == [] || (!IsWhitespace(s[0]) && !IsWhitespace(s[|s| - 1]))
  }

  /** Drops the leading whitespace. */
  function TrimStart(s: string): string
  {
    if s != [] && IsWhitespace(s[0]) then TrimStart(s[1..]) else s
  }

  /** Drops the trailing whitespace. */
  function TrimEnd(s: string): string
  {
    if s != [] && IsWhitespace(s[|s| - 1]) then TrimEnd(s[..|s| - 1]) else s
  }

  /** `s.trim()`. */
  function Trim(s: string): string
  {
    TrimEnd(TrimStart(s))
  }

  /** What is left after `TrimStart` is a suffix of `s`, what was dropped is
      blank, and what is left does not start with whitespace. */
  lemma {:induction false} TrimStartSound(s: string)
    ensures var r := TrimStart(s);
      |r| <= |s| && r == s[|s| - |r|..] && Blank(s[..|s| - |r|]) && (r == [] || !IsWhitespace(r[0]))
    decreases |s|
  {
    if s != [] && IsWhitespace(s[0]) {
      TrimStartSound(s[1..]);
      var r := TrimStart(s[1..]);
      assert s[..|s| - |r|] == [s[0]] + s[1..][..|s| - 1 - |r|];
    } else {
      assert s[..0] == [];
    }
  }

  /** What is left after `TrimEnd` is a prefix of `s`, what was dropped is
      blank, and what is left does not end with whitespace. */
  lemma {:induction false} TrimEndSound(s: string)
    ensures var r := TrimEnd(s);
      |r| <= |s| && r == s[..|r|] && Blank(s[|r|..]) && (r == [] || !IsWhitespace(r[|r| - 1]))
    decreases |s|
  {
    if s != [] && IsWhitespace(s[|s| - 1]) {
      TrimEndSound(s[..|s| - 1]);
      var r := TrimEnd(s[..|s| - 1]);
      assert s[|r|..] == s[..|s| - 1][|r|..] + [s[|s| - 1]];
    } else {
      assert s[|s|..] == [];
    }
  }

  /** The result of `trim` has no whitespace at either end, is no longer
      than its input, and is empty exactly when the input is blank. */
  lemma {:induction false} TrimSound(s: string)
    ensures Trimmed(Trim(s))
    ensures |Trim(s)| <= |s|
    ensures Trim(s) == [] <==> Blank(s)
  {
    var m := TrimStart(s);
    var r := TrimEnd(m);
    TrimStartSound(s);
    TrimEndSound(m);
    if r != [] {
      assert r[0] == m[0];
      assert !Blank(s) by {
        assert s[|s| - |m|] == m[0];
      }
    } else {
      assert m == m[|r|..];
      BlankConcat(s[..|s| - |m|], m);
      assert s == s[..|s| - |m|] + m;
    }
  }

  lemma BlankConcat(x: string, y: string)
    requires Blank(x) && Blank(y)
    ensures Blank(x + y)
  {
    forall k | 0 <= k < |x + y|
      ensures IsWhitespace((x + y)[k])
    {
      if k < |x| {
        assert (x + y)[k] == x[k];
      } else {
        assert (x + y)[k] == y[k - |x|];
      }
    }
  }

  lemma {:induction false} TrimStartOfPadded(a: string, m: string)
    requires Blank(a)
    requires m == [] || !IsWhitespace(m[0])
    ensures TrimStart(a + m) == m
  {
    if a != [] {
      assert (a + m)[1..] == a[1..] + m;
      TrimStartOfPadded(a[1..], m);
    } else {
      assert a + m == m;
    }
  }

  lemma {:induction false} TrimEndOfPadded(m: string, b: string)
    requires Blank(b)
    requires m == [] || !IsWhitespace(m[|m| - 1])
    ensures TrimEnd(m + b) == m
  {
    if b != [] {
      assert (m + b)[..|m + b| - 1] == m + b[..|b| - 1];
      TrimEndOfPadded(m, b[..|b| - 1]);
    } else {
      assert m + b == m;
    }
  }

  /** Trim is characterised by what it keeps: whatever blank padding surrounds
      a trimmed string, trimming gives that string back. Together with the
      contract of `Trim` (every result is trimmed, and what is removed is
      blank) this pins the function down. */
  lemma {:induction false} TrimOfPadded(a: string, m: string, b: string)
    requires Blank(a) && Blank(b) && Trimmed(m)
    ensures Trim(a + m + b) == m
  {
    assert a + m + b == a + (m + b);
    if m == [] {
      assert m + b == b;
      TrimStartOfPadded(a + b, []);
      assert a + b + [] == a + b;
      TrimEndOfPadded([], []);
    } else {
      TrimStartOfPadded(a, m + b);
      TrimEndOfPadded(m, b);
    }
  }

  /** A trimmed string is its own trim; in particular trimming twice is
      trimming once. */
  lemma TrimFixesTrimmed(s: string)
    requires Trimmed(s)
    ensures Trim(s) == s
  {
    TrimOfPadded([], s, []);
    assert [] + s + [] == s;
  }

  lemma TrimIdempotent(s: string)
    ensures Trim(Trim(s)) == Trim(s)
  {
    TrimSound(s);
    TrimFixesTrimmed(Trim(s));
  }
}

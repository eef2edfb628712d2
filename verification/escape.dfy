/** The content script's `escapeHtml`. Its pattern matches maximal RUNS of
    `&`, `<`, `>` and `"`, while its replacement table has one-character keys
    only: a run of one character becomes that character's entity, and a run
    of two or more looks up a missing key and is replaced by the text
    "undefined". This module models that behaviour as the code has it. */
module Escape {

  predicate IsSpecial(c: char)
  {
    c == '&' || c == '<' || c == '>' || c == '"'
  }

  /** None of the characters that open a tag or close an attribute value. */
  predicate NoMarkup(s: string)
  {
    forall k :: 0 <= k < |s| ==> s[k] != '<' && s[k] != '>' && s[k] != '"'
  }

  predicate Plain(s: string)
  {
    forall k :: 0 <= k < |s| ==> !IsSpecial(s[k])
  }

  /** The replacement table. */
  function Entity(c: char): (r: string)
    requires IsSpecial(c)
    ensures NoMarkup(r) && |r| >= 4 && r[0] == '&' && r[|r| - 1] == ';'
  {
    match c
    case '&' => "&amp;"
    case '<' => "&lt;"
    case '>' => "&gt;"
    case '"' => "&quot;"
  }

  /** Length of the run of special characters at the front of `s`: the match
      the greedy `[&<>"]+` finds there. */
  function RunLength(s: string): (n: nat)
    ensures n <= |s|
    ensures forall k :: 0 <= k < n ==> IsSpecial(s[k])
    ensures n < |s| ==> !IsSpecial(s[n])
  {
    if s != [] && IsSpecial(s[0]) then 1 + RunLength(s[1..]) else 0
  }

  /** What the callback returns for a matched run, converted to a string. */
  function Replacement(run: string): (r: string)
    requires |run| >= 1 && IsSpecial(run[0])
    ensures NoMarkup(r)
  {
    if |run| == 1 then Entity(run[0]) else "undefined"
  }

  /** `s.replace(/[&<>"]+/g, c => table[c])`. */
  function EscapeHtml(s: string): string
    decreases |s|
  {
    if s == [] then []
    else
      var n := RunLength(s);
      if n == 0 then
        [s[0]] + EscapeHtml(s[1..])
      else
        Replacement(s[..n]) + EscapeHtml(s[n..])
  }

  /** The escaped text never holds `<`, `>` or `"`, whatever the input. */
  lemma {:induction false} EscapeHtmlNoMarkup(s: string)
    ensures NoMarkup(EscapeHtml(s))
    decreases |s|
  {
    if s != [] {
      var n := RunLength(s);
      if n == 0 {
        EscapeHtmlNoMarkup(s[1..]);
      } else {
        EscapeHtmlNoMarkup(s[n..]);
      }
    }
  }

  /** Text with none of the four characters passes through unchanged. */
  lemma {:induction false} EscapePlain(s: string)
    requires Plain(s)
    ensures EscapeHtml(s) == s
    decreases |s|
  {
    if s != [] {
      assert RunLength(s) == 0;
      EscapePlain(s[1..]);
      assert s == [s[0]] + s[1..];
    }
  }

  lemma {:induction false} RunLengthOfConcat(a: string, b: string)
    requires CleanCut(a, b)
    ensures RunLength(a + b) == if RunLength(a) < |a| then RunLength(a) else RunLength(a) + RunLength(b)
    decreases |a|
  {
    if a == [] {
      assert a + b == b;
    } else if IsSpecial(a[0]) {
      assert (a + b)[1..] == a[1..] + b;
      RunLengthOfConcat(a[1..], b);
    }
  }

  /** Escaping works piece by piece as long as the cut does not fall inside a
      run of special characters. */
  lemma {:induction false} EscapeConcat(a: string, b: string)
    requires CleanCut(a, b)
    ensures EscapeHtml(a + b) == EscapeHtml(a) + EscapeHtml(b)
    decreases |a|, 1
  {
    if a == [] {
      EscapeConcatEmptyHead(a, b);
    } else if RunLength(a) == 0 {
      EscapeConcatPlainHead(a, b);
    } else if RunLength(a) < |a| {
      EscapeConcatRunHead(a, b);
    } else {
      EscapeConcatWholeRun(a, b);
    }
  }

  lemma EscapeConcatEmptyHead(a: string, b: string)
    requires a == []
    ensures EscapeHtml(a + b) == EscapeHtml(a) + EscapeHtml(b)
  {
    assert EscapeHtml(a) == [];
    assert a + b == b;
  }

  /** The cut between `a` and `b` does not fall inside a run. */
  predicate CleanCut(a: string, b: string)
  {
    a == [] || !IsSpecial(a[|a| - 1]) || b == [] || !IsSpecial(b[0])
  }

  lemma {:induction false} EscapeConcatPlainHead(a: string, b: string)
    requires a != [] && RunLength(a) == 0 && CleanCut(a, b)
    ensures EscapeHtml(a + b) == EscapeHtml(a) + EscapeHtml(b)
    decreases |a|, 0
  {
    RunLengthOfConcat(a, b);
    assert CleanCut(a[1..], b) by {
      if a[1..] != [] {
        assert a[1..][|a[1..]| - 1] == a[|a| - 1];
      }
    }
    EscapeConcat(a[1..], b);
    UnfoldPlainOfConcat(a, b);
    UnfoldPlain(a);
    Associative([a[0]], EscapeHtml(a[1..]), EscapeHtml(b));
  }

  lemma UnfoldPlainOfConcat(a: string, b: string)
    requires a != [] && RunLength(a + b) == 0
    ensures EscapeHtml(a + b) == [a[0]] + EscapeHtml(a[1..] + b)
  {
    assert (a + b)[1..] == a[1..] + b && (a + b)[0] == a[0];
    UnfoldPlain(a + b);
  }

  lemma {:induction false} EscapeConcatRunHead(a: string, b: string)
    requires 0 < RunLength(a) < |a| && CleanCut(a, b)
    ensures EscapeHtml(a + b) == EscapeHtml(a) + EscapeHtml(b)
    decreases |a|, 0
  {
    var n := RunLength(a);
    RunLengthOfConcat(a, b);
    assert CleanCut(a[n..], b) by {
      assert a[n..][|a[n..]| - 1] == a[|a| - 1];
    }
    EscapeConcat(a[n..], b);
    UnfoldRunOfConcat(a, b, n);
    UnfoldRun(a, n);
    Associative(Replacement(a[..n]), EscapeHtml(a[n..]), EscapeHtml(b));
  }

  lemma UnfoldRunOfConcat(a: string, b: string, n: nat)
    requires 0 < n < |a| && RunLength(a + b) == n
    ensures EscapeHtml(a + b) == Replacement(a[..n]) + EscapeHtml(a[n..] + b)
  {
    assert (a + b)[..n] == a[..n];
    assert (a + b)[n..] == a[n..] + b;
    UnfoldRun(a + b, n);
  }

  lemma UnfoldPlain(s: string)
    requires s != [] && RunLength(s) == 0
    ensures EscapeHtml(s) == [s[0]] + EscapeHtml(s[1..])
  {
  }

  lemma UnfoldRun(s: string, n: nat)
    requires n > 0 && RunLength(s) == n
    ensures EscapeHtml(s) == Replacement(s[..n]) + EscapeHtml(s[n..])
  {
  }

  lemma Associative(p: string, x: string, y: string)
    ensures p + (x + y) == (p + x) + y
  {
  }

  lemma EscapeConcatWholeRun(a: string, b: string)
    requires a != [] && RunLength(a) == |a| && CleanCut(a, b)
    ensures EscapeHtml(a + b) == EscapeHtml(a) + EscapeHtml(b)
  {
    RunLengthOfConcat(a, b);
    assert (a + b)[..|a|] == a && a[..|a|] == a;
    assert (a + b)[|a|..] == b && a[|a|..] == [];
  }

  /** A lone special character between two non-special neighbours becomes
      its entity. */
  lemma EscapeSingle(a: string, c: char, b: string)
    requires IsSpecial(c)
    requires a == [] || !IsSpecial(a[|a| - 1])
    requires b == [] || !IsSpecial(b[0])
    ensures EscapeHtml(a + [c] + b) == EscapeHtml(a) + Entity(c) + EscapeHtml(b)
  {
    EscapeAround(a, [c], b);
    assert Replacement([c]) == Entity(c);
  }

  /** A maximal run of two or more special characters becomes the text
      "undefined", whatever the run holds. */
  lemma EscapeRun(a: string, run: string, b: string)
    requires |run| >= 2 && forall k :: 0 <= k < |run| ==> IsSpecial(run[k])
    requires a == [] || !IsSpecial(a[|a| - 1])
    requires b == [] || !IsSpecial(b[0])
    ensures EscapeHtml(a + run + b) == EscapeHtml(a) + "undefined" + EscapeHtml(b)
  {
    EscapeAround(a, run, b);
  }

  /** A whole run between non-special neighbours is replaced as one match. */
  lemma EscapeAround(a: string, run: string, b: string)
    requires |run| >= 1 && forall k :: 0 <= k < |run| ==> IsSpecial(run[k])
    requires a == [] || !IsSpecial(a[|a| - 1])
    requires b == [] || !IsSpecial(b[0])
    ensures EscapeHtml(a + run + b) == EscapeHtml(a) + Replacement(run) + EscapeHtml(b)
  {
    assert a + run + b == a + (run + b);
    EscapeConcat(a, run + b);
    EscapeConcat(run, b);
    EscapeOfRun(run);
    Associative(EscapeHtml(a), Replacement(run), EscapeHtml(b));
  }

  lemma {:induction false} EscapeOfRun(run: string)
    requires |run| >= 1 && forall k :: 0 <= k < |run| ==> IsSpecial(run[k])
    ensures EscapeHtml(run) == Replacement(run)
  {
    RunLengthAll(run);
    UnfoldRun(run, |run|);
    assert run[..|run|] == run;
    assert run[|run|..] == [];
    assert EscapeHtml([]) == [];
  }

  lemma {:induction false} RunLengthAll(s: string)
    requires forall k :: 0 <= k < |s| ==> IsSpecial(s[k])
    ensures RunLength(s) == |s|
    decreases |s|
  {
    if s != [] {
      RunLengthAll(s[1..]);
    }
  }

  /** The loss this causes: different inputs, same output, so the escaped
      text can no longer be read back. */
  lemma RunsBecomeUndefined()
    ensures EscapeHtml("<<") == EscapeHtml("&&") == "undefined"
  {
    EscapeOfRun("<<");
    EscapeOfRun("&&");
  }

  lemma LoneCharacterBecomesEntity()
    ensures EscapeHtml("a<b") == "a&lt;b"
  {
    EscapeSingle("a", '<', "b");
    assert "a" + ['<'] + "b" == "a<b";
    EscapePlain("a");
    EscapePlain("b");
    assert "a" + "&lt;" + "b" == "a&lt;b";
  }
}

/** The page as the content script sees it, and the two label rules it
    applies to a clickable element: the one `collectButtonTexts` uses and the
    different one `highlightMalicious` uses. */
module Labels {
  import opened Text

  /** One element of the document. Attributes and properties that are absent
      (`undefined`, `null`) are the empty string, which is how the source's
      `|| ''` treats them. `tag` is the upper-case `tagName`; `outlined` stands
      for the red outline style the highlighter sets. */
  datatype Element = Element(
    tag: string,
    role: string,
    typeAttr: string,
    innerText: string,
    value: string,
    ariaLabel: string,
    title: string,
    outlined: bool)

  /** The selector `a, button, [role="button"], input[type="button"],
      input[type="submit"]`. */
  predicate Clickable(e: Element)
  {
    e.tag == "A" || e.tag == "BUTTON" || e.role == "button"
    || (e.tag == "INPUT" && (e.typeAttr == "button" || e.typeAttr == "submit"))
  }

  /** `getLabel` of `collectButtonTexts`: trimmed inner text, else the trimmed
      value of an INPUT, else the trimmed `aria-label`, else the trimmed
      `title`. */
  function ExtractionLabel(e: Element): string
  {
    var t := Trim(e.innerText);
    var t := if t == [] && e.tag == "INPUT" then Trim(e.value) else t;
    var t := if t == [] then Trim(e.ariaLabel) else t;
    if t == [] then Trim(e.title) else t
  }

  lemma TrimFields(e: Element)
    ensures Trimmed(Trim(e.innerText)) && (Trim(e.innerText) == [] <==> Blank(e.innerText))
    ensures Trimmed(Trim(e.value)) && (Trim(e.value) == [] <==> Blank(e.value))
    ensures Trimmed(Trim(e.ariaLabel)) && (Trim(e.ariaLabel) == [] <==> Blank(e.ariaLabel))
    ensures Trimmed(Trim(e.title)) && (Trim(e.title) == [] <==> Blank(e.title))
  {
    TrimSound(e.innerText);
    TrimSound(e.value);
    TrimSound(e.ariaLabel);
    TrimSound(e.title);
  }

  /** What the extraction rule yields: a trimmed string, empty exactly when
      every field it consults is blank, and otherwise one of the trimmed
      fields. */
  lemma ExtractionLabelSound(e: Element)
    ensures Trimmed(ExtractionLabel(e))
    ensures ExtractionLabel(e) == [] <==>
      Blank(e.innerText) && (e.tag == "INPUT" ==> Blank(e.value)) && Blank(e.ariaLabel) && Blank(e.title)
    ensures var r := ExtractionLabel(e);
      r == [] || r == Trim(e.innerText) || r == Trim(e.value) || r == Trim(e.ariaLabel) || r == Trim(e.title)
  {
    TrimFields(e);
  }

  /** `getLabel` of `highlightMalicious`: the first NON-EMPTY field among inner
      text, value (of any element), `aria-label` and `title`, trimmed only
      afterwards. */
  function HighlightLabel(e: Element): string
  {
    Trim(
      if e.innerText != [] then e.innerText
      else if e.value != [] then e.value
      else if e.ariaLabel != [] then e.ariaLabel
      else e.title)
  }

  /** What the highlighter's rule yields: a trimmed string, empty exactly
      when the first non-empty field is blank. */
  lemma HighlightLabelSound(e: Element)
    ensures Trimmed(HighlightLabel(e))
    ensures HighlightLabel(e) == [] <==>
      if e.innerText != [] then Blank(e.innerText)
      else if e.value != [] then Blank(e.value)
      else if e.ariaLabel != [] then Blank(e.ariaLabel)
      else Blank(e.title)
  {
    TrimFields(e);
  }

  /** The first field that is not blank, or the empty string. */
  function FirstNonBlank(fields: seq<string>): string
  {
    if fields == [] then [] else if !Blank(fields[0]) then fields[0] else FirstNonBlank(fields[1..])
  }

  /** The first field that is not empty (JavaScript's `a || b || ...`), or
      the empty string. */
  function FirstNonEmpty(fields: seq<string>): string
  {
    if fields == [] then [] else if fields[0] != [] then fields[0] else FirstNonEmpty(fields[1..])
  }

  /** The fields the extraction rule consults, in priority order: `value`
      only on an INPUT. */
  function ExtractionFields(e: Element): seq<string>
  {
    [e.innerText] + (if e.tag == "INPUT" then [e.value] else []) + [e.ariaLabel, e.title]
  }

  /** The extraction rule is "trim the first field, in priority order, that
      has something besides whitespace". */
  lemma ExtractionIsFirstNonBlank(e: Element)
    ensures ExtractionLabel(e) == Trim(FirstNonBlank(ExtractionFields(e)))
  {
    TrimFields(e);
    assert Trim([]) == [];
    var rest := [e.ariaLabel, e.title];
    assert FirstNonBlank(rest) == if !Blank(e.ariaLabel) then e.ariaLabel else FirstNonBlank([e.title]) by {
      assert rest[1..] == [e.title];
    }
    assert FirstNonBlank([e.title]) == if !Blank(e.title) then e.title else [] by {
      assert [e.title][1..] == [];
    }
    var fs := ExtractionFields(e);
    if e.tag == "INPUT" {
      assert fs[1..] == [e.value] + rest && (fs[1..])[1..] == rest;
    } else {
      assert fs[1..] == rest;
    }
  }

  /** The highlighter's rule is "trim the first non-empty field among all
      four", `value` included whatever the tag. */
  lemma HighlightIsFirstNonEmpty(e: Element)
    ensures HighlightLabel(e) == Trim(FirstNonEmpty([e.innerText, e.value, e.ariaLabel, e.title]))
  {
    var fs := [e.innerText, e.value, e.ariaLabel, e.title];
    assert FirstNonEmpty(fs[3..]) == e.title by {
      assert fs[3..][1..] == [];
    }
    assert FirstNonEmpty(fs[2..]) == if e.ariaLabel != [] then e.ariaLabel else e.title by {
      assert fs[2..][1..] == fs[3..];
    }
    assert FirstNonEmpty(fs[1..]) == if e.value != [] then e.value else FirstNonEmpty(fs[2..]) by {
      assert fs[1..][1..] == fs[2..];
    }
  }

  /** Visible text comes first in the extraction rule. */
  lemma ExtractionPrefersText(e: Element)
    requires !Blank(e.innerText)
    ensures ExtractionLabel(e) == Trim(e.innerText)
  {
    TrimFields(e);
  }

  /** The extraction rule looks at `value` for INPUT elements only. */
  lemma ExtractionIgnoresValueOfNonInputs(e: Element, v: string)
    requires e.tag != "INPUT"
    ensures ExtractionLabel(e.(value := v)) == ExtractionLabel(e)
  {
  }

  /** Where an element has visible text the two rules agree. */
  lemma LabelsAgreeOnVisibleText(e: Element)
    requires !Blank(e.innerText)
    ensures HighlightLabel(e) == ExtractionLabel(e)
  {
    TrimFields(e);
  }

  /** Elsewhere they need not. Whitespace-only inner text does not fall
      through in the highlighter's rule, so such an element is found by its
      `aria-label` when labels are collected and by the empty string when
      they are matched ... */
  lemma BlankTextFallsThrough(e: Element)
    requires e.tag != "INPUT" && e.innerText != [] && Blank(e.innerText) && !Blank(e.ariaLabel)
    ensures ExtractionLabel(e) == Trim(e.ariaLabel) != []
    ensures HighlightLabel(e) == []
  {
    TrimFields(e);
  }

  /** ... and the highlighter reads the `value` of any element, the
      collector only that of an INPUT. */
  lemma ButtonValueIsRead(e: Element)
    requires e.tag != "INPUT" && e.innerText == [] && !Blank(e.value) && !Blank(e.ariaLabel)
    ensures ExtractionLabel(e) == Trim(e.ariaLabel) != []
    ensures HighlightLabel(e) == Trim(e.value) != []
  {
    TrimFields(e);
  }

  /** The extraction rule keeps a label only when it has at least two
      characters. */
  predicate Kept(e: Element)
  {
    Clickable(e) && ExtractionLabel(e) != [] && |ExtractionLabel(e)| >= 2
  }

  /** The panel's own close button (inner text "✕", `aria-label` "Close"):
      its label is one character long, so a scan run while the panel is open
      neither collects it nor can match it against a collected label. */
  lemma CloseButtonIsIgnored()
    ensures var close := Element("BUTTON", "", "", "\U{2715}", "", "Close", "", false);
      !Kept(close) && |HighlightLabel(close)| < 2
  {
    HighlightLabelSound(Element("BUTTON", "", "", "\U{2715}", "", "Close", "", false));
    TrimFixesTrimmed("\U{2715}");
  }

  /** Element `e` yields label `x` in `collectButtonTexts`. */
  predicate Derives(e: Element, x: string)
  {
    Kept(e) && ExtractionLabel(e) == x
  }

  /** The labels the loop of `collectButtonTexts` offers to its `Set`, in
      document order, repeats included. */
  function Candidates(es: seq<Element>): (r: seq<string>)
    ensures forall i :: 0 <= i < |r| ==> |r[i]| >= 2 && Trimmed(r[i])
    decreases |es|
  {
    if es == [] then []
    else
      var e := es[|es| - 1];
      ExtractionLabelSound(e);
      Candidates(es[..|es| - 1]) + if Kept(e) then [ExtractionLabel(e)] else []
  }

  /** One step of the collecting loop: the last element adds its label or
      nothing. */
  lemma CandidatesStep(es: seq<Element>)
    requires es != []
    ensures var e := es[|es| - 1];
      Candidates(es) == Candidates(es[..|es| - 1]) + if Kept(e) then [ExtractionLabel(e)] else []
  {
  }

  /** A `Set` filled in order and read back with `Array.from`: each value once,
      at the place it was first added. */
  function Dedup(s: seq<string>): seq<string>
    decreases |s|
  {
    if s == [] then []
    else
      var d := Dedup(s[..|s| - 1]);
      if s[|s| - 1] in d then d else d + [s[|s| - 1]]
  }

  /** One step of the `Set`: adding a value already present changes
      nothing, adding a new one appends it. */
  lemma DedupStep(s: seq<string>, x: string)
    ensures Dedup(s + [x]) == if x in Dedup(s) then Dedup(s) else Dedup(s) + [x]
  {
    assert (s + [x])[..|s|] == s;
  }

  /** The loop body of `collectButtonTexts` on element i, given the list so
      far. */
  lemma CollectStep(es: seq<Element>, i: nat, order: seq<string>)
    requires i < |es| && order == Dedup(Candidates(es[..i]))
    ensures Dedup(Candidates(es[..i + 1])) ==
      if Kept(es[i]) && ExtractionLabel(es[i]) !in order then order + [ExtractionLabel(es[i])] else order
  {
    var c := Candidates(es[..i]);
    CandidatesStep(es[..i + 1]);
    assert es[..i + 1][..i] == es[..i];
    if Kept(es[i]) {
      DedupStep(c, ExtractionLabel(es[i]));
    } else {
      assert c + [] == c;
    }
  }

  /** The result of `collectButtonTexts` on a document. */
  function CollectedLabels(es: seq<Element>): seq<string>
  {
    Dedup(Candidates(es))
  }

  predicate Distinct(s: seq<string>)
  {
    forall i, j :: 0 <= i < j < |s| ==> s[i] != s[j]
  }

  /** Index of the first occurrence of `x` in `s`. */
  function FirstIndex(s: seq<string>, x: string): (i: nat)
    requires x in s
    ensures i < |s| && s[i] == x && x !in s[..i]
  {
    if s[0] == x then 0
    else
      var i := 1 + FirstIndex(s[1..], x);
      assert s[..i] == [s[0]] + s[1..][..i - 1];
      i
  }

  lemma FirstIndexOfPrefix(s: seq<string>, n: nat, x: string)
    requires n <= |s| && x in s[..n]
    ensures FirstIndex(s, x) == FirstIndex(s[..n], x)
  {
    var i, j := FirstIndex(s, x), FirstIndex(s[..n], x);
    assert s[..n][j] == s[j];
  }

  /** What `Dedup` keeps: every value once, exactly the values of the input,
      in the order of their first occurrences. */
  lemma {:induction false} DedupSound(s: seq<string>)
    ensures Distinct(Dedup(s))
    ensures forall x :: x in Dedup(s) <==> x in s
    ensures forall i, j :: 0 <= i < j < |Dedup(s)| ==>
      FirstIndex(s, Dedup(s)[i]) < FirstIndex(s, Dedup(s)[j])
    decreases |s|
  {
    if s != [] {
      var p := s[..|s| - 1];
      var x := s[|s| - 1];
      DedupSound(p);
      var d := Dedup(p);
      assert s == p + [x];
      forall y | y in p
        ensures FirstIndex(s, y) == FirstIndex(p, y)
      {
        FirstIndexOfPrefix(s, |s| - 1, y);
      }
      if x !in d {
        assert x !in p;
        assert FirstIndex(s, x) == |s| - 1;
      }
    }
  }

  /** A label is a candidate exactly when some clickable element of the
      document derives it and it is long enough. */
  lemma {:induction false} CandidatesMembers(es: seq<Element>, x: string)
    ensures x in Candidates(es) <==> exists k :: 0 <= k < |es| && Derives(es[k], x)
  {
    if x in Candidates(es) {
      var k := DerivingElement(es, x);
    }
    if exists k :: 0 <= k < |es| && Derives(es[k], x) {
      var k :| 0 <= k < |es| && Derives(es[k], x);
      DerivedIsCandidate(es, k, x);
    }
  }

  lemma {:induction false} DerivedIsCandidate(es: seq<Element>, k: nat, x: string)
    requires k < |es| && Derives(es[k], x)
    ensures x in Candidates(es)
    decreases |es|
  {
    var p := es[..|es| - 1];
    var e := es[|es| - 1];
    assert Candidates(es) == Candidates(p) + if Kept(e) then [ExtractionLabel(e)] else [];
    if k < |p| {
      assert p[k] == es[k];
      DerivedIsCandidate(p, k, x);
    }
  }

  lemma {:induction false} DerivingElement(es: seq<Element>, x: string) returns (k: nat)
    requires x in Candidates(es)
    ensures k < |es| && Derives(es[k], x)
    decreases |es|
  {
    var p := es[..|es| - 1];
    var e := es[|es| - 1];
    assert Candidates(es) == Candidates(p) + if Kept(e) then [ExtractionLabel(e)] else [];
    if x in Candidates(p) {
      k := DerivingElement(p, x);
      assert p[k] == es[k];
    } else {
      k := |es| - 1;
    }
  }

  lemma CollectedLabelsDistinct(es: seq<Element>)
    ensures Distinct(CollectedLabels(es))
    ensures forall i :: 0 <= i < |CollectedLabels(es)| ==> |CollectedLabels(es)[i]| >= 2
  {
    CollectedLabelsSound(es);
  }

  /** What `collectButtonTexts` returns: labels of at least two characters
      with no surrounding whitespace, each once, exactly those some clickable
      element derives, in the order of their first appearance among the
      candidates. */
  lemma {:induction false} CollectedLabelsSound(es: seq<Element>)
    ensures forall i :: 0 <= i < |CollectedLabels(es)| ==>
      |CollectedLabels(es)[i]| >= 2 && Trimmed(CollectedLabels(es)[i])
    ensures Distinct(CollectedLabels(es))
    ensures forall x :: x in CollectedLabels(es) <==> exists k :: 0 <= k < |es| && Derives(es[k], x)
    ensures forall x :: x in CollectedLabels(es) <==> x in Candidates(es)
    ensures forall i, j :: 0 <= i < j < |CollectedLabels(es)| ==>
      FirstIndex(Candidates(es), CollectedLabels(es)[i]) < FirstIndex(Candidates(es), CollectedLabels(es)[j])
  {
    DedupSound(Candidates(es));
    CollectedLabelsDerived(es);
    CollectedLabelsShape(es);
  }

  lemma {:induction false} CollectedLabelsDerived(es: seq<Element>)
    ensures forall x :: x in CollectedLabels(es) <==> exists k :: 0 <= k < |es| && Derives(es[k], x)
  {
    DedupSound(Candidates(es));
    forall x ensures x in CollectedLabels(es) <==> exists k :: 0 <= k < |es| && Derives(es[k], x) {
      CandidatesMembers(es, x);
    }
  }

  lemma {:induction false} CollectedLabelsShape(es: seq<Element>)
    ensures forall i :: 0 <= i < |CollectedLabels(es)| ==>
      |CollectedLabels(es)[i]| >= 2 && Trimmed(CollectedLabels(es)[i])
  {
    var c := Candidates(es);
    DedupSound(c);
    forall i | 0 <= i < |CollectedLabels(es)| ensures |CollectedLabels(es)[i]| >= 2 && Trimmed(CollectedLabels(es)[i]) {
      assert CollectedLabels(es)[i] in c;
    }
  }
}

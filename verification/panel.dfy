/** What `renderPanelResults` shows and what `highlightMalicious` marks, as
    functions of the collected labels and the reply's results. */
module Panel {
  import opened Wrappers
  import opened Escape
  import opened Labels

  const MALICIOUS: string := "Malicious"
  const UNKNOWN: string := "Unknown"
  const CLASS_MALICIOUS: string := "cb-mal"
  const CLASS_SAFE: string := "cb-safe"
  const NO_LABELS: string := "No clickable labels found"
  const API_ERROR: string := "API Error"

  /** One `cb-row`: the escaped label, the badge's class and the badge text
      (which the source does not escape). */
  datatype Row = Row(text: string, badgeClass: string, badge: string)

  /** The content of `#cb-panel-body`, or no panel at all. `Results` is the
      rows followed by the fixed note "Only button texts are sent to the
      API."; `Note` is a single `cb-note` div. */
  datatype PanelBody =
    | NoPanel
    | Scanning                // "Scanning...", as injected
    | Loading(count: nat)     // "Found <count> items. Classifying..."
    | Note(text: string)
    | Results(rows: seq<Row>)

  /** `results?.[i] || 'Unknown'`: the entry at position i, or "Unknown" when
      there are no results, the index is past their end or the entry is
      falsy. */
  function Verdict(results: Option<seq<string>>, i: nat): (r: string)
    ensures r != []
    ensures r == UNKNOWN <==> results.None? || i >= |results.value| || results.value[i] in {[], UNKNOWN}
    ensures results.Some? && i < |results.value| && results.value[i] != [] ==> r == results.value[i]
  {
    if results.Some? && i < |results.value| && results.value[i] != [] then results.value[i] else UNKNOWN
  }

  /** `results?.[i] === 'Malicious'`. */
  predicate IsMalicious(results: Option<seq<string>>, i: nat)
  {
    results.Some? && i < |results.value| && results.value[i] == MALICIOUS
  }

  function BadgeClass(verdict: string): string
  {
    if verdict == MALICIOUS then CLASS_MALICIOUS else CLASS_SAFE
  }

  /** The rows of the results view: one per label, in order, row i carrying
      label i (escaped) and the verdict at position i, with the red badge
      class exactly for "Malicious". */
  function RenderRows(texts: seq<string>, results: Option<seq<string>>): (rows: seq<Row>)
    ensures |rows| == |texts|
    ensures forall i :: 0 <= i < |rows| ==>
      && rows[i].text == EscapeHtml(texts[i])
      && rows[i].badge == Verdict(results, i)
      && (rows[i].badgeClass == CLASS_MALICIOUS <==> IsMalicious(results, i))
      && (rows[i].badgeClass == CLASS_MALICIOUS || rows[i].badgeClass == CLASS_SAFE)
  {
    seq(|texts|, i requires 0 <= i < |texts| =>
      var v := Verdict(results, i);
      Row(EscapeHtml(texts[i]), BadgeClass(v), v))
  }

  /** No row's text can open a tag or close an attribute value. */
  lemma RowsHaveNoMarkup(texts: seq<string>, results: Option<seq<string>>)
    ensures forall i :: 0 <= i < |texts| ==> NoMarkup(RenderRows(texts, results)[i].text)
  {
    forall i | 0 <= i < |texts|
      ensures NoMarkup(RenderRows(texts, results)[i].text)
    {
      EscapeHtmlNoMarkup(texts[i]);
    }
  }

  /** A reply that answers only the labels that were sent leaves every row
      past the first 250 as "Unknown" with the safe badge. */
  lemma RowsPastTheBatchAreUnknown(texts: seq<string>, results: Option<seq<string>>, i: nat)
    requires results.Some? ==> |results.value| <= 250
    requires 250 <= i < |texts|
    ensures RenderRows(texts, results)[i] == Row(EscapeHtml(texts[i]), CLASS_SAFE, UNKNOWN)
  {
  }

  /** `new Set(texts.filter((_, i) => results?.[i] === 'Malicious'))`. */
  function MaliciousSet(texts: seq<string>, results: Option<seq<string>>): set<string>
  {
    set i | 0 <= i < |texts| && IsMalicious(results, i) :: texts[i]
  }

  /** For labels listed once each (as the collector lists them), a row's
      badge is red exactly when its label is among those the highlighter
      looks for. */
  lemma BadgeMatchesHighlight(texts: seq<string>, results: Option<seq<string>>, i: nat)
    requires Distinct(texts) && i < |texts|
    ensures RenderRows(texts, results)[i].badgeClass == CLASS_MALICIOUS <==> texts[i] in MaliciousSet(texts, results)
  {
    if texts[i] in MaliciousSet(texts, results) {
      var j :| 0 <= j < |texts| && IsMalicious(results, j) && texts[j] == texts[i];
      assert j == i;
    }
  }

  /** One element after the highlighter's loop body: outlined when it matches
      the selector and its highlight label is in `mal`, otherwise as it was. */
  function Mark(e: Element, mal: set<string>): Element
  {
    if Clickable(e) && HighlightLabel(e) in mal then e.(outlined := true) else e
  }

  /** The document after `highlightMalicious`. */
  function Highlighted(es: seq<Element>, mal: set<string>): (r: seq<Element>)
    ensures |r| == |es|
  {
    seq(|es|, i requires 0 <= i < |es| => Mark(es[i], mal))
  }

  /** The same elements stay in the same places; each is outlined when it was
      already or when it is a clickable element whose highlight label is in
      `mal`, and nothing else about it changes. */
  lemma HighlightedSound(es: seq<Element>, mal: set<string>)
    ensures forall i :: 0 <= i < |es| ==>
      Highlighted(es, mal)[i].(outlined := es[i].outlined) == es[i]
      && (Highlighted(es, mal)[i].outlined <==>
            es[i].outlined || (Clickable(es[i]) && HighlightLabel(es[i]) in mal))
  {
  }

  /** With nothing malicious the page is left as it is. */
  lemma NothingMaliciousChangesNothing(es: seq<Element>)
    ensures Highlighted(es, {}) == es
  {
  }

  /** Highlighting twice is highlighting once. */
  lemma HighlightIdempotent(es: seq<Element>, mal: set<string>)
    ensures Highlighted(Highlighted(es, mal), mal) == Highlighted(es, mal)
  {
    var once := Highlighted(es, mal);
    HighlightedSound(es, mal);
    forall i | 0 <= i < |es|
      ensures Highlighted(once, mal)[i] == once[i]
    {
      assert once[i].(outlined := es[i].outlined) == es[i];
    }
  }

  /** Every label the highlighter looks for came from the list, so only
      labels of at least two characters are ever matched when that list is
      the collector's. */
  lemma MaliciousSetFromTexts(texts: seq<string>, results: Option<seq<string>>)
    ensures forall x :: x in MaliciousSet(texts, results) ==> x in texts
    ensures results.None? ==> MaliciousSet(texts, results) == {}
  {
  }
}

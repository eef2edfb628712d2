/** The content script's state and steps: the page's elements, the
    `panelInjected` flag and the panel body, and one scan. */
module ContentScript {
  import opened Wrappers
  import opened Text
  import opened Escape
  import opened Labels
  import opened ApiClient
  import opened Panel

  class Page {
    /** Every element of the document, in document order. */
    var elements: array<Element>
    var panelInjected: bool
    var body: PanelBody

    /** The flag is set exactly while the panel (and so its body) exists. */
    ghost predicate Valid()
      reads this
    {
      panelInjected <==> !body.NoPanel?
    }

    constructor (document: seq<Element>)
      ensures Valid() && fresh(elements)
      ensures elements[..] == document && !panelInjected && body == NoPanel
    {
      elements := new Element[|document|](i requires 0 <= i < |document| => document[i]);
      panelInjected := false;
      body := NoPanel;
    }

    /** `collectButtonTexts`: walks the clickable elements, adding each label
        of two or more characters to a `Set` (kept here as its insertion
        order and its members), and returns the set as a list. */
    method CollectButtonTexts() returns (texts: seq<string>)
      ensures texts == CollectedLabels(elements[..])
      ensures Distinct(texts)
      ensures forall i :: 0 <= i < |texts| ==> |texts[i]| >= 2
    {
      var order: seq<string> := [];
      var members: set<string> := {};
      var i := 0;
      while i < elements.Length
        invariant 0 <= i <= elements.Length
        invariant order == Dedup(Candidates(elements[..i]))
        invariant forall x :: x in members <==> x in order
      {
        var e := elements[i];
        CollectStep(elements[..], i, order);
        if Clickable(e) {
          var t := ExtractionLabel(e);
          if t != [] && |t| >= 2 && t !in members {
            order := order + [t];
            members := members + {t};
          }
        }
        i := i + 1;
      }
      assert elements[..i] == elements[..];
      texts := order;
      CollectedLabelsDistinct(elements[..]);
    }

    /** `injectPanel`: a no-op while a panel exists; otherwise sets the flag
        and shows a fresh panel reading "Scanning...". */
    method InjectPanel()
      requires Valid()
      modifies this
      ensures Valid() && panelInjected && elements == old(elements)
      ensures body == if old(panelInjected) then old(body) else Scanning
    {
      if panelInjected {
        return;
      }
      panelInjected := true;
      body := Scanning;
    }

    /** The close button's handler: removes the panel and clears the flag, so
        that the next scan injects a new one. The button exists only while
        the panel does. */
    method ClosePanel()
      requires Valid() && panelInjected
      modifies this
      ensures Valid() && !panelInjected && body == NoPanel && elements == old(elements)
    {
      body := NoPanel;
      panelInjected := false;
    }

    /** `renderPanelLoading`: shows the count, if there is a panel. */
    method RenderPanelLoading(count: nat)
      requires Valid()
      modifies this`body
      ensures Valid()
      ensures body == if old(body).NoPanel? then NoPanel else Loading(count)
    {
      if body.NoPanel? {
        return;
      }
      body := Loading(count);
    }

    /** `renderPanelResults`: if there is a panel, shows the escaped error
        message alone when there is one (a non-empty string), otherwise one
        row per label. */
    method RenderPanelResults(texts: seq<string>, results: Option<seq<string>>, errorMsg: string)
      requires Valid()
      modifies this`body
      ensures Valid()
      ensures old(body).NoPanel? ==> body == NoPanel
      ensures !old(body).NoPanel? && errorMsg != [] ==> body == Note(EscapeHtml(errorMsg))
      ensures !old(body).NoPanel? && errorMsg == [] ==> body == Results(RenderRows(texts, results))
    {
      if body.NoPanel? {
        return;
      }
      if errorMsg != [] {
        body := Note(EscapeHtml(errorMsg));
        return;
      }
      body := Results(RenderRows(texts, results));
    }

    /** `highlightMalicious`: when some label was classified "Malicious",
        outlines in place every clickable element whose highlight label is
        one of them. */
    method HighlightMalicious(texts: seq<string>, results: Option<seq<string>>)
      modifies elements
      ensures elements[..] == Highlighted(old(elements[..]), MaliciousSet(texts, results))
    {
      var mal := MaliciousSet(texts, results);
      if mal == {} {
        NothingMaliciousChangesNothing(elements[..]);
        return;
      }
      ghost var target := Highlighted(elements[..], mal);
      var i := 0;
      while i < elements.Length
        invariant 0 <= i <= elements.Length
        invariant forall k :: 0 <= k < i ==> elements[k] == target[k]
        invariant forall k :: i <= k < elements.Length ==> elements[k] == old(elements[k])
      {
        var e := elements[i];
        assert target[i] == Mark(e, mal);
        if Clickable(e) && HighlightLabel(e) in mal {
          elements[i] := e.(outlined := true);
        }
        i := i + 1;
      }
      assert elements[..] == target;
    }

    /** `runScan`, one scan from start to finish. `stored` is the saved
        preference, `parse` the `URL` constructor and `backend` the answer
        the background page gives to a request. Returns the request sent, or
        None when no request was made. */
    method RunScan(stored: Option<string>, parse: string -> Option<Url>, backend: ApiRequest -> Reply)
      returns (request: Option<ApiRequest>)
      requires Valid()
      modifies this, elements
      ensures Valid() && panelInjected && elements == old(elements)
      ensures var texts := CollectedLabels(old(elements[..]));
        && (texts == [] ==>
              request.None? && body == Note(NO_LABELS) && elements[..] == old(elements[..]))
        && (texts != [] ==>
              request == Some(ApiRequest(ApiBase(stored, parse), Batch(texts))))
        && (texts != [] && CallApi(ApiBase(stored, parse), texts, backend).Err? ==>
              body == Note(API_ERROR) && elements[..] == old(elements[..]))
        && (texts != [] && CallApi(ApiBase(stored, parse), texts, backend).Ok? ==>
              var results := CallApi(ApiBase(stored, parse), texts, backend).value;
              body == Results(RenderRows(texts, results))
              && elements[..] == Highlighted(old(elements[..]), MaliciousSet(texts, results)))
    {
      var apiUrl := ApiBase(stored, parse);
      var texts := CollectButtonTexts();
      assert texts == CollectedLabels(old(elements[..]));
      InjectPanel();
      RenderPanelLoading(|texts|);
      assert !body.NoPanel? && elements[..] == old(elements[..]);
      if |texts| == 0 {
        RenderPanelResults([], None, NO_LABELS);
        EscapeLeavesMessages();
        request := None;
        return;
      }
      var req := ApiRequest(apiUrl, Batch(texts));
      request := Some(req);
      var outcome := ReadReply(backend(req));
      assert outcome == CallApi(ApiBase(stored, parse), texts, backend);
      match outcome {
        case Err(_) =>
          RenderPanelResults([], None, API_ERROR);
          EscapeLeavesMessages();
        case Ok(results) =>
          RenderPanelResults(texts, results, []);
          HighlightMalicious(texts, results);
      }
    }
  }

  /** The two messages the scan shows contain nothing to escape. */
  lemma EscapeLeavesMessages()
    ensures EscapeHtml(NO_LABELS) == NO_LABELS
    ensures EscapeHtml(API_ERROR) == API_ERROR
  {
    NoLabelsIsPlain();
    ApiErrorIsPlain();
    EscapePlain(NO_LABELS);
    EscapePlain(API_ERROR);
  }

  lemma NoLabelsIsPlain()
    ensures Plain(NO_LABELS)
  {
  }

  lemma ApiErrorIsPlain()
    ensures Plain(API_ERROR)
  {
  }
}

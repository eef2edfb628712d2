/** `getApiBase` and `callApi`: where the labels go and what comes back. */
module ApiClient {
  import opened Wrappers
  import opened Text

  const DEFAULT_API: string := "http://127.0.0.1:5000/predict_batch"
  const PREDICT_BATCH: string := "/predict_batch"
  /** How many labels one request carries at most. */
  const MAX_BATCH: nat := 250
  const UNKNOWN_ERROR: string := "Unknown error"

  /** What the `URL` constructor exposes that `getApiBase` uses. Parsing
      itself is a parameter of type `string -> Option<Url>`: `None` is the
      constructor throwing. */
  datatype Url = Url(origin: string, pathname: string)

  predicate EndsWith(s: string, suffix: string)
  {
    |suffix| <= |s| && s[|s| - |suffix|..] == suffix
  }

  /** The test `/\/predict_batch\/?$/`. */
  predicate EndsInPredictBatch(path: string)
  {
    EndsWith(path, PREDICT_BATCH) || EndsWith(path, PREDICT_BATCH + "/")
  }

  /** `path.replace(/\/$/, '') + '/predict_batch'`: at most one trailing
      slash goes, then the endpoint is appended. */
  function RewritePath(path: string): (r: string)
    ensures EndsInPredictBatch(r)
    ensures |r| >= |PREDICT_BATCH| && r[|r| - |PREDICT_BATCH|..] == PREDICT_BATCH
    ensures path != [] && path[|path| - 1] == '/' ==> r[..|r| - |PREDICT_BATCH|] + "/" == path
    ensures !(path != [] && path[|path| - 1] == '/') ==> r[..|r| - |PREDICT_BATCH|] == path
  {
    var kept := if path != [] && path[|path| - 1] == '/' then path[..|path| - 1] else path;
    assert (kept + PREDICT_BATCH)[..|kept|] == kept;
    kept + PREDICT_BATCH
  }

  /** The rewrite inside `getApiBase`, on an already trimmed value: left as it
      is when it does not parse or its path already names the endpoint,
      otherwise origin plus rewritten path (which drops the query, the
      fragment and any credentials). */
  function Normalize(v: string, parse: string -> Option<Url>): (r: string)
    ensures parse(v).None? ==> r == v
    ensures parse(v).Some? && EndsInPredictBatch(parse(v).value.pathname) ==> r == v
    ensures parse(v).Some? && !EndsInPredictBatch(parse(v).value.pathname) ==>
      r == parse(v).value.origin + RewritePath(parse(v).value.pathname)
      && EndsInPredictBatch(r)
  {
    match parse(v)
    case None => v
    case Some(u) =>
      if EndsInPredictBatch(u.pathname) then v
      else
        var path := RewritePath(u.pathname);
        u.origin + path
  }

  /** `res.apiBase || DEFAULT_API`: an unset or empty preference means the
      default. */
  function Preference(stored: Option<string>): (r: string)
    ensures r != []
    ensures stored.Some? && stored.value != [] ==> r == stored.value
    ensures stored.None? || stored == Some([]) ==> r == DEFAULT_API
  {
    match stored
    case Some(s) => if s != [] then s else DEFAULT_API
    case None => DEFAULT_API
  }

  /** `getApiBase`: the trimmed preference, normalised. */
  function ApiBase(stored: Option<string>, parse: string -> Option<Url>): string
  {
    Normalize(Trim(Preference(stored)), parse)
  }

  /** The stored value is only ever trimmed unless it parses as a URL whose
      path lacks the endpoint. */
  lemma UnparseableIsOnlyTrimmed(stored: Option<string>, parse: string -> Option<Url>)
    requires parse(Trim(Preference(stored))).None?
    ensures ApiBase(stored, parse) == Trim(Preference(stored))
    ensures Trimmed(ApiBase(stored, parse))
  {
    TrimSound(Preference(stored));
  }

  /** With nothing stored, the default is used; a parser that reads the
      default as origin `http://127.0.0.1:5000` and path `/predict_batch`
      leaves it unchanged. */
  lemma UnsetUsesDefault(parse: string -> Option<Url>)
    requires parse(DEFAULT_API) == Some(Url("http://127.0.0.1:5000", PREDICT_BATCH))
    ensures ApiBase(None, parse) == DEFAULT_API
    ensures ApiBase(Some(""), parse) == DEFAULT_API
  {
    TrimFixesTrimmed(DEFAULT_API);
    assert EndsWith(PREDICT_BATCH, PREDICT_BATCH);
  }

  /** A path without the endpoint gets it: `https://h/api/` becomes
      `https://h/api/predict_batch`, and an origin's bare `/` path becomes
      `/predict_batch`. */
  lemma RewriteExamples()
    ensures RewritePath("/api/") == "/api/predict_batch"
    ensures RewritePath("/") == PREDICT_BATCH
  {
    assert "/api/"[4] == '/' && "/api/"[..4] == "/api";
    assert "/api" + PREDICT_BATCH == "/api/predict_batch";
    assert "/"[0] == '/' && "/"[..0] == [];
    assert [] + PREDICT_BATCH == PREDICT_BATCH;
  }

  /** Normalising is idempotent, for any parser that reads back the origin
      and path of a value it produced (or rejects it). */
  lemma NormalizeIdempotent(v: string, parse: string -> Option<Url>)
    requires parse(v).Some? && !EndsInPredictBatch(parse(v).value.pathname) ==>
      var w := Normalize(v, parse);
      parse(w).None? || parse(w) == Some(Url(parse(v).value.origin, RewritePath(parse(v).value.pathname)))
    ensures Normalize(Normalize(v, parse), parse) == Normalize(v, parse)
  {
  }

  /** A preference of blanks is truthy, so it is not replaced by the default;
      it trims to the empty string, which no URL parser accepts, and the
      extension then calls the empty URL. */
  lemma BlankPreferenceGivesEmptyUrl(s: string, parse: string -> Option<Url>)
    requires s != [] && Blank(s) && parse([]).None?
    ensures ApiBase(Some(s), parse) == []
  {
    TrimSound(s);
  }

  /** The request `callApi` hands to the background page. */
  datatype ApiRequest = ApiRequest(apiUrl: string, texts: seq<string>)

  /** `texts.slice(0, 250)`. */
  function Batch(texts: seq<string>): (r: seq<string>)
    ensures |r| == if |texts| <= MAX_BATCH then |texts| else MAX_BATCH
    ensures r == texts[..|r|]
  {
    if |texts| <= MAX_BATCH then texts else texts[..MAX_BATCH]
  }

  /** The background page's answer: nothing at all (`undefined`), or an object
      with `ok`, `error` (empty when absent) and `results` (absent, or one
      string per label, where the empty string stands for a missing or falsy
      entry). */
  datatype Reply = NoReply | Reply(ok: bool, error: string, results: Option<seq<string>>)

  /** What `callApi` does with the reply: the results when it exists and `ok`
      is true, otherwise a thrown error carrying `error`, or
      "Unknown error" when there is none. */
  function ReadReply(reply: Reply): (r: Result<Option<seq<string>>, string>)
    ensures r.Ok? <==> reply.Reply? && reply.ok
    ensures r.Ok? ==> r.value == reply.results
    ensures r.Err? ==> r.error != []
    ensures r.Err? && reply.Reply? && reply.error != [] ==> r.error == reply.error
    ensures r.Err? && (reply.NoReply? || reply.error == []) ==> r.error == UNKNOWN_ERROR
  {
    if reply.NoReply? || !reply.ok then
      Err(if reply.Reply? && reply.error != [] then reply.error else UNKNOWN_ERROR)
    else
      Ok(reply.results)
  }

  /** `callApi(apiUrl, texts)` against a backend that answers each request. */
  function CallApi(apiUrl: string, texts: seq<string>, backend: ApiRequest -> Reply): Result<Option<seq<string>>, string>
  {
    ReadReply(backend(ApiRequest(apiUrl, Batch(texts))))
  }

  /** Exactly the first min(n, 250) labels are sent: fewer than 250 go
      unchanged, more are cut to 250, the rest dropped. */
  lemma BatchCapsAt250(texts: seq<string>)
    ensures |texts| <= 250 ==> Batch(texts) == texts
    ensures |texts| > 250 ==> |Batch(texts)| == 250 && Batch(texts) + texts[250..] == texts
  {
    if |texts| > 250 {
      assert texts[..250] + texts[250..] == texts;
    }
  }
}

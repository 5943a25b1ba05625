/**
 * The research service's article search, without its network round trip: the API-key guard,
 * the classification of the upstream response, the extraction of the JSON array from the
 * model's text, and the per-article normalisation. The response, the JSON parser and the
 * clock are parameters.
 */
module ResearchService {
  import opened Wrappers
  import opened JsValue
  import Decimal

  // ---------------------------------------------------------------------------
  // Errors
  // ---------------------------------------------------------------------------

  /** Every error `searchArticles` can throw, in the order its checks run. */
  datatype Error =
    | MissingApiKey                                 // no key, or an empty one, in storage
    | InvalidApiKey                                 // upstream answered 401
    | RequestFailed(status: nat, statusText: string) // any other non-OK status
    | NoContent                                     // the message content is missing or falsy
    | ContentNotText                                // TypeError: `content.match` is not a function
    | NoJsonArray                                   // no `[ ... ]` span in the content
    | InvalidJson                                   // SyntaxError from `JSON.parse`
    | NotAnArray                                    // TypeError: `articles.map` is not a function
    | NullArticle(index: nat)                       // TypeError: property read on null/undefined

  /**
   * The `message` of each error; the engine's own errors are named by their class. Every
   * message is non-empty, and a failed request's message starts with its fixed prefix.
   */
  function Message(e: Error): (r: string)
    ensures r != ""
    ensures e.RequestFailed? ==> |r| > 20 && r[..20] == "API request failed: "
  {
    match e
    case MissingApiKey => "OpenAI API key not found. Please configure your API key."
    case InvalidApiKey => "Invalid API key. Please check your OpenAI API key."
    case RequestFailed(status, statusText) =>
      "API request failed: " + Decimal.NatToString(status) + " " + statusText
    case NoContent => "No response content received from OpenAI API"
    case ContentNotText => "TypeError"
    case NoJsonArray => "Could not parse JSON response from API"
    case InvalidJson => "SyntaxError"
    case NotAnArray => "TypeError"
    case NullArticle(_) => "TypeError"
  }

  /** The message of a failed request determines its status and status text. */
  lemma RequestFailedMessageCarriesStatus(s1: nat, t1: string, s2: nat, t2: string)
    requires Message(RequestFailed(s1, t1)) == Message(RequestFailed(s2, t2))
    ensures s1 == s2 && t1 == t2
  {
    var prefix := "API request failed: ";
    var m1 := Decimal.NatToString(s1) + [' '] + t1;
    var m2 := Decimal.NatToString(s2) + [' '] + t2;
    assert Message(RequestFailed(s1, t1)) == prefix + m1;
    assert Message(RequestFailed(s2, t2)) == prefix + m2;
    assert m1 == (prefix + m1)[|prefix|..] == (prefix + m2)[|prefix|..] == m2;
    Decimal.SplitAtSeparator(s1, s2, ' ', t1, t2);
  }

  // ---------------------------------------------------------------------------
  // The key guard and the response checks
  // ---------------------------------------------------------------------------

  /** `getApiKey` over the stored key (`None` when storage has none). */
  function GetApiKey(stored: Option<string>): (r: Result<string, Error>)
    ensures r.Success? <==> stored.Some? && stored.value != ""
    ensures r.Success? ==> r.value == stored.value
    ensures r.Failure? ==> r.error == MissingApiKey
  {
    if stored.None? || stored.value == "" then Failure(MissingApiKey) else Success(stored.value)
  }

  /**
   * What the request returned, as far as the service looks at it: the HTTP status, its text,
   * and `data.choices[0]?.message?.content` (`Undefined` when any step of that walk is missing).
   */
  datatype Response = Response(status: nat, statusText: string, content: Value) {
    /** `response.ok`: the status is in the 2xx range, so a 401 is never OK. */
    predicate Ok()
      ensures Ok() <==> 200 <= status < 300
      ensures status == 401 ==> !Ok()
    {
      200 <= status <= 299
    }
  }

  /**
   * The status and content checks, ending at the point where `content.match` runs: a non-OK
   * status fails (401 with its own error), then falsy content, then content that is not text.
   */
  function CheckResponse(response: Response): (r: Result<string, Error>)
    ensures !response.Ok() && response.status == 401 ==> r == Failure(InvalidApiKey)
    ensures !response.Ok() && response.status != 401 ==>
      r == Failure(RequestFailed(response.status, response.statusText))
    ensures response.Ok() && !Truthy(response.content) ==> r == Failure(NoContent)
    ensures response.Ok() && Truthy(response.content) && !response.content.Str? ==>
      r == Failure(ContentNotText)
    ensures r.Success? <==> response.Ok() && response.content.Str? && response.content.s != ""
    ensures r.Success? ==> r.value == response.content.s
  {
    if !response.Ok() then
      if response.status == 401 then Failure(InvalidApiKey)
      else Failure(RequestFailed(response.status, response.statusText))
    else if !Truthy(response.content) then Failure(NoContent)
    else if !response.content.Str? then Failure(ContentNotText)
    else Success(response.content.s)
  }

  // ---------------------------------------------------------------------------
  // Extracting the JSON array: content.match(/\[[\s\S]*\]/)
  // ---------------------------------------------------------------------------

  function FirstIndexOf(s: string, c: char): (r: Option<nat>)
    ensures r.Some? ==> r.value < |s| && s[r.value] == c
    ensures r.Some? ==> forall k :: 0 <= k < r.value ==> s[k] != c
    ensures r.None? ==> forall k :: 0 <= k < |s| ==> s[k] != c
    decreases |s|
  {
    if s == [] then None
    else if s[0] == c then Some(0)
    else match FirstIndexOf(s[1..], c)
      case None => None
      case Some(i) => Some(i + 1)
  }

  function LastIndexOf(s: string, c: char): (r: Option<nat>)
    ensures r.Some? ==> r.value < |s| && s[r.value] == c
    ensures r.Some? ==> forall k :: r.value < k < |s| ==> s[k] != c
    ensures r.None? ==> forall k :: 0 <= k < |s| ==> s[k] != c
    decreases |s|
  {
    if s == [] then None
    else if s[|s| - 1] == c then Some(|s| - 1)
    else LastIndexOf(s[..|s| - 1], c)
  }

  /** Positions `i < j` holding `[` and `]`: the ends of a span the pattern can match. */
  ghost predicate Bracketed(s: string, i: int, j: int) {
    0 <= i < j < |s| && s[i] == '[' && s[j] == ']'
  }

  /**
   * The matched text: the pattern's leftmost match starts at the first `[` and, `[\s\S]*`
   * being greedy, ends at the last `]`; there is none when no `]` follows the first `[`.
   */
  function ExtractJsonArray(content: string): (r: Option<string>)
    ensures r.Some? ==> |r.value| >= 2 && r.value[0] == '[' && r.value[|r.value| - 1] == ']'
  {
    match FirstIndexOf(content, '[')
    case None => None
    case Some(i) =>
      match LastIndexOf(content, ']')
      case None => None
      case Some(j) => if i < j then Some(content[i..j + 1]) else None
  }

  /**
   * Extraction agrees with the regular expression's match: it succeeds exactly when some `[`
   * has a `]` after it, and then returns the substring between the leftmost such `[` and the
   * rightmost such `]`, the ends included.
   */
  lemma ExtractionIsLeftmostLongest(content: string)
    ensures ExtractJsonArray(content).Some? <==> exists i, j :: Bracketed(content, i, j)
    ensures ExtractJsonArray(content).Some? ==>
      exists i, j :: Bracketed(content, i, j) && ExtractJsonArray(content).value == content[i..j + 1]
        && forall i', j' :: Bracketed(content, i', j') ==> i <= i' && j' <= j
  {
    var first, last := FirstIndexOf(content, '['), LastIndexOf(content, ']');
    if ExtractJsonArray(content).Some? {
      assert Bracketed(content, first.value, last.value);
    }
    if exists i, j :: Bracketed(content, i, j) {
      var i, j :| Bracketed(content, i, j);
      assert first.Some? && first.value <= i;
      assert last.Some? && j <= last.value;
      assert Bracketed(content, first.value, last.value);
      forall i', j' | Bracketed(content, i', j')
        ensures first.value <= i' && j' <= last.value
      {
      }
    }
  }

  // ---------------------------------------------------------------------------
  // Normalising the articles
  // ---------------------------------------------------------------------------

  /**
   * One element of the returned `Article[]`. Each field holds whatever the expression for it
   * produced: a raw value passed through when it is truthy (or an array), a default otherwise.
   */
  datatype Article = Article(
    id: Value,
    title: Value,
    authors: Value,
    journal: Value,
    year: Value,
    summary: Value,
    keyFindings: Value,
    relevanceScore: Value,
    doi: Value)

  /** `` `article-${Date.now()}-${index}` `` */
  function SynthesisedId(nowMs: nat, index: nat): (r: string)
    ensures |r| >= 11 && r[..8] == "article-"
  {
    "article-" + Decimal.NatToString(nowMs) + "-" + Decimal.NatToString(index)
  }

  /** A synthesised id determines the clock reading and the index it was built from. */
  lemma SynthesisedIdInjective(now1: nat, i1: nat, now2: nat, i2: nat)
    requires SynthesisedId(now1, i1) == SynthesisedId(now2, i2)
    ensures now1 == now2 && i1 == i2
  {
    var prefix := "article-";
    var rest1 := Decimal.NatToString(now1) + ['-'] + Decimal.NatToString(i1);
    var rest2 := Decimal.NatToString(now2) + ['-'] + Decimal.NatToString(i2);
    assert SynthesisedId(now1, i1) == prefix + rest1;
    assert SynthesisedId(now2, i2) == prefix + rest2;
    assert rest1 == (prefix + rest1)[|prefix|..] == (prefix + rest2)[|prefix|..] == rest2;
    Decimal.SplitAtSeparator(now1, now2, '-', Decimal.NatToString(i1), Decimal.NatToString(i2));
    Decimal.NatToStringInjective(i1, i2);
  }

  /** `out` is `raw` when `raw` is truthy, and `default` otherwise (`raw || default`). */
  predicate Defaulted(raw: Value, out: Value, default: Value) {
    (Truthy(raw) ==> out == raw) && (!Truthy(raw) ==> out == default)
  }

  /** `out` is `raw` when `raw` is an array, and `default` otherwise. */
  predicate ArrayOrDefault(raw: Value, out: Value, default: Value) {
    (raw.Array? ==> out == raw) && (!raw.Array? ==> out == default)
  }

  /**
   * The callback of `articles.map` for element `article` at `index`, with `nowMs` the value
   * `Date.now()` returns and `currentYear` the value `new Date().getFullYear()` returns while
   * this element is mapped. A `null` or `undefined` element fails at the first property read.
   */
  function NormalizeArticle(article: Value, index: nat, nowMs: nat, currentYear: int): (r: Result<Article, Error>)
    ensures r.Failure? <==> Nullish(article)
    ensures r.Failure? ==> r.error == NullArticle(index)
    ensures r.Success? ==>
      && Defaulted(Get(article, "id"), r.value.id, Str(SynthesisedId(nowMs, index)))
      && Defaulted(Get(article, "title"), r.value.title, Str("Untitled Article"))
      && ArrayOrDefault(Get(article, "authors"), r.value.authors, Array([Str("Unknown Author")]))
      && Defaulted(Get(article, "journal"), r.value.journal, Str("Unknown Journal"))
      && Defaulted(Get(article, "year"), r.value.year, Number(currentYear as real))
      && Defaulted(Get(article, "summary"), r.value.summary, Str("No summary available"))
      && ArrayOrDefault(Get(article, "keyFindings"), r.value.keyFindings, Array([]))
      && Defaulted(Get(article, "relevanceScore"), r.value.relevanceScore, Number(0.5))
      && Defaulted(Get(article, "doi"), r.value.doi, Undefined)
  {
    if Nullish(article) then Failure(NullArticle(index))
    else
      Success(Article(
        id := Or(Get(article, "id"), Str(SynthesisedId(nowMs, index))),
        title := Or(Get(article, "title"), Str("Untitled Article")),
        authors := if Get(article, "authors").Array? then Get(article, "authors")
                   else Array([Str("Unknown Author")]),
        journal := Or(Get(article, "journal"), Str("Unknown Journal")),
        year := Or(Get(article, "year"), Number(currentYear as real)),
        summary := Or(Get(article, "summary"), Str("No summary available")),
        keyFindings := if Get(article, "keyFindings").Array? then Get(article, "keyFindings")
                       else Array([]),
        relevanceScore := Or(Get(article, "relevanceScore"), Number(0.5)),
        doi := Or(Get(article, "doi"), Undefined)))
  }

  /**
   * No field of a normalised article is missing: every required field is truthy, the two
   * list fields are arrays, and `doi` is either absent or truthy.
   */
  ghost predicate Populated(a: Article) {
    && Truthy(a.id) && Truthy(a.title) && a.authors.Array? && Truthy(a.journal)
    && Truthy(a.year) && Truthy(a.summary) && a.keyFindings.Array?
    && Truthy(a.relevanceScore) && (a.doi.Undefined? || Truthy(a.doi))
  }

  /** Normalisation fills every field (given a current year that is not 0). */
  lemma NormalizedIsPopulated(article: Value, index: nat, nowMs: nat, currentYear: int)
    requires currentYear != 0
    ensures NormalizeArticle(article, index, nowMs, currentYear).Success? ==>
      Populated(NormalizeArticle(article, index, nowMs, currentYear).value)
  {
  }

  /** An article as an object with one property per field. */
  function ToValue(a: Article): Value {
    Object(map[
      "id" := a.id, "title" := a.title, "authors" := a.authors, "journal" := a.journal,
      "year" := a.year, "summary" := a.summary, "keyFindings" := a.keyFindings,
      "relevanceScore" := a.relevanceScore, "doi" := a.doi])
  }

  /**
   * Normalisation is a fixed point on populated articles: normalising one again, at any index
   * and any clock, gives it back unchanged. Together with NormalizedIsPopulated, normalising
   * twice is the same as normalising once.
   */
  lemma NormalizeIsIdempotent(a: Article, index: nat, nowMs: nat, currentYear: int)
    requires Populated(a)
    ensures NormalizeArticle(ToValue(a), index, nowMs, currentYear) == Success(a)
  {
  }

  /**
   * `articles.map(...)`: element `i` of the result is the callback applied to element `i` at
   * index `i`, with `clock(i)` and `yearAt(i)` the clock readings taken while it runs. The first
   * `null`/`undefined` element stops the map with its error.
   */
  function NormalizeAll(articles: seq<Value>, clock: nat -> nat, yearAt: nat -> int): (r: Result<seq<Article>, Error>)
    ensures r.Success? <==> forall i :: 0 <= i < |articles| ==> !Nullish(articles[i])
    ensures r.Success? ==> |r.value| == |articles|
    ensures r.Success? ==> forall i :: 0 <= i < |articles| ==>
      NormalizeArticle(articles[i], i, clock(i), yearAt(i)) == Success(r.value[i])
    ensures r.Failure? ==> r.error.NullArticle? && r.error.index < |articles|
    ensures r.Failure? ==> Nullish(articles[r.error.index])
    ensures r.Failure? ==> forall i :: 0 <= i < r.error.index ==> !Nullish(articles[i])
    decreases |articles|
  {
    if articles == [] then Success([])
    else
      var n := |articles| - 1;
      var init := articles[..n];
      assert forall i :: 0 <= i < n ==> init[i] == articles[i];
      match NormalizeAll(init, clock, yearAt)
      case Failure(e) => Failure(e)
      case Success(prefix) =>
        match NormalizeArticle(articles[n], n, clock(n), yearAt(n))
        case Failure(e) => Failure(e)
        case Success(a) =>
          assert forall i :: 0 <= i < n ==> (prefix + [a])[i] == prefix[i];
          Success(prefix + [a])
  }

  /**
   * Within one call, two elements that both lacked a truthy id receive different ids, whatever
   * the clock read while each was mapped.
   */
  lemma SynthesisedIdsDiffer(articles: seq<Value>, clock: nat -> nat, yearAt: nat -> int, i: nat, j: nat)
    requires NormalizeAll(articles, clock, yearAt).Success?
    requires i < j < |articles|
    requires !Truthy(Get(articles[i], "id")) && !Truthy(Get(articles[j], "id"))
    ensures NormalizeAll(articles, clock, yearAt).value[i].id != NormalizeAll(articles, clock, yearAt).value[j].id
  {
    var out := NormalizeAll(articles, clock, yearAt).value;
    assert out[i].id == Str(SynthesisedId(clock(i), i));
    assert out[j].id == Str(SynthesisedId(clock(j), j));
    if SynthesisedId(clock(i), i) == SynthesisedId(clock(j), j) {
      SynthesisedIdInjective(clock(i), i, clock(j), j);
    }
  }

  // ---------------------------------------------------------------------------
  // The whole search, after the request
  // ---------------------------------------------------------------------------

  /**
   * `searchArticles` with its I/O replaced by inputs: `apiKey` is what storage holds,
   * `response` what the request returned, `parse` what `JSON.parse` makes of a text (`None`
   * when it throws), and `clock`/`yearAt` the clock readings per element.
   */
  function SearchArticles(
    apiKey: Option<string>, response: Response, parse: string -> Option<Value>,
    clock: nat -> nat, yearAt: nat -> int): (r: Result<seq<Article>, Error>)
    // the key is checked before the request: without one, nothing else matters
    ensures (apiKey.None? || apiKey == Some("")) ==> r == Failure(MissingApiKey)
    ensures GetApiKey(apiKey).Success? && !response.Ok() && response.status == 401 ==>
      r == Failure(InvalidApiKey)
    ensures GetApiKey(apiKey).Success? && !response.Ok() && response.status != 401 ==>
      r == Failure(RequestFailed(response.status, response.statusText))
    ensures GetApiKey(apiKey).Success? && response.Ok() && !Truthy(response.content) ==>
      r == Failure(NoContent)
    ensures (GetApiKey(apiKey).Success? && response.Ok() && Truthy(response.content)
      && !response.content.Str?) ==> r == Failure(ContentNotText)
    // past the checks, the match and the parse decide
    ensures GetApiKey(apiKey).Success? && CheckResponse(response).Success? ==>
      var matched := ExtractJsonArray(response.content.s);
      && (matched.None? ==> r == Failure(NoJsonArray))
      && (matched.Some? && parse(matched.value).None? ==> r == Failure(InvalidJson))
      && (matched.Some? && parse(matched.value).Some? && !parse(matched.value).value.Array? ==>
            r == Failure(NotAnArray))
      && (matched.Some? && parse(matched.value).Some? && parse(matched.value).value.Array? ==>
            r == NormalizeAll(parse(matched.value).value.elems, clock, yearAt))
    ensures r.Success? ==>
      && GetApiKey(apiKey).Success? && response.Ok() && response.content.Str?
      && ExtractJsonArray(response.content.s).Some?
      && var parsed := parse(ExtractJsonArray(response.content.s).value);
      && parsed.Some? && parsed.value.Array?
      && |r.value| == |parsed.value.elems|
      && forall i :: 0 <= i < |r.value| ==>
        NormalizeArticle(parsed.value.elems[i], i, clock(i), yearAt(i)) == Success(r.value[i])
  {
    var _ :- GetApiKey(apiKey);
    var content :- CheckResponse(response);
    match ExtractJsonArray(content)
    case None => Failure(NoJsonArray)
    case Some(text) =>
      match parse(text)
      case None => Failure(InvalidJson)
      case Some(Array(articles)) => NormalizeAll(articles, clock, yearAt)
      // a text that starts with `[` and ends with `]` parses to an array or not at all, so a
      // real `JSON.parse` never leads here; the abstract `parse` may
      case Some(_) => Failure(NotAnArray)
  }
}

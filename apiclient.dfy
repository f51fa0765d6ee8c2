/**
 * vaultprivacy/api_client.py: choosing a service from a ToS;DR search
 * response (`_best_match`) and the cached rating lookup (`lookup_tosdr`).
 * The JSON the program reads is given here as typed values; the network, the
 * cache file and the pause between requests are state of a client object.
 */
module ApiClient {
  import opened Wrappers
  import opened Strings

  /** The `id` of a service: absent or null, a JSON number, or a JSON string. */
  datatype IdValue = NullId | IntId(n: int) | TextId(t: string)

  /**
   * One entry of `services`. `Object` is a non-empty JSON object: `name` is
   * None when the key is absent, `letter` is the `rating.letter` string and
   * None when `rating` is absent, is not an object or has no `letter`, and
   * `urls` is empty when the key is absent. `EmptyObject` is `{}`; `Other` is
   * any other JSON value, with Python's truth value.
   */
  datatype Service =
    | Object(name: Option<string>, letter: Option<string>, id: IdValue, urls: seq<string>)
    | EmptyObject
    | Other(truthy: bool)

  /** The `parameters` object of a search response; `services` is empty when absent. */
  datatype Parameters = Parameters(services: seq<Service>)

  /** A decoded search response; `parameters` is None when the key is absent (or the object is empty). */
  datatype SearchBody = SearchBody(parameters: Option<Parameters>)

  /**
   * What `requests.get` gives: `Failed` stands for a `RequestException`, a
   * status that is not ok, or a body that is not JSON.
   */
  datatype Response = Failed | Received(body: SearchBody)

  /** A rating record, the dict `{grade, service_id, name}`. */
  datatype Record = Record(grade: string, serviceId: IdValue, name: string)

  /** The exceptions that escape `lookup_tosdr`. */
  datatype LookupError =
    | NotAnObject        // `.get` on a truthy service that is not a dict: AttributeError
    | InvalidId(t: string) // `int(service_id)` on a string that is not an integer: ValueError

  /** The cache file `.cache_tosdr.json`: absent, unreadable or not JSON, or a saved map. */
  datatype CacheFile = Missing | Unreadable | Saved(entries: map<string, Record>)

  /** `_load_cache()`: the saved map, or an empty one when there is none or it cannot be read. */
  function Load(file: CacheFile): map<string, Record>
  {
    if file.Saved? then file.entries else map[]
  }

  /** The pause after every cache miss, `SLEEP_BETWEEN`, in milliseconds. */
  const SleepMillis: nat := 300

  /** The grades a record can carry after a lookup. */
  const Grades: seq<string> := ["A", "B", "C", "D", "E", "Unknown"]

  // ---------------------------------------------------------------------------
  // _best_match

  /** `any(domain in url for url in urls)`. */
  predicate AnyContains(urls: seq<string>, domain: string) {
    exists k :: 0 <= k < |urls| && Contains(urls[k], domain)
  }

  /** A service that the loop of `_best_match` returns: a dict one of whose URLs contains the domain. */
  predicate Matches(service: Service, domain: string) {
    service.Object? && AnyContains(service.urls, domain)
  }

  /** The index of the first matching service, from `from` on. */
  function FirstMatch(services: seq<Service>, domain: string, from: nat): (r: Option<nat>)
    requires from <= |services|
    ensures r.Some? ==> from <= r.value < |services| && Matches(services[r.value], domain)
    ensures r.Some? ==> forall k :: from <= k < r.value ==> !Matches(services[k], domain)
    ensures r.None? ==> forall k :: from <= k < |services| ==> !Matches(services[k], domain)
    decreases |services| - from
  {
    if from == |services| then None
    else if Matches(services[from], domain) then Some(from)
    else FirstMatch(services, domain, from + 1)
  }

  /** `_best_match(search_json, domain)`. */
  function BestMatch(body: SearchBody, domain: string): (r: Option<Service>)
  {
    match body.parameters
    case None => None
    case Some(p) =>
      if p.services == [] then None
      else match FirstMatch(p.services, domain, 0)
        case Some(k) => Some(p.services[k])
        case None => Some(p.services[0])
  }

  /** There is no match exactly when the response has no parameters or no services. */
  lemma BestMatchNone(body: SearchBody, domain: string)
    ensures BestMatch(body, domain).None? <==> body.parameters.None? || body.parameters.value.services == []
  {
  }

  /**
   * With services, the result is the first service that is a dict with a URL
   * containing the domain, or the first service when there is none; either
   * way it is one of the services.
   */
  lemma BestMatchChoice(body: SearchBody, domain: string)
    requires body.parameters.Some? && body.parameters.value.services != []
    ensures var services := body.parameters.value.services;
      && BestMatch(body, domain).Some?
      && BestMatch(body, domain).value in services
      && ((exists k :: 0 <= k < |services| && Matches(services[k], domain)) ==>
            exists k :: 0 <= k < |services| && BestMatch(body, domain).value == services[k]
                        && Matches(services[k], domain)
                        && forall m :: 0 <= m < k ==> !Matches(services[m], domain))
      && ((forall k :: 0 <= k < |services| ==> !Matches(services[k], domain)) ==>
            BestMatch(body, domain).value == services[0])
  {
  }

  // ---------------------------------------------------------------------------
  // The record a cache miss produces

  /** `grade if grade in list("ABCDE") else "Unknown"`, with an absent letter read as "Unknown". */
  function GradeOf(letter: Option<string>): (g: string)
    ensures g in Grades
    ensures letter.Some? && letter.value in ["A", "B", "C", "D", "E"] ==> g == letter.value
    ensures !(letter.Some? && letter.value in ["A", "B", "C", "D", "E"]) ==> g == "Unknown"
  {
    if letter.Some? && letter.value in ["A", "B", "C", "D", "E"] then letter.value else "Unknown"
  }

  /** Lines 75-77: a truthy id goes through `int(...)`; a falsy one (none, 0, "") is kept. */
  function ConvertId(id: IdValue): (r: Result<IdValue, LookupError>)
    ensures !id.TextId? ==> r == Ok(id)
    ensures id == TextId("") ==> r == Ok(id)
    ensures r.Ok? && id.TextId? && id.t != "" ==> r.value.IntId? && ParseInt(id.t) == Some(r.value.n)
    ensures r.Err? <==> id.TextId? && id.t != "" && ParseInt(id.t).None?
  {
    match id
    case NullId => Ok(id)
    case IntId(_) => Ok(id)
    case TextId(t) =>
      if t == "" then Ok(id)
      else match ParseInt(t)
        case Some(n) => Ok(IntId(n))
        case None => Err(InvalidId(t))
  }

  /** An id written as the decimal text of an integer becomes that integer. */
  lemma ConvertIdText(n: int)
    requires |NatText(AbsNat(n))| <= MaxStrDigits
    ensures ConvertId(TextId(IntText(n))) == Ok(IntId(n))
  {
    IntTextRoundTrip(n);
    assert IntText(n) != "" by {
      if n >= 0 {
        assert |NatText(n)| > 0;
      }
    }
  }

  /** An id string of more than `MaxStrDigits` digits makes `int(...)` raise. */
  lemma ConvertIdTooLong(t: string)
    requires |t| > MaxStrDigits && forall i :: 0 <= i < |t| ==> IsDigit(t[i])
    ensures ConvertId(TextId(t)) == Err(InvalidId(t))
  {
    ParseIntDigitLimit(t);
  }

  /** The record kept when the search fails or finds nothing. */
  function DefaultRecord(domain: string): Record {
    Record("Unknown", NullId, domain)
  }

  /** Lines 66-81, once `_best_match` has chosen the service `service`. */
  function ServiceRecord(service: Service, domain: string): (r: Result<Record, LookupError>)
  {
    match service
    case EmptyObject => Ok(DefaultRecord(domain))
    case Other(truthy) => if truthy then Err(NotAnObject) else Ok(DefaultRecord(domain))
    case Object(name, letter, id, _) =>
      match ConvertId(id)
      case Err(e) => Err(e)
      case Ok(serviceId) => Ok(Record(GradeOf(letter), serviceId, name.GetOr(domain)))
  }

  /** Lines 59-83: the record a cache miss produces, or the exception that escapes. */
  function FetchRecord(domain: string, response: Response): (r: Result<Record, LookupError>)
    ensures r.Ok? ==> r.value.grade in Grades
    ensures response.Failed? ==> r == Ok(DefaultRecord(domain))
    ensures response.Received? && BestMatch(response.body, domain).None? ==> r == Ok(DefaultRecord(domain))
    ensures (response.Received? && BestMatch(response.body, domain).Some?
             && BestMatch(response.body, domain).value in {EmptyObject, Other(false)}) ==> r == Ok(DefaultRecord(domain))
  {
    match response
    case Failed => Ok(DefaultRecord(domain))
    case Received(body) =>
      match BestMatch(body, domain)
      case None => Ok(DefaultRecord(domain))
      case Some(service) => ServiceRecord(service, domain)
  }

  /**
   * A lookup raises exactly when the chosen service is a truthy non-dict, or
   * a dict whose id is a non-empty string that is not an integer.
   */
  lemma FetchRecordError(domain: string, response: Response)
    ensures FetchRecord(domain, response).Err? <==>
      && response.Received?
      && BestMatch(response.body, domain).Some?
      && var s := BestMatch(response.body, domain).value;
         s == Other(true) || (s.Object? && s.id.TextId? && s.id.t != "" && ParseInt(s.id.t).None?)
  {
  }

  /**
   * A dict service gives its grade when the letter is one of A-E and
   * "Unknown" otherwise, its name or else the domain, and its id converted;
   * an id that does not convert raises instead (see `FetchRecordError`).
   */
  lemma FetchRecordFromObject(domain: string, response: Response)
    requires response.Received? && BestMatch(response.body, domain).Some?
    requires BestMatch(response.body, domain).value.Object?
    requires FetchRecord(domain, response).Ok?
    ensures var s := BestMatch(response.body, domain).value;
      && ConvertId(s.id).Ok?
      && var rec := FetchRecord(domain, response).value;
      && rec.serviceId == ConvertId(s.id).value
      && (s.name.None? ==> rec.name == domain)
      && (s.name.Some? ==> rec.name == s.name.value)
      && (s.letter.Some? && s.letter.value in ["A", "B", "C", "D", "E"] ==> rec.grade == s.letter.value)
      && (!(s.letter.Some? && s.letter.value in ["A", "B", "C", "D", "E"]) ==> rec.grade == "Unknown")
  {
  }

  // ---------------------------------------------------------------------------
  // lookup_tosdr

  /** Every record of a cache file carries one of the six grades. */
  predicate ValidFile(file: CacheFile) {
    forall d :: d in Load(file) ==> Load(file)[d].grade in Grades
  }

  /**
   * The effects of `lookup_tosdr`: the cache file, the domains sent to the
   * search endpoint, the number of times the cache was written and the time
   * spent in `time.sleep`.
   */
  class RatingClient {
    var file: CacheFile
    var queries: seq<string>
    var saves: nat
    var sleptMillis: nat

    constructor(initial: CacheFile)
      ensures file == initial && queries == [] && saves == 0 && sleptMillis == 0
    {
      file := initial;
      queries := [];
      saves := 0;
      sleptMillis := 0;
    }

    /** The cache as `_load_cache()` reads it now. */
    function Cache(): map<string, Record>
      reads this
    {
      Load(file)
    }

    /**
     * `lookup_tosdr(domain)`, with `response` what the search request gives.
     * A hit returns the cached record and changes nothing. A miss sends one
     * search; unless an exception escapes, it stores the record under the
     * domain, writes the whole cache once and sleeps once.
     */
    method Lookup(domain: string, response: Response) returns (r: Result<Record, LookupError>)
      modifies this
      ensures domain in old(Cache()) ==>
        r == Ok(old(Cache())[domain]) && file == old(file) && queries == old(queries)
        && saves == old(saves) && sleptMillis == old(sleptMillis)
      ensures domain !in old(Cache()) ==>
        r == FetchRecord(domain, response) && queries == old(queries) + [domain]
      ensures domain !in old(Cache()) && r.Ok? ==>
        file == Saved(old(Cache())[domain := r.value])
        && saves == old(saves) + 1 && sleptMillis == old(sleptMillis) + SleepMillis
      ensures domain !in old(Cache()) && r.Err? ==>
        file == old(file) && saves == old(saves) && sleptMillis == old(sleptMillis)
      ensures ValidFile(old(file)) ==> ValidFile(file) && (r.Ok? ==> r.value.grade in Grades)
      ensures r.Ok? ==> domain in Cache() && Cache()[domain] == r.value
      ensures r.Ok? ==> forall x :: x in Cache() <==> x in old(Cache()) || x == domain
      ensures r.Ok? ==> forall x :: x in old(Cache()) ==> Cache()[x] == old(Cache())[x]
    {
      var cache := Load(file);
      if domain in cache {
        return Ok(cache[domain]);
      }
      queries := queries + [domain];
      r := FetchRecord(domain, response);
      if r.Ok? {
        cache := cache[domain := r.value];
        file := Saved(cache);
        saves := saves + 1;
        sleptMillis := sleptMillis + SleepMillis;
      }
    }

    /**
     * Two lookups of one domain: once the first has produced a record, the
     * second returns the same record, whatever the network would say, and
     * sends no request.
     */
    method LookupTwice(domain: string, first: Response, second: Response)
      returns (r1: Result<Record, LookupError>, r2: Result<Record, LookupError>)
      modifies this
      ensures r1.Ok? ==> r2 == r1 && queries == old(queries) + (if domain in old(Cache()) then [] else [domain])
    {
      r1 := Lookup(domain, first);
      r2 := Lookup(domain, second);
    }
  }
}

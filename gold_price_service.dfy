/** The gram-gold price service: a single-entry cache, five minutes long,
    in front of the market-data endpoint. A read that misses fetches, keeps
    the SATIS (selling price) of the first GLDGR quote together with the time
    the call started, and answers `null` when the request or the body fails,
    leaving the cache as it was. A price the success log message cannot
    convert to text is stored, yet the call answers `null`. The clock and the
    result of the HTTP request are parameters. */
module GoldPriceService {
  import opened JsValues

  /** How long a cached price is served without refetching, in milliseconds. */
  const CacheDurationMs: int := 5 * 60 * 1000

  /** The symbol of gram gold in the feed. */
  const GramGoldSymbol: string := "GLDGR"

  /** The module-level cache: the last price fetched and when. */
  datatype CacheEntry = CacheEntry(price: JsValue, timestamp: int)

  /** The cache when the module is loaded. */
  const InitialEntry := CacheEntry(Null, 0)

  /** What the HTTP request gave: `fetch` rejected, or a response with its
      status code and its body as parsed by `response.json()` (None when
      that rejects, for a body that is not JSON). */
  datatype FetchOutcome =
    | FetchFailed
    | Response(status: int, json: Option<JsValue>)

  /** `response.ok`: a status in the 2xx range. */
  predicate IsOk(status: int) {
    200 <= status <= 299
  }

  /** A feed element is the gram-gold quote when `item.SEMBOL === "GLDGR"`. */
  predicate IsGold(item: JsValue) {
    Prop(item, "SEMBOL") == Str(GramGoldSymbol)
  }

  /** An element that `find` looks at and moves past: not nullish (the
      callback would throw on it) and not the gram-gold quote. */
  predicate Skipped(item: JsValue) {
    !IsNullish(item) && !IsGold(item)
  }

  /** The outcome of `data.find(item => item.SEMBOL === "GLDGR")`. */
  datatype Search = Found(item: JsValue) | NotFound | Threw

  /** `find` visits the elements in order and stops at the first one that
      matches; a nullish element reached before that makes the callback
      throw. */
  function FindGold(items: seq<JsValue>): (r: Search)
    ensures r.Found? ==> r.item in items && IsGold(r.item) && !IsNullish(r.item)
  {
    if items == [] then NotFound
    else if IsNullish(items[0]) then Threw
    else if IsGold(items[0]) then Found(items[0])
    else FindGold(items[1..])
  }

  /** FindGold finds nothing exactly when every element is passed over. */
  lemma {:induction false} FindGoldNotFound(items: seq<JsValue>)
    ensures FindGold(items) == NotFound <==> forall i :: 0 <= i < |items| ==> Skipped(items[i])
  {
    if items != [] && Skipped(items[0]) {
      FindGoldNotFound(items[1..]);
      assert forall j :: 1 <= j < |items| ==> items[j] == items[1..][j - 1];
    }
  }

  /** FindGold finds exactly the first GLDGR quote that no nullish element
      precedes. */
  lemma {:induction false} FindGoldFound(items: seq<JsValue>)
    ensures FindGold(items).Found? <==>
      exists i :: 0 <= i < |items| && IsGold(items[i]) && !IsNullish(items[i]) &&
        forall j :: 0 <= j < i ==> Skipped(items[j])
    ensures FindGold(items).Found? ==>
      exists i :: 0 <= i < |items| && items[i] == FindGold(items).item && IsGold(items[i]) &&
        !IsNullish(items[i]) && forall j :: 0 <= j < i ==> Skipped(items[j])
  {
    if items != [] && Skipped(items[0]) {
      FindGoldFound(items[1..]);
      assert forall j :: 1 <= j < |items| ==> items[j] == items[1..][j - 1];
    }
  }

  /** FindGold throws exactly when a nullish element comes before any
      GLDGR quote. */
  lemma {:induction false} FindGoldThrew(items: seq<JsValue>)
    ensures FindGold(items) == Threw <==>
      exists i :: 0 <= i < |items| && IsNullish(items[i]) &&
        forall j :: 0 <= j < i ==> Skipped(items[j])
  {
    if items != [] && Skipped(items[0]) {
      FindGoldThrew(items[1..]);
      assert forall j :: 1 <= j < |items| ==> items[j] == items[1..][j - 1];
    }
  }

  /** Each of the three outcomes of FindGold, characterised: nothing is
      found exactly when every element is passed over; the element found is
      the first GLDGR quote, with no nullish element before it; the callback
      throws exactly when a nullish element comes first. */
  lemma FindGoldOutcomes(items: seq<JsValue>)
    ensures FindGold(items) == NotFound <==> forall i :: 0 <= i < |items| ==> Skipped(items[i])
    ensures FindGold(items).Found? <==>
      exists i :: 0 <= i < |items| && IsGold(items[i]) && !IsNullish(items[i]) &&
        forall j :: 0 <= j < i ==> Skipped(items[j])
    ensures FindGold(items).Found? ==>
      exists i :: 0 <= i < |items| && items[i] == FindGold(items).item && IsGold(items[i]) &&
        !IsNullish(items[i]) && forall j :: 0 <= j < i ==> Skipped(items[j])
    ensures FindGold(items) == Threw <==>
      exists i :: 0 <= i < |items| && IsNullish(items[i]) &&
        forall j :: 0 <= j < i ==> Skipped(items[j])
  {
    FindGoldNotFound(items);
    FindGoldFound(items);
    FindGoldThrew(items);
  }

  /** Lines 31-38 on a parsed body: `result.data.find(...)` and then
      `gramGold.SATIS`. None when reading `data` throws (a nullish body),
      when `data` is not an array, when the callback throws on a nullish
      element, or when no element is the GLDGR quote. */
  function PriceFromBody(body: JsValue): (r: Option<JsValue>)
    ensures r.Some? ==>
      Prop(body, "data").Array? &&
      exists q :: q in Prop(body, "data").items && IsGold(q) && r.value == Prop(q, "SATIS")
  {
    if IsNullish(body) then None
    else match Prop(body, "data")
      case Array(items) =>
        (match FindGold(items)
         case Found(item) => Some(Prop(item, "SATIS"))
         case _ => None)
      case _ => None
  }

  /** Everything after the cache check: the price the request yields, or
      None when any step throws (a rejected fetch, a status that is not ok,
      a body that is not JSON, or a failure of PriceFromBody). */
  function FetchPrice(o: FetchOutcome): (r: Option<JsValue>)
    ensures r.Some? ==> o.Response? && IsOk(o.status) && o.json.Some? && r == PriceFromBody(o.json.value)
  {
    match o
    case FetchFailed => None
    case Response(status, json) =>
      if !IsOk(status) then None
      else match json
        case None => None
        case Some(body) => PriceFromBody(body)
  }

  /** `${newPrice}` in the log message at line 44 throws a TypeError: an
      object converts to text through its `toString`, and an own "toString"
      key from JSON is never callable (nor is an own "valueOf", and the
      inherited one gives back the object), so the conversion fails; an
      array converts through `join`, which converts each element that is
      not nullish; every other value converts without throwing. */
  predicate LogConversionThrows(v: JsValue) {
    match v
    case Object(fields) => "toString" in fields
    case Array(items) => exists i :: 0 <= i < |items| && LogConversionThrows(items[i])
    case _ => false
  }

  /** The cached price is served when it is not `null` and strictly younger
      than the cache duration. */
  predicate IsFresh(e: CacheEntry, now: int) {
    e.price != Null && now - e.timestamp < CacheDurationMs
  }

  /** One call: the value returned, the cache afterwards, and whether the
      endpoint was asked. */
  datatype Served = Served(value: JsValue, entry: CacheEntry, fetched: bool)

  /** The specification of one call of `getGoldPrice` at time `now`. */
  function Serve(e: CacheEntry, now: int, o: FetchOutcome): (r: Served)
    ensures r.fetched <==> !IsFresh(e, now)
    ensures !r.fetched ==> r.value == e.price && r.entry == e
    ensures r.entry != e ==> r.fetched && FetchPrice(o) == Some(r.entry.price) && r.entry.timestamp == now
    ensures r.fetched && FetchPrice(o).Some? ==> r.entry == CacheEntry(FetchPrice(o).value, now)
    ensures r.value != Null && r.fetched ==> FetchPrice(o) == Some(r.value) && !LogConversionThrows(r.value)
    ensures r.fetched && FetchPrice(o).None? ==> r.value == Null && r.entry == e
  {
    if IsFresh(e, now) then Served(e.price, e, false)
    else match FetchPrice(o)
      case Some(p) =>
        if LogConversionThrows(p) then Served(Null, CacheEntry(p, now), true)
        else Served(p, CacheEntry(p, now), true)
      case None => Served(Null, e, true)
  }

  /** The service's module state, `cachedGoldPrice`, and its one operation. */
  class GoldPriceCache {
    var price: JsValue
    var timestamp: int

    function Entry(): CacheEntry
      reads this
    {
      CacheEntry(price, timestamp)
    }

    constructor ()
      ensures Entry() == InitialEntry
    {
      price := Null;
      timestamp := 0;
    }

    /** `getGoldPrice()`, called at time `now` (Date.now() at entry); the
        request it makes, if it makes one, has outcome `o`. `fetched` tells
        whether the request was made at all. */
    method GetGoldPrice(now: int, o: FetchOutcome) returns (r: JsValue, fetched: bool)
      modifies this
      ensures Served(r, Entry(), fetched) == Serve(old(Entry()), now, o)
    {
      if IsFresh(Entry(), now) {
        return price, false;
      }
      fetched := true;
      r := Null;
      if o.FetchFailed? || !IsOk(o.status) || o.json.None? || IsNullish(o.json.value) {
        return;
      }
      var data := Prop(o.json.value, "data");
      if !data.Array? {
        return;
      }
      var gramGold := FindGold(data.items);
      if !gramGold.Found? {
        return;
      }
      var newPrice := Prop(gramGold.item, "SATIS");
      price, timestamp := newPrice, now;
      if LogConversionThrows(newPrice) {
        return;
      }
      r := newPrice;
    }
  }

  // ---------------------------------------------------------------------
  // Properties of one call

  /** A hit serves the cached price, asks nothing, and keeps the cache. */
  lemma CacheHit(e: CacheEntry, now: int, o: FetchOutcome)
    requires IsFresh(e, now)
    ensures Serve(e, now, o) == Served(e.price, e, false)
  {
  }

  /** Freshness is strict: at the cache duration or later, the call fetches. */
  lemma StaleEntryIsRefetched(e: CacheEntry, now: int, o: FetchOutcome)
    requires now - e.timestamp >= CacheDurationMs
    ensures Serve(e, now, o).fetched
  {
  }

  /** A `null` price is never served from the cache, whatever its age; in
      particular the first call after loading always fetches. */
  lemma NullIsNeverServedFromCache(e: CacheEntry, now: int, o: FetchOutcome)
    requires e.price == Null
    ensures Serve(e, now, o).fetched
    ensures Serve(InitialEntry, now, o).fetched
  {
  }

  /** A failed request answers `null` and leaves the cache as it was, so an
      expired price is not served in its place. */
  lemma FailureKeepsCache(e: CacheEntry, now: int, o: FetchOutcome)
    requires !IsFresh(e, now) && FetchPrice(o) == None
    ensures Serve(e, now, o) == Served(Null, e, true)
  {
  }

  /** The request fails when fetch rejects, when the status is not ok
      (whatever the body), and when the body is not JSON. */
  lemma RequestFailures(o: FetchOutcome)
    ensures o.FetchFailed? ==> FetchPrice(o) == None
    ensures o.Response? && !IsOk(o.status) ==> FetchPrice(o) == None
    ensures o.Response? && o.json.None? ==> FetchPrice(o) == None
    ensures o.Response? && IsOk(o.status) && o.json.Some? ==> FetchPrice(o) == PriceFromBody(o.json.value)
  {
  }

  /** A parsed body yields no price when it has no `data` array, when no
      element is the GLDGR quote, or when a nullish element comes before the
      first GLDGR quote (the callback throws on it). */
  lemma {:induction false} BodyFailures(body: JsValue)
    ensures !Prop(body, "data").Array? ==> PriceFromBody(body) == None
    ensures Prop(body, "data").Array? &&
      (forall i :: 0 <= i < |Prop(body, "data").items| ==> !IsGold(Prop(body, "data").items[i]))
      ==> PriceFromBody(body) == None
    ensures Prop(body, "data").Array? &&
      (exists i :: 0 <= i < |Prop(body, "data").items| && IsNullish(Prop(body, "data").items[i]) &&
        forall j :: 0 <= j < i ==> Skipped(Prop(body, "data").items[j]))
      ==> PriceFromBody(body) == None
  {
    if Prop(body, "data").Array? {
      FindGoldOutcomes(Prop(body, "data").items);
    }
  }

  /** With a `data` array whose element `i` is the first GLDGR quote and is
      preceded by no nullish element, the price is that element's SATIS. */
  lemma {:induction false} PriceIsFirstQuote(body: JsValue, i: nat)
    requires Prop(body, "data").Array?
    requires i < |Prop(body, "data").items| && IsGold(Prop(body, "data").items[i])
    requires forall j :: 0 <= j < i ==> Skipped(Prop(body, "data").items[j])
    ensures PriceFromBody(body) == Some(Prop(Prop(body, "data").items[i], "SATIS"))
  {
    var items := Prop(body, "data").items;
    var r := FindGold(items);
    FindGoldOutcomes(items);
    assert r.Found? by {
      assert !IsNullish(items[i]);
    }
    var k :| 0 <= k < |items| && items[k] == r.item && IsGold(r.item) && !IsNullish(r.item) &&
      forall j :: 0 <= j < k ==> Skipped(items[j]);
    assert !Skipped(items[i]) && !Skipped(items[k]);
    assert k == i;
  }

  /** A successful request stores exactly its price with the time the call
      started, and returns that price, unless the log message cannot
      convert it to text: the catch then answers `null`. */
  lemma SuccessStoresPrice(e: CacheEntry, now: int, o: FetchOutcome)
    requires !IsFresh(e, now) && FetchPrice(o).Some?
    ensures var p := FetchPrice(o).value;
      Serve(e, now, o) == Served(if LogConversionThrows(p) then Null else p, CacheEntry(p, now), true)
  {
  }

  /** A price the log message cannot convert (a SATIS object with its own
      "toString") is stored before the conversion throws: the call answers
      `null`, yet the calls of the next five minutes serve that price from
      the cache without a request. */
  lemma UnloggablePriceIsCachedNotReturned(e: CacheEntry, t: int, o: FetchOutcome, t': int, o': FetchOutcome)
    requires !IsFresh(e, t) && FetchPrice(o) == Some(Object(map["toString" := Number(1.0)]))
    requires t' < t + CacheDurationMs
    ensures var p := Object(map["toString" := Number(1.0)]);
      Serve(e, t, o) == Served(Null, CacheEntry(p, t), true) &&
      Serve(Serve(e, t, o).entry, t', o') == Served(p, CacheEntry(p, t), false)
  {
    assert LogConversionThrows(Object(map["toString" := Number(1.0)]));
  }

  /** After a successful call at `t` that stored a non-null price, every
      call before `t + CacheDurationMs` returns that price without asking
      the endpoint, whatever the endpoint would say. */
  lemma PriceReusedWithinWindow(e: CacheEntry, t: int, o: FetchOutcome, t': int, o': FetchOutcome)
    requires !IsFresh(e, t) && FetchPrice(o).Some? && FetchPrice(o).value != Null
    requires t' < t + CacheDurationMs
    ensures var s := Serve(e, t, o);
      s.entry.price == FetchPrice(o).value &&
      Serve(s.entry, t', o') == Served(s.entry.price, s.entry, false)
  {
  }

  /** A quote whose SATIS is absent stores `undefined`; since `undefined !==
      null`, that value is then served from the cache until it expires. */
  lemma AbsentSatisIsCached(e: CacheEntry, t: int, o: FetchOutcome, t': int, o': FetchOutcome)
    requires !IsFresh(e, t) && FetchPrice(o) == Some(Undefined)
    ensures Serve(e, t, o) == Served(Undefined, CacheEntry(Undefined, t), true)
    ensures t' < t + CacheDurationMs ==> Serve(Serve(e, t, o).entry, t', o') == Served(Undefined, CacheEntry(Undefined, t), false)
  {
  }

  /** A quote whose SATIS is `null` stores `null` and answers it, and the
      next call fetches again however soon it comes. */
  lemma NullSatisIsRefetched(e: CacheEntry, t: int, o: FetchOutcome, t': int, o': FetchOutcome)
    requires !IsFresh(e, t) && FetchPrice(o) == Some(Null)
    ensures Serve(e, t, o) == Served(Null, CacheEntry(Null, t), true)
    ensures Serve(Serve(e, t, o).entry, t', o').fetched
  {
  }

  // ---------------------------------------------------------------------
  // Properties of a run of calls from the initial cache

  /** One call of a run: the clock at entry and the outcome of its request. */
  datatype Call = Call(now: int, outcome: FetchOutcome)

  /** The cache after the calls of `calls`, made in order from loading. */
  function EntryAfter(calls: seq<Call>): CacheEntry
    decreases |calls|
  {
    if calls == [] then InitialEntry
    else
      var last := calls[|calls| - 1];
      Serve(EntryAfter(calls[..|calls| - 1]), last.now, last.outcome).entry
  }

  /** Call `k` of the run, served from the cache the earlier calls left. */
  function ServedAt(calls: seq<Call>, k: nat): Served
    requires k < |calls|
  {
    Serve(EntryAfter(calls[..k]), calls[k].now, calls[k].outcome)
  }

  /** Call `j` fetched successfully and obtained price `p`. */
  predicate FetchedPrice(calls: seq<Call>, j: nat, p: JsValue)
    requires j < |calls|
  {
    ServedAt(calls, j).fetched && FetchPrice(calls[j].outcome) == Some(p)
  }

  /** What one call can do to the cache and what it can return: the cache
      stays, or it becomes the price the request yielded with the call's
      clock; a non-null value returned is the fresh cached price or the
      price the request yielded. */
  lemma ServeOutcomes(e: CacheEntry, now: int, o: FetchOutcome)
    ensures var s := Serve(e, now, o);
      s.entry == e || (s.fetched && FetchPrice(o) == Some(s.entry.price) && s.entry.timestamp == now)
    ensures var s := Serve(e, now, o);
      s.value != Null ==>
        (!s.fetched && s.value == e.price && now - e.timestamp < CacheDurationMs) ||
        (s.fetched && FetchPrice(o) == Some(s.value))
  {
  }

  /** A non-null cached price was stored by an earlier successful fetch,
      with that call's clock as its timestamp. */
  lemma {:induction false} CachedPriceProvenance(calls: seq<Call>)
    requires EntryAfter(calls).price != Null
    ensures exists j :: (0 <= j < |calls| && FetchedPrice(calls, j, EntryAfter(calls).price) &&
                         EntryAfter(calls).timestamp == calls[j].now)
    decreases |calls|
  {
    var n := |calls| - 1;
    var prefix := calls[..n];
    var before := EntryAfter(prefix);
    var after := EntryAfter(calls);
    ServeOutcomes(before, calls[n].now, calls[n].outcome);
    assert after == ServedAt(calls, n).entry;
    if after != before {
      assert FetchedPrice(calls, n, after.price);
    } else {
      CachedPriceProvenance(prefix);
      var j :| 0 <= j < |prefix| && FetchedPrice(prefix, j, before.price) &&
        before.timestamp == prefix[j].now;
      assert calls[..j] == prefix[..j];
      assert FetchedPrice(calls, j, after.price);
    }
  }

  /** Bounded staleness: every non-null price a call returns was fetched by
      that call or by an earlier one whose clock reading is less than the
      cache duration before it. Nothing older, and nothing invented. */
  lemma {:induction false} BoundedStaleness(calls: seq<Call>, k: nat)
    requires k < |calls| && ServedAt(calls, k).value != Null
    ensures exists j :: (0 <= j <= k && FetchedPrice(calls, j, ServedAt(calls, k).value) &&
                         calls[k].now - calls[j].now < CacheDurationMs)
  {
    var s := ServedAt(calls, k);
    var prefix := calls[..k];
    var before := EntryAfter(prefix);
    ServeOutcomes(before, calls[k].now, calls[k].outcome);
    if s.fetched {
      assert FetchedPrice(calls, k, s.value);
    } else {
      CachedPriceProvenance(prefix);
      var j :| 0 <= j < |prefix| && FetchedPrice(prefix, j, before.price) &&
        before.timestamp == prefix[j].now;
      assert calls[..j] == prefix[..j];
      assert FetchedPrice(calls, j, s.value);
    }
  }
}

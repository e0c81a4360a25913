/**
 * The two routes of the service over its shared state: the lookup route
 * (src/app.js:15-52), which answers from the `responses` cache or computes and
 * memoises the answer, and the publish route (src/app.js:55-81), which appends
 * to the `urls` catalog and then empties the cache.
 */
module Service {
  import opened Wrappers
  import opened Versions
  import opened Catalog

  /** The HTTP answers of the two routes: 200 with a body, 400, 401 and 201. */
  datatype Response = Ok(entries: seq<PatchEntry>) | BadRequest | Unauthorized | Created

  /**
   * The JSON body of a publish request. A numeric field the body leaves out is
   * `None`; one it carries is taken as it is.
   */
  datatype PublishBody = PublishBody(authToken: Option<string>, url: string, os: string,
                                     major: Option<nat>, minor: Option<nat>, patch: Option<nat>,
                                     hash: string)

  /**
   * The destructuring of src/app.js:57-65 succeeds exactly when the body carries
   * `major` and `minor`. A missing one of those two falls back to a default
   * that reads the variable being declared, which throws. The default of
   * `patch` reads `minor` (src/app.js:63), which is already bound by then, so
   * a missing `patch` does not throw: it takes the value of `minor`.
   */
  predicate HasNumbers(body: PublishBody) {
    body.major.Some? && body.minor.Some?
  }

  /** The `patch` the route stores: the body's own, or else `parseInt(minor)`, which is `minor`. */
  function PatchOf(body: PublishBody): (p: nat)
    requires HasNumbers(body)
  {
    match body.patch
    case Some(p) => p
    case None => body.minor.value
  }

  /** The row inserted by src/app.js:69-71, stamped with the publish time `now`. */
  function RecordOf(body: PublishBody, now: int): (r: PatchRecord)
    requires HasNumbers(body)
  {
    PatchRecord(body.url, body.os, body.major.value, body.minor.value, PatchOf(body),
                body.hash, now)
  }

  /** The cache key of a lookup request, if its version string is present and well formed. */
  function KeyOf(versionString: Option<string>): (key: Option<Version>) {
    match versionString
    case None => None
    case Some(s) => Parse(s)
  }

  /** The catalog (`urls`) and the cache (`responses`) that every request shares. */
  class PatchService {
    var catalog: seq<PatchRecord>
    var cache: map<Version, seq<PatchEntry>>

    /** Every cached answer is what a fresh catalog query would return for its key. */
    ghost predicate Valid()
      reads this
    {
      forall key :: key in cache ==> cache[key] == QueryNewer(catalog, key)
    }

    /** A service over an existing catalog with an empty cache. */
    constructor (initial: seq<PatchRecord>)
      ensures Valid()
      ensures catalog == initial && cache == map[]
    {
      catalog := initial;
      cache := map[];
    }

    /**
     * GET /: parse the version string, answer from the cache on a hit, and on a
     * miss compute the answer from the catalog and try to cache it. `storeOk`
     * says whether the cache insert succeeds; its failure is swallowed.
     */
    method Lookup(versionString: Option<string>, storeOk: bool) returns (resp: Response)
      requires Valid()
      modifies this
      ensures Valid()
      ensures catalog == old(catalog)
      ensures match KeyOf(versionString)
        case None => resp == BadRequest && cache == old(cache)
        case Some(key) =>
          && resp == Ok(QueryNewer(catalog, key))
          && (key in old(cache) ==> resp == Ok(old(cache)[key]) && cache == old(cache))
          && (key !in old(cache) ==>
                cache == if storeOk then old(cache)[key := resp.entries] else old(cache))
    {
      var key := KeyOf(versionString);
      if key.None? {
        return BadRequest;
      }
      var k := key.value;
      if k in cache {
        resp := Ok(cache[k]);
      } else {
        var result := QueryNewer(catalog, k);
        resp := Ok(result);
        if storeOk {
          cache := cache[k := result];
        }
      }
    }

    /**
     * POST /version: reject a body without `major` or `minor` (400) and a wrong
     * token (401) before any write; otherwise append the record and empty the
     * cache (201). `appendOk` says whether the insert transaction commits; when
     * it does not, nothing is written and the answer is 400.
     *
     * The source answers 401 but does not return (src/app.js:66-68), so its
     * write still happens: see `PublishAsWritten`.
     */
    method Publish(body: PublishBody, secret: string, now: int, appendOk: bool)
      returns (resp: Response)
      requires Valid()
      modifies this
      ensures Valid()
      ensures !HasNumbers(body) ==>
        resp == BadRequest && catalog == old(catalog) && cache == old(cache)
      ensures HasNumbers(body) && body.authToken != Some(secret) ==>
        resp == Unauthorized && catalog == old(catalog) && cache == old(cache)
      ensures HasNumbers(body) && body.authToken == Some(secret) && !appendOk ==>
        resp == BadRequest && catalog == old(catalog) && cache == old(cache)
      ensures HasNumbers(body) && body.authToken == Some(secret) && appendOk ==>
        resp == Created && catalog == old(catalog) + [RecordOf(body, now)] && cache == map[]
    {
      if !HasNumbers(body) {
        return BadRequest;
      }
      if body.authToken != Some(secret) {
        return Unauthorized;
      }
      if !appendOk {
        return BadRequest;
      }
      catalog := catalog + [RecordOf(body, now)];
      cache := map[];
      resp := Created;
    }
  }

  /**
   * Two identical lookups with no publish between them give the same answer,
   * and once the first has been cached the second is a cache hit.
   */
  method RepeatLookup(svc: PatchService, versionString: Option<string>, storeOk: bool)
    returns (first: Response, second: Response)
    requires svc.Valid()
    modifies svc
    ensures svc.Valid() && svc.catalog == old(svc.catalog)
    ensures first == second
    ensures storeOk && KeyOf(versionString).Some? ==> KeyOf(versionString).value in svc.cache
  {
    first := svc.Lookup(versionString, storeOk);
    second := svc.Lookup(versionString, storeOk);
  }

  /**
   * A lookup, a publish and the same lookup again: the second lookup sees the
   * published record when it is newer than the key, whatever the cache held.
   */
  method LookupAfterPublish(svc: PatchService, versionString: Option<string>, body: PublishBody,
                            secret: string, now: int)
    returns (before: Response, published: Response, after: Response)
    requires svc.Valid()
    modifies svc
    ensures svc.Valid()
    ensures published == Created ==>
      HasNumbers(body) && svc.catalog == old(svc.catalog) + [RecordOf(body, now)]
    ensures published == Created && KeyOf(versionString).Some? &&
            IsNewer(RecordOf(body, now), KeyOf(versionString).value) ==>
      after.Ok? && Entry(RecordOf(body, now)) in after.entries
    ensures published != Created ==> after == before
  {
    before := svc.Lookup(versionString, true);
    published := svc.Publish(body, secret, now, true);
    after := svc.Lookup(versionString, true);
    if published == Created && KeyOf(versionString).Some? &&
       IsNewer(RecordOf(body, now), KeyOf(versionString).value) {
      QueryAfterAppendNewer(old(svc.catalog), RecordOf(body, now), KeyOf(versionString).value);
    }
  }

  // ---------------------------------------------------------------------------
  // The publish route as written

  /** What a publish request does to the catalog and the cache, and what it answers. */
  datatype PublishEffect = PublishEffect(response: Response, catalog: seq<PatchRecord>,
                                         clearsCache: bool)

  /**
   * src/app.js:55-81 as written: on a token mismatch the route answers 401 and
   * goes on to insert the record and empty the cache. The later
   * `sendStatus(201)` throws because the headers are already sent, and so does
   * the `sendStatus(400)` in the `catch` (src/app.js:79). That error escapes
   * the route, so 401 is the only status written and the request then ends in
   * an unhandled error.
   */
  function PublishAsWritten(catalog: seq<PatchRecord>, body: PublishBody, secret: string,
                            now: int, appendOk: bool): (effect: PublishEffect)
  {
    var refused := body.authToken != Some(secret);
    if !HasNumbers(body) then PublishEffect(BadRequest, catalog, false)
    else if !appendOk then PublishEffect(if refused then Unauthorized else BadRequest, catalog, false)
    else PublishEffect(if refused then Unauthorized else Created, catalog + [RecordOf(body, now)], true)
  }

  /**
   * As written, a publish answered 401 still reaches the catalog, and its record
   * is then offered to every client it is newer than.
   */
  lemma UnauthorizedPublishIsListedAsWritten(catalog: seq<PatchRecord>, body: PublishBody,
                                             secret: string, now: int, key: Version)
    requires HasNumbers(body) && body.authToken != Some(secret)
    requires IsNewer(RecordOf(body, now), key)
    ensures var effect := PublishAsWritten(catalog, body, secret, now, true);
      && effect.response == Unauthorized
      && Entry(RecordOf(body, now)) in QueryNewer(effect.catalog, key)
  {
    QueryAfterAppendNewer(catalog, RecordOf(body, now), key);
  }

  /**
   * A body that leaves out `patch` is published, not refused: with `major` 1
   * and `minor` 2 the stored version is 1.2.2, and a client at 1.2.1 is
   * offered it under the name "1.2.2".
   */
  lemma MissingPatchPublishesMinor(catalog: seq<PatchRecord>, body: PublishBody, now: int)
    requires body.major == Some(1) && body.minor == Some(2) && body.patch == None
    requires body.os == "LINUX"
    ensures HasNumbers(body)
    ensures RecordTuple(RecordOf(body, now)) == (1, 2, 2)
    ensures Entry(RecordOf(body, now)).name == "1.2.2"
    ensures Entry(RecordOf(body, now)) in
      QueryNewer(catalog + [RecordOf(body, now)], Version(Linux, 1, 2, 1))
  {
    FormatLinux122();
    var r := RecordOf(body, now);
    assert IsNewer(r, Version(Linux, 1, 2, 1));
    QueryAfterAppendNewer(catalog, r, Version(Linux, 1, 2, 1));
  }

  // ---------------------------------------------------------------------------
  // A publish followed by lookups

  lemma FormatLinux122()
    ensures Name((1, 2, 2)) == "1.2.2"
    ensures Format(Version(Linux, 1, 2, 2)) == "EDOPRO-LINUX-1.2.2"
  {
  }

  lemma FormatLinux123()
    ensures Name((1, 2, 3)) == "1.2.3"
    ensures Format(Version(Linux, 1, 2, 3)) == "EDOPRO-LINUX-1.2.3"
  {
  }

  lemma ParseLinux122()
    ensures Parse("EDOPRO-LINUX-1.2.2") == Some(Version(Linux, 1, 2, 2))
  {
    FormatLinux122();
    ParseFormat(Version(Linux, 1, 2, 2));
  }

  lemma ParseLinux123()
    ensures Parse("EDOPRO-LINUX-1.2.3") == Some(Version(Linux, 1, 2, 3))
  {
    FormatLinux123();
    ParseFormat(Version(Linux, 1, 2, 3));
  }

  lemma ParseGarbage()
    ensures Parse("garbage") == None
  {
    assert UpperString("garbage"[..7])[0] == 'G';
  }

  /**
   * Publishing LINUX 1.2.3 to an empty catalog, then looking up from 1.2.2, from
   * 1.2.3 and with a malformed string.
   */
  method PublishThenLookup(secret: string, now: int) returns (created: Response,
    fromOlder: Response, fromSame: Response, malformed: Response)
    ensures created == Created
    ensures fromOlder == Ok([PatchEntry("1.2.3", "h1", "u1")])
    ensures fromSame == Ok([])
    ensures malformed == BadRequest
  {
    var body := PublishBody(Some(secret), "u1", "LINUX", Some(1), Some(2), Some(3), "h1");
    var r := RecordOf(body, now);
    FormatLinux123();
    assert Entry(r) == PatchEntry("1.2.3", "h1", "u1");
    ParseLinux122();
    ParseLinux123();
    ParseGarbage();
    assert IsNewer(r, Version(Linux, 1, 2, 2)) && !IsNewer(r, Version(Linux, 1, 2, 3));
    QueryOfOne(r, Version(Linux, 1, 2, 2));
    QueryOfOne(r, Version(Linux, 1, 2, 3));
    var svc := new PatchService([]);
    created := svc.Publish(body, secret, now, true);
    assert svc.catalog == [r];
    fromOlder := svc.Lookup(Some("EDOPRO-LINUX-1.2.2"), true);
    assert fromOlder == Ok(QueryNewer([r], Version(Linux, 1, 2, 2)));
    assert fromOlder == Ok([Entry(r)]);
    fromSame := svc.Lookup(Some("EDOPRO-LINUX-1.2.3"), true);
    malformed := svc.Lookup(Some("garbage"), true);
  }
}

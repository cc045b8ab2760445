/**
 * The alias service of services/url_service.go: it creates a unique code for
 * a target, enforces expiry when a code is resolved, and counts successful
 * resolutions.  It works over the MongoDB store.  The random source, the
 * clock and the failures of individual store calls are parameters.
 */
module Services {
  import opened Wrappers
  import Clock
  import Hash
  import opened MongoStorage

  /** The lifetime used when the requested one is not positive. */
  const DefaultExpirySeconds: int := 3600

  /** One round of the retry loop: the draws for a candidate code, and whether the Get probing it fails. */
  datatype Attempt = Attempt(draws: seq<nat>, getFails: bool)

  /** Which of the store calls made by one resolution fail. */
  datatype Faults = Faults(get: bool, delete: bool, increment: bool)

  /** A resolution attempt: the instant it happens and the store failures it meets. */
  datatype Call = Call(now: int, faults: Faults)

  /**
   * Why ShortenURL produced no code: the save failed, or every candidate the
   * random source offered was reported taken (the unbounded loop would still
   * be drawing).
   */
  datatype ShortenError = SaveFailed | StillProbing

  /** What one resolution returns, with the collection it leaves behind. */
  datatype Resolution = Resolution(longURL: Option<string>, docs: seq<Document>)

  const NoFaults := Faults(false, false, false)

  predicate ValidAttempts(attempts: seq<Attempt>) {
    forall i :: 0 <= i < |attempts| ==> Hash.ValidDraws(attempts[i].draws)
  }

  /** The probe of this attempt reports a document, so the loop draws again. */
  predicate Occupied(docs: seq<Document>, a: Attempt)
    requires Hash.ValidDraws(a.draws)
  {
    !a.getFails && Hash.CodeOf(a.draws) in View(docs)
  }

  /** No probe fails: a probe error then always means the code is free. */
  predicate ProbesHealthy(attempts: seq<Attempt>) {
    forall i :: 0 <= i < |attempts| ==> !attempts[i].getFails
  }

  /** The lifetime ShortenURL uses for a requested one. */
  function EffectiveSeconds(expirySeconds: int): (seconds: int)
    ensures seconds > 0
    ensures expirySeconds > 0 ==> seconds == expirySeconds
  {
    if expirySeconds <= 0 then DefaultExpirySeconds else expirySeconds
  }

  /** The document ShortenURL saves for a code. */
  function NewDocument(code: string, longURL: string, expirySeconds: int, now: int): (d: Document)
    ensures d.shortURL == code && d.longURL == longURL && d.usage == 0
    ensures var deadline := Clock.AddSeconds(now, EffectiveSeconds(expirySeconds));
      ExpiresAt(d) <= deadline < ExpiresAt(d) + Clock.NanosPerMilli
  {
    Document(code, longURL, Clock.ToDateTime(Clock.AddSeconds(now, EffectiveSeconds(expirySeconds))), 0)
  }

  /** The view with one record's usage raised by `n`. */
  function Bumped(v: map<string, Document>, code: string, n: nat): map<string, Document>
    requires code in v
  {
    v[code := v[code].(usage := v[code].usage + n)]
  }

  /** A document is live at `now` unless `now` is strictly after its expiry. */
  predicate Live(d: Document, now: int)
    ensures Live(d, now) <==> now <= ExpiresAt(d)
  {
    !Clock.After(now, ExpiresAt(d))
  }

  /**
   * GetLongURL as a function of the collection: look the code up; an expired
   * record is deleted (a failed delete is ignored) and reported missing; a
   * live one has its usage incremented, and its target is returned unless the
   * increment failed.
   */
  function Resolve(docs: seq<Document>, code: string, now: int, f: Faults): (r: Resolution)
    ensures r.longURL.Some? <==> !f.get && code in View(docs) && Live(View(docs)[code], now) && !f.increment
    ensures r.longURL.Some? ==> r.longURL.value == View(docs)[code].longURL
    ensures r.longURL.None? && (f.get || code !in View(docs) || Live(View(docs)[code], now)) ==> r.docs == docs
  {
    if f.get || code !in View(docs) then Resolution(None, docs)
    else if !Live(View(docs)[code], now) then
      Resolution(None, if f.delete then docs else DeleteOne(docs, code))
    else if f.increment then Resolution(None, docs)
    else Resolution(Some(View(docs)[code].longURL), IncrementOne(docs, code))
  }

  /** A sequence of resolutions of one code: what each returns and the final collection. */
  function ResolveAll(docs: seq<Document>, code: string, calls: seq<Call>): (r: (seq<Option<string>>, seq<Document>))
    ensures |r.0| == |calls|
    decreases |calls|
  {
    if calls == [] then ([], docs)
    else
      var first := Resolve(docs, code, calls[0].now, calls[0].faults);
      var rest := ResolveAll(first.docs, code, calls[1..]);
      ([first.longURL] + rest.0, rest.1)
  }

  /** The number of resolutions that returned a target. */
  function Hits(results: seq<Option<string>>): nat {
    if results == [] then 0 else (if results[0].Some? then 1 else 0) + Hits(results[1..])
  }

  /** A missing code, or a failed lookup, resolves to nothing and leaves the collection untouched. */
  lemma ResolveMissing(docs: seq<Document>, code: string, now: int, f: Faults)
    requires f.get || code !in View(docs)
    ensures Resolve(docs, code, now, f) == Resolution(None, docs)
  {
  }

  /**
   * A record whose expiry is strictly before `now` resolves to nothing.  The
   * first document for the code is deleted when the delete succeeds; a failed
   * delete leaves the collection as it was.  Without duplicates, exactly that
   * record leaves the view and codes stay unique.
   */
  lemma ResolveExpired(docs: seq<Document>, code: string, now: int, f: Faults)
    requires !f.get && code in View(docs) && Clock.After(now, ExpiresAt(View(docs)[code]))
    ensures Resolve(docs, code, now, f) == Resolution(None, if f.delete then docs else DeleteOne(docs, code))
    ensures Unique(docs) ==> Unique(Resolve(docs, code, now, f).docs)
    ensures Unique(docs) ==>
      View(Resolve(docs, code, now, f).docs) == if f.delete then View(docs) else View(docs) - {code}
    ensures forall c :: c != code ==>
      (c in View(Resolve(docs, code, now, f).docs) <==> c in View(docs))
      && (c in View(docs) ==> View(Resolve(docs, code, now, f).docs)[c] == View(docs)[c])
  {
    if Unique(docs) {
      DeleteOneView(docs, code);
    }
    forall c | c != code
      ensures (c in View(DeleteOne(docs, code)) <==> c in View(docs))
        && (c in View(docs) ==> View(DeleteOne(docs, code))[c] == View(docs)[c])
    {
      DeleteOneFrame(docs, code, c);
    }
  }

  /**
   * A live record (its expiry is `now` or later) resolves to its target and its
   * usage rises by exactly one, nothing else changing; if the increment fails
   * the resolution reports nothing and the collection is unchanged.
   */
  lemma ResolveLive(docs: seq<Document>, code: string, now: int, f: Faults)
    requires !f.get && code in View(docs) && !Clock.After(now, ExpiresAt(View(docs)[code]))
    ensures var d := View(docs)[code];
      Resolve(docs, code, now, f) ==
        if f.increment then Resolution(None, docs)
        else Resolution(Some(d.longURL), IncrementOne(docs, code))
    ensures !f.increment ==>
      View(Resolve(docs, code, now, f).docs) == View(docs)[code := View(docs)[code].(usage := View(docs)[code].usage + 1)]
    ensures Unique(docs) ==> Unique(Resolve(docs, code, now, f).docs)
  {
    IncrementOneView(docs, code);
  }

  /** Resolution never creates duplicate codes. */
  lemma ResolveKeepsUnique(docs: seq<Document>, code: string, now: int, f: Faults)
    requires Unique(docs)
    ensures Unique(Resolve(docs, code, now, f).docs)
  {
    DeleteOneView(docs, code);
    IncrementOneView(docs, code);
  }

  /** One resolution at an instant up to the expiry: either a hit that raises the usage by one, or nothing changes in the view. */
  lemma ResolveWithinExpiry(docs: seq<Document>, code: string, now: int, f: Faults)
    requires code in View(docs) && now <= ExpiresAt(View(docs)[code])
    ensures var d := View(docs)[code];
      var r := Resolve(docs, code, now, f);
      && View(r.docs) == Bumped(View(docs), code, if r.longURL.Some? then 1 else 0)
      && (r.longURL.Some? ==> r.longURL == Some(d.longURL))
  {
    if !f.get {
      ResolveLive(docs, code, now, f);
    }
    var d := View(docs)[code];
    assert View(docs)[code := d] == View(docs);
  }

  /** Over any run of resolutions of a code at instants up to its expiry, every target returned is the record's target. */
  lemma {:induction false} ResolvedTargets(docs: seq<Document>, code: string, calls: seq<Call>)
    requires code in View(docs)
    requires forall i :: 0 <= i < |calls| ==> calls[i].now <= ExpiresAt(View(docs)[code])
    ensures forall i :: 0 <= i < |calls| && ResolveAll(docs, code, calls).0[i].Some? ==>
      ResolveAll(docs, code, calls).0[i] == Some(View(docs)[code].longURL)
    decreases |calls|
  {
    if calls != [] {
      var first := Resolve(docs, code, calls[0].now, calls[0].faults);
      ResolveWithinExpiry(docs, code, calls[0].now, calls[0].faults);
      ResolvedTargets(first.docs, code, calls[1..]);
      var all := ResolveAll(docs, code, calls);
      forall i | 0 <= i < |calls| && all.0[i].Some? ensures all.0[i] == Some(View(docs)[code].longURL) {
        if i > 0 {
          assert all.0[i] == ResolveAll(first.docs, code, calls[1..]).0[i - 1];
          assert calls[1..][i - 1] == calls[i];
        }
      }
    }
  }

  /**
   * The first resolution of a run up to the expiry: the collection it leaves
   * behind, whether it was a hit, and how the rest of the run continues from
   * there.
   */
  lemma ResolveAllStep(docs: seq<Document>, code: string, calls: seq<Call>) returns (docs1: seq<Document>, hit: nat)
    requires calls != [] && code in View(docs)
    requires forall i :: 0 <= i < |calls| ==> calls[i].now <= ExpiresAt(View(docs)[code])
    ensures View(docs1) == Bumped(View(docs), code, hit)
    ensures forall i :: 0 <= i < |calls[1..]| ==> calls[1..][i].now <= ExpiresAt(View(docs1)[code])
    ensures ResolveAll(docs, code, calls).1 == ResolveAll(docs1, code, calls[1..]).1
    ensures Hits(ResolveAll(docs, code, calls).0) == hit + Hits(ResolveAll(docs1, code, calls[1..]).0)
  {
    var first := Resolve(docs, code, calls[0].now, calls[0].faults);
    ResolveWithinExpiry(docs, code, calls[0].now, calls[0].faults);
    docs1 := first.docs;
    hit := if first.longURL.Some? then 1 else 0;
    var all := ResolveAll(docs, code, calls);
    assert all.0[1..] == ResolveAll(docs1, code, calls[1..]).0;
  }

  /** Two usage increases of one record add up. */
  lemma BumpedTwice(v: map<string, Document>, code: string, n1: nat, n2: nat)
    requires code in v
    ensures Bumped(Bumped(v, code, n1), code, n2) == Bumped(v, code, n1 + n2)
  {
  }

  /**
   * Over any run of resolutions of a code at instants up to its expiry, every
   * target returned is the record's target, the record's usage rises by
   * exactly the number of resolutions that returned it, and no other record
   * changes.
   */
  lemma {:induction false} UsageCountsResolutions(docs: seq<Document>, code: string, calls: seq<Call>)
    requires code in View(docs)
    requires forall i :: 0 <= i < |calls| ==> calls[i].now <= ExpiresAt(View(docs)[code])
    ensures View(ResolveAll(docs, code, calls).1) == Bumped(View(docs), code, Hits(ResolveAll(docs, code, calls).0))
    ensures forall i :: 0 <= i < |calls| && ResolveAll(docs, code, calls).0[i].Some? ==>
      ResolveAll(docs, code, calls).0[i] == Some(View(docs)[code].longURL)
    decreases |calls|
  {
    ResolvedTargets(docs, code, calls);
    if calls == [] {
      assert Bumped(View(docs), code, 0) == View(docs);
    } else {
      var docs1, hit := ResolveAllStep(docs, code, calls);
      UsageCountsResolutions(docs1, code, calls[1..]);
      BumpedTwice(View(docs), code, hit, Hits(ResolveAll(docs1, code, calls[1..]).0));
    }
  }

  /** Runs without store failures: every resolution returns a target. */
  lemma {:induction false} HealthyRunHits(docs: seq<Document>, code: string, calls: seq<Call>)
    requires code in View(docs)
    requires forall i :: 0 <= i < |calls| ==> calls[i].now <= ExpiresAt(View(docs)[code]) && calls[i].faults == NoFaults
    ensures forall i :: 0 <= i < |calls| ==> ResolveAll(docs, code, calls).0[i].Some?
    ensures Hits(ResolveAll(docs, code, calls).0) == |calls|
    decreases |calls|
  {
    if calls != [] {
      var first := Resolve(docs, code, calls[0].now, calls[0].faults);
      ResolveLive(docs, code, calls[0].now, calls[0].faults);
      HealthyRunHits(first.docs, code, calls[1..]);
      var all := ResolveAll(docs, code, calls);
      assert all.0[1..] == ResolveAll(first.docs, code, calls[1..]).0;
      forall i | 0 <= i < |calls| ensures all.0[i].Some? {
        if i > 0 { assert all.0[i] == all.0[1..][i - 1]; }
      }
    }
  }

  /**
   * After ShortenURL saves a fresh code, N resolutions without store failures
   * at instants up to its expiry each return the original target, and the
   * stored usage is then N.
   */
  lemma {:induction false} ShortenThenResolve(docs: seq<Document>, code: string, longURL: string, expirySeconds: int, now: int, calls: seq<Call>)
    requires code !in View(docs)
    requires forall i :: 0 <= i < |calls| ==>
      calls[i].now <= ExpiresAt(NewDocument(code, longURL, expirySeconds, now)) && calls[i].faults == NoFaults
    ensures var final := ResolveAll(InsertOne(docs, NewDocument(code, longURL, expirySeconds, now)), code, calls);
      && (forall i :: 0 <= i < |calls| ==> final.0[i] == Some(longURL))
      && code in View(final.1) && View(final.1)[code].usage == |calls|
  {
    var d := NewDocument(code, longURL, expirySeconds, now);
    var docs1 := InsertOne(docs, d);
    InsertNewView(docs, d);
    UsageCountsResolutions(docs1, code, calls);
    HealthyRunHits(docs1, code, calls);
  }

  /**
   * With a lifetime within the range of a Go duration, the saved expiry is
   * `now` plus that many seconds, rounded down to the millisecond: the record
   * is live at `now` and at every instant up to that point, and expired
   * from one nanosecond after `now` plus the lifetime.  A lifetime of zero or
   * less means 3600 seconds.
   */
  lemma SavedExpiry(code: string, longURL: string, expirySeconds: int, now: int)
    requires expirySeconds <= Clock.MaxDurationSeconds
    ensures var d := NewDocument(code, longURL, expirySeconds, now);
      var end := now + EffectiveSeconds(expirySeconds) * Clock.NanosPerSecond;
      && EffectiveSeconds(expirySeconds) == (if expirySeconds <= 0 then 3600 else expirySeconds)
      && end - Clock.NanosPerMilli < ExpiresAt(d) <= end
      && Live(d, now)
      && !Live(d, end + 1)
  {
    Clock.AddSecondsExact(now, EffectiveSeconds(expirySeconds));
    Clock.DateTimeRoundTrip(Clock.AddSeconds(now, EffectiveSeconds(expirySeconds)));
  }

  /**
   * A lifetime beyond the range of a Go duration wraps modulo 2^64.  Up to
   * 2^64 nanoseconds it wraps to a negative duration: the saved record is
   * already expired when it is saved.
   */
  lemma SavedExpiryWraps(code: string, longURL: string, expirySeconds: int, now: int)
    requires Clock.MaxDurationSeconds < expirySeconds <= 2 * Clock.MaxDurationSeconds + 1
    ensures !Live(NewDocument(code, longURL, expirySeconds, now), now)
  {
    Clock.AddSecondsWrapsPastRange(now, expirySeconds);
    Clock.DateTimeRoundTrip(Clock.AddSeconds(now, expirySeconds));
  }

  /**
   * A still larger lifetime can wrap to a short positive duration: the record
   * is live when saved but expired within a second.
   */
  lemma SavedExpiryWrapsShort(code: string, longURL: string, now: int)
    ensures var d := NewDocument(code, longURL, 2 * (Clock.MaxDurationSeconds + 1), now);
      Live(d, now) && !Live(d, now + Clock.NanosPerSecond)
  {
    Clock.AddSecondsWrapsPositive(now);
    Clock.DateTimeRoundTrip(Clock.AddSeconds(now, 2 * (Clock.MaxDurationSeconds + 1)));
  }

  /**
   * GenerateUniqueShortURL takes any probe error for "free", so a probe that
   * fails on a taken code lets ShortenURL save a second document for it.  As
   * long as the older document exists it wins every lookup: the code handed
   * out resolves to the older target, and the collection now holds a
   * duplicate.
   */
  lemma ShortenOverTakenCode(docs: seq<Document>, code: string, longURL: string, expirySeconds: int, now: int, later: int)
    requires code in View(docs)
    ensures var docs' := InsertOne(docs, NewDocument(code, longURL, expirySeconds, now));
      && !Unique(docs')
      && View(docs') == View(docs)
      && Resolve(docs', code, later, NoFaults).longURL == Resolve(docs, code, later, NoFaults).longURL
  {
    InsertDuplicateView(docs, NewDocument(code, longURL, expirySeconds, now));
  }

  /**
   * The duplicate surfaces once the older document is gone: a resolution
   * after the older record expired deletes it, and the next resolution while
   * the duplicate is live returns the duplicate's target.
   */
  lemma DuplicateSurfaces(docs: seq<Document>, d: Document, expired: int, later: int)
    requires Unique(docs) && d.shortURL in View(docs)
    requires Clock.After(expired, ExpiresAt(View(docs)[d.shortURL])) && Live(d, later)
    ensures var first := Resolve(InsertOne(docs, d), d.shortURL, expired, NoFaults);
      && first.longURL == None
      && Resolve(first.docs, d.shortURL, later, NoFaults).longURL == Some(d.longURL)
  {
    var code := d.shortURL;
    InsertDuplicateView(docs, d);
    ViewIsFirstMatch(docs, code);
    DeleteOneAfterInsert(docs, d);
    DeleteOneView(docs, code);
    InsertNewView(DeleteOne(docs, code), d);
  }

  /** The service holds the store it was created with. */
  class URLService {
    const store: MongoDBStore

    constructor (store: MongoDBStore)
      ensures this.store == store
    {
      this.store := store;
    }

    /**
     * GenerateUniqueShortURL draws candidates until probing one with Get
     * fails.  It returns the first candidate whose probe failed; every earlier
     * one was reported taken.  A probe error is taken as "free" whatever its
     * cause, so only with healthy probes is the code known to be absent.
     * `None` means every candidate offered was taken.
     */
    method GenerateUniqueShortURL(attempts: seq<Attempt>) returns (shortURL: Option<string>)
      requires ValidAttempts(attempts)
      ensures shortURL.None? <==> forall j :: 0 <= j < |attempts| ==> Occupied(store.collection, attempts[j])
      ensures shortURL.Some? ==>
        exists k :: 0 <= k < |attempts|
          && shortURL.value == Hash.CodeOf(attempts[k].draws)
          && !Occupied(store.collection, attempts[k])
          && forall j :: 0 <= j < k ==> Occupied(store.collection, attempts[j])
      ensures shortURL.Some? ==> Hash.IsShortCode(shortURL.value)
      ensures shortURL.Some? && ProbesHealthy(attempts) ==> shortURL.value !in View(store.collection)
    {
      var i := 0;
      while i < |attempts|
        invariant 0 <= i <= |attempts|
        invariant forall j :: 0 <= j < i ==> Occupied(store.collection, attempts[j])
      {
        var candidate := Hash.GenerateShortURL(attempts[i].draws);
        var probe := store.Get(candidate, attempts[i].getFails);
        if probe.Failure? {
          return Some(candidate);
        }
        i := i + 1;
      }
      return None;
    }

    /**
     * ShortenURL replaces a lifetime of zero or less by 3600 seconds, finds a
     * code, and saves a document with the target, the expiry `now` plus the
     * lifetime, and usage 0.  A failed save, or no free candidate, leaves the
     * collection as it was.  With healthy probes the code is new, so exactly
     * one record is added and the collection stays free of duplicates.
     */
    method ShortenURL(longURL: string, expirySeconds: int, now: int, attempts: seq<Attempt>, saveFails: bool)
      returns (r: Result<string, ShortenError>)
      requires ValidAttempts(attempts)
      modifies store
      ensures r == Failure(StillProbing) <==> forall j :: 0 <= j < |attempts| ==> Occupied(old(store.collection), attempts[j])
      ensures r == Failure(SaveFailed) <==> r != Failure(StillProbing) && saveFails
      ensures r.Failure? ==> store.collection == old(store.collection)
      ensures r.Success? ==>
        && Hash.IsShortCode(r.value)
        && store.collection == InsertOne(old(store.collection), NewDocument(r.value, longURL, expirySeconds, now))
      ensures r.Success? ==>
        exists k :: 0 <= k < |attempts|
          && r.value == Hash.CodeOf(attempts[k].draws) && !Occupied(old(store.collection), attempts[k])
      ensures r.Success? && ProbesHealthy(attempts) ==>
        && r.value !in View(old(store.collection))
        && View(store.collection) == View(old(store.collection))[r.value := NewDocument(r.value, longURL, expirySeconds, now)]
        && (Unique(old(store.collection)) ==> Unique(store.collection))
    {
      var seconds := expirySeconds;
      if seconds <= 0 {
        seconds := DefaultExpirySeconds;
      }
      var shortURL := GenerateUniqueShortURL(attempts);
      if shortURL.None? {
        return Failure(StillProbing);
      }
      var expiryTime := Clock.AddSeconds(now, seconds);
      ghost var doc := NewDocument(shortURL.value, longURL, expirySeconds, now);
      if ProbesHealthy(attempts) {
        InsertNewView(store.collection, doc);
      }
      var saved := store.Save(shortURL.value, longURL, expiryTime, saveFails);
      if saved.Fail? {
        return Failure(SaveFailed);
      }
      return Success(shortURL.value);
    }

    /** GetLongURL resolves a code at instant `now`, as Resolve describes. */
    method GetLongURL(shortURL: string, now: int, f: Faults) returns (longURL: Option<string>)
      modifies store
      ensures Resolution(longURL, store.collection) == Resolve(old(store.collection), shortURL, now, f)
    {
      var data := store.Get(shortURL, f.get);
      if data.Failure? {
        return None;
      }
      if Clock.After(now, Clock.FromDateTime(data.value.expirationTime)) {
        var ignored := store.Delete(shortURL, f.delete);
        return None;
      }
      var incremented := store.IncrementUsage(shortURL, f.increment);
      if incremented.Fail? {
        return None;
      }
      return Some(data.value.longURL);
    }

    /**
     * GetUsage reports the stored counter of any present record, expired or
     * not, and the store's error otherwise; it changes nothing.
     */
    method GetUsage(shortURL: string, getFails: bool) returns (r: Result<nat, StoreError>)
      ensures getFails ==> r == Failure(DriverError)
      ensures !getFails && shortURL in View(store.collection) ==> r == Success(View(store.collection)[shortURL].usage)
      ensures !getFails && shortURL !in View(store.collection) ==> r == Failure(NoDocuments)
    {
      var data := store.Get(shortURL, getFails);
      if data.Failure? {
        return Failure(data.error);
      }
      return Success(data.value.usage);
    }
  }
}

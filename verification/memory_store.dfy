/**
 * The in-memory store of storage/memory_store.go: a map from code to target
 * and expiry instant.  Unlike the MongoDB store it computes the expiry itself,
 * overwrites on Save, and deletes an expired entry when Get sees it.
 */
module MemoryStorage {
  import opened Wrappers
  import Clock

  datatype URLData = URLData(longURL: string, expiresAt: int)

  /** What one Get returns, with the map it leaves behind. */
  datatype Lookup = Lookup(longURL: Option<string>, store: map<string, URLData>)

  /** The map after Save: the code's entry is (over)written with the target and `now` plus the given seconds. */
  function Saved(m: map<string, URLData>, shortURL: string, longURL: string, expirationSeconds: int, now: int)
    : (m': map<string, URLData>)
    ensures m'.Keys == m.Keys + {shortURL}
    ensures m'[shortURL] == URLData(longURL, Clock.AddSeconds(now, expirationSeconds))
    ensures forall k :: k in m && k != shortURL ==> m'[k] == m[k]
  {
    m[shortURL := URLData(longURL, Clock.AddSeconds(now, expirationSeconds))]
  }

  /** The outcome of Get at instant `now`. */
  function Find(m: map<string, URLData>, shortURL: string, now: int): (r: Lookup)
    ensures r.longURL.Some? <==> shortURL in m && !Clock.After(now, m[shortURL].expiresAt)
    ensures r.longURL.Some? ==> r.longURL.value == m[shortURL].longURL
    ensures r.store.Keys == if shortURL in m && Clock.After(now, m[shortURL].expiresAt) then m.Keys - {shortURL} else m.Keys
    ensures forall k :: k in r.store ==> r.store[k] == m[k]
  {
    if shortURL !in m then Lookup(None, m)
    else if Clock.After(now, m[shortURL].expiresAt) then Lookup(None, m - {shortURL})
    else Lookup(Some(m[shortURL].longURL), m)
  }

  /**
   * A Get after a Save returns the saved target up to and including the expiry
   * instant; after it, Get reports nothing and the map loses the code and
   * keeps every other entry.
   */
  lemma SaveThenFind(m: map<string, URLData>, shortURL: string, longURL: string, expirationSeconds: int, now: int, later: int)
    ensures var m' := Saved(m, shortURL, longURL, expirationSeconds, now);
      Find(m', shortURL, later) ==
        if later <= Clock.AddSeconds(now, expirationSeconds) then Lookup(Some(longURL), m')
        else Lookup(None, m - {shortURL})
  {
    var m' := Saved(m, shortURL, longURL, expirationSeconds, now);
    assert m' - {shortURL} == m - {shortURL};
  }

  /** Asking twice at the same instant gives the same answer: the eager deletion is not observable by Get. */
  lemma FindTwice(m: map<string, URLData>, shortURL: string, now: int)
    ensures Find(Find(m, shortURL, now).store, shortURL, now) == Lookup(Find(m, shortURL, now).longURL, Find(m, shortURL, now).store)
  {
  }

  class MemoryStore {
    var store: map<string, URLData>

    constructor ()
      ensures store == map[]
    {
      store := map[];
    }

    /** Save records the target with expiry `now + expirationSeconds`, replacing any entry for the code. */
    method Save(shortURL: string, longURL: string, expirationSeconds: int, now: int)
      modifies this
      ensures store == Saved(old(store), shortURL, longURL, expirationSeconds, now)
    {
      var expirationTime := Clock.AddSeconds(now, expirationSeconds);
      store := store[shortURL := URLData(longURL, expirationTime)];
    }

    /** Get returns a live entry's target; an expired entry is removed and reported as missing. */
    method Get(shortURL: string, now: int) returns (longURL: Option<string>)
      modifies this
      ensures Lookup(longURL, store) == Find(old(store), shortURL, now)
    {
      if shortURL !in store {
        return None;
      }
      var data := store[shortURL];
      if Clock.After(now, data.expiresAt) {
        store := store - {shortURL};
        return None;
      }
      return Some(data.longURL);
    }
  }
}

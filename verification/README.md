# URL shortener: aliasing and lifecycle engine

A Dafny model of the core of a Go URL shortener. The model covers three parts:

- the short-code generator (`utils/hash.go`);
- the two key-value stores (`storage/mongodb_store.go`, `storage/memory_store.go`);
- the alias service (`services/url_service.go`). The service hands out a fresh code for a target URL, saves it with an expiry deadline, and resolves codes while enforcing that deadline. It also counts successful resolutions.

Modules, one per source file, plus two shared ones:

- `Hash` (hash.dfy): the charset literal, `GenerateShortURL` filling a six-slot buffer in a loop, and its inverse `DrawsOf`.
- `MongoStorage` (mongodb_store.dfy): the `urls` collection as a sequence of documents. `InsertOne` appends without checking for an existing code. `FindOne`, `DeleteOne` and `UpdateOne` act on the first document whose `short_url` matches. `View` is the map from code to record that the service relies on. `Unique` says no two documents share a code.
- `MemoryStorage` (memory_store.dfy): the in-memory map, with overwrite on `Save` and eager deletion of an expired entry on `Get`.
- `Services` (url_service.dfy): the `URLService` class over a `MongoDBStore`, plus `Resolve`, a function of the collection that `GetLongURL` is proved against.
- `Clock` (clock.dfy): instants are integer nanoseconds. A `time.Duration` wraps at 64 bits. MongoDB stores a BSON DateTime, which is whole milliseconds rounded down.
- `Wrappers` (wrappers.dfy): `Option`, `Result`, `Outcome`.

Inputs from outside the program become parameters:

- The current time is `now`.
- `rand.Intn(62)` becomes a list of draws. One retry of the code search is an `Attempt`: six draws plus whether the `Get` probing the candidate fails.
- A driver error or a 5-second timeout of a store call is that call's `fails` flag. `GetLongURL` takes one `Faults` record for its three store calls. A failed call reports `DriverError` and changes nothing.

Behaviour of the code that the model keeps, and that the proofs make visible:

- Expiry takes effect strictly after the deadline: a record whose deadline equals `now` is still live.
- The deadline the service compares against is the stored DateTime. That is the requested instant rounded down to the millisecond (`Services.SavedExpiry`).
- `GetUsage` ignores expiry. It reports the counter of any stored record.
- A lifetime above 9 223 372 036 seconds overflows `time.Duration`, which wraps modulo 2^64. From 9 223 372 037 to 18 446 744 073 seconds the duration is negative, and the record is already expired when it is saved (`Services.SavedExpiryWraps`). Larger lifetimes can wrap to a short positive duration: 18 446 744 074 seconds gives about 0.29 seconds (`Services.SavedExpiryWrapsShort`).
- `GenerateUniqueShortURL` accepts a candidate on any `Get` error, not only when no document matches. A probe that times out on a taken code therefore lets `ShortenURL` insert a second document for that code. That document stays hidden while the older one exists, because the older one wins every lookup (`Services.ShortenOverTakenCode`). Once the older record expires and a resolution deletes it, the second document surfaces and the code resolves to the new target (`Services.DuplicateSurfaces`, `MongoStorage.DeleteOneWithDuplicate`). Uniqueness is proved when the probes are healthy.
- `Save` does not reject a duplicate code, and `Get` and `GetUsage` return expired records as stored. The model follows the code.

## Model

| member | source | states |
|---|---|---|
| `Hash.GenerateShortURL` | utils/hash.go:10-16 | The result has length 6, symbol i is the charset symbol at draw i, and every symbol is in the charset |
| `Hash.CharsetLayout` | utils/hash.go:8 | The charset is the 26 lower-case letters, then the 26 upper-case letters, then the 10 digits, each in order |
| `Hash.CharsetAlphabet` | utils/hash.go:8 | The charset has 62 pairwise distinct symbols, and a character is in it exactly when it is alphanumeric |
| `Hash.CodeOf` | utils/hash.go:12-14 | The code has one charset symbol per draw, and six valid draws give a short code |
| `Hash.DrawsOfCodeOf` | utils/hash.go:11-15 | Six valid draws produce a short code, and the draws can be read back from it |
| `Hash.CodeOfDrawsOf` | utils/hash.go:11-15 | Every six-symbol code over the charset is produced by the draws read back from it |
| `Hash.CodeOfInjective` | utils/hash.go:12-14 | Different draw sequences give different codes, so the code is a one-to-one function of the draws |
| `Clock.WrapInt64` | services/url_service.go:36 | The duration product is reduced into the int64 range modulo 2^64, and is unchanged when it already fits |
| `Clock.SecondsToDuration` | services/url_service.go:36 | The duration always fits in int64, and equals the seconds times 10^9 whenever that product fits |
| `Clock.AddSeconds` | storage/memory_store.go:28 | The expiry instant lies within an int64 duration of now, and is exactly now plus the seconds whenever the duration fits |
| `Clock.AddSecondsExact` | services/url_service.go:36 | Within the range of a duration, the expiry instant is exactly now plus the seconds |
| `Clock.AddSecondsWrapsPastRange` | services/url_service.go:36 | From one second past the duration range up to 2^64 nanoseconds, the product wraps once to a negative duration and the expiry lies before now |
| `Clock.AddSecondsWrapsPositive` | services/url_service.go:36 | A lifetime of 18 446 744 074 seconds wraps to a positive duration of 290 448 384 nanoseconds, so the expiry lies less than a second after now |
| `Clock.ToDateTime` | storage/mongodb_store.go:36 | A stored instant is the greatest whole millisecond not after it |
| `Clock.DateTimeRoundTrip` | services/url_service.go:61 | An instant stored and read back is at most one millisecond earlier, and storing it again changes nothing |
| `MongoStorage.View` | storage/mongodb_store.go:47 | The map from code to the record a single-document query returns; every record in it is stored under its own code |
| `MongoStorage.FirstMatch` | storage/mongodb_store.go:47 | The position found holds the code and no earlier document does; if nothing is found, no document holds the code |
| `MongoStorage.ViewIsFirstMatch` | storage/mongodb_store.go:42-53 | A code is in the map view exactly when a single-document query finds it, and it maps to the document that query returns |
| `MongoStorage.ViewKeys` | storage/mongodb_store.go:47 | The codes in the view are exactly the codes of the stored documents |
| `MongoStorage.ViewOfUnique` | storage/mongodb_store.go:47 | Without duplicates, every document is the record the view shows for its code |
| `MongoStorage.InsertNewView` | storage/mongodb_store.go:28-40 | Inserting a document with a new code adds exactly that record to the view and keeps codes unique |
| `MongoStorage.InsertDuplicateView` | storage/mongodb_store.go:32-38 | Inserting a document whose code is present leaves the view unchanged and creates a duplicate |
| `MongoStorage.RemoveAtView` | storage/mongodb_store.go:59 | Without duplicates, removing one document removes exactly its code from the view and keeps every other record |
| `MongoStorage.DeleteOneView` | storage/mongodb_store.go:55-61 | Without duplicates, deleting a code removes exactly that record from the view, and codes stay unique |
| `MongoStorage.IncrementOneView` | storage/mongodb_store.go:63-73 | Incrementing a present code raises only its usage by 1 and changes no other field or record; an absent code changes nothing |
| `MongoStorage.InsertOne` | storage/mongodb_store.go:32 | The new document is placed after all existing ones, which are kept as they were, whatever their codes |
| `MongoStorage.DeleteOne` | storage/mongodb_store.go:59 | An absent code leaves the collection unchanged; for a present code, exactly the first matching document is removed and the others keep their order |
| `MongoStorage.DeleteOneFrame` | storage/mongodb_store.go:55-61 | Deleting a code leaves every other code's presence and record in the view as they were, even when codes are duplicated |
| `MongoStorage.IncrementOne` | storage/mongodb_store.go:67-71 | The first matching document's usage rises by 1 and its other fields are kept; every other document is unchanged; an absent code changes nothing |
| `MongoStorage.DeleteOneAfterInsert` | storage/mongodb_store.go:32-59 | Deleting a code that was present before an insert removes the same document as before the insert, and the inserted one stays |
| `MongoStorage.DeleteOneWithDuplicate` | storage/mongodb_store.go:59 | With two documents for one code, deleting the code brings the second into view |
| `MongoStorage.MongoDBStore.Save` | storage/mongodb_store.go:28-40 | On success, a document with the code, target, DateTime expiry and usage 0 is appended; on failure, an error and no change |
| `MongoStorage.MongoDBStore.Get` | storage/mongodb_store.go:42-53 | Returns the stored record as is, with no expiry filtering; NoDocuments when the code is absent; DriverError on failure |
| `MongoStorage.MongoDBStore.Delete` | storage/mongodb_store.go:55-61 | Removes the first document for the code; every other code keeps its record in the view; without duplicates, the code leaves the view; an absent code is not an error |
| `MongoStorage.MongoDBStore.IncrementUsage` | storage/mongodb_store.go:63-73 | Adds exactly 1 to the matching record's usage and changes nothing else; an absent code is not an error |
| `MemoryStorage.Saved` | storage/memory_store.go:24-34 | The code's entry becomes the target with expiry now plus the seconds, overwriting any old one; other keys keep their entries |
| `MemoryStorage.Find` | storage/memory_store.go:36-50 | A target is returned exactly when the key exists and now is not after its expiry; an expired key is removed and nothing else changes |
| `MemoryStorage.SaveThenFind` | storage/memory_store.go:24-50 | After a Save, Get returns the saved target up to the expiry instant; after it, Get returns nothing and the key is gone |
| `MemoryStorage.FindTwice` | storage/memory_store.go:36-50 | Two Gets at the same instant give the same answer: the eager deletion is not observable |
| `MemoryStorage.MemoryStore.constructor` | storage/memory_store.go:18-22 | A new store is empty |
| `MemoryStorage.MemoryStore.Save` | storage/memory_store.go:24-34 | The map becomes the result of Saved |
| `MemoryStorage.MemoryStore.Get` | storage/memory_store.go:36-50 | The returned target and the new map are the result of Find |
| `Services.URLService.constructor` | services/url_service.go:16-18 | The service uses the store it is given |
| `Services.URLService.GenerateUniqueShortURL` | services/url_service.go:20-28 | Returns the first candidate whose probe failed, after every earlier candidate was reported taken; the result is a short code, and with healthy probes it is absent from the store |
| `Services.URLService.ShortenURL` | services/url_service.go:30-43 | A lifetime of 0 or less becomes 3600. On success, one document with the code, target, expiry and usage 0 is appended. With healthy probes, the view gains exactly that record and codes stay unique. On save failure, SaveFailed and no change |
| `Services.URLService.GetLongURL` | services/url_service.go:45-75 | The returned target and the new collection are those of Resolve |
| `Services.URLService.GetUsage` | services/url_service.go:77-91 | Returns the stored usage of any present record, expired or not; NoDocuments for an absent code; the store's error on failure; never changes the store |
| `Services.EffectiveSeconds` | services/url_service.go:31-33 | The lifetime used is always positive, and is the requested one whenever that is positive |
| `Services.NewDocument` | services/url_service.go:35-38 | The saved document holds the code, the target and usage 0, and its deadline is the requested expiry instant rounded down to the millisecond |
| `Services.Live` | services/url_service.go:63 | A record is live exactly when now is not after its deadline, the deadline itself included |
| `Services.Resolve` | services/url_service.go:45-75 | A target is returned exactly when the lookup succeeds, the record is live and the increment succeeds, and it is the stored target; when nothing is returned, the collection changes only by the deletion of an expired record |
| `Services.ResolveMissing` | services/url_service.go:46-49 | An absent code or a failed lookup resolves to nothing and leaves the collection unchanged |
| `Services.ResolveExpired` | services/url_service.go:63-66 | A record whose expiry is strictly before now resolves to nothing. The first document for the code is deleted, unless the delete fails, which is ignored. Every other code keeps its record in the view; without duplicates, the code leaves the view and codes stay unique |
| `Services.ResolveLive` | services/url_service.go:68-74 | A live record, including at its exact expiry instant, resolves to its target, and its usage rises by exactly 1. If the increment fails, the result is nothing and there is no change |
| `Services.ResolveKeepsUnique` | services/url_service.go:45-75 | Resolution never creates duplicate codes |
| `Services.ResolveWithinExpiry` | services/url_service.go:45-75 | One resolution up to the expiry either returns the record's target and raises its usage by 1, or returns nothing and leaves the view as it was |
| `Services.ResolvedTargets` | services/url_service.go:68-74 | Over any run of resolutions up to the expiry, every returned target is the record's target |
| `Services.UsageCountsResolutions` | services/url_service.go:45-75 | Over any run of resolutions up to the expiry, every returned target is the record's target, usage rises by exactly the number of successes, and no other record changes |
| `Services.HealthyRunHits` | services/url_service.go:68-74 | Without store failures, every resolution up to the expiry succeeds |
| `Services.ShortenThenResolve` | services/url_service.go:30-75 | After a fresh code is saved, N failure-free resolutions up to its expiry each return the original target, and the stored usage is then N |
| `Services.SavedExpiry` | services/url_service.go:31-36 | The saved deadline is now plus the effective lifetime, rounded down to the millisecond. The record is live at now and expired just after that deadline. A lifetime of 0 or less means 3600 |
| `Services.SavedExpiryWraps` | services/url_service.go:36 | A lifetime from one second past the duration range up to 18 446 744 073 seconds yields a record already expired at now |
| `Services.SavedExpiryWrapsShort` | services/url_service.go:36 | A lifetime of 18 446 744 074 seconds yields a record live at now but expired one second later |
| `Services.ShortenOverTakenCode` | services/url_service.go:20-28 | A second document for a taken code breaks uniqueness and is hidden while the older one exists: the code still resolves to the older target |
| `Services.DuplicateSurfaces` | services/url_service.go:20-28 | Once the older record has expired and a resolution has deleted it, the next resolution while the second document is live returns the second document's target |

## Left out

- HTTP handlers, JSON binding, `.env` loading, route registration and server start-up (`controllers/url_controller.go`, `routes/routes.go`, `main.go`) are not part of this model. The URL validation `isValidURL` lives there, so `ShortenURL` accepts any target string, as the service code does.
- Connecting to MongoDB (`NewMongoDBStore`) and the 5-second contexts are I/O. A timeout or driver error is a `fails` flag. A write that times out after the server applied it is not modelled: a failed call never changes the collection.
- The `created_at` field is written but never read, so documents do not carry it.
- `GetLongURL` checks that `expiration_time` is present and is a DateTime (services/url_service.go:51-59), and reads `long_url` with a type assertion whose failure yields an empty target with success (services/url_service.go:73). Documents are typed here, so those two not-found paths and the empty-target path cannot arise.
- `Services.URLService.GetUsage` does not model the "invalid usage data" error for a `usage` field that is not an int32 (services/url_service.go:84-87). Usage is an unbounded natural, so a counter pushed past the int32 range by `$inc` is not modelled.
- Locking in the memory store and the concurrent `shorten` race are concurrency concerns and are left out. The memory store also deletes while holding only a read lock.
- `math/rand` is replaced by explicit draws. The unbounded retry loop runs over a finite list of attempts. `StillProbing` and `None` stand for "still drawing after the last attempt supplied".
- The debug `print` calls in `GetUsage` are left out.
- `FindOne`, `DeleteOne` and `UpdateOne` are modelled as acting on the earliest-inserted matching document. MongoDB does not promise this order for a query without a sort, so which duplicate is seen first is a modelling assumption.
- The range limits of Go's `time.Time` and of a 64-bit BSON DateTime are not modelled. Only the `time.Duration` overflow is.

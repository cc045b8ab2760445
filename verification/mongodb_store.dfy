/**
 * The MongoDB-backed store of storage/mongodb_store.go.  The `urls` collection
 * is a sequence of documents in natural order.  InsertOne appends without
 * checking for an existing code, and FindOne, DeleteOne and UpdateOne act on
 * the first document whose `short_url` matches.  `View` is the abstract map
 * from code to record that the service relies on.  A driver error or a
 * timeout is the `fails` flag of each call: the call reports an error and
 * leaves the collection as it was.
 */
module MongoStorage {
  import opened Wrappers
  import Clock

  /** One document: `short_url`, `long_url`, `expiration_time` (a BSON DateTime in milliseconds) and `usage`. */
  datatype Document = Document(shortURL: string, longURL: string, expirationTime: int, usage: nat)

  /** `mongo.ErrNoDocuments`, or any other driver error (timeouts included). */
  datatype StoreError = NoDocuments | DriverError

  /** The instant a document expires, as `DateTime.Time()` gives it back. */
  function ExpiresAt(d: Document): int {
    Clock.FromDateTime(d.expirationTime)
  }

  /** The position of the first document with the given code: the one a single-document query selects. */
  function FirstMatch(docs: seq<Document>, code: string): (r: Option<nat>)
    ensures r.Some? ==> r.value < |docs| && docs[r.value].shortURL == code
    ensures r.Some? ==> forall j :: 0 <= j < r.value ==> docs[j].shortURL != code
    ensures r.None? ==> forall j :: 0 <= j < |docs| ==> docs[j].shortURL != code
  {
    if docs == [] then None
    else if docs[0].shortURL == code then Some(0)
    else match FirstMatch(docs[1..], code)
      case None => None
      case Some(k) => Some(k + 1)
  }

  /** The collection as a map from code to record: where several documents share a code, the first one is seen. */
  function View(docs: seq<Document>): (m: map<string, Document>)
    ensures forall c :: c in m ==> m[c].shortURL == c
  {
    if docs == [] then map[] else View(docs[1..])[docs[0].shortURL := docs[0]]
  }

  /** No two documents share a code. */
  predicate Unique(docs: seq<Document>) {
    forall i, j :: 0 <= i < j < |docs| ==> docs[i].shortURL != docs[j].shortURL
  }

  /** `InsertOne`: the new document goes after the existing ones, whatever their codes. */
  function InsertOne(docs: seq<Document>, d: Document): (r: seq<Document>)
    ensures |r| == |docs| + 1 && r[..|docs|] == docs && r[|docs|] == d
  {
    docs + [d]
  }

  /** `DeleteOne({short_url: code})`: the first matching document is removed, the order of the rest kept. */
  function DeleteOne(docs: seq<Document>, code: string): (r: seq<Document>)
    ensures FirstMatch(docs, code).None? ==> r == docs
    ensures FirstMatch(docs, code).Some? ==> |r| == |docs| - 1
    ensures FirstMatch(docs, code).Some? ==>
      forall j :: 0 <= j < |r| ==> r[j] == docs[if j < FirstMatch(docs, code).value then j else j + 1]
  {
    match FirstMatch(docs, code)
    case None => docs
    case Some(i) => docs[..i] + docs[i + 1..]
  }

  /** `UpdateOne({short_url: code}, {$inc: {usage: 1}})`: the first matching document's usage goes up by one. */
  function IncrementOne(docs: seq<Document>, code: string): (r: seq<Document>)
    ensures |r| == |docs|
    ensures forall j :: 0 <= j < |docs| ==> r[j].shortURL == docs[j].shortURL
    ensures FirstMatch(docs, code).None? ==> r == docs
    ensures FirstMatch(docs, code).Some? ==>
      var i := FirstMatch(docs, code).value;
      r[i].usage == docs[i].usage + 1 && r[i].longURL == docs[i].longURL && r[i].expirationTime == docs[i].expirationTime
      && forall j :: 0 <= j < |docs| && j != i ==> r[j] == docs[j]
  {
    match FirstMatch(docs, code)
    case None => docs
    case Some(i) => docs[i := docs[i].(usage := docs[i].usage + 1)]
  }

  /** The map view and the first-match query agree: a code is in the view exactly when a query finds it, and maps to what the query returns. */
  lemma {:induction false} ViewIsFirstMatch(docs: seq<Document>, code: string)
    ensures code in View(docs) <==> FirstMatch(docs, code).Some?
    ensures code in View(docs) ==> View(docs)[code] == docs[FirstMatch(docs, code).value]
  {
    if docs != [] && docs[0].shortURL != code {
      ViewIsFirstMatch(docs[1..], code);
    }
  }

  /** The codes in the view are exactly the codes of the documents. */
  lemma ViewKeys(docs: seq<Document>, code: string)
    ensures code in View(docs) <==> exists i :: 0 <= i < |docs| && docs[i].shortURL == code
  {
    ViewIsFirstMatch(docs, code);
  }

  /** Without duplicates, every document is the one the view shows for its code. */
  lemma ViewOfUnique(docs: seq<Document>, i: nat)
    requires Unique(docs) && i < |docs|
    ensures docs[i].shortURL in View(docs) && View(docs)[docs[i].shortURL] == docs[i]
  {
    ViewIsFirstMatch(docs, docs[i].shortURL);
  }

  /** Two collections whose documents carry the same codes in the same order have the same first matches. */
  lemma SameCodesSameMatches(docs: seq<Document>, docs': seq<Document>, code: string)
    requires |docs| == |docs'|
    requires forall j :: 0 <= j < |docs| ==> docs[j].shortURL == docs'[j].shortURL
    ensures FirstMatch(docs, code) == FirstMatch(docs', code)
  {
  }

  /** Inserting a document whose code is new adds exactly that record to the view and keeps the collection duplicate-free. */
  lemma InsertNewView(docs: seq<Document>, d: Document)
    requires d.shortURL !in View(docs)
    ensures View(InsertOne(docs, d)) == View(docs)[d.shortURL := d]
    ensures Unique(docs) ==> Unique(InsertOne(docs, d))
  {
    var r := InsertOne(docs, d);
    ViewKeys(docs, d.shortURL);
    forall c ensures (c in View(r)) == (c in View(docs)[d.shortURL := d])
      && (c in View(r) ==> View(r)[c] == View(docs)[d.shortURL := d][c])
    {
      ViewIsFirstMatch(r, c);
      ViewIsFirstMatch(docs, c);
      if c != d.shortURL {
        var m := FirstMatch(docs, c);
        if m.Some? {
          assert r[m.value] == docs[m.value];
        }
      }
      else {
        assert r[|docs|].shortURL == c;
      }
    }
  }

  /** Inserting a document whose code is already present leaves the view as it was: the older document still wins. */
  lemma InsertDuplicateView(docs: seq<Document>, d: Document)
    requires d.shortURL in View(docs)
    ensures View(InsertOne(docs, d)) == View(docs)
    ensures !Unique(InsertOne(docs, d))
  {
    var r := InsertOne(docs, d);
    forall c ensures (c in View(r)) == (c in View(docs)) && (c in View(r) ==> View(r)[c] == View(docs)[c]) {
      ViewIsFirstMatch(r, c);
      ViewIsFirstMatch(docs, c);
      var m := FirstMatch(docs, c);
      if m.Some? {
        assert r[m.value] == docs[m.value];
      } else if c == d.shortURL {
        assert false;
      }
    }
    ViewIsFirstMatch(docs, d.shortURL);
    assert r[FirstMatch(docs, d.shortURL).value].shortURL == r[|docs|].shortURL;
  }

  /** Removing the document at one position shifts the later ones down by one and keeps the collection duplicate-free. */
  lemma RemoveAt(docs: seq<Document>, i: nat)
    requires i < |docs|
    ensures var r := docs[..i] + docs[i + 1..];
      |r| == |docs| - 1 && forall j :: 0 <= j < |r| ==> r[j] == docs[if j < i then j else j + 1]
    ensures Unique(docs) ==> Unique(docs[..i] + docs[i + 1..])
  {
  }

  /** Without duplicates, removing the document at position `i` removes exactly its code from the view. */
  lemma RemoveAtView(docs: seq<Document>, i: nat, c: string)
    requires Unique(docs) && i < |docs|
    ensures var r := docs[..i] + docs[i + 1..];
      && (c in View(r) <==> c in View(docs) && c != docs[i].shortURL)
      && (c in View(r) ==> View(r)[c] == View(docs)[c])
  {
    var r := docs[..i] + docs[i + 1..];
    RemoveAt(docs, i);
    ViewKeys(r, c);
    ViewKeys(docs, c);
    if c in View(docs) && c != docs[i].shortURL {
      var k :| 0 <= k < |docs| && docs[k].shortURL == c;
      assert r[if k < i then k else k - 1].shortURL == c;
    }
    if c in View(r) {
      var j :| 0 <= j < |r| && r[j].shortURL == c;
      ViewOfUnique(r, j);
      ViewOfUnique(docs, if j < i then j else j + 1);
    }
  }

  /** Deleting a code leaves every other code's record in the view as it was, duplicates or not. */
  lemma DeleteOneFrame(docs: seq<Document>, code: string, c: string)
    requires c != code
    ensures c in View(DeleteOne(docs, code)) <==> c in View(docs)
    ensures c in View(docs) ==> View(DeleteOne(docs, code))[c] == View(docs)[c]
  {
    var r := DeleteOne(docs, code);
    ViewIsFirstMatch(docs, c);
    ViewIsFirstMatch(r, c);
    match FirstMatch(docs, code)
    case None =>
    case Some(i) =>
      if c in View(docs) {
        var k := FirstMatch(docs, c).value;
        var k' := if k < i then k else k - 1;
        assert r[k'] == docs[k];
        assert FirstMatch(r, c) == Some(k') by {
          var m := FirstMatch(r, c).value;
          assert r[m] == docs[if m < i then m else m + 1];
        }
      }
  }

  /** Without duplicates, deleting a code removes exactly that record from the view. */
  lemma DeleteOneView(docs: seq<Document>, code: string)
    requires Unique(docs)
    ensures Unique(DeleteOne(docs, code))
    ensures View(DeleteOne(docs, code)) == View(docs) - {code}
  {
    ViewIsFirstMatch(docs, code);
    match FirstMatch(docs, code)
    case None =>
    case Some(i) =>
      RemoveAt(docs, i);
      forall c ensures (c in View(DeleteOne(docs, code))) == (c in View(docs) - {code})
        && (c in View(DeleteOne(docs, code)) ==> View(DeleteOne(docs, code))[c] == View(docs)[c])
      {
        RemoveAtView(docs, i, c);
      }
  }

  /** The effect of an increment on the view, one code at a time. */
  lemma IncrementOneViewAt(docs: seq<Document>, code: string, c: string)
    ensures var r := IncrementOne(docs, code);
      && (c in View(r) <==> c in View(docs))
      && (c in View(r) ==> View(r)[c] == if c == code then View(docs)[c].(usage := View(docs)[c].usage + 1) else View(docs)[c])
  {
    var r := IncrementOne(docs, code);
    ViewIsFirstMatch(docs, code);
    SameCodesSameMatches(docs, r, c);
    ViewIsFirstMatch(docs, c);
    ViewIsFirstMatch(r, c);
  }

  /** Incrementing a present code raises that record's usage by one and changes no other field or record; an absent code changes nothing. */
  lemma IncrementOneView(docs: seq<Document>, code: string)
    ensures View(IncrementOne(docs, code)) ==
      if code in View(docs) then View(docs)[code := View(docs)[code].(usage := View(docs)[code].usage + 1)]
      else View(docs)
    ensures Unique(docs) ==> Unique(IncrementOne(docs, code))
  {
    var r := IncrementOne(docs, code);
    forall c ensures (c in View(r)) == (c in View(docs))
      && (c in View(r) ==> View(r)[c] == if c == code then View(docs)[c].(usage := View(docs)[c].usage + 1) else View(docs)[c])
    {
      IncrementOneViewAt(docs, code, c);
    }
  }

  /** With two documents for one code, deleting the code brings the second one into view: deletion is only exact without duplicates. */
  lemma DeleteOneWithDuplicate(d1: Document, d2: Document)
    requires d1.shortURL == d2.shortURL
    ensures View(DeleteOne([d1, d2], d1.shortURL)) == map[d1.shortURL := d2]
  {
    assert DeleteOne([d1, d2], d1.shortURL) == [d2];
  }

  /** Deleting a code present before an insert removes the same document as before it: the inserted one stays. */
  lemma DeleteOneAfterInsert(docs: seq<Document>, d: Document)
    requires FirstMatch(docs, d.shortURL).Some?
    ensures DeleteOne(InsertOne(docs, d), d.shortURL) == InsertOne(DeleteOne(docs, d.shortURL), d)
  {
    var code := d.shortURL;
    var r := InsertOne(docs, d);
    var i := FirstMatch(docs, code).value;
    var j := FirstMatch(r, code).value;
    assert r[i] == docs[i];
    assert j == i;
    assert r[..i] == docs[..i];
    assert r[i + 1..] == docs[i + 1..] + [d];
  }

  /**
   * The store object.  NewMongoDBStore connects to a server; here the store
   * is created over the collection's current documents.
   */
  class MongoDBStore {
    var collection: seq<Document>

    constructor (documents: seq<Document>)
      ensures collection == documents
    {
      collection := documents;
    }

    /** Save inserts a document with the given code, target and expiry (stored as a DateTime) and usage 0. */
    method Save(shortURL: string, longURL: string, expiryTime: int, fails: bool) returns (r: Outcome<StoreError>)
      modifies this
      ensures fails ==> r == Fail(DriverError) && collection == old(collection)
      ensures !fails ==> (r == Pass
        && collection == InsertOne(old(collection), Document(shortURL, longURL, Clock.ToDateTime(expiryTime), 0)))
    {
      if fails {
        return Fail(DriverError);
      }
      collection := InsertOne(collection, Document(shortURL, longURL, Clock.ToDateTime(expiryTime), 0));
      return Pass;
    }

    /** Get returns the record stored for the code, expired or not, or NoDocuments when there is none. */
    method Get(shortURL: string, fails: bool) returns (r: Result<Document, StoreError>)
      ensures fails ==> r == Failure(DriverError)
      ensures !fails ==> (r.Success? <==> shortURL in View(collection))
      ensures !fails && shortURL in View(collection) ==> r == Success(View(collection)[shortURL])
      ensures !fails && shortURL !in View(collection) ==> r == Failure(NoDocuments)
    {
      if fails {
        return Failure(DriverError);
      }
      ViewIsFirstMatch(collection, shortURL);
      match FirstMatch(collection, shortURL)
      case None => r := Failure(NoDocuments);
      case Some(i) => r := Success(collection[i]);
    }

    /** Delete removes the first document for the code; deleting an absent code is not an error. */
    method Delete(shortURL: string, fails: bool) returns (r: Outcome<StoreError>)
      modifies this
      ensures fails ==> r == Fail(DriverError) && collection == old(collection)
      ensures !fails ==> r == Pass && collection == DeleteOne(old(collection), shortURL)
      ensures !fails && Unique(old(collection)) ==>
        Unique(collection) && View(collection) == View(old(collection)) - {shortURL}
      ensures forall c :: c != shortURL ==>
        (c in View(collection) <==> c in View(old(collection)))
        && (c in View(old(collection)) ==> View(collection)[c] == View(old(collection))[c])
    {
      if fails {
        return Fail(DriverError);
      }
      assert Unique(collection) ==> View(DeleteOne(collection, shortURL)) == View(collection) - {shortURL} by {
        if Unique(collection) { DeleteOneView(collection, shortURL); }
      }
      forall c | c != shortURL
        ensures (c in View(DeleteOne(collection, shortURL)) <==> c in View(collection))
          && (c in View(collection) ==> View(DeleteOne(collection, shortURL))[c] == View(collection)[c])
      {
        DeleteOneFrame(collection, shortURL, c);
      }
      collection := DeleteOne(collection, shortURL);
      return Pass;
    }

    /** IncrementUsage adds one to the usage of the code's record; an absent code matches nothing and is not an error. */
    method IncrementUsage(shortURL: string, fails: bool) returns (r: Outcome<StoreError>)
      modifies this
      ensures fails ==> r == Fail(DriverError) && collection == old(collection)
      ensures !fails ==> r == Pass && collection == IncrementOne(old(collection), shortURL)
      ensures !fails ==> (View(collection) ==
        if shortURL in View(old(collection))
        then View(old(collection))[shortURL := View(old(collection))[shortURL].(usage := View(old(collection))[shortURL].usage + 1)]
        else View(old(collection)))
    {
      if fails {
        return Fail(DriverError);
      }
      IncrementOneView(collection, shortURL);
      collection := IncrementOne(collection, shortURL);
      return Pass;
    }
  }
}

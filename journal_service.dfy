/**
 * The journal service: the sign-in guard, the normalisation of stored
 * entries, the recognition of the store's missing-index error, and the two
 * paged queries (the owner's entries and the published ones), each of which
 * is retried once without ordering when the store lacks the index the
 * ordered query needs.
 *
 * The document store is not modelled: a query is answered by a function
 * from the query to the documents or the error the store reports.
 */
module JournalService {
  import opened Wrappers
  import opened Text

  // ---------------------------------------------------------------------
  // Stored values and entries

  /** A field value as the store hands it over; `Stamp` is a stored
    * timestamp, `Date` what its conversion gives. */
  datatype Value =
    | Null
    | Bool(b: bool)
    | Num(n: int)
    | Str(s: string)
    | Stamp(t: int)
    | Date(t: int)
    | List(items: seq<Value>)

  /** A present field's truth in a condition (`||`, `if`, `!`). */
  predicate Truthy(v: Value) {
    match v
    case Null => false
    case Bool(b) => b
    case Num(n) => n != 0
    case Str(s) => s != []
    case _ => true
  }

  type Data = map<string, Value>

  datatype Doc = Doc(id: string, data: Data)

  /** `v?.toDate?.() || null`: a stored timestamp converts, anything else is null. */
  function ToDate(data: Data, key: string): (v: Value)
    ensures v == Null || v.Date?
    ensures v.Date? <==> key in data && data[key].Stamp?
  {
    if key in data && data[key].Stamp? then Date(data[key].t) else Null
  }

  /** The entry's date: the converted `date`, else a truthy raw `date`, else
    * the converted creation time, else null. */
  function EntryDate(data: Data, createdAt: Value): Value {
    if key_date in data && data[key_date].Stamp? then Date(data[key_date].t)
    else if key_date in data && Truthy(data[key_date]) then data[key_date]
    else if Truthy(createdAt) then createdAt
    else Null
  }

  const key_id := "id"
  const key_uid := "_id"
  const key_created := "createdAt"
  const key_updated := "updatedAt"
  const key_date := "date"

  /** The fields `normalizeEntry` sets after spreading the stored data. */
  const Managed: set<string> := {key_created, key_updated, key_date}

  /** `normalizeEntry`: the document's id as `_id` and `id`, then the stored
    * fields (which win over those two), then the converted times. */
  function Normalize(doc: Doc): (r: Data)
    ensures r.Keys == doc.data.Keys + {key_uid, key_id} + Managed
    ensures forall k | k in doc.data && k !in Managed :: r[k] == doc.data[k]
    ensures key_uid !in doc.data ==> r[key_uid] == Str(doc.id)
    ensures key_id !in doc.data ==> r[key_id] == Str(doc.id)
    ensures r[key_created] == ToDate(doc.data, key_created)
    ensures r[key_updated] == ToDate(doc.data, key_updated)
    ensures r[key_date] == EntryDate(doc.data, ToDate(doc.data, key_created))
  {
    var createdAt := ToDate(doc.data, key_created);
    var updatedAt := ToDate(doc.data, key_updated);
    var base := map[key_uid := Str(doc.id), key_id := Str(doc.id)] + doc.data;
    base[key_created := createdAt][key_updated := updatedAt][key_date := EntryDate(doc.data, createdAt)]
  }

  /** An entry without a usable `date` is dated by its creation time, and an
    * entry's date is never a raw timestamp. */
  lemma DateFallsBack(doc: Doc)
    requires key_date !in doc.data || !Truthy(doc.data[key_date])
    ensures Normalize(doc)[key_date] == Normalize(doc)[key_created]
  {
  }

  /** The converted times are null or dates: no stored timestamp leaks out. */
  lemma NormalizedTimes(doc: Doc)
    ensures forall k | k in Managed :: !Normalize(doc)[k].Stamp?
  {
    var r := Normalize(doc);
    assert !r[key_date].Stamp?;
  }

  // ---------------------------------------------------------------------
  // Errors

  /** A thrown error: its `code`, `name` and `message`, each possibly absent. */
  datatype Error = Error(code: Option<string>, name: Option<string>, message: Option<string>)

  const NotInitialized := Error(None, Some("Error"), Some("Firebase is not initialized. Check environment configuration."))
  const NotSignedIn := Error(None, Some("Error"), Some("You must be signed in to access journal data."))

  predicate Present(s: Option<string>) {
    s.Some? && s.value != []
  }

  /** `s` matches the pattern `p` somewhere, ignoring ASCII case. */
  predicate SearchCI(s: string, p: string) {
    exists i | 0 <= i <= |s| - |p| :: StartsWithCI(s[i..], p)
  }

  /** `/requires an index|index/i`. */
  predicate IndexPattern(message: string) {
    SearchCI(message, "requires an index") || SearchCI(message, "index")
  }

  /** `isMissingIndexError`: the code (or, without one, the name) says
    * `failed-precondition` and the message mentions an index. */
  predicate IsMissingIndexError(err: Error) {
    var code := if Present(err.code) then err.code else err.name;
    var message := if Present(err.message) then err.message.value else "";
    code == Some("failed-precondition") && IndexPattern(message)
  }

  lemma CaseFoldChar(c: char, p: char)
    requires 'a' <= p <= 'z'
    ensures LowerChar(c) == p <==> CharEqCI(c, p)
  {
  }

  lemma {:induction false} StartsWithCIIsLower(s: string, p: string, i: nat)
    requires i + |p| <= |s| && forall t | 0 <= t < |p| :: 'a' <= p[t] <= 'z'
    ensures StartsWithCI(s[i..], p) <==> OccursAt(Lower(s), p, i)
  {
    var l := Lower(s);
    forall t | 0 <= t < |p|
      ensures CharEqCI(s[i..][t], p[t]) <==> l[i..i + |p|][t] == p[t]
    {
      CaseFoldChar(s[i + t], p[t]);
    }
    if StartsWithCI(s[i..], p) {
      assert l[i..i + |p|] == p;
    }
  }

  /** Searching for a lower-case pattern ignoring case is searching the
    * lower-cased text. */
  lemma SearchIsContains(s: string, p: string)
    requires forall t | 0 <= t < |p| :: 'a' <= p[t] <= 'z'
    ensures SearchCI(s, p) <==> Contains(Lower(s), p)
  {
    if SearchCI(s, p) {
      var i :| 0 <= i <= |s| - |p| && StartsWithCI(s[i..], p);
      StartsWithCIIsLower(s, p, i);
    }
    if Contains(Lower(s), p) {
      var i :| 0 <= i <= |Lower(s)| - |p| && OccursAt(Lower(s), p, i);
      StartsWithCIIsLower(s, p, i);
    }
  }

  /** A pattern matching at `i` matches each of its parts there too. */
  lemma {:induction false} PartMatches(s: string, i: nat, long: string, off: nat, short: string)
    requires i <= |s| && StartsWithCI(s[i..], long)
    requires off + |short| <= |long| && long[off..off + |short|] == short
    ensures StartsWithCI(s[i + off..], short)
  {
    forall t | 0 <= t < |short|
      ensures CharEqCI(s[i + off..][t], short[t])
    {
      assert s[i + off..][t] == s[i..][off + t];
      assert short[t] == long[off + t];
    }
  }

  /** Where `requires an index` matches, `index` matches too. */
  lemma LongAlternativeSubsumed(message: string)
    requires SearchCI(message, "requires an index")
    ensures SearchCI(message, "index")
  {
    var long := "requires an index";
    var i :| 0 <= i <= |message| - |long| && StartsWithCI(message[i..], long);
    assert long[12..17] == "index";
    PartMatches(message, i, long, 12, "index");
  }

  /** The pattern's first alternative adds nothing: the message matches
    * exactly when it contains `index` in any ASCII letter case. */
  lemma IndexPatternIsContains(message: string)
    ensures IndexPattern(message) <==> ContainsIgnoringCase(message, "index")
  {
    assert Lower("index") == "index";
    SearchIsContains(message, "index");
    if SearchCI(message, "requires an index") {
      LongAlternativeSubsumed(message);
    }
  }

  /** `isMissingIndexError` in words: the code, else the name, is
    * `failed-precondition`, and the message contains `index` in any case. */
  lemma MissingIndexErrorIff(err: Error)
    ensures IsMissingIndexError(err) <==>
      && (if Present(err.code) then err.code else err.name) == Some("failed-precondition")
      && ContainsIgnoringCase(if Present(err.message) then err.message.value else "", "index")
  {
    IndexPatternIsContains(if Present(err.message) then err.message.value else "");
  }

  // ---------------------------------------------------------------------
  // Guards

  /** Whether the store's client is configured, and who is signed in. */
  datatype Firebase = Firebase(ready: bool, user: Option<string>)

  /** `ensureFirebase`. */
  function EnsureFirebase(fb: Firebase): (r: Result<(), Error>)
    ensures r.Success? <==> fb.ready
    ensures r.Failure? ==> r.error == NotInitialized
  {
    if fb.ready then Success(()) else Failure(NotInitialized)
  }

  /** `ensureUser`: the configuration check comes first, then the user. */
  function EnsureUser(fb: Firebase): (r: Result<string, Error>)
    ensures r.Success? <==> fb.ready && fb.user.Some?
    ensures r.Success? ==> r.value == fb.user.value
    ensures !fb.ready ==> r == Failure(NotInitialized)
    ensures fb.ready && fb.user.None? ==> r == Failure(NotSignedIn)
  {
    if !fb.ready then Failure(NotInitialized)
    else if fb.user.None? then Failure(NotSignedIn)
    else Success(fb.user.value)
  }

  /** The two guards agree on the configuration: a missing configuration
    * fails both with the same error, so a user is only ever checked against
    * a configured store, and a user passes only where the store does. */
  lemma GuardsInOrder(fb: Firebase)
    ensures EnsureFirebase(fb).Failure? ==> EnsureUser(fb) == Failure(EnsureFirebase(fb).error)
    ensures EnsureUser(fb).Success? ==> EnsureFirebase(fb).Success?
    ensures EnsureFirebase(fb).Success? && EnsureUser(fb).Failure? ==> EnsureUser(fb).error == NotSignedIn
  {
  }

  // ---------------------------------------------------------------------
  // Paged queries

  /** Which entries a query asks for. */
  datatype Scope = Owner(uid: string) | Published

  predicate InScope(data: Data, scope: Scope) {
    match scope
    case Owner(uid) => "ownerId" in data && data["ownerId"] == Str(uid)
    case Published => "isPublished" in data && data["isPublished"] == Bool(true)
  }

  /** A query: the filter, whether it is ordered by `createdAt` descending,
    * the limit and the cursor to start after. */
  datatype Query = Query(scope: Scope, ordered: bool, size: nat, after: Option<Doc>)

  /** One page: the normalised entries and the cursor for the next page. */
  datatype Page = Page(entries: seq<Data>, lastDoc: Option<Doc>)

  /** The store: what it answers to a query. */
  type Store = Query -> Result<seq<Doc>, Error>

  /** The store honours a query: no more documents than the limit, each
    * matching the filter. */
  predicate Honours(store: Store, q: Query) {
    store(q).Success? ==>
      |store(q).value| <= q.size && forall k | 0 <= k < |store(q).value| :: InScope(store(q).value[k].data, q.scope)
  }

  /** The page made of the documents a query returned. */
  function PageOf(docs: seq<Doc>): (p: Page)
    ensures |p.entries| == |docs| && forall k | 0 <= k < |docs| :: p.entries[k] == Normalize(docs[k])
    ensures p.lastDoc.None? <==> docs == []
    ensures p.lastDoc.Some? ==> p.lastDoc.value == docs[|docs| - 1]
  {
    Page(seq(|docs|, k requires 0 <= k < |docs| => Normalize(docs[k])),
         if |docs| > 0 then Some(docs[|docs| - 1]) else None)
  }

  /** The filter fields are not among those normalisation sets. */
  lemma ScopeKept(doc: Doc, scope: Scope)
    requires InScope(doc.data, scope)
    ensures InScope(Normalize(doc), scope)
  {
  }

  /** The query sequence and its fallback: the ordered query, and, only when
    * the store reports a missing index, the same query without ordering. */
  method PagedQuery(store: Store, scope: Scope, size: nat, cursor: Option<Doc>)
    returns (r: Result<Page, Error>, asked: seq<Query>)
    ensures 1 <= |asked| <= 2 && asked[0] == Query(scope, true, size, cursor)
    ensures store(asked[0]).Success? ==> |asked| == 1 && r == Success(PageOf(store(asked[0]).value))
    ensures store(asked[0]).Failure? && !IsMissingIndexError(store(asked[0]).error) ==>
      |asked| == 1 && r == Failure(store(asked[0]).error)
    ensures store(asked[0]).Failure? && IsMissingIndexError(store(asked[0]).error) ==>
      && |asked| == 2 && asked[1] == Query(scope, false, size, cursor)
      && r == (if store(asked[1]).Success? then Success(PageOf(store(asked[1]).value))
               else Failure(store(asked[1]).error))
    ensures (forall k | 0 <= k < |asked| :: Honours(store, asked[k])) && r.Success? ==>
      |r.value.entries| <= size && forall k | 0 <= k < |r.value.entries| :: InScope(r.value.entries[k], scope)
    ensures r.Success? ==> (r.value.lastDoc.None? <==> r.value.entries == [])
  {
    var q := Query(scope, true, size, cursor);
    asked := [q];
    var answer := store(q);
    if answer.Failure? {
      if !IsMissingIndexError(answer.error) {
        r := Failure(answer.error);
        return;
      }
      q := Query(scope, false, size, cursor);
      asked := asked + [q];
      answer := store(q);
      if answer.Failure? {
        r := Failure(answer.error);
        return;
      }
    }
    var page := PageOf(answer.value);
    forall k | 0 <= k < |page.entries| && Honours(store, q)
      ensures InScope(page.entries[k], scope)
    {
      ScopeKept(answer.value[k], scope);
    }
    r := Success(page);
  }

  /** `getEntriesPage`: the signed-in user's entries. No query is sent without a user. */
  method EntriesPage(fb: Firebase, store: Store, size: nat, cursor: Option<Doc>)
    returns (r: Result<Page, Error>, asked: seq<Query>)
    ensures !fb.ready ==> r == Failure(NotInitialized) && asked == []
    ensures fb.ready && fb.user.None? ==> r == Failure(NotSignedIn) && asked == []
    ensures fb.ready && fb.user.Some? ==> 1 <= |asked| && asked[0] == Query(Owner(fb.user.value), true, size, cursor)
    ensures EnsureUser(fb).Failure? <==> asked == []
    ensures EnsureUser(fb).Failure? ==> r == Failure(EnsureUser(fb).error)
    ensures EnsureUser(fb).Success? ==> asked[0].scope == Owner(EnsureUser(fb).value)
    ensures (forall k | 0 <= k < |asked| :: Honours(store, asked[k])) && r.Success? ==>
      fb.user.Some? && |r.value.entries| <= size
      && forall k | 0 <= k < |r.value.entries| :: InScope(r.value.entries[k], Owner(fb.user.value))
    ensures r.Success? ==> (r.value.lastDoc.None? <==> r.value.entries == [])
  {
    var user := EnsureUser(fb);
    if user.Failure? {
      return Failure(user.error), [];
    }
    r, asked := PagedQuery(store, Owner(user.value), size, cursor);
  }

  /** `getPublicEntriesPage`: the published entries, with or without a user. */
  method PublicEntriesPage(fb: Firebase, store: Store, size: nat, cursor: Option<Doc>)
    returns (r: Result<Page, Error>, asked: seq<Query>)
    ensures !fb.ready ==> r == Failure(NotInitialized) && asked == []
    ensures fb.ready ==> 1 <= |asked| && asked[0] == Query(Published, true, size, cursor)
    ensures EnsureFirebase(fb).Failure? <==> asked == []
    ensures EnsureFirebase(fb).Failure? ==> r == Failure(EnsureFirebase(fb).error)
    ensures (forall k | 0 <= k < |asked| :: Honours(store, asked[k])) && r.Success? ==>
      |r.value.entries| <= size && forall k | 0 <= k < |r.value.entries| :: InScope(r.value.entries[k], Published)
    ensures r.Success? ==> (r.value.lastDoc.None? <==> r.value.entries == [])
  {
    var ok := EnsureFirebase(fb);
    if ok.Failure? {
      return Failure(ok.error), [];
    }
    r, asked := PagedQuery(store, Published, size, cursor);
  }

  /** `getPublicEntryById`: a missing or unpublished document reads as none. */
  function PublicEntryById(fb: Firebase, found: Option<Doc>): (r: Result<Option<Data>, Error>)
    ensures !fb.ready ==> r == Failure(NotInitialized)
    ensures fb.ready ==> r.Success?
    ensures r.Success? && r.value.Some? ==>
      found.Some? && r.value.value == Normalize(found.value)
      && "isPublished" in found.value.data && Truthy(found.value.data["isPublished"])
    ensures fb.ready && found.Some? && "isPublished" in found.value.data && Truthy(found.value.data["isPublished"]) ==>
      r.value.Some?
  {
    if !fb.ready then Failure(NotInitialized)
    else if found.None? then Success(None)
    else if !("isPublished" in found.value.data && Truthy(found.value.data["isPublished"])) then Success(None)
    else Success(Some(Normalize(found.value)))
  }
}

/**
 * The journal's home page state: the posts shown so far, the cursor of the
 * last page, whether another page may exist, and the loading flags. A fetch
 * replaces the posts (first page) or appends to them (later pages); a change
 * of the signed-in user starts over from the first page.
 */
module JournalHome {
  import opened Wrappers
  import opened JournalService

  /** The page size the home page asks for. */
  const PageSize: nat := 5

  class Home {
    var posts: seq<Data>
    var isLoading: bool
    var isInitialLoad: bool
    var lastDoc: Option<Doc>
    var hasMore: bool

    /** Until the first page has come in, a page that may have more after it
      * has a cursor. */
    predicate Valid()
      reads this
    {
      hasMore && lastDoc.None? ==> isInitialLoad
    }

    constructor ()
      ensures Valid()
      ensures posts == [] && !isLoading && isInitialLoad && lastDoc.None? && hasMore
    {
      posts := [];
      isLoading := false;
      isInitialLoad := true;
      lastDoc := None;
      hasMore := true;
    }

    /** `fetchPosts(cursor)`: the owner's page for a signed-in user, the public
      * one otherwise. A first page replaces the posts and a later one is
      * appended; a failed fetch changes nothing but the loading flag. */
    method FetchPosts(fb: Firebase, store: Store, cursor: Option<Doc>)
      returns (r: Result<Page, Error>, asked: seq<Query>)
      requires Valid()
      modifies this
      ensures Valid()
      ensures !isLoading
      ensures fb.ready ==> 1 <= |asked| && asked[0].size == PageSize && asked[0].after == cursor
      ensures fb.ready ==> asked[0].scope == if fb.user.Some? then Owner(fb.user.value) else Published
      ensures r.Success? ==>
        && posts == (if cursor.Some? then old(posts) + r.value.entries else r.value.entries)
        && lastDoc == r.value.lastDoc
        && hasMore == (|r.value.entries| == PageSize)
        && !isInitialLoad
      ensures r.Failure? ==>
        posts == old(posts) && lastDoc == old(lastDoc) && hasMore == old(hasMore)
        && isInitialLoad == old(isInitialLoad)
    {
      isLoading := true;
      if fb.user.Some? {
        r, asked := EntriesPage(fb, store, PageSize, cursor);
      } else {
        r, asked := PublicEntriesPage(fb, store, PageSize, cursor);
      }
      if r.Success? {
        posts := if cursor.Some? then posts + r.value.entries else r.value.entries;
        lastDoc := r.value.lastDoc;
        hasMore := |r.value.entries| == PageSize;
        isInitialLoad := false;
      }
      isLoading := false;
    }

    /** The effect of a change of user: once authentication has settled, the
      * state starts over and the first page is fetched. */
    method Reset(fb: Firebase, store: Store, authLoading: bool)
      returns (r: Option<Result<Page, Error>>)
      requires Valid()
      modifies this
      ensures Valid()
      ensures authLoading ==>
        && r.None? && posts == old(posts) && lastDoc == old(lastDoc)
        && hasMore == old(hasMore) && isInitialLoad == old(isInitialLoad) && isLoading == old(isLoading)
      ensures !authLoading ==> r.Some? && !isLoading
      ensures !authLoading && r.value.Success? ==>
        posts == r.value.value.entries && lastDoc == r.value.value.lastDoc
        && hasMore == (|r.value.value.entries| == PageSize) && !isInitialLoad
      ensures !authLoading && r.value.Failure? ==>
        posts == [] && lastDoc.None? && hasMore && isInitialLoad
    {
      if authLoading {
        return None;
      }
      posts := [];
      lastDoc := None;
      hasMore := true;
      isInitialLoad := true;
      var page, _ := FetchPosts(fb, store, None);
      r := Some(page);
    }

    /** The "Load more" button: offered only while `hasMore`, disabled while
      * loading, and it asks for the page after the current cursor. Once the
      * first page is in, a loaded page is appended to the posts. */
    method LoadMore(fb: Firebase, store: Store) returns (r: Option<Result<Page, Error>>, asked: seq<Query>)
      requires Valid()
      modifies this
      ensures Valid()
      ensures !old(hasMore) || old(isLoading) ==>
        && r.None? && asked == [] && posts == old(posts) && lastDoc == old(lastDoc)
        && hasMore == old(hasMore) && isInitialLoad == old(isInitialLoad) && isLoading == old(isLoading)
      ensures old(hasMore) && !old(isLoading) ==> r.Some? && !isLoading
      ensures r.Some? && fb.ready ==>
        && 1 <= |asked| && asked[0].size == PageSize && asked[0].after == old(lastDoc)
        && asked[0].scope == (if fb.user.Some? then Owner(fb.user.value) else Published)
      ensures r.Some? && r.value.Success? ==>
        && posts == (if old(lastDoc).Some? then old(posts) + r.value.value.entries else r.value.value.entries)
        && lastDoc == r.value.value.lastDoc
        && hasMore == (|r.value.value.entries| == PageSize)
        && !isInitialLoad
      ensures r.Some? && r.value.Failure? ==>
        posts == old(posts) && lastDoc == old(lastDoc) && hasMore == old(hasMore)
        && isInitialLoad == old(isInitialLoad)
      ensures r.Some? && r.value.Success? && !old(isInitialLoad) ==>
        posts == old(posts) + r.value.value.entries
    {
      if !hasMore || isLoading {
        return None, [];
      }
      var page;
      page, asked := FetchPosts(fb, store, lastDoc);
      r := Some(page);
    }
  }
}

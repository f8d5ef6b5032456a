/** The category picker that loads ten categories at a time as the user scrolls
    (src/components/Book/InfiniteScrollSelect.tsx). */
module InfiniteScrollSelect {
  import opened Types
  import opened Api

  /** Categories requested per page. */
  const PerPage := 10

  class CategoryPager {
    var categories: seq<Category>
    var page: int
    var hasMore: bool
    var isLoading: bool
    /** The pages loaded so far, in the order they were loaded. */
    ghost var loaded: seq<int>

    /** Pages `1, 2, ..., page - 1` have been loaded, in that order, and `page`
        is the next one to request. */
    ghost predicate Valid()
      reads this
    {
      && page >= 1
      && |loaded| == page - 1
      && forall i :: 0 <= i < |loaded| ==> loaded[i] == i + 1
    }

    constructor ()
      ensures Valid()
      ensures categories == [] && page == 1 && hasMore && !isLoading && loaded == []
    {
      categories := [];
      page := 1;
      hasMore := true;
      isLoading := false;
      loaded := [];
    }

    /** The spinner that triggers the next load is shown only while more pages remain. */
    predicate ShowsSentinel()
      reads this
    {
      hasMore
    }

    /** `loadCategories`. While a load is in flight or nothing remains it does
        nothing and requests nothing. Otherwise it requests `page`: a reply
        appends its categories after the current ones, sets `hasMore` to
        whether that page was before the last one, and moves to the next page;
        a failed request changes none of these. No load is in flight afterwards. */
    method LoadCategories(reply: PageReply<Category>) returns (requested: Option<int>)
      requires Valid()
      modifies this
      ensures Valid()
      ensures old(isLoading) || !old(hasMore) ==>
                requested == None && categories == old(categories) && page == old(page)
                && hasMore == old(hasMore) && isLoading == old(isLoading) && loaded == old(loaded)
      ensures !old(isLoading) && old(hasMore) ==> requested == Some(old(page)) && !isLoading
      ensures !old(ShowsSentinel()) ==> requested == None && !ShowsSentinel()
      ensures ShowsSentinel() ==> old(ShowsSentinel())
      ensures !old(isLoading) && old(hasMore) && reply.PageAnswered? ==>
                && categories == old(categories) + reply.data
                && hasMore == (old(page) < reply.meta.lastPage)
                && page == old(page) + 1
                && loaded == old(loaded) + [old(page)]
      ensures !old(isLoading) && old(hasMore) && reply.PageThrew? ==>
                categories == old(categories) && page == old(page) && hasMore == old(hasMore)
                && loaded == old(loaded)
    {
      if isLoading || !hasMore {
        return None;
      }
      isLoading := true;
      requested := Some(page);
      if reply.PageAnswered? {
        categories := categories + reply.data;
        hasMore := page < reply.meta.lastPage;
        loaded := loaded + [page];
        page := page + 1;
      }
      isLoading := false;
    }

    /** The effect on `inView`: when the sentinel scrolls into view, the next
        page is loaded if more remain and no load is in flight. The sentinel
        is rendered only while more pages remain, so once it is gone nothing
        more is requested and it does not come back. */
    method OnInView(inView: bool, reply: PageReply<Category>) returns (requested: Option<int>)
      requires Valid()
      modifies this
      ensures Valid()
      ensures requested.Some? <==> inView && old(ShowsSentinel()) && !old(isLoading)
      ensures requested.Some? ==> requested.value == old(page)
      ensures requested.None? ==>
                categories == old(categories) && page == old(page) && hasMore == old(hasMore)
                && isLoading == old(isLoading) && loaded == old(loaded)
      ensures requested.Some? && reply.PageAnswered? ==>
                categories == old(categories) + reply.data && page == old(page) + 1
                && (ShowsSentinel() <==> old(page) < reply.meta.lastPage)
      ensures ShowsSentinel() ==> old(ShowsSentinel())
    {
      requested := None;
      if inView && hasMore && !isLoading {
        requested := LoadCategories(reply);
      }
    }
  }
}

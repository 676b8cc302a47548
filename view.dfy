/**
 * The state of the `Launches` view (src/view/Launches.jsx:7-15) and the
 * transitions its handlers perform on it. The network request, the browser's
 * IntersectionObserver and React's scheduling are outside the model: a fetch
 * outcome arrives as a parameter, and an intersection arrives as a call.
 */
module LaunchesView {
  import opened Records
  import opened Filtering

  /** What the data source answered: a (possibly empty) page of records, or a rejection. */
  datatype FetchResult = Fetched(items: seq<Launch>) | Failed

  /**
   * The observer held in `observer.current`. Its callback was created with
   * the observer and reads the `hasMore` of that render.
   */
  datatype Watcher = Idle | Watching(sawHasMore: bool)

  class Launches {
    var launches: seq<Launch>
    var filteredLaunches: seq<Launch>
    var loading: bool
    var searchTerm: string
    var selectedLaunch: Launch?
    var showDetails: bool
    var page: int
    var hasMore: bool
    var observer: Watcher
    /**
     * The `loading` seen by the ref callback of the last card of the last
     * committed render, or None when that render had no card.
     */
    var refLoading: Option<bool>

    /**
     * What a commit leaves behind: the last card's callback, created in a
     * render that was not loading, watches it and sees the current `hasMore`.
     */
    ghost predicate Rendered()
      reads this
    {
      && refLoading == (if filteredLaunches != [] then Some(loading) else None)
      && observer == (if filteredLaunches != [] && !loading then Watching(hasMore) else Idle)
    }

    /** Only an observer armed by a callback that was not loading can be watching. */
    ghost predicate RefsAgree()
      reads this
    {
      refLoading != Some(false) ==> observer == Idle
    }

    /** The invariant every transition keeps, once the filter effect has run and React has committed. */
    ghost predicate Valid()
      reads this
    {
      && page >= 1
      && filteredLaunches == Filter(launches, searchTerm)
      && (showDetails <==> selectedLaunch != null)
      && (selectedLaunch != null ==> selectedLaunch in launches)
      && Rendered()
    }

    /** The details panel of `l` is open (and its button reads "Hide"). */
    predicate DetailsOpen(l: Launch)
      reads this
      ensures Valid() ==> (DetailsOpen(l) <==> selectedLaunch == l)
    {
      selectedLaunch == l && showDetails
    }

    /** The state at mount; the first commit has no card and changes nothing. */
    constructor ()
      ensures Valid()
      ensures launches == [] && filteredLaunches == [] && !loading && searchTerm == ""
      ensures selectedLaunch == null && !showDetails && page == 1 && hasMore
      ensures observer == Idle && refLoading == None
    {
      launches := [];
      filteredLaunches := [];
      loading := false;
      searchTerm := "";
      selectedLaunch := null;
      showDetails := false;
      page := 1;
      hasMore := true;
      observer := Idle;
      refLoading := None;
    }

    /**
     * One call of `lastLaunchObserver(node)`, a callback created in a render
     * whose `loading` was `callbackLoading`: ignored if that render was loading;
     * otherwise the old observer is disconnected and a new one, which sees the
     * current `hasMore`, watches the card if there is one.
     */
    method ArmObserver(callbackLoading: bool, cardPresent: bool)
      modifies this`observer
      ensures callbackLoading ==> observer == old(observer)
      ensures !callbackLoading ==> observer == if cardPresent then Watching(hasMore) else Idle
    {
      if callbackLoading {
        return;
      }
      observer := if cardPresent then Watching(hasMore) else Idle;
    }

    /**
     * React commits a render. Every card has a fresh key, so the last card of
     * the previous render unmounts and its callback is called with null, then
     * the callback of the new last card, if any, is called with it.
     */
    method Commit()
      requires RefsAgree()
      modifies this`observer, this`refLoading
      ensures Rendered()
    {
      if refLoading.Some? {
        ArmObserver(refLoading.value, false);
      }
      if filteredLaunches != [] {
        ArmObserver(loading, true);
        refLoading := Some(loading);
      } else {
        refLoading := None;
      }
    }

    /**
     * The filter effect: it runs after every commit that changed `launches`
     * or `searchTerm` and settles `filteredLaunches`.
     */
    method ApplyFilterEffect()
      modifies this`filteredLaunches
      ensures filteredLaunches == Filter(launches, searchTerm)
    {
      filteredLaunches := Filter(launches, searchTerm);
    }

    /**
     * `fetchData` begins: the loading flag is raised and the loading render
     * disconnects the observer. Nothing prevents a second fetch.
     */
    method BeginFetch()
      requires Valid()
      modifies this`loading, this`observer, this`refLoading
      ensures Valid() && loading && observer == Idle
    {
      loading := true;
      Commit();
    }

    /**
     * A non-empty page arrives (src/view/Launches.jsx:40-42, :46-48): it is
     * appended to the records, and to the visible list unfiltered for one
     * commit, after which the filter effect settles the visible list.
     */
    method AppendPage(items: seq<Launch>)
      requires Valid() && items != []
      modifies this`launches, this`filteredLaunches, this`loading, this`observer, this`refLoading
      ensures Valid() && !loading
      ensures launches == old(launches) + items
      ensures filteredLaunches == old(filteredLaunches) + Filter(items, searchTerm)
    {
      FilterAppend(launches, items, searchTerm);
      launches := launches + items;
      filteredLaunches := filteredLaunches + items;
      loading := false;
      Commit();
      ApplyFilterEffect();
      Commit();
    }

    /**
     * No page is appended (src/view/Launches.jsx:38-39, :44-48): an empty
     * page clears `hasMore`, a rejection leaves it, and loading ends.
     */
    method FinishWithoutPage(emptyPage: bool)
      requires Valid()
      modifies this`hasMore, this`loading, this`observer, this`refLoading
      ensures Valid() && !loading
      ensures hasMore == (old(hasMore) && !emptyPage)
    {
      if emptyPage {
        hasMore := false;
      }
      loading := false;
      Commit();
    }

    /**
     * `fetchData` ends with the data source's answer: an empty page clears
     * `hasMore`, a non-empty page is appended, a rejection changes nothing,
     * and in every case the loading flag is cleared.
     */
    method CompleteFetch(result: FetchResult)
      requires Valid()
      modifies this`launches, this`filteredLaunches, this`hasMore, this`loading
      modifies this`observer, this`refLoading
      ensures Valid() && !loading
      ensures result.Fetched? && result.items == [] ==> !hasMore && launches == old(launches)
      ensures result.Fetched? && result.items != [] ==>
                launches == old(launches) + result.items && hasMore == old(hasMore)
      ensures result.Failed? ==> launches == old(launches) && hasMore == old(hasMore)
      ensures result.Fetched? && result.items != [] ==>
                filteredLaunches == old(filteredLaunches) + Filter(result.items, searchTerm)
      ensures !(result.Fetched? && result.items != []) ==> filteredLaunches == old(filteredLaunches)
      ensures old(launches) <= launches
    {
      if result.Fetched? && result.items != [] {
        AppendPage(result.items);
      } else {
        FinishWithoutPage(result.Fetched?);
      }
    }

    /** `handleSearch`: the term is replaced and the filter effect recomputes the visible list. */
    method SetSearchTerm(term: string)
      requires Valid()
      modifies this`searchTerm, this`filteredLaunches, this`observer, this`refLoading
      ensures Valid() && searchTerm == term
      ensures filteredLaunches == Filter(launches, term)
      ensures term == "" ==> filteredLaunches == launches
      ensures launches == old(launches) && loading == old(loading) && page == old(page)
      ensures hasMore == old(hasMore)
      ensures selectedLaunch == old(selectedLaunch) && showDetails == old(showDetails)
    {
      searchTerm := term;
      Commit();
      ApplyFilterEffect();
      Commit();
    }

    /**
     * `handleViewClick` on a loaded card: the open card closes, any other
     * card opens and becomes the only open one.
     */
    method ToggleDetails(launch: Launch)
      requires Valid() && launch in launches
      modifies this`selectedLaunch, this`showDetails, this`observer, this`refLoading
      ensures Valid()
      ensures DetailsOpen(launch) == !old(DetailsOpen(launch))
      ensures old(DetailsOpen(launch)) ==> selectedLaunch == null && !showDetails
      ensures !old(DetailsOpen(launch)) ==> selectedLaunch == launch && showDetails
      ensures forall other: Launch :: other != launch ==> !DetailsOpen(other)
    {
      if selectedLaunch == launch && showDetails {
        showDetails := false;
        selectedLaunch := null;
      } else {
        selectedLaunch := launch;
        showDetails := true;
      }
      Commit();
    }

    /**
     * The observer's callback: an intersecting last card advances `page` by
     * one if the observer was armed while more pages were expected. After a
     * commit that is: a card is shown, nothing is loading and `hasMore` holds.
     */
    method LastCardIntersects(isIntersecting: bool)
      requires Valid()
      modifies this`page, this`observer, this`refLoading
      ensures Valid()
      ensures page == if isIntersecting && old(observer) == Watching(true) then old(page) + 1 else old(page)
      ensures page == old(page) + 1 <==> isIntersecting && filteredLaunches != [] && !loading && hasMore
      ensures page == old(page) || page == old(page) + 1
      ensures !hasMore ==> page == old(page)
    {
      if isIntersecting && observer.Watching? && observer.sawHasMore {
        page := page + 1;
        Commit();
      }
    }
  }

  /**
   * Page 1 brings ten records, scrolling to the end asks for page 2, which is
   * empty: the list keeps its ten records, `hasMore` is cleared and further
   * scrolling leaves `page` at 2.
   */
  method EmptySecondPage(first: seq<Launch>) returns (count: nat, finalPage: int, more: bool)
    requires |first| == 10
    ensures count == 10 && finalPage == 2 && !more
  {
    var view := new Launches();
    view.BeginFetch();
    view.CompleteFetch(Fetched(first));
    view.LastCardIntersects(true);
    view.BeginFetch();
    view.CompleteFetch(Fetched([]));
    view.LastCardIntersects(true);
    count, finalPage, more := |view.launches|, view.page, view.hasMore;
  }
}

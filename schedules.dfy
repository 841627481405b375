/**
 * The schedule screen's view-model (`SchedulesViewModel`): a cache-first load
 * followed by a background refresh, observed by the UI through three flags.
 * A semester schedule is an opaque value of type `S`; the repository's
 * `getLocal` and `getRemote` enter as their outcomes.
 */
module Schedules {
  import opened Nullable

  /** The view-model reads index 0 of every non-null array it is given. */
  predicate HasFirst<S>(a: Option<seq<S>>) {
    a.Some? ==> |a.value| > 0
  }

  /** The observable state of the view-model. */
  datatype ViewState<S> = ViewState(
    isLoading: bool,
    isRefreshing: bool,
    selectedSemester: Option<S>,
    data: Option<seq<S>>)

  /**
   * The full-screen loader and the pull-to-refresh spinner never show at the
   * same time, and no semester is selected while the first load is pending.
   */
  predicate Invariant<S>(st: ViewState<S>) {
    !(st.isLoading && st.isRefreshing) && (st.isLoading ==> st.selectedSemester.None?)
  }

  /** The field initialisers: loading, not refreshing, nothing selected, no data yet. */
  function Initial<S>(): (st: ViewState<S>)
    ensures Invariant(st)
    ensures st.isLoading && !st.isRefreshing && st.selectedSemester.None? && st.data.None?
  {
    ViewState(true, false, None, None)
  }

  /**
   * `update()` up to the launch of the background fetch: the refresh spinner
   * is turned on only when the screen is no longer in its first load.
   */
  function RefreshStarted<S>(st: ViewState<S>): (r: ViewState<S>)
    ensures r.isRefreshing <==> st.isRefreshing || !st.isLoading
    ensures r.isLoading == st.isLoading
    ensures r.selectedSemester == st.selectedSemester && r.data == st.data
    ensures Invariant(st) ==> Invariant(r)
  {
    if !st.isLoading then st.(isRefreshing := true) else st
  }

  /**
   * The body of the background fetch once `getRemote` has delivered `fetched`:
   * the first semester becomes selected when there is data, and both flags
   * are cleared whatever happened.
   */
  function RefreshCompleted<S>(st: ViewState<S>, fetched: Option<seq<S>>): (r: ViewState<S>)
    requires HasFirst(fetched)
    ensures !r.isLoading && !r.isRefreshing && Invariant(r)
    ensures r.data == fetched
    ensures fetched.Some? ==> r.selectedSemester == Some(fetched.value[0])
    ensures fetched.None? ==> r.selectedSemester == st.selectedSemester
  {
    var withData := st.(data := fetched);
    var selected := if fetched.Some? then withData.(selectedSemester := Some(fetched.value[0])) else withData;
    selected.(isLoading := false, isRefreshing := false)
  }

  /**
   * `constructor(repository)`: take the repository's data after `getLocal`
   * returned `isCached`; on a hit select its first semester and end the first
   * load; then start a refresh.
   */
  function Constructed<S>(st: ViewState<S>, isCached: bool, local: Option<seq<S>>): (r: ViewState<S>)
    requires isCached ==> local.Some? && |local.value| > 0
    ensures r.data == local
    ensures isCached ==> r.selectedSemester == Some(local.value[0]) && !r.isLoading && r.isRefreshing
    ensures !isCached ==> r.isLoading == st.isLoading && r.selectedSemester == st.selectedSemester
    ensures !isCached ==> (r.isRefreshing <==> st.isRefreshing || !st.isLoading)
    ensures Invariant(st) ==> Invariant(r)
  {
    var loaded :=
      if isCached then st.(data := local, selectedSemester := Some(local.value[0]), isLoading := false)
      else st.(data := local);
    RefreshStarted(loaded)
  }

  /** What can happen after construction: another `update()`, or a fetch finishing. */
  datatype Event<S> = Update | RemoteFetched(fetched: Option<seq<S>>)

  predicate Admissible<S>(ev: Event<S>) {
    ev.RemoteFetched? ==> HasFirst(ev.fetched)
  }

  function Step<S>(st: ViewState<S>, ev: Event<S>): ViewState<S>
    requires Admissible(ev)
  {
    match ev
    case Update => RefreshStarted(st)
    case RemoteFetched(fetched) => RefreshCompleted(st, fetched)
  }

  /** The state after the events `evs`, in order, starting from `st`. */
  function Run<S>(st: ViewState<S>, evs: seq<Event<S>>): ViewState<S>
    requires forall ev :: ev in evs ==> Admissible(ev)
    decreases |evs|
  {
    if evs == [] then st else Run(Step(st, evs[0]), evs[1..])
  }

  /** Every sequence of refreshes and completions keeps the invariant. */
  lemma {:induction false} RunKeepsInvariant<S>(st: ViewState<S>, evs: seq<Event<S>>)
    requires forall ev :: ev in evs ==> Admissible(ev)
    requires Invariant(st)
    ensures Invariant(Run(st, evs))
    decreases |evs|
  {
    if evs != [] {
      assert evs[0] in evs;
      RunKeepsInvariant(Step(st, evs[0]), evs[1..]);
    }
  }

  /** Every state reachable from construction satisfies the invariant. */
  lemma ReachableKeepInvariant<S>(isCached: bool, local: Option<seq<S>>, evs: seq<Event<S>>)
    requires isCached ==> local.Some? && |local.value| > 0
    requires forall ev :: ev in evs ==> Admissible(ev)
    ensures Invariant(Run(Constructed(Initial(), isCached, local), evs))
  {
    RunKeepsInvariant(Constructed(Initial(), isCached, local), evs);
  }

  /** `isLoading` is never set back to true: once the first load ends it stays ended. */
  lemma {:induction false} LoadingNeverResumes<S>(st: ViewState<S>, evs: seq<Event<S>>)
    requires forall ev :: ev in evs ==> Admissible(ev)
    requires !st.isLoading
    ensures !Run(st, evs).isLoading
    decreases |evs|
  {
    if evs != [] {
      assert evs[0] in evs;
      LoadingNeverResumes(Step(st, evs[0]), evs[1..]);
    }
  }

  /** Refreshes that have not finished change neither the loader nor the selection. */
  lemma {:induction false} PendingRefreshesKeepSelection<S>(st: ViewState<S>, evs: seq<Event<S>>)
    requires forall ev :: ev in evs ==> ev.Update?
    ensures Run(st, evs).isLoading == st.isLoading
    ensures Run(st, evs).selectedSemester == st.selectedSemester
    ensures Run(st, evs).data == st.data
    decreases |evs|
  {
    if evs != [] {
      assert evs[0] in evs;
      PendingRefreshesKeepSelection(Step(st, evs[0]), evs[1..]);
    }
  }

  /**
   * On a cache miss the screen stays in its first load, without a selection
   * and without the refresh spinner, until some fetch finishes.
   */
  lemma {:induction false} CacheMissWaitsForRemote<S>(local: Option<seq<S>>, evs: seq<Event<S>>)
    requires forall ev :: ev in evs ==> ev.Update?
    ensures var r := Run(Constructed(Initial(), false, local), evs);
      r.isLoading && !r.isRefreshing && r.selectedSemester.None? && r.data == local
  {
    var st := Constructed(Initial(), false, local);
    PendingRefreshesKeepSelection(st, evs);
    RunKeepsInvariant(st, evs);
  }

  /** Running `evs` and then one more event is the same as one more step. */
  lemma {:induction false} RunSnoc<S>(st: ViewState<S>, evs: seq<Event<S>>, ev: Event<S>)
    requires forall e :: e in evs ==> Admissible(e)
    requires Admissible(ev)
    ensures forall e :: e in evs + [ev] ==> Admissible(e)
    ensures Run(st, evs + [ev]) == Step(Run(st, evs), ev)
    decreases |evs|
  {
    if evs != [] {
      assert evs[0] in evs;
      assert (evs + [ev])[1..] == evs[1..] + [ev];
      RunSnoc(Step(st, evs[0]), evs[1..], ev);
    }
  }

  /**
   * Whatever came before, a finishing fetch leaves both spinners off, and the
   * selection is the fetched array's first semester when it delivered one.
   */
  lemma FetchSettles<S>(st: ViewState<S>, evs: seq<Event<S>>, fetched: Option<seq<S>>)
    requires forall e :: e in evs ==> Admissible(e)
    requires HasFirst(fetched)
    ensures forall e :: e in evs + [RemoteFetched(fetched)] ==> Admissible(e)
    ensures var r := Run(st, evs + [RemoteFetched(fetched)]);
      !r.isLoading && !r.isRefreshing &&
      (fetched.Some? ==> r.selectedSemester == Some(fetched.value[0]))
  {
    RunSnoc(st, evs, RemoteFetched(fetched));
  }

  /** The view-model object, whose fields the UI observes. */
  class SchedulesViewModel<S> {
    var data: Option<seq<S>>
    var isLoading: bool
    var isRefreshing: bool
    var selectedSemester: Option<S>

    function State(): ViewState<S>
      reads this
    {
      ViewState(isLoading, isRefreshing, selectedSemester, data)
    }

    constructor ()
      ensures State() == Initial()
      ensures Invariant(State())
    {
      data := None;
      isLoading := true;
      isRefreshing := false;
      selectedSemester := None;
    }

    /**
     * The Kotlin method named `constructor`: `isCached` is what `getLocal()`
     * returned and `local` the repository's data afterwards.
     */
    method Construct(isCached: bool, local: Option<seq<S>>)
      requires isCached ==> local.Some? && |local.value| > 0
      modifies this
      ensures State() == Constructed(old(State()), isCached, local)
      ensures old(Invariant(State())) ==> Invariant(State())
    {
      data := local;
      if isCached {
        selectedSemester := Some(data.value[0]);
        isLoading := false;
      }
      Update();
    }

    /** `update()` up to the launch of the background fetch. */
    method Update()
      modifies this
      ensures State() == RefreshStarted(old(State()))
      ensures old(Invariant(State())) ==> Invariant(State())
    {
      if !isLoading {
        isRefreshing := true;
      }
    }

    /** The launched fetch, once `getRemote()` has left `fetched` in the repository. */
    method FinishUpdate(fetched: Option<seq<S>>)
      requires HasFirst(fetched)
      modifies this
      ensures State() == RefreshCompleted(old(State()), fetched)
      ensures Invariant(State())
    {
      data := fetched;
      if data.Some? {
        selectedSemester := Some(data.value[0]);
      }
      isLoading := false;
      isRefreshing := false;
    }
  }
}

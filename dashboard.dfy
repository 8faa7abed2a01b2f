/** The dashboard: the counters, the filtered and sorted list of cards, and
    the status-change action that re-renders both when it succeeds. */
module Dashboard {
  import opened Wrappers
  import opened RequestModel
  import opened Selection
  import opened Views
  import opened Sorting
  import opened Lifecycle
  import opened Storage

  /** `document.getElementById(id)?.value || fallback`: a missing control or
      an empty value falls back. */
  function ControlValue(control: Option<string>, fallback: string): (v: string)
    ensures control.Some? && control.value != "" ==> v == control.value
    ensures control.None? || control.value == "" ==> v == fallback
  {
    match control
    case Some(value) => if value != "" then value else fallback
    case None => fallback
  }

  /** The list loadRequests renders: the status filter, then the urgency
      filter, then the stable sort. */
  function DashboardView(rs: seq<Request>, statusFilter: string, urgencyFilter: string, sortMode: string)
    : (view: seq<Request>)
    ensures |view| <= |rs|
    ensures forall x :: x in view ==> x in rs && Shown(x, statusFilter, urgencyFilter)
  {
    ViewMembers(rs, statusFilter, urgencyFilter, sortMode);
    StableSort(sortMode, FilterByUrgency(FilterByStatus(rs, statusFilter), urgencyFilter))
  }

  lemma ViewMembers(rs: seq<Request>, statusFilter: string, urgencyFilter: string, sortMode: string)
    ensures forall x :: x in StableSort(sortMode, FilterByUrgency(FilterByStatus(rs, statusFilter), urgencyFilter)) ==>
      x in rs && Shown(x, statusFilter, urgencyFilter)
  {
    var byStatus := FilterByStatus(rs, statusFilter);
    var filtered := FilterByUrgency(byStatus, urgencyFilter);
    StableSortPermutes(sortMode, filtered);
    forall x | x in StableSort(sortMode, filtered)
      ensures x in rs && Shown(x, statusFilter, urgencyFilter)
    {
      assert x in multiset(filtered);
      assert x in byStatus;
    }
  }

  predicate Shown(r: Request, statusFilter: string, urgencyFilter: string) {
    (statusFilter == AllValue || r.status == statusFilter) &&
    (urgencyFilter == AllValue || UrgencyName(r.animal.urgency) == urgencyFilter)
  }

  /** The view holds exactly the stored records that pass both filters, each
      as often as stored, ordered by the sort mode, records of equal rank in
      their stored order. */
  lemma DashboardViewSpec(rs: seq<Request>, statusFilter: string, urgencyFilter: string, sortMode: string)
    ensures forall x ::
      multiset(DashboardView(rs, statusFilter, urgencyFilter, sortMode))[x] == if Shown(x, statusFilter, urgencyFilter) then multiset(rs)[x] else 0
    ensures forall x :: x in DashboardView(rs, statusFilter, urgencyFilter, sortMode) <==>
      x in rs && Shown(x, statusFilter, urgencyFilter)
    ensures SortedBy(sortMode, DashboardView(rs, statusFilter, urgencyFilter, sortMode))
    ensures forall k ::
      Select(DashboardView(rs, statusFilter, urgencyFilter, sortMode), KeyIs(sortMode, k)) == Select(FilterByUrgency(FilterByStatus(rs, statusFilter), urgencyFilter), KeyIs(sortMode, k))
  {
    var byStatus := FilterByStatus(rs, statusFilter);
    var filtered := FilterByUrgency(byStatus, urgencyFilter);
    var view := DashboardView(rs, statusFilter, urgencyFilter, sortMode);
    FilterByStatusSpec(rs, statusFilter);
    FilterByUrgencySpec(byStatus, urgencyFilter);
    StableSortCorrect(sortMode, filtered);
    forall x ensures x in view <==> x in rs && Shown(x, statusFilter, urgencyFilter) {
      assert x in view <==> x in multiset(view);
      assert x in rs <==> x in multiset(rs);
    }
  }

  /** loadDashboardStats: the four counters over the stored list. */
  method LoadDashboardStats(store: RequestStore) returns (stats: Stats)
    ensures stats == ComputeStats(store.GetRequests())
    ensures stats.total == |store.GetRequests()|
    ensures stats.pending + stats.inProgress + stats.rescued <= stats.total
  {
    var requests := store.GetRequests();
    stats := Stats(
      total := |requests|,
      pending := CountStatus(requests, PendingStatus),
      inProgress := CountStatus(requests, InProgressStatus),
      rescued := CountStatus(requests, RescuedStatus));
    StatsBounded(requests);
  }

  /** loadRequests: reads the store and the three controls, filters, and
      sorts the filtered list in place. */
  method LoadRequests(store: RequestStore, statusControl: Option<string>, urgencyControl: Option<string>,
                      sortControl: Option<string>) returns (view: seq<Request>)
    ensures view == DashboardView(store.GetRequests(), ControlValue(statusControl, AllValue),
      ControlValue(urgencyControl, AllValue), ControlValue(sortControl, NewestMode))
  {
    var requests := store.GetRequests();
    var statusFilter := ControlValue(statusControl, AllValue);
    var urgencyFilter := ControlValue(urgencyControl, AllValue);
    var sortFilter := ControlValue(sortControl, NewestMode);
    if statusFilter != AllValue {
      requests := Select(requests, StatusIs(statusFilter));
    }
    if urgencyFilter != AllValue {
      requests := Select(requests, UrgencyIs(urgencyFilter));
    }
    var a := new Request[|requests|](k requires 0 <= k < |requests| => requests[k]);
    assert a[..] == requests;
    SortInPlace(sortFilter, a);
    view := a[..];
  }

  /** What the dashboard shows after a re-render. */
  datatype Rendering = Rendering(stats: Stats, view: seq<Request>)

  /** changeRequestStatus: update the store; only a successful update
      re-renders the counters and the list. */
  method ChangeRequestStatus(store: RequestStore, requestId: string, newStatus: string, now: int,
                             statusControl: Option<string>, urgencyControl: Option<string>,
                             sortControl: Option<string>) returns (rendered: Option<Rendering>)
    modifies store
    ensures rendered.Some? <==> HasId(old(store.GetRequests()), requestId)
    ensures rendered.None? ==> store.slot == old(store.slot)
    ensures rendered.Some? ==> exists i ::
      IsFirstWithId(old(store.GetRequests()), requestId, i) &&
      store.GetRequests() == SetStatus(old(store.GetRequests()), i, newStatus, now)
    ensures rendered.Some? ==> rendered.value == Rendering(
      ComputeStats(store.GetRequests()),
      DashboardView(store.GetRequests(), ControlValue(statusControl, AllValue),
        ControlValue(urgencyControl, AllValue), ControlValue(sortControl, NewestMode)))
  {
    var updated := store.UpdateRequestStatus(requestId, newStatus, now);
    if updated {
      var stats := LoadDashboardStats(store);
      var view := LoadRequests(store, statusControl, urgencyControl, sortControl);
      rendered := Some(Rendering(stats, view));
    } else {
      rendered := None;
    }
  }

  /** Changes made through the dashboard's buttons keep every status one of
      the three, so the three counters keep adding up to the total. */
  lemma ButtonChangeKeepsCountersExact(rs: seq<Request>, i: nat, j: nat, newStatus: string, now: int)
    requires AllKnown(rs)
    requires i < |rs| && j < |rs|
    requires newStatus in DetailActions(rs[j].status) || newStatus in CardActions(rs[j].status)
    ensures AllKnown(SetStatus(rs, i, newStatus, now))
    ensures StatsSum(ComputeStats(SetStatus(rs, i, newStatus, now))) == |rs|
  {
    StatsBounded(SetStatus(rs, i, newStatus, now));
  }

  /** The three sample records (one of each status) give the counters 3, 1, 1, 1. */
  lemma SampleStats(a: Request, b: Request, c: Request)
    requires a.status == PendingStatus && b.status == InProgressStatus && c.status == RescuedStatus
    ensures ComputeStats([a, b, c]) == Stats(3, 1, 1, 1)
  {
    assert [a] == [] + [a] && [a, b] == [a] + [b] && [a, b, c] == [a, b] + [c];
    StatsAfterAppend([], a);
    StatsAfterAppend([a], b);
    StatsAfterAppend([a, b], c);
  }
}

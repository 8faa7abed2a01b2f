/** The read-only views the dashboard derives from the stored list: the
    status and urgency filters of loadRequests and the counters of
    loadDashboardStats. */
module Views {
  import opened RequestModel
  import opened Selection

  /** The filter value that switches a filter off. */
  const AllValue: string := "all"

  function StatusIs(status: string): Request -> bool {
    (r: Request) => r.status == status
  }

  function UrgencyIs(name: string): Request -> bool {
    (r: Request) => UrgencyName(r.animal.urgency) == name
  }

  /** The status filter of loadRequests: 'all' passes everything. */
  function FilterByStatus(rs: seq<Request>, filter: string): (r: seq<Request>)
    ensures filter == AllValue ==> r == rs
    ensures |r| <= |rs|
  {
    if filter == AllValue then rs else Select(rs, StatusIs(filter))
  }

  /** The urgency filter of loadRequests: 'all' passes everything. */
  function FilterByUrgency(rs: seq<Request>, filter: string): (r: seq<Request>)
    ensures filter == AllValue ==> r == rs
    ensures |r| <= |rs|
  {
    if filter == AllValue then rs else Select(rs, UrgencyIs(filter))
  }

  /** 'all' passes the list through; any other value keeps exactly the
      records whose status is that value, each as often as it occurs, in
      their original order. */
  lemma FilterByStatusSpec(rs: seq<Request>, filter: string)
    ensures filter == AllValue ==> FilterByStatus(rs, filter) == rs
    ensures filter != AllValue ==> IsSubsequence(FilterByStatus(rs, filter), rs)
    ensures filter != AllValue ==> forall x ::
      multiset(FilterByStatus(rs, filter))[x] == if x.status == filter then multiset(rs)[x] else 0
  {
    if filter != AllValue {
      SelectIsSubsequence(rs, StatusIs(filter));
      forall x ensures multiset(FilterByStatus(rs, filter))[x] == if x.status == filter then multiset(rs)[x] else 0 {
        SelectCount(rs, StatusIs(filter), x);
      }
    }
  }

  /** The same for the urgency filter, which compares the urgency's name. */
  lemma FilterByUrgencySpec(rs: seq<Request>, filter: string)
    ensures filter == AllValue ==> FilterByUrgency(rs, filter) == rs
    ensures filter != AllValue ==> IsSubsequence(FilterByUrgency(rs, filter), rs)
    ensures filter != AllValue ==> forall x ::
      multiset(FilterByUrgency(rs, filter))[x] == if UrgencyName(x.animal.urgency) == filter then multiset(rs)[x] else 0
  {
    if filter != AllValue {
      SelectIsSubsequence(rs, UrgencyIs(filter));
      forall x ensures multiset(FilterByUrgency(rs, filter))[x] == if UrgencyName(x.animal.urgency) == filter then multiset(rs)[x] else 0 {
        SelectCount(rs, UrgencyIs(filter), x);
      }
    }
  }

  /** A value no urgency is spelled as leaves nothing to show. */
  lemma {:induction false} UnknownUrgencyFilterIsEmpty(rs: seq<Request>, filter: string)
    requires filter !in {AllValue, "critical", "high", "medium"}
    ensures FilterByUrgency(rs, filter) == []
  {
    if rs != [] {
      UnknownUrgencyFilterIsEmpty(rs[1..], filter);
    }
  }

  datatype Stats = Stats(total: nat, pending: nat, inProgress: nat, rescued: nat)

  /** How many stored records carry the status: at most all of them, and
      none exactly when no record has it. */
  function CountStatus(rs: seq<Request>, status: string): (c: nat)
    ensures c <= |rs|
    ensures c > 0 <==> exists k :: 0 <= k < |rs| && rs[k].status == status
  {
    CountPositive(rs, status);
    |Select(rs, StatusIs(status))|
  }

  lemma CountPositive(rs: seq<Request>, status: string)
    ensures |Select(rs, StatusIs(status))| > 0 <==> exists k :: 0 <= k < |rs| && rs[k].status == status
  {
    var sel := Select(rs, StatusIs(status));
    if |sel| > 0 {
      assert sel[0] in sel;
      var k :| 0 <= k < |rs| && rs[k] == sel[0];
      assert rs[k].status == status;
    }
    if k :| 0 <= k < |rs| && rs[k].status == status {
      SelectCount(rs, StatusIs(status), rs[k]);
      assert rs[k] in multiset(rs);
      assert multiset(sel)[rs[k]] == multiset(rs)[rs[k]] > 0;
    }
  }

  /** The four dashboard counters: the total is the list's length, each
      status counter is bounded by it and is non-zero exactly when some
      record has that status. */
  function ComputeStats(rs: seq<Request>): (st: Stats)
    ensures st.total == |rs|
    ensures st.pending <= st.total && st.inProgress <= st.total && st.rescued <= st.total
    ensures st.pending > 0 <==> exists k :: 0 <= k < |rs| && rs[k].status == PendingStatus
    ensures st.inProgress > 0 <==> exists k :: 0 <= k < |rs| && rs[k].status == InProgressStatus
    ensures st.rescued > 0 <==> exists k :: 0 <= k < |rs| && rs[k].status == RescuedStatus
  {
    Stats(|rs|, CountStatus(rs, PendingStatus), CountStatus(rs, InProgressStatus), CountStatus(rs, RescuedStatus))
  }

  function StatsSum(st: Stats): nat {
    st.pending + st.inProgress + st.rescued
  }

  /** No record is counted twice, so the three counters never exceed the
      total; they add up to it exactly when every status is one of the three. */
  lemma {:induction false} StatsBounded(rs: seq<Request>)
    ensures StatsSum(ComputeStats(rs)) <= ComputeStats(rs).total
    ensures StatsSum(ComputeStats(rs)) == ComputeStats(rs).total <==> AllKnown(rs)
  {
    if rs != [] {
      StatsBounded(rs[1..]);
      AllKnownCons(rs);
      CountCons(rs, PendingStatus);
      CountCons(rs, InProgressStatus);
      CountCons(rs, RescuedStatus);
    }
  }

  lemma CountCons(rs: seq<Request>, status: string)
    requires rs != []
    ensures CountStatus(rs, status) == (if rs[0].status == status then 1 else 0) + CountStatus(rs[1..], status)
  {
  }

  lemma AllKnownCons(rs: seq<Request>)
    requires rs != []
    ensures AllKnown(rs) <==> IsKnownStatus(rs[0].status) && AllKnown(rs[1..])
  {
    if IsKnownStatus(rs[0].status) && AllKnown(rs[1..]) {
      forall k | 0 <= k < |rs| ensures IsKnownStatus(rs[k].status) {
        if k > 0 { assert rs[k] == rs[1..][k - 1]; }
      }
    }
  }

  /** A record appended to the store adds one to the total and one to the
      counter of its own status. */
  lemma StatsAfterAppend(rs: seq<Request>, r: Request)
    ensures ComputeStats(rs + [r]).total == ComputeStats(rs).total + 1
    ensures ComputeStats(rs + [r]).pending == ComputeStats(rs).pending + (if r.status == PendingStatus then 1 else 0)
    ensures ComputeStats(rs + [r]).inProgress == ComputeStats(rs).inProgress + (if r.status == InProgressStatus then 1 else 0)
    ensures ComputeStats(rs + [r]).rescued == ComputeStats(rs).rescued + (if r.status == RescuedStatus then 1 else 0)
  {
    CountAfterAppend(rs, r, PendingStatus);
    CountAfterAppend(rs, r, InProgressStatus);
    CountAfterAppend(rs, r, RescuedStatus);
  }

  lemma CountAfterAppend(rs: seq<Request>, r: Request, s: string)
    ensures CountStatus(rs + [r], s) == CountStatus(rs, s) + (if r.status == s then 1 else 0)
  {
    SelectAppend(rs, [r], StatusIs(s));
    SelectSingleton(r, StatusIs(s));
  }

  /** Changing one record's status moves it from the counter of its old
      status to that of its new one; the total does not change. */
  lemma {:induction false} CountAfterSetStatus(rs: seq<Request>, i: nat, status: string, now: int, s: string)
    requires i < |rs|
    ensures CountStatus(SetStatus(rs, i, status, now), s) ==
      CountStatus(rs, s) - (if rs[i].status == s then 1 else 0) + (if status == s then 1 else 0)
  {
    var r := SetStatus(rs, i, status, now);
    assert rs == rs[..i] + [rs[i]] + rs[i + 1..];
    assert r == rs[..i] + [r[i]] + rs[i + 1..];
    SelectAppend(rs[..i] + [rs[i]], rs[i + 1..], StatusIs(s));
    SelectAppend(rs[..i], [rs[i]], StatusIs(s));
    SelectAppend(rs[..i] + [r[i]], rs[i + 1..], StatusIs(s));
    SelectAppend(rs[..i], [r[i]], StatusIs(s));
    SelectSingleton(rs[i], StatusIs(s));
    SelectSingleton(r[i], StatusIs(s));
  }

  /** The dashboard's counters after a status change, all four at once. */
  lemma StatsAfterSetStatus(rs: seq<Request>, i: nat, status: string, now: int)
    requires i < |rs|
    ensures ComputeStats(SetStatus(rs, i, status, now)).total == ComputeStats(rs).total
    ensures ComputeStats(SetStatus(rs, i, status, now)).pending ==
      ComputeStats(rs).pending - (if rs[i].status == PendingStatus then 1 else 0) + (if status == PendingStatus then 1 else 0)
    ensures ComputeStats(SetStatus(rs, i, status, now)).inProgress ==
      ComputeStats(rs).inProgress - (if rs[i].status == InProgressStatus then 1 else 0) + (if status == InProgressStatus then 1 else 0)
    ensures ComputeStats(SetStatus(rs, i, status, now)).rescued ==
      ComputeStats(rs).rescued - (if rs[i].status == RescuedStatus then 1 else 0) + (if status == RescuedStatus then 1 else 0)
  {
    CountAfterSetStatus(rs, i, status, now, PendingStatus);
    CountAfterSetStatus(rs, i, status, now, InProgressStatus);
    CountAfterSetStatus(rs, i, status, now, RescuedStatus);
  }
}

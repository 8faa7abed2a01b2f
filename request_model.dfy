/** The rescue-request record, the one entity the application persists. */
module RequestModel {

  datatype Urgency = Critical | High | Medium

  datatype Location = Location(latitude: string, longitude: string, address: string, city: string, pincode: string)

  /** `kind` is the record's `animal.type`. */
  datatype Animal = Animal(kind: string, condition: string, urgency: Urgency, description: string)

  datatype Reporter = Reporter(name: string, phone: string, email: string)

  /** Timestamps are epoch milliseconds. The status is a free string: the
      store accepts any value, the interface only ever writes the three below. */
  datatype Request = Request(
    id: string,
    timestamp: int,
    status: string,
    location: Location,
    animal: Animal,
    reporter: Reporter,
    updatedAt: int)

  const PendingStatus: string := "pending"
  const InProgressStatus: string := "in-progress"
  const RescuedStatus: string := "rescued"

  predicate IsKnownStatus(s: string) {
    s == PendingStatus || s == InProgressStatus || s == RescuedStatus
  }

  predicate AllKnown(rs: seq<Request>) {
    forall k :: 0 <= k < |rs| ==> IsKnownStatus(rs[k].status)
  }

  /** The urgency value as the records and the urgency filter spell it. */
  function UrgencyName(u: Urgency): (name: string)
    ensures name in {"critical", "high", "medium"}
    ensures name == "critical" <==> u == Critical
    ensures name == "high" <==> u == High
    ensures name == "medium" <==> u == Medium
  {
    match u
    case Critical => "critical"
    case High => "high"
    case Medium => "medium"
  }

  /** i is the index `findIndex` reports: the first record carrying the id. */
  predicate IsFirstWithId(rs: seq<Request>, id: string, i: int) {
    0 <= i < |rs| && rs[i].id == id && forall k :: 0 <= k < i ==> rs[k].id != id
  }

  predicate HasId(rs: seq<Request>, id: string) {
    exists k :: 0 <= k < |rs| && rs[k].id == id
  }

  /** The record at index i after its status is changed in place: the new
      status and update instant, and nothing else different anywhere. */
  function SetStatus(rs: seq<Request>, i: nat, status: string, now: int): (r: seq<Request>)
    requires i < |rs|
    ensures |r| == |rs|
    ensures r[i].status == status && r[i].updatedAt == now
    ensures r[i].id == rs[i].id && r[i].timestamp == rs[i].timestamp && r[i].location == rs[i].location
    ensures r[i].animal == rs[i].animal && r[i].reporter == rs[i].reporter
    ensures forall k :: 0 <= k < |rs| && k != i ==> r[k] == rs[k]
  {
    rs[i := rs[i].(status := status, updatedAt := now)]
  }
}

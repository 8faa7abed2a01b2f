/** The rescue form: the record handleFormSubmit builds and stores, and the
    id generateRequestId gives it. `Date.now()` and `Math.random()` are
    parameters; each `Date.now()` call of the source is its own reading. */
module RescueForm {
  import opened Wrappers
  import opened Decimal
  import opened RequestModel
  import opened Storage

  /** The named fields of the form, as FormData reads them. */
  datatype FormData = FormData(
    latitude: string, longitude: string, address: string, city: string, pincode: string,
    animalType: string, condition: string, description: string,
    reporterName: string, phone: string, email: string)

  /** `Math.floor(Math.random() * 10000)`, for a random value in [0, 1). */
  function RandomSuffix(random: real): (n: int)
    requires 0.0 <= random < 1.0
    ensures 0 <= n <= 9999
    ensures n as real <= random * 10000.0 < n as real + 1.0
  {
    (random * 10000.0).Floor
  }

  /** The id text `RQ${timestamp}${random}`. */
  /** The id text `RQ${timestamp}${random}`: the prefix, then the reading,
      then at least one more character. */
  function RequestId(timestamp: int, suffix: int): (id: string)
    ensures |id| >= 4 && id[..2] == "RQ"
    ensures "RQ" + IntToDecimal(timestamp) < id
  {
    assert ("RQ" + IntToDecimal(timestamp)) + IntToDecimal(suffix) == "RQ" + IntToDecimal(timestamp) + IntToDecimal(suffix);
    "RQ" + IntToDecimal(timestamp) + IntToDecimal(suffix)
  }

  function GenerateRequestId(now: int, random: real): (id: string)
    requires 0.0 <= random < 1.0
    ensures |id| >= 4 && id[..2] == "RQ"
    ensures exists n :: 0 <= n <= 9999 && id == RequestId(now, n)
  {
    var n := RandomSuffix(random);
    // names the random part as the witness for the exists above
    assert RequestId(now, n) == RequestId(now, n);
    RequestId(now, n)
  }

  /** Two ids whose clock readings print with the same number of digits (every
      reading between 2001 and 2286 has thirteen) agree only when both the
      reading and the random suffix agree. */
  lemma IdDeterminesParts(t1: int, n1: int, t2: int, n2: int)
    requires |IntToDecimal(t1)| == |IntToDecimal(t2)|
    requires RequestId(t1, n1) == RequestId(t2, n2)
    ensures t1 == t2 && n1 == n2
  {
    SplitConcat("RQ" + IntToDecimal(t1), IntToDecimal(n1), "RQ" + IntToDecimal(t2), IntToDecimal(n2));
    SplitConcat("RQ", IntToDecimal(t1), "RQ", IntToDecimal(t2));
    IntToDecimalInjective(t1, t2);
    IntToDecimalInjective(n1, n2);
  }

  lemma SplitConcat(a1: string, b1: string, a2: string, b2: string)
    requires |a1| == |a2| && a1 + b1 == a2 + b2
    ensures a1 == a2 && b1 == b2
  {
    assert a1 == (a1 + b1)[..|a1|] && a2 == (a2 + b2)[..|a2|];
    assert b1 == (a1 + b1)[|a1|..] && b2 == (a2 + b2)[|a2|..];
  }

  /** Without that, the id does not determine its parts: the digits run
      together. */
  lemma IdAmbiguousAcrossLengths()
    ensures RequestId(1, 23) == RequestId(12, 3)
  {
    assert NatToDecimal(23) == NatToDecimal(2) + [DigitChar(3)];
    assert NatToDecimal(12) == NatToDecimal(1) + [DigitChar(2)];
  }

  /** The record a submission builds: a new id, status pending, the checked
      urgency or medium when none is checked, every form field verbatim. */
  function BuildRequest(form: FormData, checkedUrgency: Option<Urgency>, idNow: int, random: real,
                        createdNow: int, updatedNow: int): (r: Request)
    requires 0.0 <= random < 1.0
    ensures r.id == GenerateRequestId(idNow, random)
    ensures r.status == PendingStatus
    ensures r.animal.urgency == if checkedUrgency.Some? then checkedUrgency.value else Medium
    ensures r.timestamp == createdNow && r.updatedAt == updatedNow
    ensures r.location == Location(form.latitude, form.longitude, form.address, form.city, form.pincode)
    ensures r.animal.kind == form.animalType && r.animal.condition == form.condition
    ensures r.animal.description == form.description
    ensures r.reporter == Reporter(form.reporterName, form.phone, form.email)
  {
    Request(
      id := GenerateRequestId(idNow, random),
      timestamp := createdNow,
      status := PendingStatus,
      location := Location(form.latitude, form.longitude, form.address, form.city, form.pincode),
      animal := Animal(form.animalType, form.condition,
                       match checkedUrgency case Some(u) => u case None => Medium,
                       form.description),
      reporter := Reporter(form.reporterName, form.phone, form.email),
      updatedAt := updatedNow)
  }

  /** When the second and third clock readings agree, the record was last
      updated when it was created. */
  lemma CreatedWhenUpdated(form: FormData, checkedUrgency: Option<Urgency>, idNow: int, random: real,
                           createdNow: int, updatedNow: int)
    requires 0.0 <= random < 1.0
    requires createdNow == updatedNow
    ensures BuildRequest(form, checkedUrgency, idNow, random, createdNow, updatedNow).updatedAt ==
            BuildRequest(form, checkedUrgency, idNow, random, createdNow, updatedNow).timestamp
  {
  }

  /** When the first two clock readings agree, the id starts with "RQ" and the
      record's own timestamp. */
  lemma IdEmbedsTimestamp(form: FormData, checkedUrgency: Option<Urgency>, idNow: int, random: real,
                          createdNow: int, updatedNow: int)
    requires 0.0 <= random < 1.0
    requires idNow == createdNow
    ensures "RQ" + IntToDecimal(BuildRequest(form, checkedUrgency, idNow, random, createdNow, updatedNow).timestamp) <
            BuildRequest(form, checkedUrgency, idNow, random, createdNow, updatedNow).id
  {
    var n := RandomSuffix(random);
    assert GenerateRequestId(idNow, random) == RequestId(idNow, n);
  }

  /** handleFormSubmit: builds the record, appends it to the store, and
      returns the id the confirmation shows. */
  method HandleFormSubmit(store: RequestStore, form: FormData, checkedUrgency: Option<Urgency>,
                          idNow: int, random: real, createdNow: int, updatedNow: int)
    returns (shownId: string)
    requires 0.0 <= random < 1.0
    modifies store
    ensures store.GetRequests() ==
      old(store.GetRequests()) + [BuildRequest(form, checkedUrgency, idNow, random, createdNow, updatedNow)]
    ensures |store.GetRequests()| == |old(store.GetRequests())| + 1
    ensures shownId == store.GetRequests()[|store.GetRequests()| - 1].id
  {
    var requestData := BuildRequest(form, checkedUrgency, idNow, random, createdNow, updatedNow);
    store.SaveRequest(requestData);
    shownId := requestData.id;
  }
}

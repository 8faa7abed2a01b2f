/** The request store: the single `resqRequests` slot of the browser's local
    storage. The slot holds the JSON text of a list of records; here it holds
    that list, already parsed (None when the key is absent). */
module Storage {
  import opened Wrappers
  import opened RequestModel

  /** `requests.findIndex(r => r.id === requestId)`: the first index holding
      the id, or -1 when there is none. */
  method FindIndex(rs: seq<Request>, requestId: string) returns (index: int)
    ensures index == -1 <==> !HasId(rs, requestId)
    ensures index != -1 ==> IsFirstWithId(rs, requestId, index)
  {
    index := 0;
    while index < |rs|
      invariant 0 <= index <= |rs|
      invariant forall k :: 0 <= k < index ==> rs[k].id != requestId
    {
      if rs[index].id == requestId {
        return;
      }
      index := index + 1;
    }
    index := -1;
  }

  class RequestStore {
    var slot: Option<seq<Request>>

    constructor (initial: Option<seq<Request>>)
      ensures slot == initial
    {
      slot := initial;
    }

    /** getRequests: the stored list, or the empty list when nothing has
        been stored. */
    function GetRequests(): (rs: seq<Request>)
      reads this
      ensures slot.None? ==> rs == []
      ensures slot.Some? ==> rs == slot.value
    {
      match slot
      case None => []
      case Some(requests) => requests
    }

    /** saveRequest: read the list, push the record, write the list back. */
    method SaveRequest(request: Request)
      modifies this
      ensures slot == Some(old(GetRequests()) + [request])
      ensures GetRequests() == old(GetRequests()) + [request]
    {
      var requests := GetRequests();
      requests := requests + [request];
      slot := Some(requests);
    }

    /** Saving records one at a time, as `sampleRequests.forEach(saveRequest)`
        does: the list reads back as the old list followed by them, in order. */
    method SaveRequests(requests: seq<Request>)
      modifies this
      ensures GetRequests() == old(GetRequests()) + requests
      ensures requests != [] ==> slot.Some?
      ensures requests == [] ==> slot == old(slot)
    {
      var i := 0;
      while i < |requests|
        invariant 0 <= i <= |requests|
        invariant GetRequests() == old(GetRequests()) + requests[..i]
        invariant i > 0 ==> slot.Some?
        invariant i == 0 ==> slot == old(slot)
      {
        SaveRequest(requests[i]);
        assert requests[..i + 1] == requests[..i] + [requests[i]];
        i := i + 1;
      }
      assert requests[..i] == requests;
    }

    /** updateRequestStatus: the first record with the id gets the new status
        (any string) and the update instant `now`, and the list is written
        back; with no such record nothing is written. */
    method UpdateRequestStatus(requestId: string, newStatus: string, now: int) returns (updated: bool)
      modifies this
      ensures updated <==> HasId(old(GetRequests()), requestId)
      ensures updated ==> exists i ::
        IsFirstWithId(old(GetRequests()), requestId, i) && slot == Some(SetStatus(old(GetRequests()), i, newStatus, now))
      ensures !updated ==> slot == old(slot)
    {
      var requests := GetRequests();
      var index := FindIndex(requests, requestId);
      if index != -1 {
        ghost var before := requests;
        requests := requests[index := requests[index].(status := newStatus)];
        requests := requests[index := requests[index].(updatedAt := now)];
        assert requests == SetStatus(before, index, newStatus, now);
        slot := Some(requests);
        return true;
      }
      return false;
    }

    /** clearAllRequests: with the user's confirmation the slot is removed,
        so the next read is the empty list; without it nothing changes. */
    method ClearAllRequests(confirmed: bool)
      modifies this
      ensures confirmed ==> slot == None && GetRequests() == []
      ensures !confirmed ==> slot == old(slot)
    {
      if confirmed {
        slot := None;
      }
    }
  }
}

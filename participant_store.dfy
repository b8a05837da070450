/** The participant directory: a store that fetches the participant list
    once and answers lookups by uuid. */
module ParticipantStore {
  import opened ChatTypes

  /** The position of the first participant whose `uuid` is `uuid`, if any. */
  function FindIndex(ps: seq<Participant>, uuid: string): (r: Option<nat>)
    ensures r.Some? ==> r.value < |ps| && ps[r.value].uuid == uuid
    ensures r.Some? ==> forall j :: 0 <= j < r.value ==> ps[j].uuid != uuid
    ensures r.None? ==> forall j :: 0 <= j < |ps| ==> ps[j].uuid != uuid
  {
    if ps == [] then None
    else if ps[0].uuid == uuid then Some(0)
    else match FindIndex(ps[1..], uuid)
      case None => None
      case Some(i) => Some(i + 1)
  }

  class Store {
    var participants: seq<Participant>
    var isFetched: bool

    /** The store as created: no participants, not fetched. */
    constructor ()
      ensures participants == [] && !isFetched
    {
      participants := [];
      isFetched := false;
    }

    /** `fetchParticipants` with the outcome of the GET passed in. Once a
        fetch has succeeded nothing changes any more; before that, a success
        stores the response and sets `isFetched`, and a failure changes
        nothing. */
    method FetchParticipants(response: Fetch<seq<Participant>>)
      modifies this
      ensures old(isFetched) ==> participants == old(participants) && isFetched
      ensures !old(isFetched) && response.Loaded? ==> participants == response.data && isFetched
      ensures !old(isFetched) && response.Failed? ==> participants == old(participants) && !isFetched
    {
      if isFetched {
        return;
      }
      if response.Loaded? {
        participants, isFetched := response.data, true;
      }
    }

    /** `participants.find((item) => item.uuid === uuid)`: the first
        participant in list order with that uuid; nothing exactly when no
        participant has it. */
    function GetParticipantByUUID(uuid: string): (r: Option<Participant>)
      reads this
      ensures r.None? <==> forall j :: 0 <= j < |participants| ==> participants[j].uuid != uuid
      ensures r.Some? ==> r.value.uuid == uuid
      ensures r.Some? ==> exists i :: && 0 <= i < |participants|
                                      && participants[i] == r.value
                                      && forall j :: 0 <= j < i ==> participants[j].uuid != uuid
    {
      match FindIndex(participants, uuid)
      case None => None
      case Some(i) => Some(participants[i])
    }
  }

  /** The home screen calls `fetchParticipants` on every render. Fetch-once:
      after one successful fetch, any number of further calls, whatever their
      outcome, leave the store as it was. */
  method RepeatedFetches(store: Store, first: Fetch<seq<Participant>>, later: seq<Fetch<seq<Participant>>>)
    requires !store.isFetched && first.Loaded?
    modifies store
    ensures store.isFetched && store.participants == first.data
  {
    store.FetchParticipants(first);
    var i := 0;
    while i < |later|
      invariant i <= |later|
      invariant store.isFetched && store.participants == first.data
    {
      store.FetchParticipants(later[i]);
      i := i + 1;
    }
  }
}

/** The entities the chat screen works on: messages with their reactions and
    attachments, directory participants, and the outcome of a request. */
module ChatTypes {

  datatype Option<T> = None | Some(value: T)

  /** What a request to the message service or the participant endpoint
      delivers: the response body, or a failure that the handler catches
      (network error, timeout, a body it cannot use). */
  datatype Fetch<T> = Loaded(data: T) | Failed

  /** One entry of a message's `reactions` array. */
  datatype Reaction = Reaction(uuid: string, participantUuid: string, value: string)

  datatype Attachment = Attachment(url: string)

  /** A message as the service returns it; `sentAt` is the send time as a
      number, the only ordering key. */
  datatype Message = Message(
    uuid: string,
    authorUuid: string,
    text: string,
    attachments: seq<Attachment>,
    reactions: seq<Reaction>,
    sentAt: int,
    edited: bool)

  datatype Participant = Participant(uuid: string, name: string, avatarUrl: string)

  /** `new Set(ms.map((msg) => msg.uuid))`. */
  function Uuids(ms: seq<Message>): (u: set<string>)
    ensures forall i :: 0 <= i < |ms| ==> ms[i].uuid in u
    ensures forall id :: id in u ==> exists i :: 0 <= i < |ms| && ms[i].uuid == id
  {
    set m | m in ms :: m.uuid
  }

  /** No two entries of `ms` share a `uuid`. */
  ghost predicate UniqueUuids(ms: seq<Message>)
  {
    forall i, j :: 0 <= i < j < |ms| ==> ms[i].uuid != ms[j].uuid
  }
}

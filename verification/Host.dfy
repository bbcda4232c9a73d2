/** What one incoming frame does to the host's client: matching replies to the call that waits. */
module Host {
  import opened Bytes
  import opened Values
  import opened Messages
  import DeviceRuns

  datatype Answer = Answer(isError: bool, value: Value)

  /** The call in progress, and its answer once a matching reply has arrived. */
  datatype Waiting = Waiting(msgid: nat, answer: Option<Answer>)

  datatype Stats = Stats(notices: nat, logs: nat, strays: nat, malformed: nat)

  type MsgId = n: nat | n < 0x1_0000_0000

  datatype Client = Client(nextId: MsgId, waiting: Option<Waiting>, stats: Stats)

  const IDLE: Client := Client(1, None, Stats(0, 0, 0, 0))

  /** A frame that decodes far enough to be counted; a value that does not decode throws. */
  function Take(c: Client, m: Incoming): Client {
    match m
    case Reply(id, isError, v) =>
      if c.waiting.Some? && c.waiting.value.msgid == id then
        c.(waiting := Some(Waiting(id, Some(Answer(isError, v)))))
      else c.(stats := c.stats.(strays := c.stats.strays + 1))
    case Notice(name, _) =>
      if name == DeviceRuns.LOG then c.(stats := c.stats.(logs := c.stats.logs + 1))
      else c.(stats := c.stats.(notices := c.stats.notices + 1))
    case Garbled => c.(stats := c.stats.(malformed := c.stats.malformed + 1))
    case Throws => c
  }
}

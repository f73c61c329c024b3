/** The wire records exchanged by the calculator: an inbound event and an
    outbound metrics update. Times and intervals are integer nanoseconds.
    A metadata map is given as its key/value pairs in iteration order. */
module Proto {

  type Metadata = seq<(string, string)>

  /** `proto.Event`, without the payload bytes (only their size matters here). */
  datatype Event = Event(
    targetId: string,
    key: string,
    serverTimestamp: int,
    payloadSize: int,
    metadata: Metadata)

  /** `proto.MetricsUpdate`: the statistics of one series after one event. */
  datatype MetricsUpdate = MetricsUpdate(
    targetId: string,
    key: string,
    min: int,
    max: int,
    avg: int,
    p90: int,
    count: nat,
    lastUpdated: int,
    metadata: Metadata)
}

/** The records the statistics dataflow consumes: worker ids, operator
    addresses, channels, and the timely and differential log events, each
    carried with its event time and the worker that logged it. */
module LogEvents {
  import opened Wrappers

  /** Index of a worker thread. */
  type WorkerId = nat

  /** The path of an operator within the nesting hierarchy; a prefix is an
      enclosing scope. */
  type OperatorAddr = seq<nat>

  /** The empty or single-element address denotes a top-level dataflow. */
  predicate IsTopLevel(addr: OperatorAddr) {
    |addr| <= 1
  }

  datatype ChannelKind = Ingress | Egress | Normal

  /** A channel between two operator ports. */
  datatype Channel = Channel(id: nat, kind: ChannelKind, source: (OperatorAddr, nat), target: (OperatorAddr, nat))

  /** The events differential dataflow logs about its arrangements; every
      variant names the operator that owns the arrangement. */
  datatype DifferentialEvent =
    | Batch(operator: nat, length: nat)
    | Merge(operator: nat, scale: nat, complete: Option<nat>)
    | MergeShortfall(operator: nat, scale: nat, shortfall: nat)
    | TraceShare(operator: nat, diff: int)
    | Drop(operator: nat)

  /** One logged event: its event time in nanoseconds, the worker that logged
      it and the payload `E`. */
  datatype LogRecord<E> = LogRecord(eventTime: nat, worker: WorkerId, event: E)

  /** A trace share with a non-negative diff shows that an arrangement exists;
      negative shares and every other differential event do not. */
  predicate SignalsArrangement(e: DifferentialEvent) {
    e.TraceShare? && e.diff >= 0
  }

  /** The worker of a log record. */
  function RecordWorker<E>(r: LogRecord<E>): WorkerId {
    r.worker
  }

  /** The worker and event time of a log record. */
  function WorkerAndTime<E>(r: LogRecord<E>): (WorkerId, nat) {
    (r.worker, r.eventTime)
  }
}

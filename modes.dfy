/** The execution mode, the error signal and the result shape shared by every
    parser. A mode only decides whether an output value is materialised; it
    is never consulted for control flow. */
module Modes {

  /** Check validates without building output; Emit builds the output value. */
  datatype Mode = Check | Emit

  /** A mode-shaped output: Check leaves a discardable unit, Emit the value. */
  datatype Out<V> = Discarded | Emitted(value: V)

  /** `M::bind(|| v)`: under Emit, wraps the value; under Check, does not use it. */
  function Bind<V>(m: Mode, v: V): (o: Out<V>)
    ensures o.Emitted? <==> m == Emit
    ensures o.Emitted? ==> o.value == v
  {
    match m
    case Check => Discarded
    case Emit => Emitted(v)
  }

  /** The single, payload-free failure value (`E::create()`). */
  datatype Error = NoMatch

  /** `PResult<M, O, E>`: a mode-shaped output or the error signal. */
  datatype PResult<V> = Ok(out: Out<V>) | Err(error: Error)

  /** What a Check-mode run keeps of a result: success or failure, no value. */
  function Erase<V>(r: PResult<V>): (e: PResult<V>)
    ensures e.Ok? <==> r.Ok?
    ensures e.Ok? ==> e.out == Discarded
    ensures e.Err? ==> e == r
  {
    match r
    case Ok(_) => Ok(Discarded)
    case Err(err) => Err(err)
  }
}

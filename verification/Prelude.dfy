/** What every module shares. */
module Prelude {

  datatype Option<+T> = None | Some(value: T) {
    function GetOr(default: T): T {
      if Some? then value else default
    }
  }

  /** A Python call that either returns a value or raises. */
  datatype Result<+T, +E> = Success(value: T) | Failure(error: E)

  /** The slots of a gate, the larger of 1 and the concurrency asked for. */
  function Slots(concurrency: int): (slots: nat)
    ensures slots >= 1 && slots >= concurrency && (slots == 1 || slots == concurrency)
  {
    if concurrency < 1 then 1 else concurrency
  }

  lemma {:induction false} Regroup<T>(a: seq<T>, b: seq<T>, c: seq<T>)
    ensures a + (b + c) == (a + b) + c
  {
  }

  /** What became of a write to a device: only an acknowledged one returns normally. */
  datatype Outcome = Acked | Unacked | Lost
}

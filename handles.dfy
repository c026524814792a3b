/** Handles into an arena and the small result types its operations return. */
module Handles {

  /** `Id { index, generation }`: names the occupant of slot `index` that was put there while the
      slot's generation counter read `generation`. The source's `u32` fields are unbounded here. */
  datatype Id = Id(index: nat, generation: nat)

  datatype Option<T> = None | Some(value: T)

  /** Outcome of the panicking indexing operators: the value, or the panic naming the handle
      that did not resolve. */
  datatype Indexed<T> = Ok(value: T) | Panicked(culprit: Id)
}

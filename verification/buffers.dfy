/** The double buffer every subsystem keeps: the committed `state`, which every
    `evolve` of the tick reads, and the `nextState` that the subsystem's own
    `evolve` overwrites. `sync` swaps the two, which commits the new state and
    hands the old one back as scratch space for the next tick. */
module Buffers {

  datatype Buffered<T> = Buffered(state: T, next: T)

  /** `swapBuffers`. */
  function Swap<T>(b: Buffered<T>): (r: Buffered<T>)
    ensures r.state == b.next && r.next == b.state
  {
    Buffered(b.next, b.state)
  }

  /** One tick of a subsystem: `evolve` writes `computed` into `nextState`,
      then `sync` swaps. */
  function Tick<T>(b: Buffered<T>, computed: T): (r: Buffered<T>)
  {
    Swap(b.(next := computed))
  }

  /** After a tick the computed state is committed and the previously committed
      state is the scratch buffer; whatever the scratch buffer held before is
      gone, so a tick depends only on the committed state it read. */
  lemma TickCommits<T>(b: Buffered<T>, c: Buffered<T>, computed: T)
    requires b.state == c.state
    ensures Tick(b, computed).state == computed && Tick(b, computed).next == b.state
    ensures Tick(b, computed) == Tick(c, computed)
  {
  }
}

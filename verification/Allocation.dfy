/** The memory that the library asks the system for. */
module Allocation {
  /** Any request may be refused; the library gives up at the first refusal. */
  class Allocator {
    var failed: bool

    constructor ()
      ensures !failed
    {
      failed := false;
    }

    /** `malloc` and `realloc`, and the failure stack up to its maximum. */
    method Request() returns (ok: bool)
      requires !failed
      modifies this
      ensures ok == !failed
    {
      ok := *;
      failed := !ok;
    }
  }
}

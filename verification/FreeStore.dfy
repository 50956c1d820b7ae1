/** The C++ free store, as far as `new` and `delete` are concerned.

    A cell may be read or deleted only while it is live; the preconditions of `Delete` and of the
    accessors of the node classes turn a read after free or a double free into a failed proof. */
module FreeStores {

  class FreeStore<N(==)> {
    ghost var live: set<N>   // allocated and not yet deleted
    ghost var freed: seq<N>  // everything deleted so far, in order

    constructor ()
      ensures live == {} && freed == []
    {
      live, freed := {}, [];
    }

    /** `new` has just returned `n`. */
    ghost method Register(n: N)
      requires n !in live
      modifies this
      ensures live == old(live) + {n} && freed == old(freed)
    {
      live := live + {n};
    }

    /** `delete n` */
    ghost method Delete(n: N)
      requires n in live
      modifies this
      ensures live == old(live) - {n} && freed == old(freed) + [n]
    {
      live, freed := live - {n}, freed + [n];
    }
  }

  /** The two actions the repository hands to a `browse`: look at the node's data, or delete the node. */
  datatype Action = Show | Delete
}

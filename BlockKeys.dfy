/**
 * The block key generator: each call returns a non-empty key that it has
 * never returned before.
 */
module BlockKeys {

  class BlockKeyGenerator {
    /** Every key returned so far. */
    var seenKeys: set<string>
    /** Source of new candidates: no seen key is longer than this. */
    var next: nat

    ghost predicate Valid()
      reads this
    {
      forall s :: s in seenKeys ==> |s| <= next
    }

    constructor ()
      ensures Valid()
      ensures seenKeys == {}
    {
      seenKeys := {};
      next := 0;
    }

    method Generate() returns (key: string)
      requires Valid()
      modifies this
      ensures Valid()
      ensures key != "" && key !in old(seenKeys)
      ensures seenKeys == old(seenKeys) + {key}
    {
      key := seq(next + 1, _ => 'k');
      seenKeys := seenKeys + {key};
      next := next + 1;
    }
  }
}

/** Counting the elements that carry the `active` class. */
module Flags {

  /** How many of the flags are set. */
  function CountSet(flags: seq<bool>): (n: nat)
    ensures n <= |flags|
    decreases |flags|
  {
    if flags == [] then 0 else (if flags[0] then 1 else 0) + CountSet(flags[1..])
  }

  /** No flag set: the count is zero. */
  lemma {:induction false} CountNone(flags: seq<bool>)
    requires forall j :: 0 <= j < |flags| ==> !flags[j]
    ensures CountSet(flags) == 0
    decreases |flags|
  {
    if flags != [] {
      CountNone(flags[1..]);
    }
  }

  /** Exactly the flag at `i` set: the count is one. */
  lemma {:induction false} CountOnlyAt(flags: seq<bool>, i: nat)
    requires i < |flags|
    requires forall j :: 0 <= j < |flags| ==> flags[j] == (j == i)
    ensures CountSet(flags) == 1
    decreases |flags|
  {
    if i == 0 {
      CountNone(flags[1..]);
    } else {
      CountOnlyAt(flags[1..], i - 1);
    }
  }
}

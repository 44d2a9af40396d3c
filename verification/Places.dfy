/** Increasing places in a list. */
module Places {
  predicate Increasing(places: seq<nat>) {
    forall i, j | 0 <= i < j < |places| :: places[i] < places[j]
  }

  /** A place before all others goes in front of them. */
  lemma InFront(first: nat, rest: seq<nat>)
    requires Increasing(rest) && forall k | k in rest :: first < k
    ensures Increasing([first] + rest)
    ensures forall k: int :: k in [first] + rest <==> k == first || k in rest
    ensures forall i :: 0 <= i <= |rest| ==> ([first] + rest)[i] == if i == 0 then first else rest[i - 1]
  {
    forall i | 0 <= i < |rest| ensures first < rest[i] { assert rest[i] in rest; }
  }

  /** A place after all others goes behind them. */
  lemma Behind(rest: seq<nat>, last: nat)
    requires Increasing(rest) && forall k | k in rest :: k < last
    ensures Increasing(rest + [last])
    ensures forall k: int :: k in rest + [last] <==> k == last || k in rest
    ensures forall i :: 0 <= i <= |rest| ==> (rest + [last])[i] == if i == |rest| then last else rest[i]
  {
    forall i | 0 <= i < |rest| ensures rest[i] < last { assert rest[i] in rest; }
  }
}

/** A stored value along a run is what the last event left that wrote it. */
module LastWrites {
  import opened Options

  /** What an event does to a value: nothing, or it leaves this. */
  type Write<V> = Option<Option<V>>

  function Written<V>(before: Option<V>, w: Write<V>): Option<V> {
    match w case None => before case Some(r) => r
  }

  /** The values before each event and at the end, and what the events write. */
  predicate Follows<V(==)>(values: seq<Option<V>>, writes: seq<Write<V>>) {
    && |values| == |writes| + 1
    && forall n | 0 <= n < |writes| :: values[n + 1] == Written(values[n], writes[n])
  }

  /** The last of the first `n` events that wrote left `r`. */
  ghost predicate LastWrite<V>(writes: seq<Write<V>>, n: nat, r: Option<V>)
    requires n <= |writes|
  {
    exists i :: 0 <= i < n && writes[i] == Some(r) && forall j | i < j < n :: writes[j] == None
  }

  predicate NoWrite<V>(writes: seq<Write<V>>, n: nat)
    requires n <= |writes|
  {
    forall j | 0 <= j < n :: writes[j].None?
  }

  /** What the last write left, or what was there at first. */
  ghost predicate Left<V>(first: Option<V>, writes: seq<Write<V>>, n: nat, r: Option<V>)
    requires n <= |writes|
  {
    LastWrite(writes, n, r) || (r == first && NoWrite(writes, n))
  }

  /** A value is `r` if and only if the last write left `r`, or there was none and it was `r` at first. */
  lemma {:induction false} ValueIsLastWrite<V>(values: seq<Option<V>>, writes: seq<Write<V>>, n: nat, r: Option<V>)
    requires Follows(values, writes) && n <= |writes|
    ensures values[n] == r <==> Left(values[0], writes, n, r)
  {
    if n > 0 {
      ValueIsLastWrite(values, writes, n - 1, r);
      if writes[n - 1].None? {
        assert values[n - 1 + 1] == values[n - 1];
        assert LastWrite(writes, n, r) <==> LastWrite(writes, n - 1, r);
      } else {
        assert values[n - 1 + 1] == writes[n - 1].value;
        assert LastWrite(writes, n, r) <==> writes[n - 1].value == r;
      }
    }
  }
}

/** The three-way merge `merge_sessions` applies on every save: starting from the
    attributes currently stored, it removes the keys this request deleted since
    its load-time baseline and writes the keys this request changed, so that a
    concurrent request's unrelated changes survive. */
module Merge {
  import opened Values

  /** Keys this request deleted: held by its baseline, gone from its session. */
  function Deleted(baseline: Attrs, incoming: Attrs): set<Key> {
    baseline.Keys - incoming.Keys
  }

  /** The writes this request makes: every key of its session whose value differs
      from what the baseline answers for it (nil for a key the baseline lacks). */
  function Updates(baseline: Attrs, incoming: Attrs): Attrs {
    map k | k in incoming && incoming[k] != Lookup(baseline, k) :: incoming[k]
  }

  /** Whether this request deleted or wrote key `k`. */
  predicate Touched(baseline: Attrs, incoming: Attrs, k: Key) {
    || (k in baseline && k !in incoming)
    || (k in incoming && incoming[k] != Lookup(baseline, k))
  }

  /** The keys this request deleted or wrote. */
  function TouchedKeys(baseline: Attrs, incoming: Attrs): set<Key> {
    set k | k in baseline.Keys + incoming.Keys && Touched(baseline, incoming, k)
  }

  /** The merge contract, key by key: deleted keys are gone, written keys hold
      the request's value, and every other key is exactly as in `current`. */
  ghost predicate ThreeWay(baseline: Attrs, incoming: Attrs, current: Attrs, merged: Attrs) {
    && (forall k :: k in baseline && k !in incoming ==> k !in merged)
    && (forall k :: k in incoming && incoming[k] != Lookup(baseline, k) ==>
          k in merged && merged[k] == incoming[k])
    && (forall k :: !Touched(baseline, incoming, k) ==>
          (k in merged <==> k in current) && (k in current ==> merged[k] == current[k]))
  }

  /** The merge of two well-formed session hashes. */
  function Merge3(baseline: Attrs, incoming: Attrs, current: Attrs): (merged: Attrs)
    ensures ThreeWay(baseline, incoming, current, merged)
  {
    (current - Deleted(baseline, incoming)) + Updates(baseline, incoming)
  }

  /** `merge_sessions sid, old, new, cur`: a nil `cur` counts as an empty hash, and
      a baseline or session that is not a Hash leaves `cur` as it is. */
  function MergeSessions(baseline: Value, incoming: Value, current: Option<Attrs>): (merged: Attrs)
    ensures !(baseline.Hash? && incoming.Hash?) ==> merged == current.GetOr(map[])
    ensures baseline.Hash? && incoming.Hash? ==>
              ThreeWay(baseline.entries, incoming.entries, current.GetOr(map[]), merged)
  {
    var cur := current.GetOr(map[]);
    if baseline.Hash? && incoming.Hash? then Merge3(baseline.entries, incoming.entries, cur) else cur
  }

  /** The merge contract determines the merged hash completely. */
  lemma ThreeWayUnique(baseline: Attrs, incoming: Attrs, current: Attrs, m1: Attrs, m2: Attrs)
    requires ThreeWay(baseline, incoming, current, m1)
    requires ThreeWay(baseline, incoming, current, m2)
    ensures m1 == m2
  {
  }

  /** The merge as the source computes it: delete each deleted key from `cur`
      one at a time, then assign each written key one at a time. */
  method MergeInPlace(baseline: Attrs, incoming: Attrs, current: Attrs) returns (cur: Attrs)
    ensures ThreeWay(baseline, incoming, current, cur)
  {
    cur := current;
    var delete := Deleted(baseline, incoming);
    var dropped: set<Key> := {};
    while delete != {}
      invariant delete !! dropped && delete + dropped == Deleted(baseline, incoming)
      invariant cur == current - dropped
      decreases delete
    {
      var k :| k in delete;
      cur := cur - {k};
      dropped := dropped + {k};
      delete := delete - {k};
    }
    var writes := Updates(baseline, incoming);
    var update := writes.Keys;
    while update != {}
      invariant update <= writes.Keys
      invariant forall k :: k in writes && k !in update ==> k in cur && cur[k] == writes[k]
      invariant forall k :: k !in writes || k in update ==>
                  (k in cur <==> k in current && k !in dropped) && (k in cur ==> cur[k] == current[k])
      decreases update
    {
      var k :| k in update;
      cur := cur[k := writes[k]];
      update := update - {k};
    }
  }

  /** A request that changed nothing leaves the stored hash as it is. */
  lemma MergeNoEdits(baseline: Attrs, current: Attrs)
    ensures Merge3(baseline, baseline, current) == current
  {
  }

  /** With no concurrent writer (the store still holds the baseline), the merged
      hash answers every key exactly as the request's session does. */
  lemma MergeUncontended(baseline: Attrs, incoming: Attrs)
    ensures forall k :: Lookup(Merge3(baseline, incoming, baseline), k) == Lookup(incoming, k)
  {
  }

  /** Whether the request added a key holding nil: a change a Hash comparison
      of `new[k]` with `old[k]` cannot see, since both read nil. */
  predicate AddsNil(baseline: Attrs, incoming: Attrs) {
    exists k :: k in incoming && k !in baseline && incoming[k] == Nil
  }

  /** Without nil-valued additions, the uncontended merge is the request's session. */
  lemma MergeUncontendedExact(baseline: Attrs, incoming: Attrs)
    requires !AddsNil(baseline, incoming)
    ensures Merge3(baseline, incoming, baseline) == incoming
  {
  }

  /** A key newly set to nil is not written: the uncontended merge differs from
      the request's session. */
  lemma NilAdditionDropped()
    ensures Merge3(map[], map["k" := Nil], map[]) == map[]
    ensures AddsNil(map[], map["k" := Nil])
  {
    var none: Attrs := map[];
    var incoming: Attrs := map["k" := Nil];
    assert "k" in incoming && "k" !in none && incoming["k"] == Nil;
    var m := Merge3(none, incoming, none);
    assert !Touched(none, incoming, "k");
    assert m.Keys == {};
  }

  /** Saving the same request twice stores the same hash as saving it once. */
  lemma MergeIdempotent(baseline: Attrs, incoming: Attrs, current: Attrs)
    ensures Merge3(baseline, incoming, Merge3(baseline, incoming, current))
         == Merge3(baseline, incoming, current)
  {
  }

  /** One key of two requests' saves in either order, when at most one of the
      two requests touched it. */
  lemma CommuteAt(baseline: Attrs, a: Attrs, b: Attrs, current: Attrs, k: Key)
    requires !(Touched(baseline, a, k) && Touched(baseline, b, k))
    ensures var ab := Merge3(baseline, b, Merge3(baseline, a, current));
            var ba := Merge3(baseline, a, Merge3(baseline, b, current));
            (k in ab <==> k in ba) && (k in ab ==> ab[k] == ba[k])
  {
  }

  /** Two requests that loaded the same baseline and touched disjoint keys: both
      orders of saving store the same hash, and each request's deletions and
      writes survive the other's save. */
  lemma DisjointMergesCommute(baseline: Attrs, a: Attrs, b: Attrs, current: Attrs)
    requires TouchedKeys(baseline, a) !! TouchedKeys(baseline, b)
    ensures Merge3(baseline, b, Merge3(baseline, a, current))
         == Merge3(baseline, a, Merge3(baseline, b, current))
    ensures var both := Merge3(baseline, b, Merge3(baseline, a, current));
            && Deleted(baseline, a) !! both.Keys
            && Deleted(baseline, b) !! both.Keys
            && (forall k :: k in Updates(baseline, a) ==> k in both && both[k] == a[k])
            && (forall k :: k in Updates(baseline, b) ==> k in both && both[k] == b[k])
  {
    var ab := Merge3(baseline, b, Merge3(baseline, a, current));
    var ba := Merge3(baseline, a, Merge3(baseline, b, current));
    forall k
      ensures (k in ab <==> k in ba) && (k in ab ==> ab[k] == ba[k])
    {
      if Touched(baseline, a, k) {
        assert k in TouchedKeys(baseline, a);
      }
      CommuteAt(baseline, a, b, current, k);
    }
    assert ab == ba;
    forall k | k in Updates(baseline, a)
      ensures k in ab && ab[k] == a[k]
    {
      assert k in TouchedKeys(baseline, a);
      assert !Touched(baseline, b, k);
    }
    forall k | k in Deleted(baseline, a)
      ensures k !in ab
    {
      assert k in TouchedKeys(baseline, a);
      assert !Touched(baseline, b, k);
    }
  }
}

/** Concrete runs of the store: the counter and renewal request sequences the
    repository's spec file drives through the middleware, and two worked merge
    examples. */
module Scenarios {
  import opened Values
  import opened Codec
  import opened Merge
  import opened SidGen
  import opened Store

  function Counter(n: int): Attrs {
    map["counter" := Int(n)]
  }

  /** Deletion wins: `b` removed by the request is dropped even though the
      stored hash still holds it, and `c` added by another request survives. */
  lemma MergeDeletionPrecedence()
    ensures Merge3(map["a" := Int(1), "b" := Int(2)], map["a" := Int(1)],
                   map["a" := Int(1), "b" := Int(2), "c" := Int(3)])
         == map["a" := Int(1), "c" := Int(3)]
  {
  }

  /** A concurrent unrelated addition `x` survives the request's update of `a`. */
  lemma MergeKeepsConcurrentUpdate()
    ensures Merge3(map["a" := Int(1)], map["a" := Int(2)], map["a" := Int(1), "x" := Int(9)])
         == map["a" := Int(2), "x" := Int(9)]
  {
  }

  /** A cookie naming no row starts a new session, as a missing cookie does. */
  lemma UnknownIdStartsOver(s1: Sid)
    ensures HasFresh({}, [s1])
    ensures GetSession(map[], Some("qwerty"), [s1])
         == Ok(Loaded(s1, Session(map[], map[]), map[s1 := Some(Pack(map[]))]))
    ensures GetSession(map[], Some("qwerty"), [s1]) == GetSession(map[], None, [s1])
  {
    var none: set<Sid> := {};
    assert [s1][0] !in none;
  }

  /** First request of the incrementing handler, load: a new id and one new
      row holding the empty hash. */
  lemma CounterFirstLoad(s1: Sid)
    ensures HasFresh({}, [s1])
    ensures GetSession(map[], None, [s1])
         == Ok(Loaded(s1, Session(map[], map[]), map[s1 := Some(Pack(map[]))]))
  {
    var none: set<Sid> := {};
    assert [s1][0] !in none;
  }

  /** First request, save: the counter lands in the one row. */
  lemma CounterFirstSave(s1: Sid)
    ensures SetSession(map[s1 := Some(Pack(map[]))], s1, Hash(Counter(1)), Some(map[]), false, [])
         == Ok(Saved(s1, map[s1 := Some(Pack(Counter(1)))]))
  {
    var db: Db := map[s1 := Some(Pack(map[]))];
    assert StoredSession(db[s1]) == Ok(Some(map[]));
    MergeUncontendedExact(map[], Counter(1));
    SaveRows(db, s1, Hash(Counter(1)), Some(map[]), false, []);
    assert db[s1 := Some(Pack(Counter(1)))] == map[s1 := Some(Pack(Counter(1)))];
  }

  /** Second request, load: the counter comes back under the same id. */
  lemma CounterSecondLoad(s1: Sid)
    ensures var db := map[s1 := Some(Pack(Counter(1)))];
            GetSession(db, Some(s1), []) == Ok(Loaded(s1, Session(Counter(1), Counter(1)), db))
  {
  }

  /** The handler's update as the merge sees it: the one key is rewritten. */
  lemma CounterMerge(before: int, after: int)
    ensures MergeSessions(Hash(Counter(before)), Hash(Counter(after)), Some(Counter(before)))
         == Counter(after)
  {
  }

  /** A later request, save: the incremented counter overwrites the old one in
      the one row. */
  lemma CounterLaterSave(s1: Sid, before: int, after: int)
    ensures SetSession(map[s1 := Some(Pack(Counter(before)))], s1, Hash(Counter(after)),
                       Some(Counter(before)), false, [])
         == Ok(Saved(s1, map[s1 := Some(Pack(Counter(after)))]))
  {
    var db: Db := map[s1 := Some(Pack(Counter(before)))];
    assert StoredSession(db[s1]) == Ok(Some(Counter(before)));
    CounterMerge(before, after);
    SaveRows(db, s1, Hash(Counter(after)), Some(Counter(before)), false, []);
    assert db[s1 := Some(Pack(Counter(after)))] == map[s1 := Some(Pack(Counter(after)))];
  }

  /** A renewing request on a one-row table: the row moves to the new id with the
      incremented counter, and the table still has one row. */
  lemma RenewScenario(s1: Sid, s2: Sid)
    requires s1 != s2
    ensures HasFresh(map[s1 := Some(Pack(Counter(2)))].Keys - {s1}, [s2])
    ensures SetSession(map[s1 := Some(Pack(Counter(2)))], s1, Hash(Counter(3)), Some(Counter(2)), true, [s2])
         == Ok(Saved(s2, map[s2 := Some(Pack(Counter(3)))]))
  {
    var db: Db := map[s1 := Some(Pack(Counter(2)))];
    assert db.Keys - {s1} == {};
    assert [s2][0] !in db.Keys - {s1};
    assert StoredSession(db[s1]) == Ok(Some(Counter(2)));
    CounterMerge(2, 3);
    SaveRows(db, s1, Hash(Counter(3)), Some(Counter(2)), true, [s2]);
    assert db - {s1} == map[];
  }
}

/** The session store (`Rack::Session::Sequel`): loading a session by id, with a
    fresh empty session on a miss, and saving it back through the three-way
    merge, optionally under a renewed id. The backing table is a map from
    `session_id` to the `data` column; every operation returns the table as it
    leaves it. */
module Store {
  import opened Values
  import opened Codec
  import opened Merge
  import opened SidGen

  /** The backing table: `session_id` to the `data` column (`None` is NULL). */
  type Db = map<Sid, Option<Payload>>

  /** A loaded session: the attributes handed to the request, and the copy of
      them taken at load time that the next save merges against. */
  datatype Session = Session(attrs: Attrs, baseline: Attrs)

  /** What `get_session` returns, with the table it leaves behind. */
  datatype Loaded = Loaded(sid: Sid, session: Session, db: Db)

  /** What `set_session` returns, with the table it leaves behind. */
  datatype Saved = Saved(sid: Sid, db: Db)

  /** A stored `data` column read as a session: `Ok(None)` when it unpacks to nil
      or false (no session), `Ok(Some(h))` when it unpacks to a Hash, and an
      error when Marshal rejects it or it unpacks to any other object. */
  function StoredSession(data: Option<Payload>): (r: Result<Option<Attrs>>)
    ensures data.None? ==> r == Ok(None)
    ensures forall a :: data == Some(Pack(a)) ==> r == Ok(Some(a))
    ensures r.Ok? && r.value.Some? ==> data == Some(Pack(r.value.value))
    ensures data == Some(Garbled) ==> r == Err(Unmarshalable)
    ensures data.Some? && data.value.Dumped? && !Truthy(data.value.obj) ==> r == Ok(None)
    ensures data.Some? && data.value.Dumped? && Truthy(data.value.obj) && !data.value.obj.Hash? ==>
              r == Err(NotAHash)
  {
    match Unpack(data)
    case Err(e) => Err(e)
    case Ok(obj) =>
      if !Truthy(obj) then Ok(None)
      else if obj.Hash? then Ok(Some(obj.entries))
      else Err(NotAHash)
  }

  /** Whether `get_session` starts a new session: no id, no row for the id, or a
      row whose data holds no session. */
  predicate Misses(db: Db, sid: Option<Sid>) {
    sid.None? || sid.value !in db || StoredSession(db[sid.value]) == Ok(None)
  }

  /** `get_session(env, sid)`. On a hit the stored hash is returned under the
      given id and the table is left alone; on a miss a fresh id is minted and
      one row holding the empty hash is inserted. Either way the baseline is a
      copy of the returned attributes. */
  function GetSession(db: Db, sid: Option<Sid>, candidates: seq<Sid>): (r: Result<Loaded>)
    requires Misses(db, sid) ==> HasFresh(db.Keys, candidates)
    ensures forall a :: sid.Some? && sid.value in db && db[sid.value] == Some(Pack(a)) ==>
              r == Ok(Loaded(sid.value, Session(a, a), db))
    ensures Misses(db, sid) ==>
              && r.Ok?
              && r.value.sid !in db
              && r.value.sid == GenerateSid(db.Keys, candidates)
              && r.value.session.attrs == map[]
              && r.value.db == db[r.value.sid := Some(Pack(map[]))]
              && |r.value.db| == |db| + 1
    ensures r.Err? <==> sid.Some? && sid.value in db && StoredSession(db[sid.value]).Err?
    ensures r.Err? ==> r.error == StoredSession(db[sid.value]).error
    ensures r.Ok? ==> r.value.session.baseline == r.value.session.attrs
  {
    var stored := if sid.Some? && sid.value in db then StoredSession(db[sid.value]) else Ok(None);
    match stored
    case Err(e) => Err(e)
    case Ok(Some(attrs)) => Ok(Loaded(sid.value, Session(attrs, attrs), db))
    case Ok(None) => (
      var newSid := GenerateSid(db.Keys, candidates);
      Ok(Loaded(newSid, Session(map[], map[]), db[newSid := Some(Pack(map[]))])))
  }

  /** `set_session(env, session_id, new_session, options)`. The stored session
      is re-read first; with `renew` its row is deleted and an empty row is
      inserted under a fresh id; then the request's session is merged into the
      state read before any renewal and written to the row of the returned id.
      `baseline` is the copy attached at load time, if the session still
      carries one. */
  function SetSession(db: Db, sid: Sid, incoming: Value, baseline: Option<Attrs>,
                      renew: bool, candidates: seq<Sid>): (r: Result<Saved>)
    requires sid in db
    requires renew ==> HasFresh(db.Keys - {sid}, candidates)
    ensures r.Err? <==> StoredSession(db[sid]).Err?
    ensures r.Err? ==> r.error == StoredSession(db[sid]).error
    ensures r.Ok? ==>
              var merged := MergeSessions(Hash(baseline.GetOr(map[])), incoming,
                                          StoredSession(db[sid]).value);
              && r.value.sid in r.value.db
              && r.value.db[r.value.sid] == Some(Pack(merged))
              && r.value.db.Keys == db.Keys - {sid} + {r.value.sid}
              && (forall s :: s in db && s != sid ==> s in r.value.db && r.value.db[s] == db[s])
              && |r.value.db| == |db|
    ensures r.Ok? && !renew ==> r.value.sid == sid
    ensures r.Ok? && renew ==> r.value.sid !in db.Keys - {sid}
    ensures r.Ok? && renew ==> r.value.sid == GenerateSid(db.Keys - {sid}, candidates)
  {
    match StoredSession(db[sid])
    case Err(e) => Err(e)
    case Ok(current) => (
      var target :=
        if renew then
          var rest := db - {sid};
          var newSid := GenerateSid(rest.Keys, candidates);
          Saved(newSid, rest[newSid := Some(Pack(map[]))])
        else Saved(sid, db);
      var merged := MergeSessions(Hash(baseline.GetOr(map[])), incoming, current);
      Ok(Saved(target.sid, target.db[target.sid := Some(Pack(merged))])))
  }

  /** The table a successful save leaves, as one map: the rows other than the
      saved id's are the rows the save started from (all of them, or all but the
      renewed id's), and the saved id's row holds the merge. */
  lemma SaveRows(db: Db, sid: Sid, incoming: Value, baseline: Option<Attrs>,
                 renew: bool, candidates: seq<Sid>)
    requires sid in db
    requires renew ==> HasFresh(db.Keys - {sid}, candidates)
    requires StoredSession(db[sid]).Ok?
    ensures var r := SetSession(db, sid, incoming, baseline, renew, candidates);
            var merged := MergeSessions(Hash(baseline.GetOr(map[])), incoming,
                                        StoredSession(db[sid]).value);
            var kept := if renew then db - {sid} else db;
            r.Ok? && r.value.db == kept[r.value.sid := Some(Pack(merged))]
  {
    var r := SetSession(db, sid, incoming, baseline, renew, candidates);
    var merged := MergeSessions(Hash(baseline.GetOr(map[])), incoming,
                                StoredSession(db[sid]).value);
    var kept := if renew then db - {sid} else db;
    var expected := kept[r.value.sid := Some(Pack(merged))];
    assert r.value.db.Keys == expected.Keys;
    forall s | s in expected
      ensures r.value.db[s] == expected[s]
    {
      if s != r.value.sid {
        assert s in db && s != sid;
      }
    }
  }

  /** A `data` column as this store writes it: NULL or a packed hash. */
  predicate HoldsSession(data: Option<Payload>) {
    data.None? || (data.value.Dumped? && data.value.obj.Hash?)
  }

  /** Every row holds NULL or a packed hash. */
  ghost predicate WellFormed(db: Db) {
    forall s :: s in db ==> HoldsSession(db[s])
  }

  /** Loading from a well-formed table never raises and keeps it well-formed. */
  lemma GetSessionWellFormed(db: Db, sid: Option<Sid>, candidates: seq<Sid>)
    requires WellFormed(db)
    requires Misses(db, sid) ==> HasFresh(db.Keys, candidates)
    ensures GetSession(db, sid, candidates).Ok?
    ensures WellFormed(GetSession(db, sid, candidates).value.db)
  {
  }

  /** Saving into a well-formed table never raises and keeps it well-formed. */
  lemma SetSessionWellFormed(db: Db, sid: Sid, incoming: Value, baseline: Option<Attrs>,
                             renew: bool, candidates: seq<Sid>)
    requires WellFormed(db)
    requires sid in db
    requires renew ==> HasFresh(db.Keys - {sid}, candidates)
    ensures SetSession(db, sid, incoming, baseline, renew, candidates).Ok?
    ensures WellFormed(SetSession(db, sid, incoming, baseline, renew, candidates).value.db)
  {
  }

  /** Loading a saved session returns what the save merged, under the id the
      save returned, and leaves the table alone. */
  lemma SaveThenLoad(db: Db, sid: Sid, incoming: Value, baseline: Option<Attrs>,
                     renew: bool, candidates: seq<Sid>, later: seq<Sid>)
    requires sid in db
    requires renew ==> HasFresh(db.Keys - {sid}, candidates)
    requires SetSession(db, sid, incoming, baseline, renew, candidates).Ok?
    ensures var saved := SetSession(db, sid, incoming, baseline, renew, candidates).value;
            var merged := MergeSessions(Hash(baseline.GetOr(map[])), incoming,
                                        StoredSession(db[sid]).value);
            GetSession(saved.db, Some(saved.sid), later)
              == Ok(Loaded(saved.sid, Session(merged, merged), saved.db))
  {
  }

  /** A request that loads a stored session and saves it unchanged, without
      renewal, leaves the table exactly as it was. */
  lemma LoadThenSaveUnchanged(db: Db, sid: Sid, attrs: Attrs, candidates: seq<Sid>)
    requires sid in db && db[sid] == Some(Pack(attrs))
    ensures GetSession(db, Some(sid), candidates) == Ok(Loaded(sid, Session(attrs, attrs), db))
    ensures SetSession(db, sid, Hash(attrs), Some(attrs), false, candidates) == Ok(Saved(sid, db))
  {
    MergeNoEdits(attrs, attrs);
    var saved := SetSession(db, sid, Hash(attrs), Some(attrs), false, candidates).value;
    assert saved.db == db;
  }

  /** Renewal carries the stored content over: a request that changed nothing
      and asks for a new id finds the old row gone and its hash under the new id. */
  lemma RenewKeepsContent(db: Db, sid: Sid, attrs: Attrs, candidates: seq<Sid>)
    requires sid in db && db[sid] == Some(Pack(attrs))
    requires HasFresh(db.Keys - {sid}, candidates)
    ensures var r := SetSession(db, sid, Hash(attrs), Some(attrs), true, candidates);
            && r.Ok?
            && r.value.db[r.value.sid] == Some(Pack(attrs))
            && (r.value.sid != sid ==> sid !in r.value.db)
            && |r.value.db| == |db|
  {
    MergeNoEdits(attrs, attrs);
  }
}

/** `generate_sid`: draw candidate ids from the inherited generator until one is
    not already the id of a row. The generator itself is outside the model; its
    successive answers are given as a candidate stream. */
module SidGen {
  import opened Values

  /** The loop ends: some candidate in the stream is not an id in use. */
  predicate HasFresh(inUse: set<Sid>, candidates: seq<Sid>) {
    exists i :: 0 <= i < |candidates| && candidates[i] !in inUse
  }

  /** The index of the candidate the loop stops at, trying candidates from `from`
      on; every candidate before `from` was already taken. */
  function FirstFreshFrom(inUse: set<Sid>, candidates: seq<Sid>, from: nat): (i: nat)
    requires from <= |candidates|
    requires exists j :: from <= j < |candidates| && candidates[j] !in inUse
    ensures from <= i < |candidates|
    ensures candidates[i] !in inUse
    ensures forall j :: from <= j < i ==> candidates[j] in inUse
    decreases |candidates| - from
  {
    if candidates[from] !in inUse then from
    else FirstFreshFrom(inUse, candidates, from + 1)
  }

  /** The id `generate_sid` returns: the first candidate not in use. */
  function GenerateSid(inUse: set<Sid>, candidates: seq<Sid>): (sid: Sid)
    requires HasFresh(inUse, candidates)
    ensures sid !in inUse
    ensures exists i :: 0 <= i < |candidates| && candidates[i] == sid
              && forall j :: 0 <= j < i ==> candidates[j] in inUse
  {
    var i := FirstFreshFrom(inUse, candidates, 0);
    candidates[i]
  }

  /** The loop as written: one existence check per candidate, retrying on a
      collision, with no bound on the number of attempts. */
  method GenerateSidLoop(inUse: set<Sid>, candidates: seq<Sid>) returns (sid: Sid, attempts: nat)
    requires HasFresh(inUse, candidates)
    ensures sid !in inUse
    ensures 0 < attempts <= |candidates| && sid == candidates[attempts - 1]
    ensures forall j :: 0 <= j < attempts - 1 ==> candidates[j] in inUse
    ensures sid == GenerateSid(inUse, candidates)
  {
    attempts := 0;
    while true
      invariant attempts < |candidates|
      invariant exists j :: attempts <= j < |candidates| && candidates[j] !in inUse
      invariant forall j :: 0 <= j < attempts ==> candidates[j] in inUse
      decreases |candidates| - attempts
    {
      sid := candidates[attempts];
      attempts := attempts + 1;
      if sid !in inUse {
        return;
      }
    }
  }
}

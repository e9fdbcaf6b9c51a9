# Rack::Session::Sequel — a Dafny model of the session store

`Rack::Session::Sequel` keeps Rack sessions in a relational table with one row
per session id (`session_id`) and the session hash in the `data` column,
serialised with Marshal and base64. Loading an id that has no session starts a
new session: a fresh id is minted and an empty row is inserted. Saving re-reads
the stored hash and merges the request's changes into it with a three-way merge,
so that a concurrent request's unrelated changes are not clobbered. With the
`:renew` option the save moves the session to a freshly minted id.

The model is functional. The table is a `map<Sid, Option<Payload>>`, with `None`
standing for a NULL `data` column. Session hashes are `map<string, Value>`.
`Value` has a `Nil` case, because the merge compares values with Ruby's `!=`,
and a Hash reads nil for a key it does not hold. Load and save are functions
from the table to a result that carries the table they leave behind. The
baseline copy, which the source attaches to the hash as `@old`, is an explicit
field of the loaded `Session`.

Modules, leaves first:

- `Values`: attribute values, Ruby truthiness, `Option`, and the `Result`/`Error` the store can raise.
- `Codec`: `pack`/`unpack` over an abstract payload.
- `Merge`: `merge_sessions` and its properties.
- `SidGen`: `generate_sid` over a stream of candidate ids.
- `Store`: `get_session`, `set_session` and the table invariant.
- `Scenarios`: the request sequences from `spec/sequel_spec.rb` and two worked merge examples.

Four behaviours of the code a reader might not expect:

- A `data` column that Marshal cannot load raises from `unpack`. It is not treated as a miss (`Error.Unmarshalable`).
- With `:renew`, the merge is computed against the hash read *before* the old row was deleted (lines 52 and 59), not against the empty row inserted under the new id (line 56). A renewal therefore carries the session's content over (`Store.RenewKeepsContent`).
- A key that a request newly sets to nil is not written by the merge. `new[k] != old[k]` compares nil with nil for it. So an uncontended save stores the request's hash only up to such keys (`Merge.MergeUncontended`, `Merge.MergeUncontendedExact`, `Merge.NilAdditionDropped`).
- After `:renew`, the new id is drawn against the table with the old row already deleted. The new id is therefore only guaranteed to differ from every *remaining* id, not from the old one.

## Model

| member | source | states |
|---|---|---|
| Codec.Pack | lib/rack/session/sequel.rb:66-68 | unpacking a packed session gives back the same hash |
| Codec.Unpack | lib/rack/session/sequel.rb:70-73 | a NULL column reads as nil; a dumped object loads back as itself; bytes Marshal rejects raise |
| Merge.Merge3 | lib/rack/session/sequel.rb:82-90 | keys in the baseline but not the request's session are absent; keys whose value differs from the baseline's (nil when absent) hold the request's value, new keys included; every other key is exactly as stored, keys only in the stored hash included |
| Merge.MergeSessions | lib/rack/session/sequel.rb:75-91 | a nil stored hash counts as empty; a baseline or session that is not a Hash leaves the stored hash (or the empty one) unchanged; otherwise the three-way merge contract holds |
| Merge.ThreeWayUnique | lib/rack/session/sequel.rb:75-90 | the key-by-key merge contract determines the result completely |
| Merge.MergeInPlace | lib/rack/session/sequel.rb:82-88 | deleting the deleted keys one by one and then assigning the written keys one by one meets the merge contract |
| Merge.MergeNoEdits | lib/rack/session/sequel.rb:82-90 | a request whose session equals its baseline stores the current hash unchanged |
| Merge.MergeUncontended | lib/rack/session/sequel.rb:82-90 | when the stored hash is still the baseline, the result answers every key as the request's session does |
| Merge.MergeUncontendedExact | lib/rack/session/sequel.rb:86-88 | when the stored hash is still the baseline and no key was newly set to nil, the result equals the request's session |
| Merge.NilAdditionDropped | lib/rack/session/sequel.rb:86-88 | a key newly set to nil is not written: the uncontended result differs from the request's session |
| Merge.MergeIdempotent | lib/rack/session/sequel.rb:75-90 | merging the same request twice stores the same hash as merging it once |
| Merge.CommuteAt | lib/rack/session/sequel.rb:82-88 | a key touched by at most one of two requests ends up the same in either save order |
| Merge.DisjointMergesCommute | lib/rack/session/sequel.rb:82-90 | two requests from one baseline touching disjoint keys store the same hash in either order, and each one's deletions and writes survive the other's save |
| SidGen.FirstFreshFrom | lib/rack/session/sequel.rb:33-36 | the loop stops at the first candidate, from the starting one on, that is not an id in use |
| SidGen.GenerateSid | lib/rack/session/sequel.rb:32-37 | the returned id is not an id in use, and every candidate drawn before it was |
| SidGen.GenerateSidLoop | lib/rack/session/sequel.rb:32-37 | the retry loop returns the first candidate not in use, after one check per candidate drawn |
| Store.StoredSession | lib/rack/session/sequel.rb:40-47 | a NULL or packed-nil/false column holds no session; a packed hash is read back exactly; a hash result only comes from a packed hash; a packed truthy object that is not a Hash raises (`{}.merge` at line 47); unloadable bytes raise |
| Store.GetSession | lib/rack/session/sequel.rb:39-48 | a hit returns the given id and stored hash with the table unchanged; a miss returns `generate_sid`'s draw against the table's ids and an empty hash and inserts exactly one row holding the empty hash; it raises exactly when the stored column raises; the baseline equals the returned hash |
| Store.SetSession | lib/rack/session/sequel.rb:51-61 | it raises exactly when the stored column raises; otherwise the returned id's row holds the merge against the pre-renewal stored hash; every other row is unchanged; the ids are the old ones minus the saved id plus the returned one; the row count is unchanged; without renew the id is kept; with renew it is `generate_sid`'s draw against the ids left after deleting the old row (line 55), so fresh among them |
| Store.SaveRows | lib/rack/session/sequel.rb:51-61 | the saved table is the starting table, minus the old row on renewal, with the returned id's row set to the merge |
| Store.GetSessionWellFormed | lib/rack/session/sequel.rb:39-48 | loading from a table of NULL or packed-hash rows never raises and keeps that invariant |
| Store.SetSessionWellFormed | lib/rack/session/sequel.rb:51-61 | saving into a table of NULL or packed-hash rows never raises and keeps that invariant |
| Store.SaveThenLoad | lib/rack/session/sequel.rb:39-61 | loading the id a save returned gives back the merged hash as both session and baseline, with the table unchanged |
| Store.LoadThenSaveUnchanged | lib/rack/session/sequel.rb:39-61 | loading a stored hash and saving it unchanged, without renewal, leaves the table exactly as it was |
| Store.RenewKeepsContent | lib/rack/session/sequel.rb:51-61 | renewing an unchanged session moves its hash to the new id, removes the old row and keeps the row count |
| Scenarios.MergeDeletionPrecedence | lib/rack/session/sequel.rb:82-90 | baseline {a:1,b:2}, session {a:1}, stored {a:1,b:2,c:3} merge to {a:1,c:3} |
| Scenarios.MergeKeepsConcurrentUpdate | lib/rack/session/sequel.rb:82-90 | baseline {a:1}, session {a:2}, stored {a:1,x:9} merge to {a:2,x:9} |
| Scenarios.UnknownIdStartsOver | spec/sequel_spec.rb:57-62 | an id with no row yields a fresh id, an empty hash and one new row, exactly as a request without an id does |
| Scenarios.CounterFirstLoad | spec/sequel_spec.rb:40-45 | the first load on an empty table creates one row under the first candidate |
| Scenarios.CounterFirstSave | spec/sequel_spec.rb:40-45 | saving counter 1 into that row leaves one row holding {counter:1} |
| Scenarios.CounterSecondLoad | spec/sequel_spec.rb:47-55 | loading the id again returns {counter:1} as session and baseline |
| Scenarios.CounterMerge | spec/sequel_spec.rb:47-55 | the incrementing handler's change merges to the new counter |
| Scenarios.CounterLaterSave | spec/sequel_spec.rb:47-55 | saving the incremented counter overwrites the one row |
| Scenarios.RenewScenario | spec/sequel_spec.rb:80-85 | a renewing save on a one-row table moves the incremented counter to the new id and leaves one row |

## Left out

- Rack middleware plumbing is not modelled: `env`, cookies, the `:defer` option, the `Abstract::ID` base class and the constructor's dataset check (lib/rack/session/sequel.rb:21-30). They are transport and framework code.
- The entropy source behind `super` in `generate_sid` is not modelled. Its successive answers are a candidate sequence. Termination is the stated precondition that some candidate is not in use (`SidGen.HasFresh`); the loop has no retry cap.
- Marshal and base64 are Ruby runtime serialisers. `Codec.Payload` keeps the dumped object abstractly, so `unpack(pack(m)) == m` holds by construction.
- Sequel query execution is not modelled. The table is a map, so ids are unique, which `generate_sid` maintains.
- Store.GetSession: an id given without a row is treated as a miss. The source would dereference a nil row at line 40 instead.
- Store.SetSession: requires the id's row to exist. The source would dereference a nil row at line 52.
- Store.SetSession: a stored object that is truthy but not a Hash is reported as `NotAHash`. What the source then does depends on the object's class: it may raise NoMethodError, TypeError or IndexError, or write the object back, possibly modified (`String#delete` returns a copy, `Array#delete` removes matching elements); with nothing to delete or write it writes the object back unchanged. This store never writes such a row (`Store.SetSessionWellFormed`).
- The shallow copy taken as the baseline (line 47) is not modelled beyond equality. Values here are immutable, so a nested object mutated in place, which would change the baseline too and hide the change from the merge, cannot be expressed.
- Values whose Ruby `==` is not structural equality are not modelled, although a session may hold any object Marshal can dump. The merge decides what to write with `new[k] != old[k]` (line 86), which the model reads as structural equality on `Value`. For a Float that differs: a key changed from `1` to `1.0` is not written, because `1 == 1.0`, and a `Float::NAN` value is written on every save, because `NaN != NaN`, so such a session breaks `Merge.MergeNoEdits`. Objects with their own `==`, and strings whose encodings differ, compare by their own rules too. An object Marshal cannot dump, such as a Proc, makes `pack` raise at line 60, after `:renew` has already deleted the old row (lines 54-56); `Codec.Pack` has no error case.
- Hash insertion order is not modelled; session hashes are unordered maps.
- `$VERBOSE`/`$DEBUG` diagnostics and `warn` (lines 42, 78, 83, 87) are side effects only.
- Races between concurrent requests are not modelled as interleavings; the code takes no locks. `Merge.DisjointMergesCommute` states what the merge guarantees for two saves that run one after the other.

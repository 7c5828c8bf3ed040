# Jukebox queue, rate limiter and broadcaster, in Dafny

This project models the core of the Jukebox Music Maker backend. Many clients share one play queue and one playback state. They change the queue (enqueue, remove, reorder), the playback record, or delete a track. After each queue or playback change (not after a track delete) the backend tries to push a full state snapshot to every connected websocket. As written, that push raises whenever the queue has rows (see "## Findings"). A per-user sliding-window limiter caps how often a user can enqueue.

Modules, one per component:

- `Common` (`common.dfy`): `Option`, the HTTP errors `NotFound` (404), `RateLimited` (429) and `ServerError` (500, an uncaught exception), `Result` and the endpoint `Status`.
- `Queue` (`queue.dfy`): the queue table is the sequence a position-ordered query returns. Each queue mutation is a function on that sequence, and lemmas state what it guarantees.
- `Playback` (`playback.dfy`): the playback row and the partial update.
- `RateLimit` (`rate_limit.dfy`): eviction and admission as functions, plus the `RateLimiter` class. Its `Allow` method runs the `while`/`popleft` loop on a user's bucket.
- `Realtime` (`realtime.dfy`): the `ConnectionManager` class over its `active` list, with connect, disconnect and broadcast.
- `App` (`app.dfy`): the `Jukebox` class. It owns the queue table, the track ids, the playback row, a limiter and a connection manager. Its methods are the endpoints: each queue and playback endpoint except `DeleteTrack` mutates, then publishes `build_state` through the manager; `DeleteTrack` publishes nothing. A push first encodes the state with `json.dumps`. How `build_state` dumps queue entries is the class's `mode`: the code uses `PythonMode`, in which a non-empty queue cannot be encoded (see "## Findings").

The model takes these outside inputs as parameters:

- The clock (`time.time()`) is an integer `now`.
- The outcome of each websocket send is a set `failing` of connections whose `send_text` raises.
- The tracks table is a set of track ids.

Each publishing endpoint (and `OpenSocket`) returns the list of send attempts it made, so contracts can state what was sent and to whom.

`Queue.WellFormed` states the read-back order (by position, ties by id; see "## Left out" for the tie order), unique ids, and ids below the next id to hand out. Every endpoint preserves it.

## Model

| member | source | states |
|---|---|---|
| `Queue.Find` | backend/app/main.py:167-170 | finds the first entry with the id; `None` exactly when no entry has it |
| `Queue.Renumbered` | backend/app/main.py:158-159 | positions become 0..N-1 and every entry keeps its id, track, user and place |
| `Queue.RemoveItem` | backend/app/main.py:153-155 | fails with NotFound exactly when no entry has the id |
| `Queue.RemoveItemSpec` | backend/app/main.py:153-160 | on success: one entry fewer, none with that id, the rest in their relative order, positions 0..N-2, table still well formed |
| `Queue.RenumberedTracks` | backend/app/main.py:158-159 | renumbering keeps every row's track |
| `Queue.RemoveItemTracks` | backend/app/main.py:156-159 | removal keeps every queued track among the existing tracks |
| `Queue.Clamp` | backend/app/main.py:172 | the target is clamped into [0, n]: below 0 gives 0, above n gives n, otherwise unchanged |
| `Queue.MoveItem` | backend/app/main.py:167-170 | fails with NotFound exactly when no entry has the id |
| `Queue.MoveItemWellFormed` | backend/app/main.py:171-175 | a move keeps ids unique and renumbers positions to 0..N-1 |
| `Queue.MoveItemEntries` | backend/app/main.py:171-173 | the moved entry sits at the clamped index; the other entries keep their relative order; the entries are a permutation of the old ones |
| `Queue.MoveItemSpec` | backend/app/main.py:167-175 | on success: the moved entry sits at the clamped index of the full list; the others keep their relative order; the entries are a permutation of the old ones; positions are 0..N-1 |
| `Queue.MoveItemTracks` | backend/app/main.py:171-175 | a move keeps every queued track among the existing tracks |
| `Queue.MoveBelowZero` | backend/app/main.py:172 | any negative target (-5 included) moves exactly like target 0 |
| `Queue.MovePastEnd` | backend/app/main.py:172-173 | a target at or past the last index puts the entry last, at position N-1 |
| `Queue.NewItem` | backend/app/main.py:143-144 | the new row's id is not yet in a well-formed table, and its position (the row count) lies after every position of a gapless table |
| `Queue.Enqueue` | backend/app/main.py:143-146 | the table grows by exactly one row, and the new row is in it |
| `Queue.InsertByPosition` | backend/app/main.py:143-145 | the read-back after the insert has exactly one row more |
| `Queue.InsertByPositionCount` | backend/app/main.py:143-145 | the read-back holds the old rows and the new row, each exactly once |
| `Queue.InsertKeepsOrder` | backend/app/main.py:143-145 | a new row with a larger id keeps the table in position order |
| `Queue.InsertAtTail` | backend/app/main.py:143-144 | a new row whose position is at least every other row's is read back last |
| `Queue.EnqueueWellFormed` | backend/app/main.py:143-146 | the new row has the largest id, so the table stays ordered with unique ids |
| `Queue.EnqueueGapless` | backend/app/main.py:143-146 | with positions 0..N-1 the new row, at position N, is read back last |
| `Queue.EnqueueSpec` | backend/app/main.py:143-146 | enqueue adds exactly one entry at position = old count and keeps the table well formed; if positions were 0..N-1 the entry is last and positions become 0..N |
| `Queue.EnqueueTracks` | backend/app/main.py:140-145 | an enqueue of an existing track keeps every queued track among the existing tracks |
| `Queue.SameEntriesTracks` | backend/app/main.py:174-175 | rows that are a renumbered permutation of others refer to the same tracks |
| `Queue.WithoutTrack` | backend/app/main.py:118 | drops exactly the rows of the track and keeps every other row, positions included |
| `Queue.WithoutTrackWellFormed` | backend/app/main.py:118 | the bulk delete keeps the table in order with unique ids (gapless positions are not claimed) |
| `Queue.DeleteTrackThenEnqueueNotLast` | backend/app/main.py:118 | after deleting a track at the front, the next enqueue is not read back last |
| `Queue.WithoutTrackRenumbered` | backend/app/main.py:118 | the corrected delete: the remaining entries in order, positions 0..N-1 |
| `Queue.DeleteTrackRenumberedThenEnqueueLast` | backend/app/main.py:118 | with the corrected delete, the queue stays well formed and gapless and the next enqueue lands last |
| `Playback.Apply` | backend/app/main.py:184-185 | overwrites exactly the fields the request carries; a null current track leaves the stored one |
| `Playback.ApplyNoChange` | backend/app/schemas.py:51-55 | an empty request changes nothing |
| `Playback.ApplyIdempotent` | backend/app/main.py:184-185 | repeating a request has no further effect |
| `Playback.ApplyThen` | backend/app/main.py:184-185 | two requests in a row equal one combined request where the later one wins |
| `Playback.TrackNeverCleared` | backend/app/schemas.py:53 | once a current track is set, no update can clear it |
| `Playback.PlayFromDefault` | backend/app/models.py:43-46 | playing from the default row keeps volume 1 and position 0 |
| `RateLimit.Evict` | backend/app/main.py:134-135 | the bucket never grows, and what is left starts with an entry inside the window |
| `RateLimit.EvictPopsPrefix` | backend/app/main.py:134-135 | eviction pops only from the front, and only entries more than `window` older than `now` |
| `RateLimit.EvictionIsStrict` | backend/app/main.py:134 | an entry exactly `window` old is kept |
| `RateLimit.InWindowAll` | backend/app/main.py:134-135 | when every entry lies inside the window, the window holds all of them |
| `RateLimit.EvictIsWindow` | backend/app/main.py:134-135 | with timestamps in order, front eviction keeps exactly the entries inside the window |
| `RateLimit.Admit` | backend/app/main.py:134-138 | the bucket grows by at most one; an admission leaves a non-empty bucket of at most `limit` entries ending in `now`; a refusal leaves at least `limit` entries |
| `RateLimit.AdmitIsSlidingWindow` | backend/app/main.py:131-138 | with timestamps in order, a request is admitted exactly when fewer than `limit` earlier admissions fall in the window |
| `RateLimit.AdmitBounded` | backend/app/main.py:136-138 | the bucket never exceeds `limit`; an admission appends exactly `now`; a refusal records nothing and leaves a full bucket |
| `RateLimit.SortedSuffix` | backend/app/main.py:135 | popping from the front keeps the bucket in order |
| `RateLimit.SortedAppend` | backend/app/main.py:138 | appending a time no earlier than the others keeps the bucket in order |
| `RateLimit.EvictKeepsSorted` | backend/app/main.py:134-135 | with in-order timestamps, the remaining entries are in order, inside the window, and no later than the newest |
| `RateLimit.AppendInWindow` | backend/app/main.py:138 | recording `now` after such entries keeps the bucket in order and inside the window |
| `RateLimit.AdmitKeepsSorted` | backend/app/main.py:132-138 | admitting a non-decreasing time keeps the bucket in order and inside the window |
| `RateLimit.DefaultsExample` | backend/app/config.py:20-21 | with the defaults (10 per 30 s) an entry exactly 30 s old still counts, one 31 s old is evicted, and 10 recent admissions refuse the next |
| `RateLimit.SlidingWindowExample` | backend/app/main.py:131-138 | limit 3, window 10: requests at 0, 1, 2 pass, 3 is refused, 11 passes with bucket [1, 2, 11] |
| `RateLimit.RateLimiter.constructor` | backend/app/main.py:22 | the limiter starts with no buckets |
| `RateLimit.RateLimiter.Allow` | backend/app/main.py:131-138 | the answer and the user's new bucket are those of `Admit` on the old bucket, other users' buckets are unchanged, and no bucket exceeds the limit |
| `Realtime.Fanout` | backend/app/realtime.py:20-22 | one attempt per connection, in order, all with the same message |
| `Realtime.RemoveFirst` | backend/app/realtime.py:15 | an absent connection leaves the list as it is |
| `Realtime.RemoveFirstCount` | backend/app/realtime.py:15 | exactly one copy of the connection goes (none when absent); every other connection keeps its count |
| `Realtime.RemoveFirstAt` | backend/app/realtime.py:15 | it is the first occurrence that goes, and the order of the rest is kept |
| `Realtime.Survivors` | backend/app/realtime.py:25-26 | keeps exactly the connections whose send did not fail |
| `Realtime.Stale` | backend/app/realtime.py:23-24 | collects exactly the connections whose send failed |
| `Realtime.StaleAppend` | backend/app/realtime.py:20-24 | the stale list grows by the current connection exactly when its send fails |
| `Realtime.RemoveFirstStale` | backend/app/realtime.py:25-26 | disconnecting the first stale connection removes it from the stale list and never touches a survivor |
| `Realtime.NoStaleAllSurvive` | backend/app/realtime.py:25-26 | with no stale connection left, the list is its survivors |
| `Realtime.DisconnectAbsent` | backend/app/realtime.py:14 | disconnecting an unregistered connection is a no-op |
| `Realtime.DisconnectTwice` | backend/app/realtime.py:13-15 | for a connection registered once, disconnecting twice equals disconnecting once, and it is gone |
| `Realtime.SurvivorsSpec` | backend/app/realtime.py:19-26 | no failed connection survives a broadcast; if no send fails, the list is unchanged |
| `Realtime.ConnectionManager.constructor` | backend/app/realtime.py:6-7 | the registry starts empty |
| `Realtime.ConnectionManager.Connect` | backend/app/realtime.py:9-11 | the connection is appended at the end, the others unchanged |
| `Realtime.ConnectionManager.Disconnect` | backend/app/realtime.py:13-15 | `active` loses the first occurrence of the connection, if any |
| `Realtime.StaleStep` | backend/app/realtime.py:20-24 | one turn of the sending loop adds the connection to the stale list exactly when its send fails |
| `Realtime.SendAll` | backend/app/realtime.py:20-24 | the sending loop makes one attempt per connection, in order, and collects exactly the failed connections, in order |
| `Realtime.ConnectionManager.Prune` | backend/app/realtime.py:25-26 | disconnecting the collected stale connections leaves exactly the survivors, in order |
| `Realtime.ConnectionManager.Broadcast` | backend/app/realtime.py:17-26 | a message the encoder rejects raises out of `broadcast` before any send and leaves `active` as it was; otherwise each connection of the old list gets exactly one attempt with the one `{event, payload}` message, afterwards `active` is the old list minus the failed connections, in order, and failed sends never escape |
| `App.PythonDumpEncodesOnlyEmpty` | backend/app/main.py:34 | as written (python-mode dump, `datetime` inside every entry), a state message encodes exactly when the queue is empty |
| `App.EnqueuedQueueNotEncodable` | backend/app/main.py:143-147 | as written, the queue an enqueue commits never encodes, so its push raises |
| `App.JsonDumpEncodes` | backend/app/main.py:34 | with the JSON-mode dump every state message encodes |
| `App.Jukebox.constructor` | backend/app/main.py:44-55 | startup keeps the stored queue rows, next id and tracks as they are, keeps an existing playback row and creates the default row only when there is none; no buckets, no connections; the dump mode is a parameter |
| `App.StateMessage` | backend/app/main.py:147 | every push is the event `state` carrying the queue in read-back order and the playback row |
| `App.Jukebox.BuildState` | backend/app/main.py:25-41 | the snapshot is the ordered queue and the playback row; a missing row is created with defaults |
| `App.Jukebox.Publish` | backend/app/main.py:147 | a missing playback row is created; when the state encodes, it is sent once to every connection, failed connections are pruned, and the endpoint answers ok; otherwise nothing is sent, nothing is pruned and the endpoint answers 500 |
| `App.Jukebox.OpenSocket` | backend/app/main.py:191-195 | the socket is registered and a missing playback row created; the first state is sent to it only when it encodes; an encoding or send error is raised and the socket stays registered |
| `App.Jukebox.Renumber` | backend/app/main.py:158-159 | the loop leaves every row's position equal to its index and changes nothing else |
| `App.Jukebox.AddToQueue` | backend/app/main.py:130-148 | the rate check is recorded first; 429 or 404 change neither queue nor connections, but a 404 still uses a rate slot; otherwise the row is committed at position = count and published; the answer is ok only when the push encodes, else 500 with nothing sent, and as written it is never ok; gapless stays gapless |
| `App.Jukebox.RemoveQueueItem` | backend/app/main.py:152-162 | 404 with no change for an unknown id; otherwise the queue is `RemoveItem` of the old one, gapless, committed and published; ok only when the push encodes, else 500 with nothing sent; as written ok only when the queue is left empty |
| `App.Jukebox.ReorderQueue` | backend/app/main.py:166-178 | 404 with no change for an unknown id; otherwise the queue is `MoveItem` of the old one, gapless, committed and published; ok only when the push encodes, else 500 with nothing sent, and as written it is never ok |
| `App.Jukebox.UpdatePlayback` | backend/app/main.py:182-188 | without a playback row a request carrying a field fails with 500 and changes nothing; otherwise the row becomes `Apply` of the old (or default) row and the request and is published; queue unchanged; as written ok only when the queue is empty |
| `App.Jukebox.DeleteTrack` | backend/app/main.py:111-121 | 404 with no change for an unknown track; otherwise the track and its queue rows go, without renumbering, and nothing is published |

## Findings

| source | as written | input that shows it | evidently intended | confidence | as-written member | corrected member |
|---|---|---|---|---|---|---|
| backend/app/main.py:118 | `delete_track` deletes the track's queue rows but does not renumber the rest. `add_to_queue` then gives the new row position = row count (line 143), which can be lower than a surviving position. | Queue rows at positions 0, 1, 2, 3 with tracks 7, 7, 8, 9. Delete track 7: positions 2 and 3 remain. Enqueue: the new row gets position 2 and is read back before the row at position 3. | Renumber after the delete, as `remove_queue_item` does, so positions stay 0..N-1 and a new entry goes last. | not executed | `Queue.DeleteTrackThenEnqueueNotLast` | `Queue.DeleteTrackRenumberedThenEnqueueLast` |
| backend/app/realtime.py:18 | `build_state` dumps each queue entry with `model_dump()` (main.py:34), python mode, so the nested track's `uploaded_at` stays a `datetime`. `json.dumps` raises `TypeError` on it, outside the `try`. The change is already committed; the endpoint answers 500 and no client is told. | An empty queue, a track 7 and one connected client. `add_to_queue(7)` commits the row, then `broadcast` raises before any send. | Dump with `model_dump(mode='json')`, so every push encodes and reaches every connection. | not executed | `App.EnqueuedQueueNotEncodable` | `App.JsonDumpEncodes` |

`App.Jukebox.DeleteTrack` keeps the code's behaviour (`Queue.WithoutTrack`), so it can be compared line by line with the endpoint. The corrected delete is `Queue.WithoutTrackRenumbered`. After a delete, the other endpoints' gapless guarantee holds again once a remove or reorder renumbers the queue.

The endpoints keep the code's encoding behaviour through `App.Jukebox.mode`. The second row's lemmas only unfold `App.Encodable`; the evidence is in the endpoint contracts. As written, `App.Jukebox.AddToQueue` and `App.Jukebox.ReorderQueue` ensure `mode == PythonMode ==> status != Ok` (a 500 with nothing sent after the commit), `App.Jukebox.RemoveQueueItem` answers `Ok` in that mode only when it empties the queue, and `App.Jukebox.UpdatePlayback` only when the queue is empty. Corrected, with `JsonMode` (`App.JsonDumpEncodes`), the same status clauses give `Ok` and a send to every connection. `ws_endpoint`'s first `send_json` (main.py:195) encodes the same way, so as written a client connecting while the queue has rows gets no state and stays registered (`App.Jukebox.OpenSocket`).

## Left out

- HTTP routing, CORS, static files, authentication and role checks (`backend/app/auth.py`), and the login endpoint. The role gate is assumed to have passed before an endpoint runs.
- The websocket endpoint's handshake and receive loop are framework I/O. `App.Jukebox.OpenSocket` models its registration and first send; the disconnect on `WebSocketDisconnect` is `Realtime.ConnectionManager.Disconnect`.
- The SQL session, commits and queries. The queue table is a sequence in read-back order and the playback row is an optional record. An endpoint runs as one atomic step.
- Concurrency between async handlers. The source has no lock around the limiter or the queue, so interleavings are not modelled.
- Floats: `time.time()` is an integer timestamp. Position and volume are reals, never checked, as in the code.
- JSON text: a message is its `{event, payload}` value, and whether `json.dumps` accepts it is `App.Encodable`. Track metadata resolved into each snapshot entry (`QueueItemOut.track`) is left out; the snapshot lists the queue rows themselves.
- Upload time (an assumption): every track row is taken to carry `uploaded_at`, since `upload_track` (main.py:103-104) leaves it to the column's server default (models.py:25). A track inserted elsewhere with a null `uploaded_at` would encode, and the model does not track that.
- Track upload, file writes and file deletion. Only `delete_track`'s effect on the queue and the track ids is modelled.
- Id assignment: a fresh id above all present ids stands in for the database's row id.
- `RateLimit.RateLimiter.constructor`: a negative `queue_rate_limit_count` is not modelled (the limit is a natural number). A negative count refuses every request, like 0.
- `Realtime.DisconnectTwice`: it is stated for a connection registered at most once. If the same socket were connected twice, a second disconnect would remove the second copy.
- Sorted timestamps: bucket order and the "inside the window" guarantees (`RateLimit.AdmitKeepsSorted`, `RateLimit.AdmitIsSlidingWindow`) assume the clock never goes backwards. `time.time()` does not guarantee that; the bound on the bucket size holds regardless.
- A refused request still keeps the eviction, because the `while` loop runs before the check (`backend/app/main.py:134-137`). Playback values are never range-checked. The clamp bound is the list length after the removal, so the largest index is N-1.
- Tie order (an assumption): when two queue rows share a position, the model reads them back in id order, as SQLite's index on `position` (`backend/app/models.py:34`) returns them. SQL leaves that order unspecified and the database URL is configurable (`backend/app/config.py:12`), so another engine may differ. `Queue.Precedes`, `Queue.Ordered` and the `r[1] == QueueItem(5, …)` conjunct of `Queue.DeleteTrackThenEnqueueNotLast` depend on it.

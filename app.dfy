/** The queue and playback endpoints of backend/app/main.py over one
    application state: the queue table, the track ids, the playback row, the
    rate limiter and the connection registry. Each queue or playback
    endpoint performs its mutation, commits, and then tries to push the new
    state to every connection; the push raises unless the state message can
    be encoded as JSON, which as written fails whenever the queue has rows.
    The track delete pushes nothing. */
module App {
  import opened Common
  import opened Queue
  import opened Playback
  import RateLimit
  import Realtime

  /** What build_state returns: the queue in order and the playback row. */
  datatype Snapshot = Snapshot(queue: seq<QueueItem>, playback: PlaybackState)

  /** The message every push carries. */
  function StateMessage(items: seq<QueueItem>, playback: PlaybackState): (m: Realtime.Envelope<Snapshot>)
    ensures m.event == "state" && m.payload.queue == items && m.payload.playback == playback
  {
    Realtime.Envelope("state", Snapshot(items, playback))
  }

  /** How build_state dumps a queue entry (backend/app/main.py:34). Each entry
      nests its track, whose `uploaded_at` is always set. `PythonMode`,
      pydantic's default and what the code does, keeps it a `datetime`;
      `JsonMode` (`model_dump(mode='json')`) turns it into a string. */
  datatype DumpMode = PythonMode | JsonMode

  /** Whether `json.dumps` accepts a state message whose queue is `queue`.
      The playback fields are booleans and numbers; a `datetime` makes the
      encoder raise `TypeError`. */
  predicate Encodable(mode: DumpMode, queue: seq<QueueItem>) {
    mode == JsonMode || queue == []
  }

  /** As written, a state message encodes exactly when the queue is empty. */
  lemma PythonDumpEncodesOnlyEmpty(queue: seq<QueueItem>)
    ensures Encodable(PythonMode, queue) <==> queue == []
  {
  }

  /** As written, the queue that add_to_queue commits never encodes, so its
      push raises before any send. */
  lemma EnqueuedQueueNotEncodable(s: seq<QueueItem>, nextId: nat, trackId: int, user: string)
    ensures !Encodable(PythonMode, Enqueue(s, nextId, trackId, user))
  {
  }

  /** With the JSON-mode dump every state message encodes, so every push
      reaches every connection. */
  lemma JsonDumpEncodes(queue: seq<QueueItem>)
    ensures Encodable(JsonMode, queue)
  {
  }

  class Jukebox {
    /** The queue table, in the order a position-ordered query returns it. */
    var items: seq<QueueItem>
    /** The id the queue table hands to its next row. */
    var nextId: nat
    /** The ids in the tracks table. */
    var tracks: set<int>
    /** The playback row, if it exists. */
    var playback: Option<PlaybackState>
    const limiter: RateLimit.RateLimiter
    const manager: Realtime.ConnectionManager
    /** How build_state dumps queue entries; the code uses `PythonMode`. */
    const mode: DumpMode

    /** The queue table is well formed, every queued track exists, and no
        rate bucket is over its limit. */
    ghost predicate Valid()
      reads this, limiter
    {
      WellFormed(items, nextId) && TracksIn(items, tracks) && limiter.Valid()
    }

    /** The startup hook on a database holding the given tracks, queue rows
        and, possibly, a playback row: the rows are kept as they are, and
        the default playback row is created only when there is none. */
    constructor (tracks: set<int>, items: seq<QueueItem>, nextId: nat, row: Option<PlaybackState>,
                 limit: nat, window: int, mode: DumpMode)
      requires WellFormed(items, nextId) && TracksIn(items, tracks)
      ensures Valid() && fresh(limiter) && fresh(manager) && this.mode == mode
      ensures this.items == items && this.nextId == nextId && this.tracks == tracks
      ensures playback == Some(row.GetOr(Default))
      ensures limiter.buckets == map[] && limiter.limit == limit && limiter.window == window
      ensures manager.active == []
    {
      this.items := items;
      this.nextId := nextId;
      this.tracks := tracks;
      playback := if row.None? then Some(Default) else row;
      limiter := new RateLimit.RateLimiter(limit, window);
      manager := new Realtime.ConnectionManager();
      this.mode := mode;
    }

    /** build_state (also GET /queue): the queue and the playback row,
        creating the default row when there is none. */
    method BuildState() returns (snap: Snapshot)
      modifies this`playback
      ensures playback == Some(old(playback).GetOr(Default))
      ensures snap == Snapshot(items, playback.value)
    {
      if playback.None? {
        playback := Some(Default);
      }
      snap := Snapshot(items, playback.value);
    }

    /** `await manager.broadcast('state', build_state(db))`, and what the
        endpoint then answers: `{'ok': True}`, or a 500 when the encoder
        raises. build_state has created a missing playback row either way. */
    method Publish(failing: set<Realtime.Socket>) returns (status: Status, sent: seq<Realtime.Attempt<Snapshot>>)
      modifies this`playback, manager
      ensures playback == Some(old(playback).GetOr(Default))
      ensures status == if Encodable(mode, items) then Ok else Err(ServerError)
      ensures status.Ok? ==> sent == Realtime.Fanout(old(manager.active), StateMessage(items, playback.value))
                             && manager.active == Realtime.Survivors(old(manager.active), failing)
      ensures status.Err? ==> sent == [] && manager.active == old(manager.active)
    {
      var snap := BuildState();
      var raised;
      sent, raised := manager.Broadcast("state", snap, Encodable(mode, snap.queue), failing);
      status := if raised then Err(ServerError) else Ok;
    }

    /** ws_endpoint up to its receive loop: register the socket, build the
        state and send it with `send_json`, which encodes it as `broadcast`
        does. Neither an encoding error nor a failed send is a
        `WebSocketDisconnect`, so the socket stays registered either way. */
    method OpenSocket(ws: Realtime.Socket, failing: set<Realtime.Socket>)
      returns (sent: seq<Realtime.Attempt<Snapshot>>, raised: bool)
      modifies this`playback, manager
      ensures manager.active == old(manager.active) + [ws]
      ensures playback == Some(old(playback).GetOr(Default))
      ensures raised == (!Encodable(mode, items) || ws in failing)
      ensures sent == if Encodable(mode, items) then [Realtime.Attempt(ws, StateMessage(items, playback.value))] else []
    {
      manager.Connect(ws);
      var snap := BuildState();
      if !Encodable(mode, snap.queue) {
        return [], true;
      }
      sent := [Realtime.Attempt(ws, Realtime.Envelope("state", snap))];
      raised := ws in failing;
    }

    /** The `enumerate` loop: every row's position becomes its index. */
    method Renumber()
      modifies this`items
      ensures items == Renumbered(old(items))
    {
      var i := 0;
      while i < |items|
        invariant 0 <= i <= |items| == |old(items)|
        invariant forall k :: 0 <= k < i ==> items[k] == old(items)[k].(position := k)
        invariant forall k :: i <= k < |items| ==> items[k] == old(items)[k]
      {
        items := items[i := items[i].(position := i)];
        i := i + 1;
      }
    }

    /** add_to_queue: the rate check first (it records the attempt even when
        the track then turns out not to exist), then 404 for an unknown
        track, else a new row at position = row count, committed, then a
        push. As written the push always raises: the new queue has a row. */
    method AddToQueue(user: string, trackId: int, now: int, failing: set<Realtime.Socket>)
      returns (status: Status, sent: seq<Realtime.Attempt<Snapshot>>)
      requires Valid()
      modifies this, limiter, manager
      ensures Valid()
      ensures var d := RateLimit.Admit(old(limiter.Bucket(user)), now, limiter.window, limiter.limit);
              limiter.buckets == old(limiter.buckets)[user := d.bucket]
              && status == if !d.allowed then Err(RateLimited) else if trackId !in tracks then Err(NotFound)
                           else if Encodable(mode, items) then Ok else Err(ServerError)
      ensures tracks == old(tracks)
      ensures status == Err(RateLimited) || status == Err(NotFound) ==>
                items == old(items) && nextId == old(nextId) && playback == old(playback)
      ensures status.Ok? || status == Err(ServerError) ==>
                items == Enqueue(old(items), old(nextId), trackId, user) && nextId == old(nextId) + 1
                && playback == Some(old(playback).GetOr(Default))
      ensures status.Ok? ==> sent == Realtime.Fanout(old(manager.active), StateMessage(items, playback.value))
                             && manager.active == Realtime.Survivors(old(manager.active), failing)
      ensures status.Err? ==> sent == [] && manager.active == old(manager.active)
      ensures mode == PythonMode ==> status != Ok
      ensures (status.Ok? || status == Err(ServerError)) && Gapless(old(items)) ==>
                items == old(items) + [NewItem(old(items), old(nextId), trackId, user)]
      ensures Gapless(old(items)) ==> Gapless(items)
    {
      var allowed := limiter.Allow(user, now);
      if !allowed {
        return Err(RateLimited), [];
      }
      if trackId !in tracks {
        return Err(NotFound), [];
      }
      ghost var added := Enqueue(items, nextId, trackId, user);
      assert WellFormed(added, nextId + 1) && TracksIn(added, tracks)
             && (Gapless(items) ==> added == items + [NewItem(items, nextId, trackId, user)] && Gapless(added)) by {
        EnqueueSpec(items, nextId, trackId, user);
        EnqueueTracks(items, nextId, trackId, user, tracks);
      }
      items := Enqueue(items, nextId, trackId, user);
      nextId := nextId + 1;
      status, sent := Publish(failing);
    }

    /** remove_queue_item: 404 for an unknown id, otherwise delete the row,
        renumber the rest from their order, commit, and push. */
    method RemoveQueueItem(id: nat, failing: set<Realtime.Socket>)
      returns (status: Status, sent: seq<Realtime.Attempt<Snapshot>>)
      requires Valid()
      modifies this, manager
      ensures Valid()
      ensures status == if !Contains(old(items), id) then Err(NotFound)
                        else if Encodable(mode, items) then Ok else Err(ServerError)
      ensures tracks == old(tracks) && nextId == old(nextId)
      ensures status == Err(NotFound) ==> items == old(items) && playback == old(playback)
      ensures status.Ok? || status == Err(ServerError) ==>
                items == RemoveItem(old(items), id).value && Gapless(items)
                && playback == Some(old(playback).GetOr(Default))
      ensures status.Ok? ==> sent == Realtime.Fanout(old(manager.active), StateMessage(items, playback.value))
                             && manager.active == Realtime.Survivors(old(manager.active), failing)
      ensures status.Err? ==> sent == [] && manager.active == old(manager.active)
      ensures mode == PythonMode && status.Ok? ==> items == []
    {
      var found := Find(items, id);
      if found.None? {
        return Err(NotFound), [];
      }
      RemoveItemSpec(items, id, nextId);
      RemoveItemTracks(items, id, tracks);
      items := RemoveAt(items, found.value);
      Renumber();
      status, sent := Publish(failing);
    }

    /** reorder_queue: 404 for an unknown id, otherwise take the entry out,
        put it back at `max(0, min(to, len))` of the remaining list, renumber
        every row, commit, and push. As written the push always raises: the
        queue holds at least the moved row. */
    method ReorderQueue(id: nat, to: int, failing: set<Realtime.Socket>)
      returns (status: Status, sent: seq<Realtime.Attempt<Snapshot>>)
      requires Valid()
      modifies this, manager
      ensures Valid()
      ensures status == if !Contains(old(items), id) then Err(NotFound)
                        else if Encodable(mode, items) then Ok else Err(ServerError)
      ensures tracks == old(tracks) && nextId == old(nextId)
      ensures status == Err(NotFound) ==> items == old(items) && playback == old(playback)
      ensures status.Ok? || status == Err(ServerError) ==>
                items == MoveItem(old(items), id, to).value && Gapless(items)
                && playback == Some(old(playback).GetOr(Default))
      ensures status.Ok? ==> sent == Realtime.Fanout(old(manager.active), StateMessage(items, playback.value))
                             && manager.active == Realtime.Survivors(old(manager.active), failing)
      ensures status.Err? ==> sent == [] && manager.active == old(manager.active)
      ensures mode == PythonMode ==> status != Ok
    {
      var found := Find(items, id);
      if found.None? {
        return Err(NotFound), [];
      }
      ghost var moved := MoveItem(items, id, to).value;
      assert WellFormed(moved, nextId) && Gapless(moved) && TracksIn(moved, tracks) by {
        MoveItemSpec(items, id, to, nextId);
        MoveItemTracks(items, id, to, nextId, tracks);
      }
      var k := found.value;
      var moving := items[k];
      var rest := items[..k] + items[k + 1..];
      var newPos := Clamp(to, |rest|);
      items := rest[..newPos] + [moving] + rest[newPos..];
      assert moved == Renumbered(items);
      Renumber();
      status, sent := Publish(failing);
    }

    /** update_playback: overwrite the fields the request carries, commit,
        then push. Without a playback row the first `setattr` on `None`
        raises before the commit; a request carrying no field sets nothing,
        and build_state then creates the default row. */
    method UpdatePlayback(u: PlaybackUpdate, failing: set<Realtime.Socket>)
      returns (status: Status, sent: seq<Realtime.Attempt<Snapshot>>)
      requires Valid()
      modifies this, manager
      ensures Valid()
      ensures items == old(items) && tracks == old(tracks) && nextId == old(nextId)
      ensures old(playback).None? && u != NoChange ==> status == Err(ServerError) && playback == old(playback)
      ensures old(playback).Some? || u == NoChange ==>
                playback == Some(Apply(old(playback).GetOr(Default), u))
                && status == if Encodable(mode, items) then Ok else Err(ServerError)
      ensures status.Ok? ==> sent == Realtime.Fanout(old(manager.active), StateMessage(items, playback.value))
                             && manager.active == Realtime.Survivors(old(manager.active), failing)
      ensures status.Err? ==> sent == [] && manager.active == old(manager.active)
      ensures mode == PythonMode ==> (status.Ok? <==> items == [] && (old(playback).Some? || u == NoChange))
    {
      if playback.Some? {
        playback := Some(Apply(playback.value, u));
      } else if u != NoChange {
        return Err(ServerError), [];
      } else {
        ApplyNoChange(Default);
      }
      status, sent := Publish(failing);
    }

    /** delete_track, its database part: 404 for an unknown track, otherwise
        delete the track's queue rows (without renumbering) and the track.
        It pushes nothing. */
    method DeleteTrack(trackId: int) returns (status: Status)
      requires Valid()
      modifies this
      ensures Valid()
      ensures status == if trackId in old(tracks) then Ok else Err(NotFound)
      ensures nextId == old(nextId) && playback == old(playback)
      ensures status.Err? ==> items == old(items) && tracks == old(tracks)
      ensures status.Ok? ==> items == WithoutTrack(old(items), trackId) && tracks == old(tracks) - {trackId}
    {
      if trackId !in tracks {
        return Err(NotFound);
      }
      WithoutTrackWellFormed(items, trackId, nextId);
      items := WithoutTrack(items, trackId);
      tracks := tracks - {trackId};
      status := Ok;
    }
  }
}

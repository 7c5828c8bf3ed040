/** The single playback-state row and update_playback's partial update. */
module Playback {
  import opened Common

  /** The playback row. Seconds and volume are floats in the source; here
      they are opaque reals (the code never validates them). */
  datatype PlaybackState = PlaybackState(isPlaying: bool, currentTrackId: Option<int>,
                                         positionSeconds: real, volume: real)

  /** The column defaults of a freshly created row. */
  const Default := PlaybackState(false, None, 0.0, 1.0)

  /** A request body: a field that is None was not sent (or sent as null). */
  datatype PlaybackUpdate = PlaybackUpdate(isPlaying: Option<bool>, currentTrackId: Option<int>,
                                           positionSeconds: Option<real>, volume: Option<real>)

  /** The update that sends nothing. */
  const NoChange := PlaybackUpdate(None, None, None, None)

  /** Overwrite every field the request carries and no other: a null
      `current_track_id` is dropped with the other nulls, so it leaves the
      stored track in place. */
  function Apply(s: PlaybackState, u: PlaybackUpdate): (r: PlaybackState)
    ensures u.isPlaying.Some? ==> r.isPlaying == u.isPlaying.value
    ensures u.isPlaying.None? ==> r.isPlaying == s.isPlaying
    ensures u.currentTrackId.Some? ==> r.currentTrackId == u.currentTrackId
    ensures u.currentTrackId.None? ==> r.currentTrackId == s.currentTrackId
    ensures u.positionSeconds.Some? ==> r.positionSeconds == u.positionSeconds.value
    ensures u.positionSeconds.None? ==> r.positionSeconds == s.positionSeconds
    ensures u.volume.Some? ==> r.volume == u.volume.value
    ensures u.volume.None? ==> r.volume == s.volume
  {
    PlaybackState(
      u.isPlaying.GetOr(s.isPlaying),
      if u.currentTrackId.Some? then u.currentTrackId else s.currentTrackId,
      u.positionSeconds.GetOr(s.positionSeconds),
      u.volume.GetOr(s.volume))
  }

  /** Two requests in a row, as one: the later one wins where both send a field. */
  function Then(u1: PlaybackUpdate, u2: PlaybackUpdate): PlaybackUpdate {
    PlaybackUpdate(
      if u2.isPlaying.Some? then u2.isPlaying else u1.isPlaying,
      if u2.currentTrackId.Some? then u2.currentTrackId else u1.currentTrackId,
      if u2.positionSeconds.Some? then u2.positionSeconds else u1.positionSeconds,
      if u2.volume.Some? then u2.volume else u1.volume)
  }

  /** Sending nothing changes nothing. */
  lemma ApplyNoChange(s: PlaybackState)
    ensures Apply(s, NoChange) == s
  {
  }

  /** Repeating a request has no further effect. */
  lemma ApplyIdempotent(s: PlaybackState, u: PlaybackUpdate)
    ensures Apply(Apply(s, u), u) == Apply(s, u)
  {
  }

  /** Applying two requests is applying their combination. */
  lemma ApplyThen(s: PlaybackState, u1: PlaybackUpdate, u2: PlaybackUpdate)
    ensures Apply(Apply(s, u1), u2) == Apply(s, Then(u1, u2))
  {
  }

  /** No request can clear the current track once one is set. */
  lemma TrackNeverCleared(s: PlaybackState, u: PlaybackUpdate)
    requires s.currentTrackId.Some?
    ensures Apply(s, u).currentTrackId.Some?
  {
  }

  /** Starting playback from the defaults keeps the default volume. */
  lemma PlayFromDefault()
    ensures Apply(Default, PlaybackUpdate(Some(true), None, None, None))
            == PlaybackState(true, None, 0.0, 1.0)
  {
  }
}

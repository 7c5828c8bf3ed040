/** The shared play queue as the endpoints of backend/app/main.py see it: the
    rows of the queue table, read back ordered by position. Every queue
    mutation of the application is given here as a function on that ordered
    sequence, with the lemmas that say what it guarantees. */
module Queue {
  import opened Common

  /** One row of the queue table. `position` decides the play order. */
  datatype QueueItem = QueueItem(id: nat, trackId: int, addedBy: string, position: int)

  /** `a` comes before `b` in a query ordered by position. Rows with equal
      positions are assumed to come back in id order, the order in which
      SQLite's index on `position` returns them; SQL itself leaves it open. */
  predicate Precedes(a: QueueItem, b: QueueItem) {
    a.position < b.position || (a.position == b.position && a.id < b.id)
  }

  /** The sequence is in the order a position-ordered query returns it. */
  predicate Ordered(s: seq<QueueItem>) {
    forall i, j :: 0 <= i < j < |s| ==> Precedes(s[i], s[j])
  }

  /** Ids are a primary key. */
  predicate UniqueIds(s: seq<QueueItem>) {
    forall i, j :: 0 <= i < j < |s| ==> s[i].id != s[j].id
  }

  /** What every reachable queue satisfies: read back in order, ids distinct
      and all below the next id the table hands out. */
  predicate WellFormed(s: seq<QueueItem>, nextId: nat) {
    Ordered(s) && UniqueIds(s) && forall x :: x in s ==> x.id < nextId
  }

  /** Positions are exactly 0..N-1, in order. */
  predicate Gapless(s: seq<QueueItem>) {
    forall i :: 0 <= i < |s| ==> s[i].position == i
  }

  /** Every queued track is in `tracks` (the foreign key to the tracks table). */
  predicate TracksIn(s: seq<QueueItem>, tracks: set<int>) {
    forall x :: x in s ==> x.trackId in tracks
  }

  predicate Contains(s: seq<QueueItem>, id: nat) {
    exists i :: 0 <= i < |s| && s[i].id == id
  }

  /** An entry with its position blanked out: what renumbering keeps. */
  function Entry(x: QueueItem): QueueItem {
    x.(position := 0)
  }

  /** The entries of a queue, in queue order, without their positions. */
  function Entries(s: seq<QueueItem>): seq<QueueItem> {
    seq(|s|, i requires 0 <= i < |s| => Entry(s[i]))
  }

  function RemoveAt<T>(s: seq<T>, k: nat): seq<T>
    requires k < |s|
  {
    s[..k] + s[k + 1..]
  }

  function InsertAt<T>(s: seq<T>, p: nat, x: T): seq<T>
    requires p <= |s|
  {
    s[..p] + [x] + s[p..]
  }

  // ---------------------------------------------------------------------
  // Lookup and renumbering

  /** The index of the entry with this id: the `.first()` of a query by id,
      and the `next(...)` search over the ordered list in reorder. */
  function Find(s: seq<QueueItem>, id: nat): (r: Option<nat>)
    ensures r.None? <==> !Contains(s, id)
    ensures r.Some? ==> r.value < |s| && s[r.value].id == id && !Contains(s[..r.value], id)
  {
    if |s| == 0 then None
    else if s[0].id == id then
      assert s[..0] == [];
      Some(0)
    else
      match Find(s[1..], id)
      case None =>
        assert !Contains(s, id) by {
          forall i | 0 <= i < |s| ensures s[i].id != id {
            if i > 0 { assert s[i] == s[1..][i - 1]; }
          }
        }
        None
      case Some(k) =>
        var prefix := s[..k + 1];
        assert !Contains(prefix, id) by {
          forall i | 0 <= i < |prefix| ensures prefix[i].id != id {
            if i > 0 { assert prefix[i] == s[1..][..k][i - 1]; }
          }
        }
        Some(k + 1)
  }

  /** Re-derive every position from the current order (the `enumerate`
      loops of remove and reorder). */
  function Renumbered(s: seq<QueueItem>): (r: seq<QueueItem>)
    ensures |r| == |s| && Gapless(r) && Entries(r) == Entries(s)
  {
    seq(|s|, i requires 0 <= i < |s| => s[i].(position := i))
  }

  /** A gapless queue with distinct ids below `nextId` is well formed. */
  lemma GaplessWellFormed(s: seq<QueueItem>, nextId: nat)
    requires Gapless(s) && UniqueIds(s) && forall x :: x in s ==> x.id < nextId
    ensures WellFormed(s, nextId)
  {
  }

  /** Equal entries mean equal ids, in the same places. */
  lemma EntriesIds(a: seq<QueueItem>, b: seq<QueueItem>)
    requires Entries(a) == Entries(b)
    ensures |a| == |b| && forall i :: 0 <= i < |a| ==> a[i].id == b[i].id
  {
    assert |a| == |Entries(a)|;
    forall i | 0 <= i < |a| ensures a[i].id == b[i].id {
      assert Entries(a)[i] == Entry(a[i]);
      assert Entries(b)[i] == Entry(b[i]);
    }
  }

  lemma EntriesRemoveAt(s: seq<QueueItem>, k: nat)
    requires k < |s|
    ensures Entries(RemoveAt(s, k)) == RemoveAt(Entries(s), k)
  {
    var l, r := Entries(RemoveAt(s, k)), RemoveAt(Entries(s), k);
    assert |l| == |r|;
    forall i | 0 <= i < |l| ensures l[i] == r[i] {
      if i < k { assert RemoveAt(s, k)[i] == s[i]; }
      else { assert RemoveAt(s, k)[i] == s[i + 1]; }
    }
  }

  lemma EntriesInsertAt(s: seq<QueueItem>, p: nat, x: QueueItem)
    requires p <= |s|
    ensures Entries(InsertAt(s, p, x)) == InsertAt(Entries(s), p, Entry(x))
  {
    var l, r := Entries(InsertAt(s, p, x)), InsertAt(Entries(s), p, Entry(x));
    assert |l| == |r|;
    forall i | 0 <= i < |l| ensures l[i] == r[i] {
      if i < p { assert InsertAt(s, p, x)[i] == s[i]; }
      else if i == p { assert InsertAt(s, p, x)[i] == x; }
      else { assert InsertAt(s, p, x)[i] == s[i - 1]; }
    }
  }

  /** Taking one entry out keeps the others distinct, and none of them has
      the id of the one taken out. */
  lemma RemoveAtUnique(s: seq<QueueItem>, k: nat)
    requires k < |s| && UniqueIds(s)
    ensures UniqueIds(RemoveAt(s, k)) && !Contains(RemoveAt(s, k), s[k].id)
    ensures forall x :: x in RemoveAt(s, k) ==> x in s
  {
    var t := RemoveAt(s, k);
    assert forall i :: 0 <= i < |t| ==> t[i] == if i < k then s[i] else s[i + 1];
  }

  lemma InsertAtUnique(t: seq<QueueItem>, p: nat, x: QueueItem)
    requires p <= |t| && UniqueIds(t) && !Contains(t, x.id)
    ensures UniqueIds(InsertAt(t, p, x))
    ensures forall y :: y in InsertAt(t, p, x) ==> y == x || y in t
  {
    var u := InsertAt(t, p, x);
    assert forall i :: 0 <= i < |u| ==> u[i] == if i < p then t[i] else if i == p then x else t[i - 1];
  }

  lemma MultisetMove<T>(t: seq<T>, k: nat, p: nat)
    requires k < |t| && p < |t|
    ensures multiset(InsertAt(RemoveAt(t, k), p, t[k])) == multiset(t)
  {
    var rest := RemoveAt(t, k);
    assert rest == t[..k] + t[k + 1..];
    assert t == t[..k] + [t[k]] + t[k + 1..];
    assert multiset(t) == multiset(t[..k]) + multiset{t[k]} + multiset(t[k + 1..]);
    assert multiset(rest) == multiset(t[..k]) + multiset(t[k + 1..]);
    assert rest == rest[..p] + rest[p..];
    assert multiset(rest) == multiset(rest[..p]) + multiset(rest[p..]);
    assert multiset(InsertAt(rest, p, t[k])) == multiset(rest[..p]) + multiset{t[k]} + multiset(rest[p..]);
    assert multiset(InsertAt(rest, p, t[k])) == multiset(rest) + multiset{t[k]};
  }

  lemma RemoveInserted<T>(t: seq<T>, p: nat, x: T)
    requires p <= |t|
    ensures RemoveAt(InsertAt(t, p, x), p) == t
  {
    var u := InsertAt(t, p, x);
    assert u[..p] == t[..p];
    assert u[p + 1..] == t[p..];
  }

  // ---------------------------------------------------------------------
  // add_to_queue

  /** The row add_to_queue creates: its position is the number of rows. */
  function NewItem(s: seq<QueueItem>, nextId: nat, trackId: int, user: string): (e: QueueItem)
    ensures WellFormed(s, nextId) ==> !Contains(s, e.id)
    ensures Gapless(s) ==> forall i :: 0 <= i < |s| ==> s[i].position < e.position
  {
    QueueItem(nextId, trackId, user, |s|)
  }

  /** Where a new row appears when the table is read back by position: after
      every row whose position is not larger (those have smaller ids). */
  function InsertByPosition(s: seq<QueueItem>, e: QueueItem): (r: seq<QueueItem>)
    ensures |r| == |s| + 1
  {
    if s == [] || e.position < s[0].position then [e] + s
    else [s[0]] + InsertByPosition(s[1..], e)
  }

  /** The read-back holds the old rows and the new one, each exactly once. */
  lemma {:induction false} InsertByPositionCount(s: seq<QueueItem>, e: QueueItem)
    ensures multiset(InsertByPosition(s, e)) == multiset(s) + multiset{e}
  {
    if s != [] && e.position >= s[0].position {
      InsertByPositionCount(s[1..], e);
      assert s == [s[0]] + s[1..];
    }
  }

  /** The queue after add_to_queue has committed its row. */
  function Enqueue(s: seq<QueueItem>, nextId: nat, trackId: int, user: string): (r: seq<QueueItem>)
    ensures |r| == |s| + 1 && NewItem(s, nextId, trackId, user) in r
  {
    var e := NewItem(s, nextId, trackId, user);
    InsertByPositionCount(s, e);
    assert e in multiset(InsertByPosition(s, e));
    InsertByPosition(s, e)
  }

  lemma {:induction false} InsertKeepsOrder(s: seq<QueueItem>, e: QueueItem)
    requires Ordered(s) && forall x :: x in s ==> x.id < e.id
    ensures Ordered(InsertByPosition(s, e))
  {
    var r := InsertByPosition(s, e);
    if s == [] || e.position < s[0].position {
      forall j | 0 < j < |r| ensures Precedes(e, r[j]) {
        assert r[j] == s[j - 1];
        if j > 1 { assert Precedes(s[0], s[j - 1]); }
      }
    } else {
      var t := InsertByPosition(s[1..], e);
      InsertByPositionCount(s[1..], e);
      assert Ordered(s[1..]) by {
        forall i, j | 0 <= i < j < |s[1..]| ensures Precedes(s[1..][i], s[1..][j]) {
          assert Precedes(s[i + 1], s[j + 1]);
        }
      }
      InsertKeepsOrder(s[1..], e);
      forall x | x in t ensures Precedes(s[0], x) {
        assert x in multiset(t);
        if x != e {
          assert x in s[1..];
          var j :| 0 <= j < |s[1..]| && s[1..][j] == x;
          assert Precedes(s[0], s[j + 1]);
        }
      }
      assert r == [s[0]] + t;
    }
  }

  /** When every row's position is at most the new one's, the new row is read
      back last. */
  lemma {:induction false} InsertAtTail(s: seq<QueueItem>, e: QueueItem)
    requires forall x :: x in s ==> x.position <= e.position
    ensures InsertByPosition(s, e) == s + [e]
  {
    if s != [] {
      assert e.position >= s[0].position;
      assert forall x :: x in s[1..] ==> x in s;
      InsertAtTail(s[1..], e);
      assert s == [s[0]] + s[1..];
    }
  }

  /** The new row has the largest id, so the table stays well formed. */
  lemma EnqueueWellFormed(s: seq<QueueItem>, nextId: nat, trackId: int, user: string)
    requires WellFormed(s, nextId)
    ensures WellFormed(Enqueue(s, nextId, trackId, user), nextId + 1)
  {
    var e := NewItem(s, nextId, trackId, user);
    var r := Enqueue(s, nextId, trackId, user);
    InsertByPositionCount(s, e);
    InsertKeepsOrder(s, e);
    assert forall x :: x in r ==> x == e || x in s by {
      forall x | x in r ensures x == e || x in s {
        assert x in multiset(r);
      }
    }
    assert UniqueIds(r) by {
      forall i, j | 0 <= i < j < |r| ensures r[i].id != r[j].id {
        assert Precedes(r[i], r[j]);
        assert r[i] in r && r[j] in r;
      }
    }
  }

  /** With positions 0..N-1 the new row, at position N, is read back last. */
  lemma EnqueueGapless(s: seq<QueueItem>, nextId: nat, trackId: int, user: string)
    requires Gapless(s)
    ensures var r := Enqueue(s, nextId, trackId, user);
            r == s + [NewItem(s, nextId, trackId, user)] && Gapless(r)
  {
    var e := NewItem(s, nextId, trackId, user);
    forall x | x in s ensures x.position <= e.position {
      var i :| 0 <= i < |s| && s[i] == x;
    }
    InsertAtTail(s, e);
  }

  /** add_to_queue adds exactly one entry, keeps the table well formed, and
      when positions were 0..N-1 the new entry is last, at position N. */
  lemma EnqueueSpec(s: seq<QueueItem>, nextId: nat, trackId: int, user: string)
    requires WellFormed(s, nextId)
    ensures var e := NewItem(s, nextId, trackId, user);
            var r := Enqueue(s, nextId, trackId, user);
            WellFormed(r, nextId + 1) && multiset(r) == multiset(s) + multiset{e}
            && (Gapless(s) ==> r == s + [e] && Gapless(r))
  {
    InsertByPositionCount(s, NewItem(s, nextId, trackId, user));
    EnqueueWellFormed(s, nextId, trackId, user);
    if Gapless(s) {
      EnqueueGapless(s, nextId, trackId, user);
    }
  }

  lemma EnqueueTracks(s: seq<QueueItem>, nextId: nat, trackId: int, user: string, tracks: set<int>)
    requires TracksIn(s, tracks) && trackId in tracks
    ensures TracksIn(Enqueue(s, nextId, trackId, user), tracks)
  {
    var r := Enqueue(s, nextId, trackId, user);
    InsertByPositionCount(s, NewItem(s, nextId, trackId, user));
    forall x | x in r ensures x.trackId in tracks {
      assert x in multiset(r);
    }
  }

  /** Renumbering keeps every row's track. */
  lemma RenumberedTracks(s: seq<QueueItem>, tracks: set<int>)
    requires TracksIn(s, tracks)
    ensures TracksIn(Renumbered(s), tracks)
  {
    var r := Renumbered(s);
    forall x | x in r ensures x.trackId in tracks {
      var i :| 0 <= i < |r| && r[i] == x;
      assert s[i] in s;
    }
  }

  /** Renumbering and moving entries around keeps the set of tracks. */
  lemma SameEntriesTracks(a: seq<QueueItem>, b: seq<QueueItem>, tracks: set<int>)
    requires TracksIn(b, tracks) && multiset(Entries(a)) == multiset(Entries(b))
    ensures TracksIn(a, tracks)
  {
    forall x | x in a ensures x.trackId in tracks {
      var i :| 0 <= i < |a| && a[i] == x;
      assert Entries(a)[i] == Entry(x);
      assert Entry(x) in multiset(Entries(b));
      var j :| 0 <= j < |b| && Entries(b)[j] == Entry(x);
      assert b[j] in b;
    }
  }

  // ---------------------------------------------------------------------
  // remove_queue_item

  /** remove_queue_item: 404 for an unknown id, otherwise the row is deleted
      and the rest renumbered from their current order. */
  function RemoveItem(s: seq<QueueItem>, id: nat): (r: Result<seq<QueueItem>>)
    ensures r.Failure? <==> !Contains(s, id)
    ensures r.Failure? ==> r.error == NotFound
  {
    match Find(s, id)
    case None => Failure(NotFound)
    case Some(k) => Success(Renumbered(RemoveAt(s, k)))
  }

  /** A removal leaves one entry fewer, none with that id, the others in
      their relative order, and positions 0..N-2. */
  lemma RemoveItemSpec(s: seq<QueueItem>, id: nat, nextId: nat)
    requires WellFormed(s, nextId) && Contains(s, id)
    ensures var r := RemoveItem(s, id).value;
            var k := Find(s, id).value;
            |r| == |s| - 1 && Gapless(r) && WellFormed(r, nextId)
            && !Contains(r, id) && Entries(r) == RemoveAt(Entries(s), k)
  {
    var k := Find(s, id).value;
    var t := RemoveAt(s, k);
    var r := RemoveItem(s, id).value;
    RemoveAtUnique(s, k);
    EntriesRemoveAt(s, k);
    EntriesIds(r, t);
    assert UniqueIds(r) by {
      forall i, j | 0 <= i < j < |r| ensures r[i].id != r[j].id {
        assert r[i].id == t[i].id && r[j].id == t[j].id;
      }
    }
    forall x | x in r ensures x.id < nextId && x.id != id {
      var i :| 0 <= i < |r| && r[i] == x;
      assert t[i] in t;
    }
    GaplessWellFormed(r, nextId);
  }

  lemma RemoveItemTracks(s: seq<QueueItem>, id: nat, tracks: set<int>)
    requires TracksIn(s, tracks) && Contains(s, id)
    ensures TracksIn(RemoveItem(s, id).value, tracks)
  {
    var k := Find(s, id).value;
    var t := RemoveAt(s, k);
    forall x | x in t ensures x.trackId in tracks {
      var i :| 0 <= i < |t| && t[i] == x;
      if i < k { assert t[i] == s[i]; } else { assert t[i] == s[i + 1]; }
    }
    RenumberedTracks(t, tracks);
  }

  // ---------------------------------------------------------------------
  // reorder_queue

  /** `max(0, min(to, n))`: a target below 0 means 0, one above n means n. */
  function Clamp(to: int, n: nat): (p: nat)
    ensures p <= n
    ensures 0 <= to <= n ==> p == to
    ensures to < 0 ==> p == 0
    ensures to > n ==> p == n
  {
    var m := if to < n then to else n;
    if m < 0 then 0 else m
  }

  /** reorder_queue: 404 for an unknown id, otherwise the entry is taken out,
      put back at the clamped index and every position is renumbered. */
  function MoveItem(s: seq<QueueItem>, id: nat, to: int): (r: Result<seq<QueueItem>>)
    ensures r.Failure? <==> !Contains(s, id)
    ensures r.Failure? ==> r.error == NotFound
  {
    match Find(s, id)
    case None => Failure(NotFound)
    case Some(k) =>
      var rest := RemoveAt(s, k);
      Success(Renumbered(InsertAt(rest, Clamp(to, |rest|), s[k])))
  }

  /** A move keeps ids unique and renumbers positions to 0..N-1. */
  lemma MoveItemWellFormed(s: seq<QueueItem>, id: nat, to: int, nextId: nat)
    requires WellFormed(s, nextId) && Contains(s, id)
    ensures var r := MoveItem(s, id, to).value;
            |r| == |s| && Gapless(r) && WellFormed(r, nextId)
  {
    var k := Find(s, id).value;
    var rest := RemoveAt(s, k);
    var p := Clamp(to, |rest|);
    var u := InsertAt(rest, p, s[k]);
    var r := MoveItem(s, id, to).value;
    assert r == Renumbered(u);
    RemoveAtUnique(s, k);
    InsertAtUnique(rest, p, s[k]);
    EntriesIds(r, u);
    assert UniqueIds(r) by {
      forall i, j | 0 <= i < j < |r| ensures r[i].id != r[j].id {
        assert r[i].id == u[i].id && r[j].id == u[j].id;
      }
    }
    forall x | x in r ensures x.id < nextId {
      var i :| 0 <= i < |r| && r[i] == x;
      assert u[i] in u;
    }
    GaplessWellFormed(r, nextId);
  }

  /** A move puts the entry at the clamped index and keeps the others in
      their relative order. */
  lemma MoveItemEntries(s: seq<QueueItem>, id: nat, to: int)
    requires Contains(s, id)
    ensures var r := MoveItem(s, id, to).value;
            var k := Find(s, id).value;
            var p := Clamp(to, |s| - 1);
            p < |r| && Entry(r[p]) == Entry(s[k]) && r[p].id == id
            && RemoveAt(Entries(r), p) == RemoveAt(Entries(s), k)
            && multiset(Entries(r)) == multiset(Entries(s))
  {
    var k := Find(s, id).value;
    var rest := RemoveAt(s, k);
    var p := Clamp(to, |rest|);
    var r := MoveItem(s, id, to).value;
    EntriesRemoveAt(s, k);
    EntriesInsertAt(rest, p, s[k]);
    assert Entries(r) == InsertAt(RemoveAt(Entries(s), k), p, Entry(s[k]));
    assert Entries(r)[p] == Entry(r[p]);
    assert Entries(s)[k] == Entry(s[k]);
    RemoveInserted(RemoveAt(Entries(s), k), p, Entry(s[k]));
    MultisetMove(Entries(s), k, p);
  }

  /** A move keeps the same entries, puts the moved one at the clamped index
      and leaves every other entry in its relative order; positions become
      0..N-1. */
  lemma MoveItemSpec(s: seq<QueueItem>, id: nat, to: int, nextId: nat)
    requires WellFormed(s, nextId) && Contains(s, id)
    ensures var r := MoveItem(s, id, to).value;
            var k := Find(s, id).value;
            var p := Clamp(to, |s| - 1);
            |r| == |s| && Gapless(r) && WellFormed(r, nextId)
            && Entry(r[p]) == Entry(s[k]) && r[p].id == id
            && RemoveAt(Entries(r), p) == RemoveAt(Entries(s), k)
            && multiset(Entries(r)) == multiset(Entries(s))
  {
    MoveItemWellFormed(s, id, to, nextId);
    MoveItemEntries(s, id, to);
  }

  lemma MoveItemTracks(s: seq<QueueItem>, id: nat, to: int, nextId: nat, tracks: set<int>)
    requires WellFormed(s, nextId) && TracksIn(s, tracks) && Contains(s, id)
    ensures TracksIn(MoveItem(s, id, to).value, tracks)
  {
    MoveItemSpec(s, id, to, nextId);
    SameEntriesTracks(MoveItem(s, id, to).value, s, tracks);
  }

  /** A target of -5, or any target below 0, moves exactly as 0 does. */
  lemma MoveBelowZero(s: seq<QueueItem>, id: nat, to: int)
    requires to < 0
    ensures MoveItem(s, id, to) == MoveItem(s, id, 0)
  {
  }

  /** A target at or past the last index puts the entry last. */
  lemma MovePastEnd(s: seq<QueueItem>, id: nat, to: int, nextId: nat)
    requires WellFormed(s, nextId) && Contains(s, id) && to >= |s| - 1
    ensures var r := MoveItem(s, id, to).value;
            |r| == |s| && r[|r| - 1].id == id && r[|r| - 1].position == |s| - 1
  {
    MoveItemSpec(s, id, to, nextId);
  }

  // ---------------------------------------------------------------------
  // delete_track, the queue step

  /** delete_track's bulk delete: every row of that track goes, the others
      stay as they are, positions included. */
  function WithoutTrack(s: seq<QueueItem>, trackId: int): (r: seq<QueueItem>)
    ensures |r| <= |s|
    ensures forall x :: x in r <==> x in s && x.trackId != trackId
  {
    if s == [] then []
    else if s[0].trackId == trackId then WithoutTrack(s[1..], trackId)
    else [s[0]] + WithoutTrack(s[1..], trackId)
  }

  /** The bulk delete keeps the table well formed (but not gapless). */
  lemma {:induction false} WithoutTrackWellFormed(s: seq<QueueItem>, trackId: int, nextId: nat)
    requires WellFormed(s, nextId)
    ensures WellFormed(WithoutTrack(s, trackId), nextId)
  {
    if s != [] {
      var tail := s[1..];
      assert WellFormed(tail, nextId) by {
        forall i, j | 0 <= i < j < |tail| ensures Precedes(tail[i], tail[j]) && tail[i].id != tail[j].id {
          assert tail[i] == s[i + 1] && tail[j] == s[j + 1];
        }
      }
      WithoutTrackWellFormed(tail, trackId, nextId);
      var t := WithoutTrack(tail, trackId);
      if s[0].trackId != trackId {
        var r := [s[0]] + t;
        forall j | 0 < j < |r| ensures Precedes(r[0], r[j]) && r[0].id != r[j].id {
          assert r[j] in t;
          var m :| 0 <= m < |tail| && tail[m] == r[j];
          assert s[m + 1] == r[j];
        }
      }
    }
  }

  /** Deleting a track's rows and then enqueueing can put the new entry
      before an existing one: the positions left by the delete are 2 and 3,
      the new row gets position 2 (the row count) and is read back second. */
  lemma DeleteTrackThenEnqueueNotLast()
    ensures var s := [QueueItem(1, 7, "host", 0), QueueItem(2, 7, "host", 1),
                      QueueItem(3, 8, "user", 2), QueueItem(4, 9, "user", 3)];
            var d := WithoutTrack(s, 7);
            var r := Enqueue(d, 5, 10, "user");
            Gapless(s) && !Gapless(d) && |r| == 3
            && r[1] == QueueItem(5, 10, "user", 2) && r[2] == s[3]
  {
    var s := [QueueItem(1, 7, "host", 0), QueueItem(2, 7, "host", 1),
              QueueItem(3, 8, "user", 2), QueueItem(4, 9, "user", 3)];
    assert s[1..][1..] == [s[2], s[3]];
    assert WithoutTrack(s, 7) == [s[2], s[3]];
  }

  /** The delete as intended: drop the track's rows, then renumber like
      remove_queue_item does. */
  function WithoutTrackRenumbered(s: seq<QueueItem>, trackId: int): (r: seq<QueueItem>)
    ensures Gapless(r) && Entries(r) == Entries(WithoutTrack(s, trackId))
  {
    Renumbered(WithoutTrack(s, trackId))
  }

  /** With the renumbering delete, the queue stays gapless and the next
      enqueue lands last. */
  lemma DeleteTrackRenumberedThenEnqueueLast(s: seq<QueueItem>, trackId: int, nextId: nat, newTrack: int, user: string)
    requires WellFormed(s, nextId)
    ensures var d := WithoutTrackRenumbered(s, trackId);
            WellFormed(d, nextId) && Gapless(d)
            && Enqueue(d, nextId, newTrack, user) == d + [NewItem(d, nextId, newTrack, user)]
  {
    var w := WithoutTrack(s, trackId);
    var d := WithoutTrackRenumbered(s, trackId);
    WithoutTrackWellFormed(s, trackId, nextId);
    EntriesIds(d, w);
    assert UniqueIds(d) by {
      forall i, j | 0 <= i < j < |d| ensures d[i].id != d[j].id {
        assert d[i].id == w[i].id && d[j].id == w[j].id;
      }
    }
    forall x | x in d ensures x.id < nextId {
      var i :| 0 <= i < |d| && d[i] == x;
      assert w[i] in w;
    }
    GaplessWellFormed(d, nextId);
    EnqueueSpec(d, nextId, newTrack, user);
  }
}

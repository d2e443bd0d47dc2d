/** Tracks and the sequence-level operations the player performs on its
    playlist: the `findIndex` lookup by id and the `filter` that drops an id. */
module Playlist {

  /** An opaque identifier handed out for each imported file. */
  type TrackId = string

  /** One imported audio file: its id, its display name and the object URL
      the audio element plays. */
  datatype Track = Track(id: TrackId, name: string, file: string)

  /** No two tracks of `p` share an id. */
  ghost predicate UniqueIds(p: seq<Track>) {
    forall i, j :: 0 <= i < j < |p| ==> p[i].id != p[j].id
  }

  /** No track of `p` carries `id`. */
  ghost predicate Absent(p: seq<Track>, id: TrackId) {
    forall j :: 0 <= j < |p| ==> p[j].id != id
  }

  /** `i` is the first position of `p` whose track carries `id`. */
  ghost predicate IsFirstIndex(p: seq<Track>, id: TrackId, i: int) {
    && 0 <= i < |p|
    && p[i].id == id
    && forall j :: 0 <= j < i ==> p[j].id != id
  }

  /** `a` is `b` with some elements dropped, the rest kept in order. */
  ghost predicate IsSubsequence<T>(a: seq<T>, b: seq<T>)
    decreases |b|
  {
    if |a| == 0 then true
    else if |b| == 0 then false
    else (a[0] == b[0] && IsSubsequence(a[1..], b[1..])) || IsSubsequence(a, b[1..])
  }

  /** `Array.prototype.findIndex` with the predicate `track.id === id`:
      the first matching position, or the sentinel -1 when none matches. */
  function FindIndex(p: seq<Track>, id: TrackId): (r: int)
    ensures -1 <= r < |p|
    ensures r == -1 <==> Absent(p, id)
    ensures r != -1 ==> IsFirstIndex(p, id, r)
  {
    if |p| == 0 then -1
    else if p[0].id == id then 0
    else
      var k := FindIndex(p[1..], id);
      if k == -1 then -1 else k + 1
  }

  /** `Array.prototype.filter` with the predicate `track.id !== id`. */
  function Without(p: seq<Track>, id: TrackId): (r: seq<Track>)
    ensures |r| <= |p|
    ensures forall t :: t in r <==> t in p && t.id != id
  {
    if |p| == 0 then []
    else if p[0].id != id then [p[0]] + Without(p[1..], id)
    else Without(p[1..], id)
  }

  /** Filtering keeps the surviving tracks in their original order. */
  lemma {:induction false} WithoutIsSubsequence(p: seq<Track>, id: TrackId)
    ensures IsSubsequence(Without(p, id), p)
  {
    if |p| > 0 {
      WithoutIsSubsequence(p[1..], id);
      var r := Without(p, id);
      if p[0].id != id {
        assert r[0] == p[0] && r[1..] == Without(p[1..], id);
      }
    }
  }

  /** Filtering a concatenation filters each part: together with the
      one-track case this pins `Without` down completely. */
  lemma {:induction false} WithoutAppend(a: seq<Track>, b: seq<Track>, id: TrackId)
    ensures Without(a + b, id) == Without(a, id) + Without(b, id)
  {
    if |a| == 0 {
      assert a + b == b;
    } else {
      assert (a + b)[0] == a[0];
      assert (a + b)[1..] == a[1..] + b;
      WithoutAppend(a[1..], b, id);
    }
  }

  /** A lone track survives the filter exactly when its id differs. */
  lemma WithoutSingle(t: Track, id: TrackId)
    ensures Without([t], id) == if t.id == id then [] else [t]
  {
    assert [t][1..] == [];
  }

  /** Dropping an id nobody carries changes nothing. */
  lemma {:induction false} WithoutAbsent(p: seq<Track>, id: TrackId)
    requires Absent(p, id)
    ensures Without(p, id) == p
  {
    if |p| > 0 {
      WithoutAbsent(p[1..], id);
      assert [p[0]] + p[1..] == p;
    }
  }

  /** Dropping the same id twice is dropping it once. */
  lemma WithoutIdempotent(p: seq<Track>, id: TrackId)
    ensures Without(Without(p, id), id) == Without(p, id)
  {
    var r := Without(p, id);
    assert forall j :: 0 <= j < |r| ==> r[j] in r;
    WithoutAbsent(r, id);
  }

  /** Filtering keeps ids unique. */
  lemma {:induction false} WithoutKeepsUniqueIds(p: seq<Track>, id: TrackId)
    requires UniqueIds(p)
    ensures UniqueIds(Without(p, id))
  {
    if |p| > 0 {
      var tail := p[1..];
      assert UniqueIds(tail) by {
        forall i, j | 0 <= i < j < |tail| ensures tail[i].id != tail[j].id {
          assert tail[i] == p[i + 1] && tail[j] == p[j + 1];
        }
      }
      WithoutKeepsUniqueIds(tail, id);
      var rest := Without(tail, id);
      if p[0].id != id {
        forall j | 0 <= j < |rest| ensures rest[j].id != p[0].id {
          assert rest[j] in tail;
          var k :| 0 <= k < |tail| && tail[k] == rest[j];
          assert tail[k] == p[k + 1];
        }
      }
    }
  }

  /** With unique ids, the id at `i` occurs nowhere before or after `i`. */
  lemma UniqueIdAround(p: seq<Track>, i: int)
    requires UniqueIds(p)
    requires 0 <= i < |p|
    ensures Absent(p[..i], p[i].id)
    ensures Absent(p[i + 1..], p[i].id)
  {
    var pre, post := p[..i], p[i + 1..];
    forall j | 0 <= j < |pre| ensures pre[j].id != p[i].id {
      assert pre[j] == p[j];
    }
    forall j | 0 <= j < |post| ensures post[j].id != p[i].id {
      assert post[j] == p[i + 1 + j];
    }
  }

  /** Filtering out the id of a track that occurs nowhere else removes
      just that track. */
  lemma WithoutLoneTrack(pre: seq<Track>, t: Track, post: seq<Track>)
    requires Absent(pre, t.id) && Absent(post, t.id)
    ensures Without(pre + [t] + post, t.id) == pre + post
  {
    WithoutAppend(pre + [t], post, t.id);
    WithoutAppend(pre, [t], t.id);
    WithoutSingle(t, t.id);
    WithoutAbsent(pre, t.id);
    WithoutAbsent(post, t.id);
    assert pre + [] == pre;
  }

  /** With unique ids, deleting the id of the track at `i` removes exactly
      that one position. */
  lemma WithoutAtUnique(p: seq<Track>, i: int)
    requires UniqueIds(p)
    requires 0 <= i < |p|
    ensures Without(p, p[i].id) == p[..i] + p[i + 1..]
  {
    UniqueIdAround(p, i);
    assert p == p[..i] + [p[i]] + p[i + 1..];
    WithoutLoneTrack(p[..i], p[i], p[i + 1..]);
  }
}

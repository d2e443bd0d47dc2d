/** The playlist state machine of the player component: each event handler
    is one atomic transition of an immutable `State`. */
module Player {
  import opened Wrappers
  import opened Playlist

  /** The component's state: the ordered playlist and the optional track in
      focus (`null` in the source is `None` here). */
  datatype State = State(playlist: seq<Track>, current: Option<Track>)

  /** A file picked in the file dialog; only its name is read. */
  datatype SelectedFile = SelectedFile(name: string)

  /** The playlist keeps every id at most once. */
  ghost predicate Valid(s: State) {
    UniqueIds(s.playlist)
  }

  /** The tracks built from the picked files, in file order: the k-th file
      gets the k-th supplied id and the k-th supplied object URL. */
  function NewTracks(files: seq<SelectedFile>, ids: seq<TrackId>, urls: seq<string>): (r: seq<Track>)
    requires |ids| == |files| && |urls| == |files|
    ensures |r| == |files|
    ensures forall k :: 0 <= k < |r| ==> r[k].id == ids[k] && r[k].name == files[k].name && r[k].file == urls[k]
  {
    if |files| == 0 then []
    else [Track(ids[0], files[0].name, urls[0])] + NewTracks(files[1..], ids[1..], urls[1..])
  }

  /** Importing files: a non-empty selection is appended after the existing
      tracks; an empty selection changes nothing. */
  function Import(s: State, files: seq<SelectedFile>, ids: seq<TrackId>, urls: seq<string>): (r: State)
    requires |ids| == |files| && |urls| == |files|
    ensures |files| == 0 ==> r == s
    ensures r.current == s.current
    ensures |r.playlist| == |s.playlist| + |files|
    ensures r.playlist[..|s.playlist|] == s.playlist
    ensures forall k :: 0 <= k < |files| ==>
      r.playlist[|s.playlist| + k] == Track(ids[k], files[k].name, urls[k])
  {
    if |files| > 0 then State(s.playlist + NewTracks(files, ids, urls), s.current)
    else s
  }

  /** Selecting a track puts that very track in focus. */
  function Select(s: State, t: Track): (r: State)
    ensures r.current == Some(t)
    ensures r.playlist == s.playlist
  {
    State(s.playlist, Some(t))
  }

  /** Deleting an id drops every track carrying it and keeps the focus as it
      was, even when the focused track is among those dropped. */
  function Delete(s: State, id: TrackId): (r: State)
    ensures r.current == s.current
    ensures |r.playlist| <= |s.playlist|
    ensures forall t :: t in r.playlist <==> t in s.playlist && t.id != id
  {
    State(Without(s.playlist, id), s.current)
  }

  /** The track that ended is looked up by id. Found before the last
      position, the next track takes focus; found last, focus is cleared.
      Not found, the -1 sentinel makes a non-empty playlist restart at its
      first track and an empty one clear the focus. */
  function Advance(s: State): (r: State)
    requires s.current.Some?
    ensures r.playlist == s.playlist
    ensures forall i :: IsFirstIndex(s.playlist, s.current.value.id, i) ==>
      r.current == (if i < |s.playlist| - 1 then Some(s.playlist[i + 1]) else None)
    ensures Absent(s.playlist, s.current.value.id) ==>
      r.current == (if |s.playlist| > 0 then Some(s.playlist[0]) else None)
    ensures r.current.Some? ==> r.current.value in s.playlist
  {
    var i := FindIndex(s.playlist, s.current.value.id);
    if i < |s.playlist| - 1 then State(s.playlist, Some(s.playlist[i + 1]))
    else State(s.playlist, None)
  }

  /** A click on a row's delete icon. The icon sits inside the row, whose
      own click handler selects the row's track, and the click bubbles up to
      it: the track is dropped from the playlist and then put in focus. */
  function DeleteClick(s: State, t: Track): (r: State)
    ensures r.current == Some(t)
    ensures t !in r.playlist
    ensures forall u :: u in r.playlist <==> u in s.playlist && u.id != t.id
  {
    Select(Delete(s, t.id), t)
  }

  /** `k` successive "ended" events. The audio element, and with it the
      ended handler, only exists while a track is in focus, so once focus is
      cleared further events have no effect. */
  function Play(s: State, k: nat): (r: State)
    ensures r.playlist == s.playlist
    ensures k > 0 && r.current.Some? ==> r.current.value in s.playlist
    decreases k
  {
    if k == 0 || s.current.None? then s
    else Play(Advance(s), k - 1)
  }

  /** Importing tracks with fresh, pairwise distinct ids keeps ids unique. */
  lemma ImportKeepsValid(s: State, files: seq<SelectedFile>, ids: seq<TrackId>, urls: seq<string>)
    requires |ids| == |files| && |urls| == |files|
    requires Valid(s)
    requires forall k, m :: 0 <= k < m < |ids| ==> ids[k] != ids[m]
    requires forall k, j :: 0 <= k < |ids| && 0 <= j < |s.playlist| ==> ids[k] != s.playlist[j].id
    ensures Valid(Import(s, files, ids, urls))
  {
    var r := Import(s, files, ids, urls);
    var n := |s.playlist|;
    forall i, j | 0 <= i < j < |r.playlist| ensures r.playlist[i].id != r.playlist[j].id {
      if j < n {
        assert r.playlist[i] == s.playlist[i] && r.playlist[j] == s.playlist[j];
      } else if i < n {
        assert r.playlist[i] == s.playlist[i] && r.playlist[j].id == ids[j - n];
      } else {
        assert r.playlist[i].id == ids[i - n] && r.playlist[j].id == ids[j - n];
      }
    }
  }

  /** Deleting keeps ids unique. */
  lemma DeleteKeepsValid(s: State, id: TrackId)
    requires Valid(s)
    ensures Valid(Delete(s, id))
  {
    WithoutKeepsUniqueIds(s.playlist, id);
  }

  /** The playlist after a delete is the old one with the dropped tracks
      removed and the others in their old order. */
  lemma DeleteKeepsOrder(s: State, id: TrackId)
    ensures IsSubsequence(Delete(s, id).playlist, s.playlist)
  {
    WithoutIsSubsequence(s.playlist, id);
  }

  /** Deleting an id no track carries changes nothing. */
  lemma DeleteAbsent(s: State, id: TrackId)
    requires Absent(s.playlist, id)
    ensures Delete(s, id) == s
  {
    WithoutAbsent(s.playlist, id);
  }

  /** Deleting the same id twice is deleting it once. */
  lemma DeleteIdempotent(s: State, id: TrackId)
    ensures Delete(Delete(s, id), id) == Delete(s, id)
  {
    WithoutIdempotent(s.playlist, id);
  }

  /** In a playlist with unique ids, deleting the id of the track at `i`
      removes exactly that position. */
  lemma DeleteRemovesOne(s: State, i: int)
    requires Valid(s)
    requires 0 <= i < |s.playlist|
    ensures Delete(s, s.playlist[i].id).playlist == s.playlist[..i] + s.playlist[i + 1..]
    ensures |Delete(s, s.playlist[i].id).playlist| == |s.playlist| - 1
  {
    WithoutAtUnique(s.playlist, i);
  }

  /** Deleting the focused track leaves it in focus although it is no longer
      in the playlist. */
  lemma DeleteOrphansCurrent(s: State)
    requires s.current.Some?
    ensures Delete(s, s.current.value.id).current == s.current
    ensures s.current.value !in Delete(s, s.current.value.id).playlist
  {
  }

  /** When the focused track has been deleted, the next "ended" event
      restarts the playlist from its first track, or clears focus when the
      playlist is empty. */
  lemma AdvanceAfterDeletingCurrent(s: State)
    requires s.current.Some?
    ensures var d := Delete(s, s.current.value.id);
      Advance(d).current == (if |d.playlist| > 0 then Some(d.playlist[0]) else None)
  {
    var d := Delete(s, s.current.value.id);
    assert Absent(d.playlist, s.current.value.id) by {
      forall j | 0 <= j < |d.playlist| ensures d.playlist[j].id != s.current.value.id {
        assert d.playlist[j] in d.playlist;
      }
    }
  }

  /** After a delete click, the track just deleted plays; when it ends, the
      playlist restarts from its first track, or focus is cleared when the
      playlist is now empty. */
  lemma DeleteClickThenEnded(s: State, t: Track)
    ensures var d := DeleteClick(s, t);
      Advance(d).current == (if |d.playlist| > 0 then Some(d.playlist[0]) else None)
  {
    var d := DeleteClick(s, t);
    assert Absent(d.playlist, t.id) by {
      forall j | 0 <= j < |d.playlist| ensures d.playlist[j].id != t.id {
        assert d.playlist[j] in d.playlist;
      }
    }
  }

  /** With unique ids, the track after the one that ended takes focus, and
      focus is cleared after the last one. */
  lemma AdvanceFrom(s: State, i: int)
    requires Valid(s)
    requires 0 <= i < |s.playlist|
    requires s.current.Some? && s.current.value.id == s.playlist[i].id
    ensures Advance(s).current == (if i < |s.playlist| - 1 then Some(s.playlist[i + 1]) else None)
  {
    assert IsFirstIndex(s.playlist, s.current.value.id, i);
  }

  /** Selecting the track at `i` of a playlist with unique ids and then
      letting `k` tracks end plays the playlist in order from `i`: the track
      at `i + k` is in focus, or nothing once the end has been passed. */
  lemma {:induction false} PlaysInOrder(s: State, i: int, k: nat)
    requires Valid(s)
    requires 0 <= i < |s.playlist|
    ensures Play(Select(s, s.playlist[i]), k).current ==
      (if i + k < |s.playlist| then Some(s.playlist[i + k]) else None)
    decreases k
  {
    var p := s.playlist;
    var sel := Select(s, p[i]);
    if k > 0 {
      AdvanceFrom(sel, i);
      var next := Advance(sel);
      if i < |p| - 1 {
        assert next == Select(s, p[i + 1]);
        PlaysInOrder(s, i + 1, k - 1);
      } else {
        assert next.current.None?;
        assert Play(next, k - 1) == next;
      }
    }
  }
}

/**
 * The generic track list (src/components/TrackList/index.tsx): resolving
 * its NORMAL tracks into play-queue items, the calls it makes on the play
 * queue, the map it keys the items by, and the wiring of rendered rows to
 * resolved items.
 */
module TrackList {
  import opened Wrappers
  import opened Types
  import opened Decimal
  import opened Services

  /** `isNormalTrack`: the type guard `track is NormalTrackItem`. */
  function IsNormalTrack(track: TrackItem): (b: bool)
    ensures b <==> track.NormalTrackItem?
  {
    track.ItemType() == NORMAL
  }

  /** `tracks.filter(isNormalTrack)` */
  function NormalTracks(tracks: seq<TrackItem>): (r: seq<TrackItem>)
    ensures AllNormal(r)
    ensures |r| <= |tracks|
  {
    if tracks == [] then []
    else
      var last := tracks[|tracks| - 1];
      NormalTracks(tracks[..|tracks| - 1]) + (if IsNormalTrack(last) then [last] else [])
  }

  predicate AllNormal(ns: seq<TrackItem>) {
    forall i :: 0 <= i < |ns| ==> ns[i].NormalTrackItem?
  }

  /** The lookup for track rejects: its album has a hosting library without a credential. */
  predicate Rejects(track: TrackItem, allCredentials: seq<Credential>, getAvailableLibraries: string -> seq<Url>)
    requires track.NormalTrackItem?
  {
    SelectLibrary(getAvailableLibraries(track.albumId), allCredentials).Failed?
  }

  /** The credential a selection settles to; `credential && url(...)` is undefined without one. */
  function CredentialOf(sel: Selection): Option<Credential> {
    if sel.Found? then Some(sel.credential) else None
  }

  /** The object the loop pushes for one track. */
  function ToQueueItem(track: TrackItem, credential: Option<Credential>): PlayQueueItem
    requires track.NormalTrackItem?
  {
    PlayQueueItem(
      title := track.title,
      artist := track.artist,
      coverUrl := if credential.Some? then Some(CoverUrl(track, credential.value)) else None,
      playUrl := if credential.Some? then Some(PlayUrl(track, credential.value)) else None,
      trackType := track.trackType,
      albumId := track.albumId,
      discIndex := track.discIndex,
      trackIndex := track.trackIndex,
      albumTitle := track.albumTitle,
      tags := track.tags)
  }

  /**
   * The resolution pass over the normal tracks: None when some lookup
   * rejects (the pass throws and commits nothing), otherwise the items in
   * track order.
   */
  function ResolveNormals(ns: seq<TrackItem>, allCredentials: seq<Credential>,
                          getAvailableLibraries: string -> seq<Url>): Option<seq<PlayQueueItem>>
    requires AllNormal(ns)
  {
    if ns == [] then Some([])
    else
      var prev := ResolveNormals(ns[..|ns| - 1], allCredentials, getAvailableLibraries);
      var track := ns[|ns| - 1];
      if prev.None? || Rejects(track, allCredentials, getAvailableLibraries) then None
      else
        var sel := SelectLibrary(getAvailableLibraries(track.albumId), allCredentials);
        Some(prev.value + [ToQueueItem(track, CredentialOf(sel))])
  }

  /** The result the effect hands to `setParsedTracks`, or None when it throws first. */
  function ResolveAll(tracks: seq<TrackItem>, allCredentials: seq<Credential>,
                      getAvailableLibraries: string -> seq<Url>): Option<seq<PlayQueueItem>>
  {
    ResolveNormals(NormalTracks(tracks), allCredentials, getAvailableLibraries)
  }

  /**
   * item is track resolved: every descriptive field copied, and both urls
   * present exactly when a credential was found, built from it.
   */
  ghost predicate ResolvedFrom(item: PlayQueueItem, track: TrackItem, allCredentials: seq<Credential>,
                               getAvailableLibraries: string -> seq<Url>)
    requires track.NormalTrackItem?
  {
    var sel := SelectLibrary(getAvailableLibraries(track.albumId), allCredentials);
    && item.title == track.title && item.artist == track.artist && item.trackType == track.trackType
    && item.albumId == track.albumId && item.discIndex == track.discIndex
    && item.trackIndex == track.trackIndex && item.albumTitle == track.albumTitle
    && item.tags == track.tags
    && (item.playUrl.Some? <==> sel.Found?)
    && (item.coverUrl.Some? <==> sel.Found?)
    && (sel.Found? ==> item.playUrl == Some(PlayUrl(track, sel.credential))
                       && item.coverUrl == Some(CoverUrl(track, sel.credential)))
  }

  /** A pass commits nothing exactly when the lookup of some normal track rejects. */
  lemma {:induction false} ResolveNormalsFailsIff(ns: seq<TrackItem>, allCredentials: seq<Credential>,
                                                  getAvailableLibraries: string -> seq<Url>)
    requires AllNormal(ns)
    ensures ResolveNormals(ns, allCredentials, getAvailableLibraries).None?
            <==> exists i :: 0 <= i < |ns| && Rejects(ns[i], allCredentials, getAvailableLibraries)
  {
    if ns != [] {
      var p, last := ns[..|ns| - 1], ns[|ns| - 1];
      ResolveNormalsFailsIff(p, allCredentials, getAvailableLibraries);
      assert ResolveNormals(ns, allCredentials, getAvailableLibraries).None?
             <==> ResolveNormals(p, allCredentials, getAvailableLibraries).None?
                  || Rejects(last, allCredentials, getAvailableLibraries);
      if i :| 0 <= i < |p| && Rejects(p[i], allCredentials, getAvailableLibraries) {
        assert ns[i] == p[i];
      }
      if i :| 0 <= i < |ns| && Rejects(ns[i], allCredentials, getAvailableLibraries) {
        if i < |p| {
          assert ns[i] == p[i];
        }
      }
    }
  }

  /** A committed pass has one item per normal track, in order, each resolved from its track. */
  lemma {:induction false} ResolveNormalsOneToOne(ns: seq<TrackItem>, allCredentials: seq<Credential>,
                                                  getAvailableLibraries: string -> seq<Url>)
    requires AllNormal(ns)
    requires ResolveNormals(ns, allCredentials, getAvailableLibraries).Some?
    ensures var items := ResolveNormals(ns, allCredentials, getAvailableLibraries).value;
            |items| == |ns|
            && forall i :: 0 <= i < |ns| ==> ResolvedFrom(items[i], ns[i], allCredentials, getAvailableLibraries)
  {
    if ns != [] {
      var p := ns[..|ns| - 1];
      ResolveNormalsOneToOne(p, allCredentials, getAvailableLibraries);
      var items := ResolveNormals(ns, allCredentials, getAvailableLibraries).value;
      forall i | 0 <= i < |ns|
        ensures ResolvedFrom(items[i], ns[i], allCredentials, getAvailableLibraries)
      {
        if i < |p| {
          assert ns[i] == p[i];
        }
      }
    }
  }

  /** The track list's component state: the items of the last committed pass. */
  class Component {
    var parsedTracks: seq<PlayQueueItem>

    constructor()
      ensures parsedTracks == []
    {
      parsedTracks := [];
    }

    /**
     * The resolution effect: resolve the normal tracks one by one into a
     * local result, then commit it; a rejected lookup aborts the pass
     * before the commit, leaving the previous items in place.
     */
    method ResolveTracks(tracks: seq<TrackItem>, allCredentials: seq<Credential>,
                         getAvailableLibraries: string -> seq<Url>)
      returns (committed: bool)
      modifies this
      ensures committed <==> ResolveAll(tracks, allCredentials, getAvailableLibraries).Some?
      ensures parsedTracks
              == if committed then ResolveAll(tracks, allCredentials, getAvailableLibraries).value
                 else old(parsedTracks)
    {
      var normal := NormalTracks(tracks);
      var result: seq<PlayQueueItem> := [];
      var i := 0;
      while i < |normal|
        invariant 0 <= i <= |normal|
        invariant ResolveNormals(normal[..i], allCredentials, getAvailableLibraries) == Some(result)
        invariant parsedTracks == old(parsedTracks)
      {
        var track := normal[i];
        var credential := GetAvailableLibraryForTrack(track, allCredentials, getAvailableLibraries);
        if credential.Failed? {
          assert Rejects(normal[i], allCredentials, getAvailableLibraries);
          ResolveNormalsFailsIff(normal, allCredentials, getAvailableLibraries);
          return false;
        }
        ghost var next := normal[..i + 1];
        assert next[..i] == normal[..i] && next[i] == track;
        assert !Rejects(track, allCredentials, getAvailableLibraries);
        result := result + [ToQueueItem(track, CredentialOf(credential))];
        i := i + 1;
      }
      assert normal[..i] == normal;
      parsedTracks := result;
      committed := true;
    }
  }

  // ---- calls on the play queue ----

  /** `!!t.playUrl`: a present, non-empty play url. */
  predicate IsPlayable(item: PlayQueueItem) {
    item.playUrl.Some? && item.playUrl.value != ""
  }

  /** `parsedTracks.filter((t) => !!t.playUrl)` */
  function Playable(items: seq<PlayQueueItem>): (r: seq<PlayQueueItem>)
    ensures forall i :: 0 <= i < |r| ==> IsPlayable(r[i])
    ensures |r| <= |items|
  {
    if items == [] then []
    else (if IsPlayable(items[0]) then [items[0]] else []) + Playable(items[1..])
  }

  /** The filter keeps exactly the playable items. */
  lemma {:induction false} PlayableMembers(items: seq<PlayQueueItem>)
    ensures forall t :: t in Playable(items) <==> t in items && IsPlayable(t)
  {
    if items != [] {
      PlayableMembers(items[1..]);
      assert items == [items[0]] + items[1..];
    }
  }

  /** Filtering keeps relative order: it distributes over concatenation. */
  lemma {:induction false} PlayableDistributes(a: seq<PlayQueueItem>, b: seq<PlayQueueItem>)
    ensures Playable(a + b) == Playable(a) + Playable(b)
  {
    if a == [] {
      assert a + b == b;
    } else {
      PlayableDistributes(a[1..], b);
      var h := if IsPlayable(a[0]) then [a[0]] else [];
      assert (a + b)[0] == a[0];
      assert (a + b)[1..] == a[1..] + b;
      calc {
        Playable(a + b);
        h + Playable(a[1..] + b);
        h + (Playable(a[1..]) + Playable(b));
        (h + Playable(a[1..])) + Playable(b);
        Playable(a) + Playable(b);
      }
    }
  }

  /** A resolved item is playable exactly when it has a play url: play urls are never empty. */
  lemma ResolvedPlayableIffPlayUrl(item: PlayQueueItem, track: TrackItem, allCredentials: seq<Credential>,
                                   getAvailableLibraries: string -> seq<Url>)
    requires track.NormalTrackItem?
    requires ResolvedFrom(item, track, allCredentials, getAvailableLibraries)
    ensures IsPlayable(item) <==> item.playUrl.Some?
  {
    var sel := SelectLibrary(getAvailableLibraries(track.albumId), allCredentials);
    if sel.Found? {
      assert |PlayUrl(track, sel.credential)| > 0;
    }
  }

  /** The calls the list makes on the play-queue controller. */
  datatype QueueCall =
    | ReplacePlayQueueAndPlay(items: seq<PlayQueueItem>, start: int)
    | AddToPlayQueue(items: seq<PlayQueueItem>)

  /** `playAll`: the playable items, played from the first. */
  function PlayAll(parsedTracks: seq<PlayQueueItem>): (c: QueueCall)
    ensures c.ReplacePlayQueueAndPlay? && c.start == 0
    ensures c.items == Playable(parsedTracks)
    ensures forall i :: 0 <= i < |c.items| ==> IsPlayable(c.items[i])
  {
    ReplacePlayQueueAndPlay(Playable(parsedTracks), 0)
  }

  /** `addAllToPlayQueue`: the playable items, appended. */
  function AddAllToPlayQueue(parsedTracks: seq<PlayQueueItem>): (c: QueueCall)
    ensures c.AddToPlayQueue?
    ensures c.items == Playable(parsedTracks)
    ensures forall i :: 0 <= i < |c.items| ==> IsPlayable(c.items[i])
  {
    AddToPlayQueue(Playable(parsedTracks))
  }

  /**
   * playAll and addAllToPlayQueue hand over every playable item and no
   * other, keeping relative order: the items of a list split in two are the
   * first part's items followed by the second part's.
   */
  lemma QueuedItemsAreAllPlayable(parsedTracks: seq<PlayQueueItem>, rest: seq<PlayQueueItem>)
    ensures forall t :: t in PlayAll(parsedTracks).items <==> t in parsedTracks && IsPlayable(t)
    ensures forall t :: t in AddAllToPlayQueue(parsedTracks).items <==> t in parsedTracks && IsPlayable(t)
    ensures PlayAll(parsedTracks + rest).items == PlayAll(parsedTracks).items + PlayAll(rest).items
    ensures AddAllToPlayQueue(parsedTracks + rest).items
            == AddAllToPlayQueue(parsedTracks).items + AddAllToPlayQueue(rest).items
  {
    PlayableMembers(parsedTracks);
    PlayableDistributes(parsedTracks, rest);
  }

  /** `findIndex((t) => t.playUrl === url)` */
  function FindIndexByPlayUrl(items: seq<PlayQueueItem>, url: Option<string>): (r: int)
    ensures -1 <= r < |items|
    ensures r >= 0 ==> items[r].playUrl == url && forall j :: 0 <= j < r ==> items[j].playUrl != url
    ensures r == -1 ==> forall j :: 0 <= j < |items| ==> items[j].playUrl != url
  {
    if items == [] then -1
    else if items[0].playUrl == url then 0
    else
      var k := FindIndexByPlayUrl(items[1..], url);
      if k == -1 then -1 else k + 1
  }

  /**
   * `onPlay(index)`: the playable items and the start index. Past the end
   * of parsedTracks the clicked item is undefined, and reading its playUrl
   * throws (None) as soon as findIndex tests a first playable item; with no
   * playable item findIndex tests nothing and answers -1.
   */
  function OnPlay(parsedTracks: seq<PlayQueueItem>, index: nat): (r: Option<QueueCall>)
    ensures r.None? <==> index >= |parsedTracks| && |Playable(parsedTracks)| > 0
    ensures r.Some? ==> r.value.ReplacePlayQueueAndPlay? && r.value.items == Playable(parsedTracks)
    ensures r.Some? && index >= |parsedTracks| ==> r.value.start == -1
  {
    var filteredTrack := Playable(parsedTracks);
    if index >= |parsedTracks| then
      if |filteredTrack| > 0 then None else Some(ReplacePlayQueueAndPlay(filteredTrack, -1))
    else
      Some(ReplacePlayQueueAndPlay(filteredTrack, FindIndexByPlayUrl(filteredTrack, parsedTracks[index].playUrl)))
  }

  /**
   * The start index of onPlay is the first playable item with the clicked
   * item's play url, and is -1 exactly when the clicked item is not playable.
   */
  lemma OnPlayStartIndex(parsedTracks: seq<PlayQueueItem>, index: nat)
    requires index < |parsedTracks|
    ensures OnPlay(parsedTracks, index).Some?
    ensures var c := OnPlay(parsedTracks, index).value;
            && (c.start >= 0 <==> IsPlayable(parsedTracks[index]))
            && (c.start >= 0 ==> c.items[c.start].playUrl == parsedTracks[index].playUrl)
            && (c.start >= 0 ==> forall j :: 0 <= j < c.start ==> c.items[j].playUrl != parsedTracks[index].playUrl)
  {
    var filtered := Playable(parsedTracks);
    var item := parsedTracks[index];
    PlayableMembers(parsedTracks);
    if IsPlayable(item) {
      assert item in parsedTracks;
      assert item in filtered;
      var j :| 0 <= j < |filtered| && filtered[j] == item;
      assert filtered[j].playUrl == item.playUrl;
    } else {
      forall j | 0 <= j < |filtered|
        ensures filtered[j].playUrl != item.playUrl
      {
        assert IsPlayable(filtered[j]);
      }
    }
  }

  // ---- parsedTrackMap ----

  /** `${albumId}-${discIndex}-${trackIndex}` with the 0-based indices. */
  function TrackKey(item: PlayQueueItem): string {
    item.albumId + "-" + NatToString(item.discIndex) + "-" + NatToString(item.trackIndex)
  }

  /** Items of one disc of one album at different track positions never share a key. */
  lemma TrackKeySeparatesTracks(x: PlayQueueItem, y: PlayQueueItem)
    requires x.albumId == y.albumId && x.discIndex == y.discIndex && x.trackIndex != y.trackIndex
    ensures TrackKey(x) != TrackKey(y)
  {
    var prefix := x.albumId + "-" + NatToString(x.discIndex) + "-";
    if TrackKey(x) == TrackKey(y) {
      assert TrackKey(x) == prefix + NatToString(x.trackIndex);
      assert TrackKey(y) == prefix + NatToString(y.trackIndex);
      assert NatToString(x.trackIndex) == TrackKey(x)[|prefix|..];
      assert NatToString(y.trackIndex) == TrackKey(y)[|prefix|..];
      NatToStringInjective(x.trackIndex, y.trackIndex);
    }
  }

  /** lodash `keyBy`: later items with the same key overwrite earlier ones. */
  function KeyBy(items: seq<PlayQueueItem>): map<string, PlayQueueItem> {
    if items == [] then map[]
    else KeyBy(items[..|items| - 1])[TrackKey(items[|items| - 1]) := items[|items| - 1]]
  }

  /** `parsedTrackMap` */
  function ParsedTrackMap(parsedTracks: seq<PlayQueueItem>): map<string, PlayQueueItem> {
    if |parsedTracks| == 0 then map[] else KeyBy(parsedTracks)
  }

  /** The map's keys are exactly the items' keys. */
  lemma {:induction false} KeyByKeys(items: seq<PlayQueueItem>)
    ensures KeyBy(items).Keys == set i | 0 <= i < |items| :: TrackKey(items[i])
  {
    if items != [] {
      var p := items[..|items| - 1];
      KeyByKeys(p);
      var n := |items| - 1;
      assert (set i | 0 <= i < |items| :: TrackKey(items[i]))
             == (set i | 0 <= i < |p| :: TrackKey(p[i])) + {TrackKey(items[n])} by {
        forall i | 0 <= i < |p| ensures TrackKey(items[i]) == TrackKey(p[i]) {
          assert items[i] == p[i];
        }
      }
    }
  }

  /** An item no later item shares its key with is what the map holds for that key. */
  lemma {:induction false} KeyByLastWins(items: seq<PlayQueueItem>, i: nat)
    requires i < |items|
    requires forall j :: i < j < |items| ==> TrackKey(items[j]) != TrackKey(items[i])
    ensures TrackKey(items[i]) in KeyBy(items) && KeyBy(items)[TrackKey(items[i])] == items[i]
  {
    var n := |items| - 1;
    if i < n {
      var p := items[..n];
      assert p[i] == items[i];
      forall j | i < j < |p| ensures TrackKey(p[j]) != TrackKey(p[i]) {
        assert p[j] == items[j];
      }
      KeyByLastWins(p, i);
    }
  }

  /** No rows can render while there are no resolved items, and they can once there are. */
  lemma ParsedTrackMapEmptyIff(parsedTracks: seq<PlayQueueItem>)
    ensures |ParsedTrackMap(parsedTracks)| == 0 <==> |parsedTracks| == 0
  {
    if |parsedTracks| > 0 {
      KeyByLastWins(parsedTracks, |parsedTracks| - 1);
    }
  }

  // ---- rows ----

  /** A rendered row: its position in the raw track list and its track. */
  datatype Row = Row(index: nat, track: TrackItem)

  /** One row per NORMAL track, at its position in the raw list. */
  function NormalRows(tracks: seq<TrackItem>): seq<Row> {
    if tracks == [] then []
    else
      var n := |tracks| - 1;
      NormalRows(tracks[..n]) + (if tracks[n].NormalTrackItem? then [Row(n, tracks[n])] else [])
  }

  /** What the list renders: nothing while `parsedTrackMap` is empty. */
  function RenderedRows(tracks: seq<TrackItem>, parsedTracks: seq<PlayQueueItem>): seq<Row> {
    if |ParsedTrackMap(parsedTracks)| == 0 then [] else NormalRows(tracks)
  }

  /** Rows render exactly when the last committed pass resolved at least one track. */
  lemma RowsRenderOnceResolved(tracks: seq<TrackItem>, parsedTracks: seq<PlayQueueItem>)
    ensures RenderedRows(tracks, parsedTracks) == if |parsedTracks| == 0 then [] else NormalRows(tracks)
  {
    ParsedTrackMapEmptyIff(parsedTracks);
  }

  /** Rows stand for the normal tracks, in order, at their raw positions. */
  lemma {:induction false} NormalRowsMatchTracks(tracks: seq<TrackItem>)
    ensures |NormalRows(tracks)| == |NormalTracks(tracks)|
    ensures forall k :: 0 <= k < |NormalRows(tracks)| ==>
              var row := NormalRows(tracks)[k];
              row.index < |tracks| && tracks[row.index] == row.track && row.track == NormalTracks(tracks)[k]
    ensures forall k, l :: 0 <= k < l < |NormalRows(tracks)| ==> NormalRows(tracks)[k].index < NormalRows(tracks)[l].index
  {
    if tracks != [] {
      var n := |tracks| - 1;
      NormalRowsMatchTracks(tracks[..n]);
    }
  }

  /** `parsedTracks[index]`, handed to a row's queue callbacks (undefined past the end). */
  function RowQueueItem(parsedTracks: seq<PlayQueueItem>, index: nat): Option<PlayQueueItem> {
    if index < |parsedTracks| then Some(parsedTracks[index]) else None
  }

  lemma NormalTracksSnoc(s: seq<TrackItem>, x: TrackItem)
    ensures NormalTracks(s + [x]) == NormalTracks(s) + (if x.NormalTrackItem? then [x] else [])
  {
    var sx := s + [x];
    assert sx[..|sx| - 1] == s && sx[|sx| - 1] == x;
  }

  lemma {:induction false} NormalTracksAppend(a: seq<TrackItem>, b: seq<TrackItem>)
    ensures NormalTracks(a + b) == NormalTracks(a) + NormalTracks(b)
    decreases |b|
  {
    if b == [] {
      assert a + b == a;
    } else {
      var p, x := b[..|b| - 1], b[|b| - 1];
      var tail := if x.NormalTrackItem? then [x] else [];
      var ap := a + p;
      NormalTracksAppend(a, p);
      assert a + b == ap + [x];
      assert b == p + [x];
      NormalTracksSnoc(ap, x);
      NormalTracksSnoc(p, x);
      var na, np := NormalTracks(a), NormalTracks(p);
      assert NormalTracks(a + b) == (na + np) + tail;
      assert NormalTracks(b) == np + tail;
      assert (na + np) + tail == na + (np + tail);
    }
  }

  lemma {:induction false} NormalTracksOfNormals(ns: seq<TrackItem>)
    requires AllNormal(ns)
    ensures NormalTracks(ns) == ns
  {
    if ns != [] {
      NormalTracksOfNormals(ns[..|ns| - 1]);
    }
  }

  /**
   * A row's callbacks get its own resolved track when no DUMMY track
   * comes before it in the list.
   */
  lemma RowItemMatchesTrack(tracks: seq<TrackItem>, allCredentials: seq<Credential>,
                            getAvailableLibraries: string -> seq<Url>, i: nat)
    requires ResolveAll(tracks, allCredentials, getAvailableLibraries).Some?
    requires i < |tracks|
    requires forall j :: 0 <= j <= i ==> tracks[j].NormalTrackItem?
    ensures var parsed := ResolveAll(tracks, allCredentials, getAvailableLibraries).value;
            RowQueueItem(parsed, i).Some?
            && ResolvedFrom(parsed[i], tracks[i], allCredentials, getAvailableLibraries)
  {
    var head, tail := tracks[..i + 1], tracks[i + 1..];
    assert tracks == head + tail;
    NormalTracksAppend(head, tail);
    NormalTracksOfNormals(head);
    var ns := NormalTracks(tracks);
    assert ns[i] == tracks[i];
    ResolveNormalsOneToOne(ns, allCredentials, getAvailableLibraries);
  }

  /**
   * With no library hosting any album, a pass resolves every normal track,
   * in order, to an item without urls whose other fields are the track's.
   */
  lemma {:induction false} ResolveWithoutLibraries(ns: seq<TrackItem>, allCredentials: seq<Credential>,
                                                   getAvailableLibraries: string -> seq<Url>)
    requires AllNormal(ns)
    requires forall albumId :: getAvailableLibraries(albumId) == []
    ensures var r := ResolveNormals(ns, allCredentials, getAvailableLibraries);
            r.Some? && |r.value| == |ns| && forall i :: 0 <= i < |ns| ==> r.value[i] == ToQueueItem(ns[i], None)
  {
    if ns != [] {
      var p, x := ns[..|ns| - 1], ns[|ns| - 1];
      assert AllNormal(p) by {
        forall i | 0 <= i < |p| ensures p[i].NormalTrackItem? {
          assert p[i] == ns[i];
        }
      }
      ResolveWithoutLibraries(p, allCredentials, getAvailableLibraries);
      assert getAvailableLibraries(x.albumId) == [];
      assert SelectLibrary(getAvailableLibraries(x.albumId), allCredentials) == NoLibrary;
      assert !Rejects(x, allCredentials, getAvailableLibraries);
      var rp := ResolveNormals(p, allCredentials, getAvailableLibraries).value;
      assert ResolveNormals(ns, allCredentials, getAvailableLibraries) == Some(rp + [ToQueueItem(x, None)]);
      forall i | 0 <= i < |p| ensures (rp + [ToQueueItem(x, None)])[i] == ToQueueItem(ns[i], None) {
        assert p[i] == ns[i];
      }
    }
  }

  /**
   * A DUMMY track before a row shifts it: with tracks [dummy, a, b], the row
   * of a (position 1) hands out the item resolved from b.
   */
  lemma DummyShiftsRowItem(d: TrackItem, a: TrackItem, b: TrackItem, allCredentials: seq<Credential>,
                           lookup: string -> seq<Url>)
    requires d.DummyTrackItem? && a.NormalTrackItem? && b.NormalTrackItem?
    requires a.title != b.title
    requires forall albumId :: lookup(albumId) == []
    ensures var parsed := ResolveAll([d, a, b], allCredentials, lookup);
            && parsed == Some([ToQueueItem(a, None), ToQueueItem(b, None)])
            && RowQueueItem(parsed.value, 1) == Some(ToQueueItem(b, None))
            && parsed.value[1].title != a.title
  {
    var tracks := [d, a, b];
    assert [d][..0] == [];
    assert NormalTracks([d]) == [];
    assert tracks == [d] + [a, b];
    NormalTracksAppend([d], [a, b]);
    NormalTracksOfNormals([a, b]);
    assert NormalTracks(tracks) == [a, b];
    ResolveWithoutLibraries([a, b], allCredentials, lookup);
    var items := ResolveNormals([a, b], allCredentials, lookup).value;
    assert items[0] == ToQueueItem(a, None) && items[1] == ToQueueItem(b, None);
    assert items == [ToQueueItem(a, None), ToQueueItem(b, None)];
  }

  /** The row's own item: parsedTracks at the row's position among the normal tracks. */
  function RowQueueItemByNormalPosition(tracks: seq<TrackItem>, parsedTracks: seq<PlayQueueItem>, index: nat)
    : Option<PlayQueueItem>
    requires index <= |tracks|
  {
    RowQueueItem(parsedTracks, |NormalTracks(tracks[..index])|)
  }

  /** Indexing by normal position hands every row its own resolved track, DUMMY tracks or not. */
  lemma RowQueueItemByNormalPositionMatches(tracks: seq<TrackItem>, allCredentials: seq<Credential>,
                                            getAvailableLibraries: string -> seq<Url>, i: nat)
    requires ResolveAll(tracks, allCredentials, getAvailableLibraries).Some?
    requires i < |tracks| && tracks[i].NormalTrackItem?
    ensures var parsed := ResolveAll(tracks, allCredentials, getAvailableLibraries).value;
            var item := RowQueueItemByNormalPosition(tracks, parsed, i);
            item.Some? && ResolvedFrom(item.value, tracks[i], allCredentials, getAvailableLibraries)
  {
    var before, rest := tracks[..i], tracks[i..];
    assert tracks == before + rest;
    assert rest == [tracks[i]] + tracks[i + 1..];
    NormalTracksAppend(before, rest);
    NormalTracksAppend([tracks[i]], tracks[i + 1..]);
    assert [tracks[i]][..0] == [];
    assert NormalTracks([tracks[i]]) == [tracks[i]];
    var ns := NormalTracks(tracks);
    var k := |NormalTracks(before)|;
    assert ns[k] == tracks[i];
    ResolveNormalsOneToOne(ns, allCredentials, getAvailableLibraries);
  }
}

/**
 * The track descriptors of the track list (src/components/TrackList/types.ts),
 * the backend credential (`AnnilToken`) and the resolved play-queue item
 * (`PlayQueueItem`), both declared in a shared types file that is not part of
 * this model; their fields are the ones the core reads and writes.
 */
module Types {
  import opened Wrappers

  /** The discriminant of the track-item union: exactly two members. */
  datatype TrackItemType = NORMAL | DUMMY

  /**
   * `NormalTrackItem | DummyTrackItem`. Both variants carry title, artist,
   * type and tags and an optional description; only the NORMAL variant
   * locates the track in an album (disc, track, album id and title).
   * Indices are 0-based.
   */
  datatype TrackItem =
    | NormalTrackItem(description: Option<string>, title: string, trackType: string, artist: string,
                      discIndex: nat, trackIndex: nat, albumId: string, albumTitle: string,
                      tags: seq<string>)
    | DummyTrackItem(description: Option<string>, title: string, artist: string, trackType: string,
                     tags: seq<string>)
  {
    /** The `itemType` field: the variant decides it. */
    function ItemType(): (t: TrackItemType)
      ensures t == NORMAL <==> NormalTrackItem?
      ensures t == DUMMY <==> DummyTrackItem?
    {
      if NormalTrackItem? then NORMAL else DUMMY
    }
  }

  /** The optional widgets a track list may show. */
  datatype TrackListFeatures =
    | SHOW_PLAY_QUEUE_ADD_ICON
    | SHOW_PLAY_QUEUE_REMOVE_ICON
    | SHOW_FAVORITE_ICON
    | SHOW_TRACK_NO
    | SHOW_ADD_TO_LATER
    | SHOW_ADD_TO_PLAYLIST

  const AdvancedFeatures: seq<TrackListFeatures> := [SHOW_ADD_TO_LATER, SHOW_ADD_TO_PLAYLIST]

  /** The advanced features are the last two features, each listed once. */
  lemma AdvancedFeaturesAreAddLaterAndPlaylist()
    ensures forall f :: f in AdvancedFeatures <==> f == SHOW_ADD_TO_LATER || f == SHOW_ADD_TO_PLAYLIST
    ensures |AdvancedFeatures| == 2 && AdvancedFeatures[0] != AdvancedFeatures[1]
  {
  }

  /** A live credential for one backend library, identified by its base url. */
  datatype Credential = Credential(url: string, token: string, priority: int)

  /** A resolved item; the two urls are absent when no library was found. */
  datatype PlayQueueItem = PlayQueueItem(
    title: string,
    artist: string,
    coverUrl: Option<string>,
    playUrl: Option<string>,
    trackType: string,
    albumId: string,
    discIndex: nat,
    trackIndex: nat,
    albumTitle: string,
    tags: seq<string>)
}

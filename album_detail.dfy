/**
 * The album page (src/pages/AlbumDetail/index.tsx): the effect that picks
 * the credential the page shows the album with, and the per-disc track
 * lists it hands to the track list.
 */
module AlbumDetail {
  import opened Wrappers
  import opened Types
  import opened Decimal
  import opened Services
  import opened TrackList
  import StableSort

  // ---- credential selection ----

  /** The error messages the selection effect reports, by kind. */
  datatype Message = MissingAlbumId | NoCredentials | NoBackendForAlbum

  /** What one run of the selection effect does. */
  datatype Outcome =
    | Report(message: Message)   // adds the message and stops
    | Wait                       // libraries still loading: stops silently
    | Select(selection: Selection)

  /** `!albumId` is false: the route parameter is there and not empty. */
  predicate HasAlbumId(albumId: Option<string>) {
    albumId.Some? && albumId.value != ""
  }

  /** `!availableLibraries?.length`: the libraries are not loaded yet, or there are none. */
  predicate NoLibraries(availableLibraries: Option<seq<Url>>) {
    availableLibraries.None? || |availableLibraries.value| == 0
  }

  /**
   * The selection effect as a decision: the album id, the credentials and
   * the libraries are checked in this order, the first failing check stops
   * the effect, and the priority rule runs on all credentials, unfiltered.
   */
  function SelectionEffect(albumId: Option<string>, allAvailableCredentials: seq<Credential>,
                           availableLibraries: Option<seq<Url>>, loading: bool): (r: Outcome)
    ensures r == Report(MissingAlbumId) <==> !HasAlbumId(albumId)
    ensures r == Report(NoCredentials) <==> HasAlbumId(albumId) && |allAvailableCredentials| == 0
    ensures r == Report(NoBackendForAlbum)
            <==> HasAlbumId(albumId) && |allAvailableCredentials| > 0 && NoLibraries(availableLibraries) && !loading
    ensures r == Wait
            <==> HasAlbumId(albumId) && |allAvailableCredentials| > 0 && NoLibraries(availableLibraries) && loading
    ensures r.Select? <==> HasAlbumId(albumId) && |allAvailableCredentials| > 0 && !NoLibraries(availableLibraries)
    ensures r.Select? ==> !r.selection.NoLibrary?
    ensures r.Select? ==>
              (r.selection.Failed? <==> exists u :: u in availableLibraries.value
                                                   && Representative(allAvailableCredentials, u).None?)
  {
    if !HasAlbumId(albumId) then Report(MissingAlbumId)
    else if |allAvailableCredentials| == 0 then Report(NoCredentials)
    else if NoLibraries(availableLibraries) then
      if loading then Wait else Report(NoBackendForAlbum)
    else Select(SelectByPriority(availableLibraries.value, allAvailableCredentials))
  }

  /**
   * The page picks by the track list's rule: filtering the credentials by
   * the album's libraries first would not change the pick.
   */
  lemma PageSelectionIsTrackListSelection(albumId: Option<string>, allAvailableCredentials: seq<Credential>,
                                          availableLibraries: Option<seq<Url>>, loading: bool)
    requires SelectionEffect(albumId, allAvailableCredentials, availableLibraries, loading).Select?
    ensures SelectionEffect(albumId, allAvailableCredentials, availableLibraries, loading).selection
            == SelectLibrary(availableLibraries.value, allAvailableCredentials)
  {
    SelectLibraryIgnoresFilter(availableLibraries.value, allAvailableCredentials);
  }

  /**
   * The picked credential is the first credential of the earliest library
   * of highest first-credential priority.
   */
  lemma PagePicksFirstMaximal(albumId: Option<string>, allAvailableCredentials: seq<Credential>,
                              availableLibraries: Option<seq<Url>>, loading: bool)
    requires var r := SelectionEffect(albumId, allAvailableCredentials, availableLibraries, loading);
             r.Select? && r.selection.Found?
    ensures var libs := availableLibraries.value;
            var c := SelectionEffect(albumId, allAvailableCredentials, availableLibraries, loading).selection.credential;
            var k := StableSort.FirstMaxIndex(libs, KeyOf(allAvailableCredentials));
            && Representative(allAvailableCredentials, libs[k]) == Some(c)
            && (forall u :: u in libs ==> Priority(allAvailableCredentials, u) <= c.priority)
            && (forall j :: 0 <= j < k ==> Priority(allAvailableCredentials, libs[j]) < c.priority)
  {
    WinnerIsFirstMaximal(availableLibraries.value, allAvailableCredentials);
  }

  /** The contents of the request's result: None while it is `undefined`. */
  function Libraries(availableLibraries: array?<Url>): (r: Option<seq<Url>>)
    reads availableLibraries
    ensures r.Some? <==> availableLibraries != null
  {
    if availableLibraries == null then None else Some(availableLibraries[..])
  }

  /** The page's state: the credential it shows the album with, and the messages it added. */
  class Page {
    var credential: Option<Credential>
    var messages: seq<Message>

    constructor()
      ensures credential == None && messages == []
    {
      credential := None;
      messages := [];
    }

    /**
     * The selection effect. It reports through `addMessage`, sorts the
     * request's array of libraries in place and sets the credential;
     * `thrown` is true when a library without a credential makes the
     * comparator or the final lookup throw, which leaves everything as it was.
     */
    method SelectCredential(albumId: Option<string>, allAvailableCredentials: seq<Credential>,
                            availableLibraries: array?<Url>, loadingAvailableLibraries: bool)
      returns (thrown: bool)
      modifies this, availableLibraries
      ensures var out := SelectionEffect(albumId, allAvailableCredentials, old(Libraries(availableLibraries)),
                                         loadingAvailableLibraries);
              && (thrown <==> out == Select(Failed))
              && messages == old(messages) + (if out.Report? then [out.message] else [])
              && credential == (if out.Select? && out.selection.Found? then Some(out.selection.credential)
                                else old(credential))
              && (availableLibraries != null ==>
                    availableLibraries[..]
                    == if out.Select? && out.selection.Found?
                       then StableSort.SortDesc(old(availableLibraries[..]), KeyOf(allAvailableCredentials))
                       else old(availableLibraries[..]))
    {
      if albumId.None? || albumId.value == "" {
        messages := messages + [MissingAlbumId];
        return false;
      }
      if |allAvailableCredentials| == 0 {
        messages := messages + [NoCredentials];
        return false;
      }
      if availableLibraries == null || availableLibraries.Length == 0 {
        if !loadingAvailableLibraries {
          messages := messages + [NoBackendForAlbum];
        }
        return false;
      }
      var librariesByPriority := SortByPriority(availableLibraries, allAvailableCredentials);
      if librariesByPriority.Failed? {
        return true;
      }
      credential := Some(librariesByPriority.credential);
      thrown := false;
    }
  }

  // ---- disc sections ----

  /** A disc of the album as the catalog describes it. */
  datatype Disc = Disc(catalog: string, tracks: seq<TrackItem>)

  /** The album info the page fetched. */
  datatype AlbumInfo = AlbumInfo(albumId: string, title: string, discs: seq<Disc>)

  /** One rendered disc: its React key, its heading and the tracks of its track list. */
  datatype DiscSection = DiscSection(key: string, heading: string, tracks: seq<TrackItem>)

  /**
   * `{ ...track, discIndex, trackIndex, albumId, albumTitle }`: the four
   * fields written after the spread win over the track's own. A DUMMY
   * track has no such fields and stays what it was.
   */
  function Locate(track: TrackItem, discIndex: nat, trackIndex: nat, albumId: string, albumTitle: string)
    : TrackItem
  {
    match track
    case NormalTrackItem(description, title, trackType, artist, _, _, _, _, tags) =>
      NormalTrackItem(description, title, trackType, artist, discIndex, trackIndex, albumId, albumTitle, tags)
    case DummyTrackItem(_, _, _, _, _) => track
  }

  /**
   * The `trackList` of disc d: each track keeps its kind, title, artist,
   * type, tags and description; a NORMAL track at position t is located at
   * disc d, track t of the album.
   */
  function TrackListOf(tracks: seq<TrackItem>, discIndex: nat, albumId: string, albumTitle: string)
    : (r: seq<TrackItem>)
    ensures |r| == |tracks|
    ensures forall t :: 0 <= t < |r| ==>
              && r[t].ItemType() == tracks[t].ItemType()
              && r[t].title == tracks[t].title && r[t].artist == tracks[t].artist
              && r[t].trackType == tracks[t].trackType && r[t].tags == tracks[t].tags
              && r[t].description == tracks[t].description
    ensures forall t :: 0 <= t < |r| && r[t].NormalTrackItem? ==>
              r[t].discIndex == discIndex && r[t].trackIndex == t
              && r[t].albumId == albumId && r[t].albumTitle == albumTitle
    ensures forall t :: 0 <= t < |r| && r[t].DummyTrackItem? ==> r[t] == tracks[t]
  {
    seq(|tracks|, t requires 0 <= t < |tracks| => Locate(tracks[t], discIndex, t, albumId, albumTitle))
  }

  /**
   * The disc sections: none without album info or without discs; otherwise
   * one per disc, in order, headed by its 1-based number.
   */
  function DiscSections(albumInfo: Option<AlbumInfo>): (r: seq<DiscSection>)
    ensures albumInfo.None? || |albumInfo.value.discs| == 0 ==> r == []
    ensures albumInfo.Some? ==> |r| == |albumInfo.value.discs|
    ensures forall d :: 0 <= d < |r| ==>
              var disc := albumInfo.value.discs[d];
              && r[d].key == disc.catalog
              && r[d].heading == "Disc " + NatToString(d + 1)
              && r[d].tracks == TrackListOf(disc.tracks, d, albumInfo.value.albumId, albumInfo.value.title)
  {
    if albumInfo.None? || |albumInfo.value.discs| == 0 then []
    else
      var info := albumInfo.value;
      seq(|info.discs|, d requires 0 <= d < |info.discs| =>
        DiscSection(info.discs[d].catalog, "Disc " + NatToString(d + 1),
                    TrackListOf(info.discs[d].tracks, d, info.albumId, info.title)))
  }

  /** Different discs get different headings. */
  lemma DiscHeadingsDistinct(albumInfo: AlbumInfo, d: nat, e: nat)
    requires d < e < |albumInfo.discs|
    ensures DiscSections(Some(albumInfo))[d].heading != DiscSections(Some(albumInfo))[e].heading
  {
    var sections := DiscSections(Some(albumInfo));
    var prefix := "Disc ";
    if sections[d].heading == sections[e].heading {
      assert NatToString(d + 1) == sections[d].heading[|prefix|..];
      assert NatToString(e + 1) == sections[e].heading[|prefix|..];
      NatToStringInjective(d + 1, e + 1);
    }
  }

  /**
   * Within one disc no two resolved tracks share a key, so the track
   * list's `parsedTrackMap` keeps every item of the disc.
   */
  lemma SectionMapKeepsEveryItem(albumInfo: AlbumInfo, d: nat, allCredentials: seq<Credential>,
                                 getAvailableLibraries: string -> seq<Url>)
    requires d < |albumInfo.discs|
    requires ResolveAll(DiscSections(Some(albumInfo))[d].tracks, allCredentials, getAvailableLibraries).Some?
    ensures var parsed := ResolveAll(DiscSections(Some(albumInfo))[d].tracks, allCredentials, getAvailableLibraries).value;
            forall i :: 0 <= i < |parsed| ==>
              TrackKey(parsed[i]) in ParsedTrackMap(parsed) && ParsedTrackMap(parsed)[TrackKey(parsed[i])] == parsed[i]
  {
    var tracks := DiscSections(Some(albumInfo))[d].tracks;
    var ns := NormalTracks(tracks);
    var parsed := ResolveAll(tracks, allCredentials, getAvailableLibraries).value;
    NormalRowsMatchTracks(tracks);
    ResolveNormalsOneToOne(ns, allCredentials, getAvailableLibraries);
    var rows := NormalRows(tracks);
    forall k | 0 <= k < |parsed|
      ensures parsed[k].albumId == albumInfo.albumId && parsed[k].discIndex == d
      ensures parsed[k].trackIndex == rows[k].index
    {
      assert ResolvedFrom(parsed[k], ns[k], allCredentials, getAvailableLibraries);
      assert tracks[rows[k].index] == ns[k];
    }
    forall i | 0 <= i < |parsed|
      ensures TrackKey(parsed[i]) in ParsedTrackMap(parsed) && ParsedTrackMap(parsed)[TrackKey(parsed[i])] == parsed[i]
    {
      forall j | i < j < |parsed|
        ensures TrackKey(parsed[j]) != TrackKey(parsed[i])
      {
        TrackKeySeparatesTracks(parsed[j], parsed[i]);
      }
      KeyByLastWins(parsed, i);
    }
  }
}

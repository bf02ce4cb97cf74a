/**
 * Library selection and url construction for one track
 * (src/components/TrackList/services.ts). The album-availability lookup,
 * an IndexedDB read, is a parameter: a function from album id to the list
 * of base urls of the libraries that host the album.
 */
module Services {
  import opened Wrappers
  import opened Types
  import opened Decimal
  import StableSort

  type Url = string

  /** What `getAvailableLibraryForTrack` settles to: undefined, a rejection, or a credential. */
  datatype Selection = NoLibrary | Failed | Found(credential: Credential)

  /** The position of the first credential for url (|creds| when there is none). */
  function FirstIndexOfUrl(creds: seq<Credential>, url: Url): (k: nat)
    ensures k <= |creds|
    ensures k < |creds| ==> creds[k].url == url
    ensures forall j :: 0 <= j < k ==> creds[j].url != url
  {
    if creds == [] then 0
    else if creds[0].url == url then 0
    else 1 + FirstIndexOfUrl(creds[1..], url)
  }

  /**
   * `groupBy(creds, "url")[url][0]`: groupBy keeps input order inside each
   * group, so the group's first element is the first credential for url.
   */
  function Representative(creds: seq<Credential>, url: Url): (r: Option<Credential>)
    ensures r.Some? ==> r.value in creds && r.value.url == url
    ensures r.None? <==> forall c :: c in creds ==> c.url != url
  {
    var k := FirstIndexOfUrl(creds, url);
    if k < |creds| then Some(creds[k]) else None
  }

  /** The priority of url's first credential; it is consulted only for urls that have one. */
  function Priority(creds: seq<Credential>, url: Url): int {
    match Representative(creds, url)
    case Some(c) => c.priority
    case None => 0
  }

  /** The sort key of the comparator `(a, b) => map[b][0].priority - map[a][0].priority`. */
  function KeyOf(creds: seq<Credential>): Url -> int {
    u => Priority(creds, u)
  }

  /** Every library has a credential, so the comparator never dereferences a missing group. */
  predicate Covered(creds: seq<Credential>, libs: seq<Url>) {
    forall u :: u in libs ==> Representative(creds, u).Some?
  }

  /** The credential filter of the lookup: the credentials whose url is an available library, in order. */
  function FilterAvailable(creds: seq<Credential>, libs: seq<Url>): seq<Credential>
  {
    if creds == [] then []
    else if creds[0].url in libs then [creds[0]] + FilterAvailable(creds[1..], libs)
    else FilterAvailable(creds[1..], libs)
  }

  /**
   * The priority rule shared by the track list and the album page: sort the
   * libraries stably by the priority of their first credential, highest
   * first, and take the first credential of the head. The sort's
   * comparator throws as soon as it meets a library without a credential,
   * and any sort of two or more elements compares every element; with one
   * element the final lookup throws instead.
   */
  function SelectByPriority(libs: seq<Url>, groups: seq<Credential>): (r: Selection)
    ensures r == NoLibrary <==> |libs| == 0
    ensures r == Failed <==> |libs| > 0 && exists u :: u in libs && Representative(groups, u).None?
    ensures r.Found? ==> r.credential.url in libs && Representative(groups, r.credential.url) == Some(r.credential)
  {
    if |libs| == 0 then NoLibrary
    else if !Covered(groups, libs) then Failed
    else
      var sorted := StableSort.SortDesc(libs, KeyOf(groups));
      assert sorted[0] in libs by {
        StableSort.SortDescPermutation(libs, KeyOf(groups));
        assert sorted[0] in multiset(sorted);
      }
      Found(Representative(groups, sorted[0]).value)
  }

  /** The selection of `getAvailableLibraryForTrack` for the libraries hosting the album. */
  function SelectLibrary(libs: seq<Url>, allCredentials: seq<Credential>): Selection {
    SelectByPriority(libs, FilterAvailable(allCredentials, libs))
  }

  /** A leading credential for another url does not affect url's first credential. */
  lemma RepresentativeSkipsOtherUrl(creds: seq<Credential>, url: Url)
    requires creds != [] && creds[0].url != url
    ensures Representative(creds, url) == Representative(creds[1..], url)
  {
    assert FirstIndexOfUrl(creds, url) == 1 + FirstIndexOfUrl(creds[1..], url);
    if FirstIndexOfUrl(creds[1..], url) < |creds[1..]| {
      assert creds[1 + FirstIndexOfUrl(creds[1..], url)] == creds[1..][FirstIndexOfUrl(creds[1..], url)];
    }
  }

  lemma {:induction false} FilterKeepsRepresentative(creds: seq<Credential>, libs: seq<Url>, u: Url)
    requires u in libs
    ensures Representative(FilterAvailable(creds, libs), u) == Representative(creds, u)
  {
    if creds != [] {
      var f := FilterAvailable(creds, libs);
      var f' := FilterAvailable(creds[1..], libs);
      if creds[0].url == u {
        assert f[0] == creds[0];
        assert FirstIndexOfUrl(f, u) == 0 && FirstIndexOfUrl(creds, u) == 0;
      } else {
        FilterKeepsRepresentative(creds[1..], libs, u);
        RepresentativeSkipsOtherUrl(creds, u);
        if creds[0].url in libs {
          assert f == [creds[0]] + f';
          assert f[1..] == f';
          RepresentativeSkipsOtherUrl(f, u);
        } else {
          assert f == f';
        }
      }
    }
  }

  /**
   * Filtering the credentials by availability first does not change the
   * selection: the track list's rule is the album page's rule.
   */
  lemma SelectLibraryIgnoresFilter(libs: seq<Url>, allCredentials: seq<Credential>)
    ensures SelectLibrary(libs, allCredentials) == SelectByPriority(libs, allCredentials)
  {
    var f := FilterAvailable(allCredentials, libs);
    forall u | u in libs
      ensures Representative(f, u) == Representative(allCredentials, u)
    {
      FilterKeepsRepresentative(allCredentials, libs, u);
    }
    forall i | 0 <= i < |libs|
      ensures KeyOf(f)(libs[i]) == KeyOf(allCredentials)(libs[i])
    {
      assert libs[i] in libs;
    }
    StableSort.SortDescCongruent(libs, KeyOf(f), KeyOf(allCredentials));
  }

  /**
   * The winner: its credential is the first credential of the earliest
   * library of highest first-credential priority; no library has a higher
   * priority and every earlier library a strictly lower one.
   */
  lemma WinnerIsFirstMaximal(libs: seq<Url>, groups: seq<Credential>)
    requires SelectByPriority(libs, groups).Found?
    ensures var k := StableSort.FirstMaxIndex(libs, KeyOf(groups));
            var c := SelectByPriority(libs, groups).credential;
            && Representative(groups, libs[k]) == Some(c)
            && (forall u :: u in libs ==> Priority(groups, u) <= c.priority)
            && (forall j :: 0 <= j < k ==> Priority(groups, libs[j]) < c.priority)
  {
    StableSort.SortDescHead(libs, KeyOf(groups));
    var k := StableSort.FirstMaxIndex(libs, KeyOf(groups));
    forall u | u in libs
      ensures Priority(groups, u) <= Priority(groups, libs[k])
    {
      var j :| 0 <= j < |libs| && libs[j] == u;
      assert KeyOf(groups)(libs[j]) <= KeyOf(groups)(libs[k]);
    }
    forall j | 0 <= j < k
      ensures Priority(groups, libs[j]) < Priority(groups, libs[k])
    {
      assert KeyOf(groups)(libs[j]) < KeyOf(groups)(libs[k]);
    }
  }

  /** The returned credential is the first one, in credential order, for its library. */
  lemma FoundIsFirstForItsUrl(libs: seq<Url>, allCredentials: seq<Credential>)
    requires SelectLibrary(libs, allCredentials).Found?
    ensures var c := SelectLibrary(libs, allCredentials).credential;
            exists i :: 0 <= i < |allCredentials| && allCredentials[i] == c
              && forall j :: 0 <= j < i ==> allCredentials[j].url != c.url
  {
    SelectLibraryIgnoresFilter(libs, allCredentials);
    var c := SelectLibrary(libs, allCredentials).credential;
    var i := FirstIndexOfUrl(allCredentials, c.url);
    assert allCredentials[i] == c;
  }

  /**
   * The priority rule run on the caller's array: the libraries are sorted
   * in place, highest first-credential priority first, and the head's first
   * credential is taken. When the comparator throws the array is left as it
   * was, since the sort writes its result back only once it has finished.
   */
  method SortByPriority(availableLibraries: array<Url>, credentialUrlMap: seq<Credential>)
    returns (r: Selection)
    modifies availableLibraries
    ensures r == SelectByPriority(old(availableLibraries[..]), credentialUrlMap)
    ensures availableLibraries[..]
            == if r.Found? then StableSort.SortDesc(old(availableLibraries[..]), KeyOf(credentialUrlMap))
               else old(availableLibraries[..])
  {
    if availableLibraries.Length == 0 {
      return NoLibrary;
    }
    if !Covered(credentialUrlMap, availableLibraries[..]) {
      return Failed;
    }
    ghost var libs := availableLibraries[..];
    StableSort.SortInPlace(availableLibraries, KeyOf(credentialUrlMap));
    ghost var sorted := StableSort.SortDesc(libs, KeyOf(credentialUrlMap));
    assert availableLibraries[0] == sorted[0];
    assert sorted[0] in libs by {
      StableSort.SortDescPermutation(libs, KeyOf(credentialUrlMap));
      assert sorted[0] in multiset(sorted);
    }
    r := Found(Representative(credentialUrlMap, availableLibraries[0]).value);
  }

  /** `getAvailableLibraryForTrack`: the array the lookup returns is sorted in place. */
  method GetAvailableLibraryForTrack(track: TrackItem, allCredentials: seq<Credential>,
                                     getAvailableLibraries: string -> seq<Url>)
    returns (r: Selection)
    requires track.NormalTrackItem?
    ensures r == SelectLibrary(getAvailableLibraries(track.albumId), allCredentials)
  {
    var found := getAvailableLibraries(track.albumId);
    var credentialUrlMap := FilterAvailable(allCredentials, found);
    var availableLibraries := new Url[|found|](i requires 0 <= i < |found| => found[i]);
    assert availableLibraries[..] == found;
    r := SortByPriority(availableLibraries, credentialUrlMap);
  }

  // ---- urls ----

  /** The part the play and cover urls share: `${url}/${albumId}/${discIndex + 1}/`. */
  function DiscPrefix(url: Url, albumId: string, discIndex: nat): string {
    url + "/" + albumId + "/" + NatToString(discIndex + 1) + "/"
  }

  /** `getPlayUrlForTrack` */
  function PlayUrl(track: TrackItem, credential: Credential): (r: string)
    requires track.NormalTrackItem?
    ensures |r| > |credential.url| && r[..|credential.url|] == credential.url
    ensures |r| > |credential.token| && r[|r| - |credential.token|..] == credential.token
  {
    credential.url + "/" + track.albumId + "/" + NatToString(track.discIndex + 1) + "/"
      + NatToString(track.trackIndex + 1) + "?auth=" + credential.token
  }

  /** `getCoverUrlForTrack` */
  function CoverUrl(track: TrackItem, credential: Credential): (r: string)
    requires track.NormalTrackItem?
    ensures |r| > |credential.url| && r[..|credential.url|] == credential.url
  {
    credential.url + "/" + track.albumId + "/" + NatToString(track.discIndex + 1) + "/cover"
  }

  /**
   * Both urls extend the disc prefix: the play url with the 1-based track
   * number and the unescaped token, the cover url with "cover"; the cover
   * url depends on neither the track index nor the token.
   */
  lemma UrlsShareDiscPrefix(track: TrackItem, credential: Credential)
    requires track.NormalTrackItem?
    ensures PlayUrl(track, credential)
            == DiscPrefix(credential.url, track.albumId, track.discIndex)
               + NatToString(track.trackIndex + 1) + "?auth=" + credential.token
    ensures CoverUrl(track, credential)
            == DiscPrefix(credential.url, track.albumId, track.discIndex) + "cover"
  {
  }

  /** A play url is never the cover url of the same disc on the same library. */
  lemma PlayUrlIsNotCoverUrl(track: TrackItem, credential: Credential)
    requires track.NormalTrackItem?
    ensures PlayUrl(track, credential) != CoverUrl(track, credential)
  {
    UrlsShareDiscPrefix(track, credential);
    var n := |DiscPrefix(credential.url, track.albumId, track.discIndex)|;
    assert PlayUrl(track, credential)[n] == NatToString(track.trackIndex + 1)[0];
    assert CoverUrl(track, credential)[n] == 'c';
  }

  /** Two tracks of one disc get the same play url from one credential only if they are the same track. */
  lemma PlayUrlDeterminesTrack(t1: TrackItem, t2: TrackItem, credential: Credential)
    requires t1.NormalTrackItem? && t2.NormalTrackItem?
    requires t1.albumId == t2.albumId && t1.discIndex == t2.discIndex
    requires PlayUrl(t1, credential) == PlayUrl(t2, credential)
    ensures t1.trackIndex == t2.trackIndex
  {
    UrlsShareDiscPrefix(t1, credential);
    UrlsShareDiscPrefix(t2, credential);
    var p := DiscPrefix(credential.url, t1.albumId, t1.discIndex);
    var s1, s2 := NatToString(t1.trackIndex + 1), NatToString(t2.trackIndex + 1);
    var w := PlayUrl(t1, credential);
    assert |w| == |p| + |s1| + 6 + |credential.token|;
    assert |w| == |p| + |s2| + 6 + |credential.token|;
    assert s1 == w[|p|..|p| + |s1|];
    assert s2 == w[|p|..|p| + |s2|];
    NatToStringInjective(t1.trackIndex + 1, t2.trackIndex + 1);
  }

  // ---- worked examples ----

  /** Two libraries holding the album, priorities 5 and 9: the priority-9 library wins. */
  lemma HigherPriorityWins()
    ensures SelectLibrary(["http://b1", "http://b2"],
                          [Credential("http://b1", "t1", 5), Credential("http://b2", "t2", 9)])
            == Found(Credential("http://b2", "t2", 9))
  {
    var libs: seq<Url> := ["http://b1", "http://b2"];
    var creds := [Credential("http://b1", "t1", 5), Credential("http://b2", "t2", 9)];
    SelectLibraryIgnoresFilter(libs, creds);
    WinnerIsFirstMaximal(libs, creds);
    assert Representative(creds, "http://b1") == Some(creds[0]);
    assert Representative(creds, "http://b2") == Some(creds[1]);
  }

  /** Equal priorities: the library listed first wins. */
  lemma TieGoesToEarlierLibrary()
    ensures SelectLibrary(["http://b1", "http://b2"],
                          [Credential("http://b2", "t2", 7), Credential("http://b1", "t1", 7)])
            == Found(Credential("http://b1", "t1", 7))
  {
    var libs: seq<Url> := ["http://b1", "http://b2"];
    var creds := [Credential("http://b2", "t2", 7), Credential("http://b1", "t1", 7)];
    SelectLibraryIgnoresFilter(libs, creds);
    WinnerIsFirstMaximal(libs, creds);
    assert Representative(creds, "http://b1") == Some(creds[1]);
    assert Representative(creds, "http://b2") == Some(creds[0]);
  }

  /** Two credentials for one library: the first listed is used, even with a lower priority. */
  lemma FirstCredentialOfLibraryWins()
    ensures SelectLibrary(["http://b1"], [Credential("http://b1", "a", 1), Credential("http://b1", "b", 9)])
            == Found(Credential("http://b1", "a", 1))
  {
    var creds := [Credential("http://b1", "a", 1), Credential("http://b1", "b", 9)];
    SelectLibraryIgnoresFilter(["http://b1"], creds);
    assert Representative(creds, "http://b1") == Some(creds[0]);
  }

  /** Disc 0, track 2 of album X on http://lib1 with token abc. */
  lemma UrlsOfExampleTrack(track: TrackItem)
    requires track.NormalTrackItem? && track.albumId == "X" && track.discIndex == 0 && track.trackIndex == 2
    ensures PlayUrl(track, Credential("http://lib1", "abc", 1)) == "http://lib1/X/1/3?auth=abc"
    ensures CoverUrl(track, Credential("http://lib1", "abc", 1)) == "http://lib1/X/1/cover"
  {
    var credential := Credential("http://lib1", "abc", 1);
    assert NatToString(1) == "1" by { assert DigitChar(1) == '1'; }
    assert NatToString(3) == "3" by { assert DigitChar(3) == '3'; }
    UrlsShareDiscPrefix(track, credential);
    var prefix := DiscPrefix(credential.url, track.albumId, track.discIndex);
    assert prefix == "http://lib1/X/1/";
  }

  // ---- the uncovered-library defect ----

  /** A library hosts the album but holds no credential: the call rejects instead of settling to undefined. */
  lemma UncoveredLibraryFails()
    ensures SelectLibrary(["http://lib1"], [Credential("http://lib2", "abc", 1)]) == Failed
  {
    var libs: seq<Url> := ["http://lib1"];
    var creds := [Credential("http://lib2", "abc", 1)];
    assert Representative(FilterAvailable(creds, libs), "http://lib1").None?;
  }

  /** The libraries that have a credential, in availability order. */
  function CoveredLibraries(libs: seq<Url>, allCredentials: seq<Credential>): (r: seq<Url>)
    ensures forall u :: u in r <==> u in libs && Representative(allCredentials, u).Some?
  {
    if libs == [] then []
    else if Representative(allCredentials, libs[0]).Some? then [libs[0]] + CoveredLibraries(libs[1..], allCredentials)
    else CoveredLibraries(libs[1..], allCredentials)
  }

  /** The selection with libraries lacking a credential skipped, as the credential filter intends. */
  function SelectCoveredLibrary(libs: seq<Url>, allCredentials: seq<Credential>): Selection {
    SelectLibrary(CoveredLibraries(libs, allCredentials), allCredentials)
  }

  /**
   * The corrected selection never fails; it finds a credential exactly when
   * some hosting library has one, and then picks the highest-priority
   * covered library.
   */
  lemma SelectCoveredLibraryNeverFails(libs: seq<Url>, allCredentials: seq<Credential>)
    ensures SelectCoveredLibrary(libs, allCredentials) != Failed
    ensures SelectCoveredLibrary(libs, allCredentials).Found?
            <==> exists u :: u in libs && Representative(allCredentials, u).Some?
    ensures SelectCoveredLibrary(libs, allCredentials).Found? ==>
            var c := SelectCoveredLibrary(libs, allCredentials).credential;
            c.url in libs && forall u :: u in libs && Representative(allCredentials, u).Some?
                                        ==> Priority(allCredentials, u) <= c.priority
  {
    var cov := CoveredLibraries(libs, allCredentials);
    SelectLibraryIgnoresFilter(cov, allCredentials);
    var r := SelectByPriority(cov, allCredentials);
    if |cov| > 0 {
      assert cov[0] in cov;
    }
    if r.Found? {
      WinnerIsFirstMaximal(cov, allCredentials);
    }
  }
}

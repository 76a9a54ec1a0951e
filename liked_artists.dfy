/**
 The liked-tracks records and the artist extractor `getArtists`: it collects
 the name of every artist of every song's track into a map used as a set,
 copies the set's keys into a slice in the map's (unspecified) iteration
 order, and sorts the slice.
 */
module LikedArtists {
  import opened StringOrder
  import opened StringSort

  /** An artist as decoded from the service's JSON; only `name` is used. */
  datatype Artist = Artist(
    externalUrls: map<string, string>,
    href: string,
    id: string,
    name: string,
    kind: string,
    uri: string)

  /** A track; its album metadata is an untyped JSON object that nothing reads. */
  datatype Track = Track(artists: seq<Artist>)

  /** One entry of the saved-tracks list. */
  datatype Song = Song(addedAt: string, track: Track)

  /** The names of `artists`, gathered from first to last. */
  function ArtistNames(artists: seq<Artist>): set<string>
    decreases |artists|
  {
    if artists == [] then {}
    else ArtistNames(artists[..|artists| - 1]) + {artists[|artists| - 1].name}
  }

  /** The artist names of all songs, gathered song by song as the nested loop does. */
  function NameSet(songs: seq<Song>): set<string>
    decreases |songs|
  {
    if songs == [] then {}
    else NameSet(songs[..|songs| - 1]) + ArtistNames(songs[|songs| - 1].track.artists)
  }

  /** The number of artist entries over all songs, repetitions included. */
  function ArtistCount(songs: seq<Song>): nat
    decreases |songs|
  {
    if songs == [] then 0
    else ArtistCount(songs[..|songs| - 1]) + |songs[|songs| - 1].track.artists|
  }

  /** `name` is the name of some artist of some song's track. */
  ghost predicate Occurs(songs: seq<Song>, name: string)
  {
    exists i, j :: 0 <= i < |songs| && 0 <= j < |songs[i].track.artists| &&
      songs[i].track.artists[j].name == name
  }

  /** What `getArtists` returns: the distinct names, in ascending order. */
  ghost function ArtistList(songs: seq<Song>): seq<string>
  {
    SortedSeqOf(NameSet(songs))
  }

  lemma {:induction false} ArtistNamesMembership(artists: seq<Artist>, name: string)
    ensures name in ArtistNames(artists) <==>
      exists j :: 0 <= j < |artists| && artists[j].name == name
    decreases |artists|
  {
    if artists != [] {
      var init := artists[..|artists| - 1];
      ArtistNamesMembership(init, name);
      if exists j :: 0 <= j < |init| && init[j].name == name {
        var j :| 0 <= j < |init| && init[j].name == name;
        assert artists[j].name == name;
      }
      if exists j :: 0 <= j < |artists| && artists[j].name == name {
        var j :| 0 <= j < |artists| && artists[j].name == name;
        if j < |init| {
          assert init[j].name == name;
        }
      }
    }
  }

  /** A name is gathered exactly when some artist of some song carries it. */
  lemma {:induction false} NameSetMembership(songs: seq<Song>, name: string)
    ensures name in NameSet(songs) <==> Occurs(songs, name)
    decreases |songs|
  {
    if songs != [] {
      var init, last := songs[..|songs| - 1], songs[|songs| - 1];
      NameSetMembership(init, name);
      ArtistNamesMembership(last.track.artists, name);
      if Occurs(init, name) {
        var i, j :| 0 <= i < |init| && 0 <= j < |init[i].track.artists| &&
          init[i].track.artists[j].name == name;
        assert songs[i] == init[i];
      }
      if name in ArtistNames(last.track.artists) {
        var j :| 0 <= j < |last.track.artists| && last.track.artists[j].name == name;
        assert songs[|songs| - 1] == last;
      }
      if Occurs(songs, name) {
        var i, j :| 0 <= i < |songs| && 0 <= j < |songs[i].track.artists| &&
          songs[i].track.artists[j].name == name;
        if i < |init| {
          assert init[i] == songs[i];
        }
      }
    }
  }

  lemma {:induction false} ArtistNamesBound(artists: seq<Artist>)
    ensures |ArtistNames(artists)| <= |artists|
    decreases |artists|
  {
    if artists != [] {
      ArtistNamesBound(artists[..|artists| - 1]);
    }
  }

  /** There are never more distinct names than artist entries. */
  lemma {:induction false} NameSetBound(songs: seq<Song>)
    ensures |NameSet(songs)| <= ArtistCount(songs)
    decreases |songs|
  {
    if songs != [] {
      NameSetBound(songs[..|songs| - 1]);
      ArtistNamesBound(songs[|songs| - 1].track.artists);
    }
  }

  /** The nested loop of `getArtists`: every artist name goes into the set. */
  method GatherNames(songs: seq<Song>) returns (artistSet: set<string>)
    ensures artistSet == NameSet(songs)
  {
    artistSet := {};
    for i := 0 to |songs|
      invariant artistSet == NameSet(songs[..i])
    {
      var artists := songs[i].track.artists;
      for j := 0 to |artists|
        invariant artistSet == NameSet(songs[..i]) + ArtistNames(artists[..j])
      {
        assert artists[..j + 1][..j] == artists[..j];
        artistSet := artistSet + {artists[j].name};
      }
      assert songs[..i + 1][..i] == songs[..i];
      assert artists[..|artists|] == artists;
    }
    assert songs[..|songs|] == songs;
  }

  /**
   `for name := range artist_map` appending to a slice: every key once, in
   an order the program does not fix (each step takes any remaining key).
   */
  method ListKeys(keys: set<string>) returns (list: seq<string>)
    ensures Distinct(list) && |list| == |keys|
    ensures forall x :: x in list <==> x in keys
  {
    list := [];
    var rest := keys;
    while rest != {}
      invariant rest <= keys
      invariant Distinct(list) && |list| + |rest| == |keys|
      invariant forall x :: x in list <==> x in keys && x !in rest
      decreases |rest|
    {
      var name :| name in rest;
      list := list + [name];
      rest := rest - {name};
    }
  }

  /**
   The extractor. Its result is the sorted list of distinct names whatever
   order the map's keys are visited in.
   */
  method GetArtists(songs: seq<Song>) returns (artistList: seq<string>)
    ensures Sorted(artistList) && Distinct(artistList)
    ensures forall name :: name in artistList <==> Occurs(songs, name)
    ensures |artistList| == |NameSet(songs)| <= ArtistCount(songs)
    ensures artistList == ArtistList(songs)
  {
    var artistSet := GatherNames(songs);
    var collected := ListKeys(artistSet);

    // sort.Strings(artist_list)
    var a := new string[|collected|](k requires 0 <= k < |collected| => collected[k]);
    assert a[..] == collected;
    SortStrings(a);
    artistList := a[..];

    DistinctPermutation(collected, artistList);
    forall name ensures name in artistList <==> name in artistSet {
      assert name in artistList <==> name in multiset(artistList);
      assert name in collected <==> name in multiset(collected);
    }
    SortedDistinctUnique(artistList, ArtistList(songs));
    forall name ensures name in artistList <==> Occurs(songs, name) {
      NameSetMembership(songs, name);
    }
    NameSetBound(songs);
  }

  /**
   Reordering or repeating songs leaves the result unchanged: it depends only
   on which songs occur, although the map is read in no fixed order.
   */
  lemma ArtistListIgnoresSongOrder(songs1: seq<Song>, songs2: seq<Song>)
    requires forall s :: s in songs1 <==> s in songs2
    ensures ArtistList(songs1) == ArtistList(songs2)
  {
    forall name ensures name in NameSet(songs1) <==> name in NameSet(songs2) {
      NameSetMembership(songs1, name);
      NameSetMembership(songs2, name);
      if Occurs(songs1, name) {
        var i, j :| 0 <= i < |songs1| && 0 <= j < |songs1[i].track.artists| &&
          songs1[i].track.artists[j].name == name;
        assert songs1[i] in songs2;
        var i' :| 0 <= i' < |songs2| && songs2[i'] == songs1[i];
        assert songs2[i'].track.artists[j].name == name;
      }
      if Occurs(songs2, name) {
        var i, j :| 0 <= i < |songs2| && 0 <= j < |songs2[i].track.artists| &&
          songs2[i].track.artists[j].name == name;
        assert songs2[i] in songs1;
        var i' :| 0 <= i' < |songs1| && songs1[i'] == songs2[i];
        assert songs1[i'].track.artists[j].name == name;
      }
    }
    assert NameSet(songs1) == NameSet(songs2);
  }

  /** No songs, or songs whose tracks have no artists, give an empty list. */
  lemma NoArtistsGiveEmptyList(songs: seq<Song>)
    requires forall i :: 0 <= i < |songs| ==> songs[i].track.artists == []
    ensures ArtistList(songs) == []
  {
    if ArtistList(songs) != [] {
      var name := ArtistList(songs)[0];
      NameSetMembership(songs, name);
    }
  }

  /** An artist with an empty name is kept, and comes first. */
  lemma EmptyNameComesFirst(songs: seq<Song>)
    requires Occurs(songs, "")
    ensures |ArtistList(songs)| > 0 && ArtistList(songs)[0] == ""
  {
    NameSetMembership(songs, "");
    var r := ArtistList(songs);
    var k :| 0 <= k < |r| && r[k] == "";
    SortedPairwise(r, 0, k);
    PrefixIsBelow("", r[0]);
    BelowAntisymmetric(r[0], "");
  }

  function NamedArtist(name: string): Artist
  {
    Artist(map[], "", "", name, "artist", "")
  }

  function SongBy(name: string): Song
  {
    Song("", Track([NamedArtist(name)]))
  }

  /** One more song adds the names of its track's artists. */
  lemma NameSetAppend(songs: seq<Song>, song: Song)
    ensures NameSet(songs + [song]) == NameSet(songs) + ArtistNames(song.track.artists)
  {
    assert (songs + [song])[..|songs|] == songs;
  }

  /** The sorted form of two different names puts the lower one first. */
  lemma SortedPair(earlier: string, later: string)
    requires Below(earlier, later) && earlier != later
    ensures SortedSeqOf({earlier, later}) == [earlier, later]
  {
    var pair := [earlier, later];
    assert Sorted(pair) && Distinct(pair);
    assert forall x :: x in pair <==> x in {earlier, later};
    SortedDistinctUnique(pair, SortedSeqOf({earlier, later}));
  }

  /**
   Songs by `later`, `earlier`, `earlier` give the two names once each, in
   ascending order.
   */
  lemma RepeatedArtistListedOnce(earlier: string, later: string)
    requires Below(earlier, later) && earlier != later
    ensures ArtistList([SongBy(later), SongBy(earlier), SongBy(earlier)]) == [earlier, later]
  {
    var songs := [SongBy(later), SongBy(earlier), SongBy(earlier)];
    forall name ensures ArtistNames(SongBy(name).track.artists) == {name} {
      assert [NamedArtist(name)][..0] == [];
    }
    NameSetAppend([], SongBy(later));
    NameSetAppend([SongBy(later)], SongBy(earlier));
    NameSetAppend([SongBy(later), SongBy(earlier)], SongBy(earlier));
    assert [SongBy(later), SongBy(earlier)] + [SongBy(earlier)] == songs;
    assert NameSet(songs) == {earlier, later};
    SortedPair(earlier, later);
  }

  /** Two songs by "Air" and one by "Bjork" give ["Air", "Bjork"]. */
  lemma BjorkAirAirExample()
    ensures ArtistList([SongBy("Bjork"), SongBy("Air"), SongBy("Air")]) == ["Air", "Bjork"]
  {
    assert Below("Air", "Bjork");
    RepeatedArtistListedOnce("Air", "Bjork");
  }
}

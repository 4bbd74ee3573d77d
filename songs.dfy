/**
 * The song record shared by the player and the song page, and the two
 * lookups the client performs on the song list: `Array.prototype.findIndex`
 * and `Array.prototype.find` with the predicate `song.id === id`.
 */
module Songs {
  import opened Wrappers

  /**
   * One entry of the list served by `GET /songs`. `duration` is typed as a
   * string on the client but the server sends the float it stored, so it is
   * a number here.
   */
  datatype Song = Song(
    id: string,
    title: string,
    image: string,
    fileUrl: string,
    uploadDate: string,
    duration: real,
    downloadCount: int,
    description: string)

  /** Song ids are primary keys on the server, so a served list never repeats one. */
  predicate UniqueIds(songs: seq<Song>) {
    forall i, j :: 0 <= i < j < |songs| ==> songs[i].id != songs[j].id
  }

  /** `songs.findIndex(song => song.id === id)`: the first matching index, or -1. */
  function FindIndex(songs: seq<Song>, id: string): (r: int)
    ensures -1 <= r < |songs|
    ensures r == -1 <==> forall k :: 0 <= k < |songs| ==> songs[k].id != id
    ensures r >= 0 ==> songs[r].id == id && forall k :: 0 <= k < r ==> songs[k].id != id
    decreases |songs|
  {
    if songs == [] then -1
    else if songs[0].id == id then 0
    else
      var r := FindIndex(songs[1..], id);
      if r == -1 then -1 else r + 1
  }

  /** `songs.find(song => song.id === id)`: the first matching song, or `undefined`. */
  function Find(songs: seq<Song>, id: string): (r: Option<Song>)
    ensures r.None? <==> forall k :: 0 <= k < |songs| ==> songs[k].id != id
    ensures r.Some? ==> r.value in songs && r.value.id == id
    decreases |songs|
  {
    if songs == [] then None
    else if songs[0].id == id then Some(songs[0])
    else Find(songs[1..], id)
  }

  /** `find` returns the element at the index `findIndex` reports, so it is the first match. */
  lemma {:induction false} FindIsAtFindIndex(songs: seq<Song>, id: string)
    ensures Find(songs, id) == if FindIndex(songs, id) == -1 then None else Some(songs[FindIndex(songs, id)])
    decreases |songs|
  {
    if songs != [] && songs[0].id != id {
      FindIsAtFindIndex(songs[1..], id);
    }
  }

  /** In a list without repeated ids, looking a member's id up finds that member's own index. */
  lemma FindIndexOfMember(songs: seq<Song>, k: nat)
    requires UniqueIds(songs) && k < |songs|
    ensures FindIndex(songs, songs[k].id) == k
  {
  }
}

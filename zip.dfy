/** A zip archive as the core sees it once the zip reader has opened it. */
module Zip {
  import opened Common
  import Text

  /**
   * One entry, as `ZipArchive::by_index` yields it: its name and its
   * decompressed bytes, or a failure of the reader on that entry.
   */
  datatype Entry = Entry(name: string, data: Bytes) | Corrupt(reason: string)

  /** `ZipArchive::new`: either the reader rejects the bytes, or the entries in archive order. */
  datatype Archive = NotAZip(reason: string) | Archive(entries: seq<Entry>)

  /** A directory entry: its name ends with '/'. */
  predicate IsDirName(name: string) {
    Text.EndsWith(name, "/")
  }

  /** No entry of `es` makes the reader fail. */
  predicate AllReadable(es: seq<Entry>) {
    forall i :: 0 <= i < |es| ==> es[i].Entry?
  }

  /** The index of the first entry the reader fails on. */
  function FirstCorrupt(es: seq<Entry>): (r: Option<nat>)
    ensures r.None? <==> AllReadable(es)
    ensures r.Some? ==> r.value < |es| && es[r.value].Corrupt? && AllReadable(es[..r.value])
  {
    if es == [] then None
    else if es[0].Corrupt? then Some(0)
    else match FirstCorrupt(es[1..])
      case None => None
      case Some(k) =>
        assert es[..k + 1] == [es[0]] + es[1..][..k];
        Some(k + 1)
  }
}

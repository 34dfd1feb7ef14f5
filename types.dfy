/** The records the manager keeps about installed mods. */
module Types {
  import opened Common

  /**
   * One installed mod. `installedFiles` lists, in the order they were
   * written, the game-relative paths this mod owns; it is the only record
   * uninstalling consults.
   */
  datatype ModEntry = ModEntry(
    id: string,
    name: string,
    version: Option<string>,
    sourceZip: Option<string>,
    installedFiles: seq<Path>)

  /** The manifest: every installed mod, in installation order. */
  datatype ModIndex = ModIndex(mods: seq<ModEntry>)

  /** No two records share an id. */
  predicate UniqueIds(mods: seq<ModEntry>) {
    forall i, j :: 0 <= i < j < |mods| ==> mods[i].id != mods[j].id
  }

  datatype Tab = GettingStarted | Mods

  /** `ModIndex::default()`. */
  const EmptyIndex: ModIndex := ModIndex([])
}

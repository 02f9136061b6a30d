/** The processing and search constants of the configuration. */
module Settings {

  /** Characters per chunk. */
  const ChunkSize: nat := 800

  /** Characters shared by consecutive chunks. */
  const Overlap: nat := 100

  /** Number of matches a search asks the index for. */
  const TopK: nat := 3
}

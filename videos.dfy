/**
 * The video record both handlers read from the metadata store, and the outcome of
 * looking one up. The store itself (cfg.db) is not modelled: a lookup is an input.
 */
module Videos {
  import opened Wrappers

  /** A UUID, as the canonical text uuid.UUID prints. */
  type Uuid = string

  /** A row of the videos table; only `thumbnailURL` and `updatedAt` are ever written here. */
  datatype Video = Video(
    id: Uuid,
    createdAt: int,
    updatedAt: int,
    thumbnailURL: Option<string>,
    videoURL: Option<string>,
    title: string,
    description: string,
    userID: Uuid)

  /** The error GetVideo reports besides its record: none, sql.ErrNoRows, or any other. */
  datatype LookupError = NoError | ErrNoRows | OtherError

  /** What cfg.db.GetVideo returned: Go hands back a record even alongside an error. */
  datatype Lookup = Lookup(video: Video, err: LookupError)
}

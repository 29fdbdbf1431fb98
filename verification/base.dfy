/**
 Shared vocabulary of the migration engine: optional values, the error values
 the engine can return, and the numeric migration identifier.
 */
module Base {

  /** A value that may be absent; `None` plays the role of Go's `nil`. */
  datatype Option<+T> = None | Some(value: T)

  /** The errors the engine distinguishes. The five named ones mirror the
      package's full list of sentinel errors, although only
      `InvalidMigrationPair` and `InvalidMigrationType` are ever returned by
      the operations modelled here; `Db` stands for any error produced by the
      database, the file system or the asset bundle, identified only by its
      text. */
  datatype Error =
    | InvalidMigrationFile
    | InvalidMigrationPair
    | InvalidMigrationsPath
    | InvalidMigrationType
    | NoActiveMigrations
    | Db(detail: string)

  /** Either a value or the error that prevented it. */
  datatype Result<+T> = Success(value: T) | Failure(error: Error)

  /** Migration ids are Go `uint64` values. */
  const IdBound: int := 0x1_0000_0000_0000_0000

  type MigrationId = x: int | 0 <= x < IdBound
}

/** Shared value types of the hoist launchable model: optional values, results,
    paths as component lists, and the errors the launchable reports. */
module Types {

  datatype Option<+T> = None | Some(value: T)

  datatype Result<+T, +E> = Ok(value: T) | Err(error: E)

  /** A slash-separated path, already split into its components. The empty
      list is the filesystem root. */
  type Path = seq<string>

  /** The errno conditions of the filesystem calls that the model can produce. */
  datatype FsError =
    | Exist            // EEXIST
    | NotExist         // ENOENT
    | NotDir           // ENOTDIR
    | IsDir            // EISDIR
    | LinkNotFollowed  // opening a path that is a symbolic link (not followed by the model)

  /** What the supervisor can answer to a restart or stop request besides success. */
  datatype SvError =
    | SuperviseOkMissing        // the supervise/ok file of the service does not exist yet
    | SvFailed(message: string) // any other failure of `sv`

  /** The errors the launchable reports, one constructor per error site. */
  datatype Error =
    | NotInstalled(id: string)                  // Executables on a missing install
    | NotYetInstalled(id: string)               // AppManifest on a missing install
    | NoManifest(id: string)                    // neither manifest file exists
    | StatFailed(path: Path, cause: FsError)    // os.Stat of bin/launch or of a hook script
    | HookFailed(script: Path, output: string)  // a hook script ran and failed
    | ExecFailed(program: string, cause: FsError) // chpst could not be started
    | Supervisor(sv: SvError)                   // sv restart / sv stop failed
    | CgroupFailed(group: string, message: string)
    | LaunchFailed(id: string, inner: Error)    // Start failed inside Launch
    | FetchFailed(message: string)
    | DownloadUnreadable(cause: FsError)        // the downloaded file could not be opened
    | GzipFailed                                // the archive is not a gzip stream
    | RootDirFailed(dest: Path, cause: FsError) // creating the extraction root
    | ReadFailed                                // the tar stream is corrupt
    | SymlinkFailed(path: Path, cause: FsError) // symlink and hardlink entries
    | HardlinkUnresolved(path: Path)            // filepath.Rel failed for a hardlink
    | MkdirFailed(path: Path, cause: FsError)
    | OpenFailed(path: Path, cause: FsError)
    | CopyFailed(path: Path)                    // the entry's contents could not be read
    | UnhandledType(flag: char)
    | TempDirFailed(cause: FsError)             // pointer flip: temporary directory
    | PointerLinkFailed(cause: FsError)         // pointer flip: temporary symlink
    | RenameFailed(cause: FsError)              // pointer flip: rename onto the pointer
}

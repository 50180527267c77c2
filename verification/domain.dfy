/** The values that flow from the argument resolver into the transfer. */
module Domain {

  /** Where the bytes go: `target="local"` or `target="container"` as `main` passes it to `docker_local_transfer`. */
  datatype Direction = ToLocal | ToContainer

  /** A resolved copy request: which container, which path inside it, which host path, and the chunk size in bytes. */
  datatype TransferSpec = TransferSpec(
    direction: Direction,
    containerName: string,
    containerPath: string,
    localPath: string,
    chunkSize: int)

  /**
   * Every way an invocation can stop. All but `UnpackFailure` are raised as
   * click's `BadParameter` (the usage error); `UnpackFailure` is the
   * `ValueError` of a two-name unpack over a split with more than two parts.
   */
  datatype Error =
    | NonPositiveBuffer
    | EndpointShape
    | UnpackFailure
    | ContainerNotFound(name: string)
    | LocalNotDirectory
    | LocalPathMissing
    | RemotePathNotFound(path: string)
  {
    /** Whether the failure surfaces as the usage error rather than an uncaught exception. */
    predicate IsUsageError() {
      !UnpackFailure?
    }
  }
}

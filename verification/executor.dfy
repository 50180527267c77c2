/**
 * The order of checks in `docker_local_transfer`: look the container up, then
 * inspect the local path (a directory when copying to the host, any existing
 * path when copying into the container), then ask the daemon for the archive
 * call on the container path. The daemon and the host filesystem are
 * abstracted as the answers they give for this one request.
 */
module Executor {
  import opened Wrappers
  import opened Domain

  /** What the daemon and the filesystem answer for the request's container and paths. */
  datatype Env = Env(
    containerExists: bool,
    localExists: bool,
    localIsDir: bool,
    remotePathExists: bool)
  {
    /** A real filesystem never reports a directory that does not exist. */
    predicate Consistent() {
      localIsDir ==> localExists
    }
  }

  /** One query to the daemon or the filesystem, with the arguments `docker_local_transfer` passes. */
  datatype Call =
    | GetContainer(name: string)
    | IsDir(localPath: string)
    | Exists(localPath: string)
    | GetArchive(containerPath: string, chunkSize: int)
    | PutArchive(containerPath: string)

  /** The queries one transfer made, in order, and how it ended. */
  datatype Report = Report(calls: seq<Call>, outcome: Outcome<Error>)

  /** The answer `env` gives to `call`; the archive calls fail exactly when the container path is missing. */
  function Answer(call: Call, env: Env): bool
  {
    match call
    case GetContainer(_) => env.containerExists
    case IsDir(_) => env.localIsDir
    case Exists(_) => env.localExists
    case GetArchive(_, _) => env.remotePathExists
    case PutArchive(_) => env.remotePathExists
  }

  /** The error a negative answer to `call` is reported as. */
  function Complaint(call: Call): Error
  {
    match call
    case GetContainer(name) => ContainerNotFound(name)
    case IsDir(_) => LocalNotDirectory
    case Exists(_) => LocalPathMissing
    case GetArchive(path, _) => RemotePathNotFound(path)
    case PutArchive(path) => RemotePathNotFound(path)
  }

  /** The queries of a transfer that meets no error, in the order `docker_local_transfer` makes them. */
  function Plan(spec: TransferSpec): (plan: seq<Call>)
    ensures |plan| == 3 && plan[0] == GetContainer(spec.containerName)
  {
    match spec.direction
    case ToLocal =>
      [GetContainer(spec.containerName), IsDir(spec.localPath),
       GetArchive(spec.containerPath, spec.chunkSize)]
    case ToContainer =>
      [GetContainer(spec.containerName), Exists(spec.localPath),
       PutArchive(spec.containerPath)]
  }

  /**
   * The reference semantics of a fixed check order: make the queries one by
   * one and stop at the first negative answer, reporting its complaint.
   */
  function FirstRefusal(plan: seq<Call>, env: Env): (r: Report)
    ensures |r.calls| <= |plan| && r.calls == plan[..|r.calls|]
    ensures r.outcome.Pass? <==> forall i :: 0 <= i < |plan| ==> Answer(plan[i], env)
    ensures r.outcome.Pass? ==> r.calls == plan
    ensures r.outcome.Fail? ==>
      && |r.calls| > 0
      && !Answer(r.calls[|r.calls| - 1], env)
      && r.outcome.error == Complaint(r.calls[|r.calls| - 1])
      && forall i :: 0 <= i < |r.calls| - 1 ==> Answer(r.calls[i], env)
    decreases |plan|
  {
    if |plan| == 0 then Report([], Pass)
    else if !Answer(plan[0], env) then Report([plan[0]], Fail(Complaint(plan[0])))
    else
      var rest := FirstRefusal(plan[1..], env);
      assert forall i :: 1 <= i < |plan| ==> plan[i] == plan[1..][i - 1];
      Report([plan[0]] + rest.calls, rest.outcome)
  }

  /** `docker_local_transfer`, branch by branch. */
  function Transfer(spec: TransferSpec, env: Env): (r: Report)
    ensures 1 <= |r.calls| <= 3 && r.calls == Plan(spec)[..|r.calls|]
    ensures r.outcome.Pass? ==> r.calls == Plan(spec)
  {
    if !env.containerExists then
      Report([GetContainer(spec.containerName)], Fail(ContainerNotFound(spec.containerName)))
    else
      match spec.direction
      case ToLocal =>
        if !env.localIsDir then
          Report([GetContainer(spec.containerName), IsDir(spec.localPath)], Fail(LocalNotDirectory))
        else if !env.remotePathExists then
          Report(Plan(spec), Fail(RemotePathNotFound(spec.containerPath)))
        else
          Report(Plan(spec), Pass)
      case ToContainer =>
        if !env.localExists then
          Report([GetContainer(spec.containerName), Exists(spec.localPath)], Fail(LocalPathMissing))
        else if !env.remotePathExists then
          Report(Plan(spec), Fail(RemotePathNotFound(spec.containerPath)))
        else
          Report(Plan(spec), Pass)
  }

  /** The branches of `Transfer` are exactly "stop at the first refusal" over `Plan`. */
  lemma TransferIsFirstRefusal(spec: TransferSpec, env: Env)
    ensures Transfer(spec, env) == FirstRefusal(Plan(spec), env)
  {
    var plan := Plan(spec);
    assert plan[1..][1..] == [plan[2]];
    assert plan[1..][1..][1..] == [];
  }

  /** A missing container is reported before any local-path or archive query, in both directions. */
  lemma MissingContainerFirst(spec: TransferSpec, env: Env)
    requires !env.containerExists
    ensures Transfer(spec, env).calls == [GetContainer(spec.containerName)]
    ensures Transfer(spec, env).outcome == Fail(ContainerNotFound(spec.containerName))
  {
  }

  /** A bad local path is reported before the archive call, whatever the container path. */
  lemma LocalPathBeforeRemote(spec: TransferSpec, env: Env)
    requires env.containerExists
    requires spec.direction == ToLocal ==> !env.localIsDir
    requires spec.direction == ToContainer ==> !env.localExists
    ensures |Transfer(spec, env).calls| == 2
    ensures Transfer(spec, env).outcome
      == Fail(if spec.direction == ToLocal then LocalNotDirectory else LocalPathMissing)
  {
  }

  /**
   * Copying to the host needs a directory: an existing non-directory is
   * refused. Copying into the container needs only an existing path.
   */
  lemma LocalPathRules(spec: TransferSpec, env: Env)
    requires env.containerExists && env.localExists && !env.localIsDir && env.remotePathExists
    ensures spec.direction == ToLocal ==> Transfer(spec, env).outcome == Fail(LocalNotDirectory)
    ensures spec.direction == ToContainer ==> Transfer(spec, env).outcome == Pass
  {
  }

  /** A transfer succeeds exactly when the container, the right kind of local path and the container path all exist. */
  lemma TransferSucceedsIff(spec: TransferSpec, env: Env)
    requires env.Consistent()
    ensures Transfer(spec, env).outcome.Pass? <==>
      && env.containerExists
      && env.localExists
      && (spec.direction == ToLocal ==> env.localIsDir)
      && env.remotePathExists
  {
  }
}

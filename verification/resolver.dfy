/**
 * The argument handling of the `docker-cp SRC TARGET` entry point: reject a
 * non-positive buffer length, classify each argument by the presence of `:`,
 * demand exactly one container endpoint, pick the direction, split the
 * container argument into name and path, and scale the buffer length (KiB)
 * to a chunk size in bytes.
 */
module Resolver {
  import opened Wrappers
  import opened PySplit
  import opened Domain

  /** The separator between container name and container path. */
  const Delimiter: char := ':'

  /** Bytes per unit of `--buffer-length`. */
  const KiB: int := 1024

  /** An argument names a container when splitting it on `:` yields more than one part. */
  predicate IsContainerArg(arg: string)
  {
    |SplitOn(arg, Delimiter)| > 1
  }

  /** The classification by split length is exactly "contains a colon". */
  lemma ContainerArgIffColon(arg: string)
    ensures IsContainerArg(arg) <==> Delimiter in arg
  {
  }

  /**
   * `container_name, container_path = arg.split(":")`: Python's unpack into
   * two names succeeds only when the split has exactly two parts.
   */
  function Unpack(arg: string): (r: Result<(string, string), Error>)
    ensures r.Success? <==> multiset(arg)[Delimiter] == 1
    ensures r.Success? ==>
      && r.value.0 + [Delimiter] + r.value.1 == arg
      && Delimiter !in r.value.0
      && Delimiter !in r.value.1
    ensures r.Failure? ==> r.error == UnpackFailure
  {
    var parts := SplitOn(arg, Delimiter);
    if |parts| == 2 then
      assert Join(parts, Delimiter) == parts[0] + [Delimiter] + Join(parts[1..], Delimiter);
      Success((parts[0], parts[1]))
    else
      Failure(UnpackFailure)
  }

  /** The direction, container name, container path and local path chosen by `main`. */
  function Resolve(src: string, target: string, bufferLength: int): (r: Result<TransferSpec, Error>)
    ensures bufferLength <= 0 ==> r == Failure(NonPositiveBuffer)
    ensures bufferLength > 0 && ((Delimiter in src) == (Delimiter in target)) ==>
      r == Failure(EndpointShape)
    ensures r.Failure? && r.error == UnpackFailure <==>
      && bufferLength > 0
      && ((Delimiter in src) != (Delimiter in target))
      && multiset(if Delimiter in src then src else target)[Delimiter] >= 2
    ensures r.Success? ==>
      && r.value.chunkSize == bufferLength * KiB
      && r.value.chunkSize > 0
      && r.value.chunkSize % KiB == 0
    ensures r.Success? && Delimiter in src ==>
      && r.value.direction == ToLocal
      && r.value.containerName + [Delimiter] + r.value.containerPath == src
      && r.value.localPath == target
    ensures r.Success? && Delimiter !in src ==>
      && r.value.direction == ToContainer
      && r.value.containerName + [Delimiter] + r.value.containerPath == target
      && r.value.localPath == src
    ensures r.Success? ==>
      && Delimiter !in r.value.containerName
      && Delimiter !in r.value.containerPath
      && Delimiter !in r.value.localPath
  {
    ContainerArgIffColon(src);
    ContainerArgIffColon(target);
    if bufferLength <= 0 then
      Failure(NonPositiveBuffer)
    else if (IsContainerArg(src) && IsContainerArg(target))
         || (!IsContainerArg(src) && !IsContainerArg(target)) then
      Failure(EndpointShape)
    else if IsContainerArg(src) then
      match Unpack(src)
      case Failure(e) => Failure(e)
      case Success((name, path)) =>
        Success(TransferSpec(ToLocal, name, path, target, bufferLength * KiB))
    else
      match Unpack(target)
      case Failure(e) => Failure(e)
      case Success((name, path)) =>
        Success(TransferSpec(ToContainer, name, path, src, bufferLength * KiB))
  }

  /** The specs `Resolve` can produce: colon-free names and paths, a positive whole number of KiB. */
  predicate WellFormed(spec: TransferSpec)
  {
    && Delimiter !in spec.containerName
    && Delimiter !in spec.containerPath
    && Delimiter !in spec.localPath
    && spec.chunkSize > 0
    && spec.chunkSize % KiB == 0
  }

  /** The `SRC TARGET` pair that requests `spec`. */
  function Render(spec: TransferSpec): (string, string)
  {
    var remote := spec.containerName + [Delimiter] + spec.containerPath;
    match spec.direction
    case ToLocal => (remote, spec.localPath)
    case ToContainer => (spec.localPath, remote)
  }

  /** Resolution succeeds exactly when the buffer is positive and exactly one argument holds exactly one colon, the other none. */
  lemma ResolveSucceedsIff(src: string, target: string, bufferLength: int)
    ensures Resolve(src, target, bufferLength).Success? <==>
      && bufferLength > 0
      && multiset(src)[Delimiter] + multiset(target)[Delimiter] == 1
  {
  }

  /** Every well-formed spec is what its rendered arguments resolve to. */
  lemma ResolveRender(spec: TransferSpec)
    requires WellFormed(spec)
    ensures Resolve(Render(spec).0, Render(spec).1, spec.chunkSize / KiB) == Success(spec)
  {
    var remote := spec.containerName + [Delimiter] + spec.containerPath;
    var n := spec.chunkSize / KiB;
    assert n > 0 && n * KiB == spec.chunkSize;
    UnpackJoined(spec.containerName, spec.containerPath);
    assert IsContainerArg(remote) by {
      assert remote[|spec.containerName|] == Delimiter;
      ContainerArgIffColon(remote);
    }
    assert !IsContainerArg(spec.localPath) by { ContainerArgIffColon(spec.localPath); }
    match spec.direction
    case ToLocal =>
      assert Resolve(remote, spec.localPath, n)
          == Success(TransferSpec(ToLocal, spec.containerName, spec.containerPath, spec.localPath, n * KiB));
    case ToContainer =>
      assert Resolve(spec.localPath, remote, n)
          == Success(TransferSpec(ToContainer, spec.containerName, spec.containerPath, spec.localPath, n * KiB));
  }

  /** A colon-free name and path joined by one colon unpack back into themselves. */
  lemma UnpackJoined(name: string, path: string)
    requires Delimiter !in name && Delimiter !in path
    ensures Unpack(name + [Delimiter] + path) == Success((name, path))
  {
    SplitAfterPrefix(name, path, Delimiter);
    SplitWithoutSeparator(path, Delimiter);
  }

  /** Every successful resolution is the rendering of a well-formed spec, so `Render` and `Resolve` are inverse. */
  lemma RenderResolve(src: string, target: string, bufferLength: int)
    requires Resolve(src, target, bufferLength).Success?
    ensures WellFormed(Resolve(src, target, bufferLength).value)
    ensures Render(Resolve(src, target, bufferLength).value) == (src, target)
    ensures Resolve(src, target, bufferLength).value.chunkSize / KiB == bufferLength
  {
  }

  /** The first-colon reading of the `{container_name}:{container_path}` syntax, `arg.split(":", 1)`, which `main` does not use. */
  function SplitAtFirst(arg: string): (r: (string, string))
    requires Delimiter in arg
    ensures r.0 + [Delimiter] + r.1 == arg
    ensures Delimiter !in r.0
  {
    if arg[0] == Delimiter then ("", arg[1..])
    else
      var (name, path) := SplitAtFirst(arg[1..]);
      assert [arg[0]] + (name + [Delimiter] + path) == arg;
      ([arg[0]] + name, path)
  }

  /**
   * The split-and-unpack of `main` matches a first-colon split exactly when
   * the argument holds a single colon; with two or more it fails instead.
   */
  lemma UnpackVersusFirstColon(arg: string)
    requires Delimiter in arg
    ensures multiset(arg)[Delimiter] == 1 ==> Unpack(arg) == Success(SplitAtFirst(arg))
    ensures multiset(arg)[Delimiter] >= 2 ==> Unpack(arg) == Failure(UnpackFailure)
  {
  }
}

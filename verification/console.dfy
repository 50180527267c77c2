/**
 * The whole `docker-cp SRC TARGET` command: resolve the arguments, then, only
 * if that succeeds, run the transfer. The scenarios at the end are the rows of
 * the repository's integration test, with the daemon's and the filesystem's
 * answers written out as an `Env`.
 */
module Console {
  import opened Wrappers
  import opened Domain
  import opened Resolver
  import opened Executor

  /** One invocation: argument errors stop it before any query is made. */
  function Invoke(src: string, target: string, bufferLength: int, env: Env): (r: Report)
    ensures r.calls == [] <==> Resolve(src, target, bufferLength).Failure?
    ensures r.calls == [] ==> r.outcome == Fail(Resolve(src, target, bufferLength).error)
    ensures r.outcome.Pass? ==> Delimiter in src || Delimiter in target
  {
    match Resolve(src, target, bufferLength)
    case Failure(e) => Report([], Fail(e))
    case Success(spec) => Transfer(spec, env)
  }

  /** A non-positive buffer length is the usage error, whatever the arguments and the environment. */
  lemma NonPositiveBufferRejected(src: string, target: string, bufferLength: int, env: Env)
    requires bufferLength <= 0
    ensures Invoke(src, target, bufferLength, env) == Report([], Fail(NonPositiveBuffer))
    ensures NonPositiveBuffer.IsUsageError()
  {
  }

  /** Two container arguments or none are the usage error, and no query is made. */
  lemma EndpointShapeRejected(src: string, target: string, bufferLength: int, env: Env)
    requires bufferLength > 0
    requires (Delimiter in src) == (Delimiter in target)
    ensures Invoke(src, target, bufferLength, env) == Report([], Fail(EndpointShape))
  {
  }

  /** Every archive call carries `buffer_length * 1024` as its chunk size. */
  lemma ChunkSizePassedOn(src: string, target: string, bufferLength: int, env: Env, i: nat)
    requires i < |Invoke(src, target, bufferLength, env).calls|
    requires Invoke(src, target, bufferLength, env).calls[i].GetArchive?
    ensures Invoke(src, target, bufferLength, env).calls[i].chunkSize == bufferLength * KiB
    ensures bufferLength * KiB > 0
  {
  }

  /** On a well-formed spec, the command run on its rendered arguments is the transfer of that spec. */
  lemma InvokeRendered(spec: TransferSpec, env: Env)
    requires WellFormed(spec)
    ensures Invoke(Render(spec).0, Render(spec).1, spec.chunkSize / KiB, env) == Transfer(spec, env)
  {
    ResolveRender(spec);
  }

  /** A container argument with two or more colons fails at the unpack, which is not the usage error. */
  lemma ManyColonsFailUnpack(src: string, target: string, bufferLength: int, env: Env)
    requires bufferLength > 0
    requires (Delimiter in src && Delimiter !in target && multiset(src)[Delimiter] >= 2)
          || (Delimiter in target && Delimiter !in src && multiset(target)[Delimiter] >= 2)
    ensures Invoke(src, target, bufferLength, env) == Report([], Fail(UnpackFailure))
    ensures !UnpackFailure.IsUsageError()
  {
  }

  // The rows of the integration test. Each `Env` lists, in order, whether the
  // container exists, the local path exists, the local path is a directory,
  // and the container path exists.

  /** `-v ./__init__.py test:/tmp/` copies into the container. */
  lemma ScenarioPutIntoContainer()
    ensures Invoke("./__init__.py", "test:/tmp/", 1, Env(true, true, false, true))
      == Report([GetContainer("test"), Exists("./__init__.py"), PutArchive("/tmp/")], Pass)
  {
    var spec := TransferSpec(ToContainer, "test", "/tmp/", "./__init__.py", 1024);
    assert "test" + ":" + "/tmp/" == "test:/tmp/";
    assert [Delimiter] == ":";
    InvokeRendered(spec, Env(true, true, false, true));
  }

  /** `-v test:/tmp/__init__.py .` copies to the host with 1024-byte chunks. */
  lemma ScenarioGetFromContainer()
    ensures Invoke("test:/tmp/__init__.py", ".", 1, Env(true, true, true, true))
      == Report([GetContainer("test"), IsDir("."), GetArchive("/tmp/__init__.py", 1024)], Pass)
  {
    var spec := TransferSpec(ToLocal, "test", "/tmp/__init__.py", ".", 1024);
    assert "test" + ":" + "/tmp/__init__.py" == "test:/tmp/__init__.py";
    assert [Delimiter] == ":";
    InvokeRendered(spec, Env(true, true, true, true));
  }

  /** `-v test1:/tmp/__init__.py .` names a missing container: usage error after one query. */
  lemma ScenarioMissingContainer()
    ensures Invoke("test1:/tmp/__init__.py", ".", 1, Env(false, true, true, true))
      == Report([GetContainer("test1")], Fail(ContainerNotFound("test1")))
  {
    var spec := TransferSpec(ToLocal, "test1", "/tmp/__init__.py", ".", 1024);
    assert "test1" + ":" + "/tmp/__init__.py" == "test1:/tmp/__init__.py";
    assert [Delimiter] == ":";
    InvokeRendered(spec, Env(false, true, true, true));
  }

  /** `-v test:/tmp/__init__.py ./aaaa` has no local directory: refused before the archive call. */
  lemma ScenarioLocalNotDirectory()
    ensures Invoke("test:/tmp/__init__.py", "./aaaa", 1, Env(true, false, false, true))
      == Report([GetContainer("test"), IsDir("./aaaa")], Fail(LocalNotDirectory))
  {
    var spec := TransferSpec(ToLocal, "test", "/tmp/__init__.py", "./aaaa", 1024);
    assert "test" + ":" + "/tmp/__init__.py" == "test:/tmp/__init__.py";
    assert [Delimiter] == ":";
    InvokeRendered(spec, Env(true, false, false, true));
  }

  /** `-v ./__init__1.py test:/tmp/` has no local source: refused before the archive call. */
  lemma ScenarioLocalMissing()
    ensures Invoke("./__init__1.py", "test:/tmp/", 1, Env(true, false, false, true))
      == Report([GetContainer("test"), Exists("./__init__1.py")], Fail(LocalPathMissing))
  {
    var spec := TransferSpec(ToContainer, "test", "/tmp/", "./__init__1.py", 1024);
    assert "test" + ":" + "/tmp/" == "test:/tmp/";
    assert [Delimiter] == ":";
    InvokeRendered(spec, Env(true, false, false, true));
  }

  /** `-v test:/tmp/__init__1.py .` asks for a missing container path. */
  lemma ScenarioRemoteMissing()
    ensures Invoke("test:/tmp/__init__1.py", ".", 1, Env(true, true, true, false))
      == Report([GetContainer("test"), IsDir("."), GetArchive("/tmp/__init__1.py", 1024)],
                Fail(RemotePathNotFound("/tmp/__init__1.py")))
  {
    var spec := TransferSpec(ToLocal, "test", "/tmp/__init__1.py", ".", 1024);
    assert "test" + ":" + "/tmp/__init__1.py" == "test:/tmp/__init__1.py";
    assert [Delimiter] == ":";
    InvokeRendered(spec, Env(true, true, true, false));
  }

  /** `-v ./__init__.py test:/tmp/1` puts into a missing container directory. */
  lemma ScenarioPutIntoMissingPath()
    ensures Invoke("./__init__.py", "test:/tmp/1", 1, Env(true, true, false, false))
      == Report([GetContainer("test"), Exists("./__init__.py"), PutArchive("/tmp/1")],
                Fail(RemotePathNotFound("/tmp/1")))
  {
    var spec := TransferSpec(ToContainer, "test", "/tmp/1", "./__init__.py", 1024);
    assert "test" + ":" + "/tmp/1" == "test:/tmp/1";
    assert [Delimiter] == ":";
    InvokeRendered(spec, Env(true, true, false, false));
  }

  /** `-v __init__.py .` names no container: usage error, no query. */
  lemma ScenarioNoContainer()
    ensures Invoke("__init__.py", ".", 1, Env(true, true, true, true))
      == Report([], Fail(EndpointShape))
  {
    assert Delimiter !in "__init__.py" && Delimiter !in ".";
  }
}

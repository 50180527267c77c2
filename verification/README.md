# docker-cp: argument resolution and check order

`docker-cp SRC TARGET` copies a file or directory between the host and a
running container. Exactly one argument has the form
`{container_name}:{container_path}`. This project models the decision logic
of that command and proves properties of it:

- **Argument resolution** (`main`, `docker_cp/console.py`). It rejects a
  non-positive `--buffer-length`. It treats an argument as a container
  endpoint when `arg.split(":")` has more than one part, and it demands
  exactly one such argument. Then it picks the direction (`local` when SRC is
  the container side, `container` otherwise) and unpacks the container
  argument into name and path. The chunk size is `buffer_length * 1024`.
- **Check order of the transfer** (`docker_local_transfer`). It looks the
  container up first. Next it checks the local path: a directory when
  copying to the host, any existing path when copying into the container.
  Last comes the archive call (`get_archive` or `put_archive`) on the
  container path, which fails when that path is missing.

The Docker daemon and the host filesystem are inputs, not calls. An `Env`
record holds the four answers they would give for this request: does the
container exist, does the local path exist, is it a directory, and does the
container path exist. A transfer returns a `Report`: the queries it made, in
order, and how it ended. So "fails before any archive call" is a statement
about the `calls` field.

Modules:

- `Wrappers` holds the `Result` and `Outcome` types.
- `PySplit` models Python's `str.split` on one character, with `Join` as its
  inverse.
- `Domain` holds `Direction`, `TransferSpec` and `Error`.
- `Resolver` models the argument handling of `main`.
- `Executor` models `docker_local_transfer`.
- `Console` composes the two. It also restates the rows of
  `tests/test_integration.py` as lemmas.

The code splits on every colon, not on the first one. `main` writes
`name, path = arg.split(":")`, and that unpack raises `ValueError` when the
split has three or more parts. So `test:/a:b` is refused, even though the
`{container_name}:{container_path}` syntax might suggest a first-colon split.
This `ValueError` is not click's `BadParameter`. The model follows the code:
it has a separate `UnpackFailure`, for which `IsUsageError()` is false.
`Resolver.UnpackVersusFirstColon` shows that the code's split matches a
first-colon split exactly when the argument has one colon.

A missing local path is not the first thing checked. The container lookup,
a daemon query, always comes before it. The model keeps that order
(`Executor.MissingContainerFirst`, `Console.ScenarioLocalMissing`).

## Model

| member | source | states |
|---|---|---|
| PySplit.SplitOn | docker_cp/console.py:45-46 | `arg.split(":")` has one more part than there are colons in `arg`. No part contains a colon, and joining the parts with `:` gives `arg` back. |
| PySplit.SplitJoin | docker_cp/console.py:45-46 | Round trip in the other direction: splitting the `:`-join of colon-free parts gives exactly those parts. |
| Resolver.ContainerArgIffColon | docker_cp/console.py:45-47 | An argument is a container endpoint (split length > 1) exactly when it contains a colon. |
| Resolver.Unpack | docker_cp/console.py:56 | The two-name unpack succeeds exactly when the argument has one colon. It then yields a colon-free name and path with `name + ":" + path == arg`. Otherwise it fails with `UnpackFailure`. |
| Resolver.Resolve | docker_cp/console.py:37-74 | Buffer ≤ 0 gives `NonPositiveBuffer` whatever the arguments. Both or neither argument containing a colon gives `EndpointShape`. `UnpackFailure` happens exactly when the one container argument has two or more colons. On success the chunk size is `buffer_length * 1024`, which is positive and a multiple of 1024. The direction is `ToLocal` exactly when SRC has the colon. Name and path rebuild the container argument, and the local path is the other argument. |
| Resolver.ResolveSucceedsIff | docker_cp/console.py:37-74 | Resolution succeeds if and only if the buffer is positive and the two arguments together hold exactly one colon. |
| Resolver.ResolveRender | docker_cp/console.py:55-74 | Every well-formed spec (colon-free name and paths, chunk a positive multiple of 1024) is what its rendered `SRC TARGET` pair resolves to. |
| Resolver.RenderResolve | docker_cp/console.py:55-74 | Every successful resolution is well-formed and renders back to the original `SRC TARGET`, with the buffer length recovered from the chunk size. |
| Resolver.SplitAtFirst | docker_cp/console.py:30-31 | The first-colon reading of the `{container_name}:{container_path}` syntax: `name + ":" + path == arg`, with a colon-free name. |
| Resolver.UnpackVersusFirstColon | docker_cp/console.py:56 | With one colon the code's split-and-unpack equals the first-colon split. With two or more it fails with `UnpackFailure`. |
| Executor.Plan | docker_cp/console.py:93-131 | An error-free transfer makes three queries, and the first is the lookup of the named container. |
| Executor.FirstRefusal | docker_cp/console.py:93-135 | Fixed-order checking: the queries made are a prefix of the plan. Success means every answer was positive. A failure reports the complaint of the last query made, and every earlier answer was positive. |
| Executor.Transfer | docker_cp/console.py:93-135 | The queries made are a non-empty prefix of the plan, and a successful transfer makes them all. |
| Executor.TransferIsFirstRefusal | docker_cp/console.py:93-135 | The branches of `docker_local_transfer` coincide, in both directions, with stopping at the first refusal in the order lookup, local path, archive call. |
| Executor.MissingContainerFirst | docker_cp/console.py:93-98 | A missing container is reported as `ContainerNotFound(name)` after the lookup alone, with no local-path or archive query, in both directions. |
| Executor.LocalPathBeforeRemote | docker_cp/console.py:100-125 | When the container exists but the local path is wrong for the direction, the error is reported after two queries. The archive call is never made. |
| Executor.LocalPathRules | docker_cp/console.py:100-125 | An existing local path that is not a directory is refused when copying to the host. It is accepted when copying into the container. |
| Executor.TransferSucceedsIff | docker_cp/console.py:93-135 | On a consistent filesystem, a transfer succeeds exactly when the container, the local path and the container path exist, and the local path is a directory in the `local` direction. |
| Console.Invoke | docker_cp/console.py:37-74 | No query is made exactly when resolution fails, and the resolution error is then the outcome. A success needs a colon in one of the arguments. |
| Console.NonPositiveBufferRejected | docker_cp/console.py:37-40 | A buffer length ≤ 0 is the usage error, with no query, whatever the arguments and the environment. |
| Console.EndpointShapeRejected | docker_cp/console.py:45-54 | Two container arguments or none give the usage error `EndpointShape` with no query. |
| Console.ChunkSizePassedOn | docker_cp/console.py:58-74 | Every `get_archive` call is made with chunk size `buffer_length * 1024`, which is positive. |
| Console.ManyColonsFailUnpack | docker_cp/console.py:55-66 | A container argument with two or more colons ends in `UnpackFailure` before any query. That failure is not the usage error. |
| Console.InvokeRendered | docker_cp/console.py:55-74 | Running the command on a well-formed spec's rendered arguments is the transfer of exactly that spec. |
| Console.ScenarioPutIntoContainer | tests/test_integration.py:11 | `./__init__.py test:/tmp/` looks up `test`, checks that `./__init__.py` exists, puts it at `/tmp/` and succeeds. |
| Console.ScenarioLocalMissing | tests/test_integration.py:12 | `./__init__1.py test:/tmp/` fails with `LocalPathMissing` before any archive call. |
| Console.ScenarioPutIntoMissingPath | tests/test_integration.py:13 | `./__init__.py test:/tmp/1` fails at `put_archive` with `RemotePathNotFound("/tmp/1")`. |
| Console.ScenarioGetFromContainer | tests/test_integration.py:14 | `test:/tmp/__init__.py .` looks up `test`, checks that `.` is a directory, fetches with 1024-byte chunks and succeeds. |
| Console.ScenarioRemoteMissing | tests/test_integration.py:15 | `test:/tmp/__init__1.py .` fails at `get_archive` with `RemotePathNotFound`. |
| Console.ScenarioLocalNotDirectory | tests/test_integration.py:16 | `test:/tmp/__init__.py ./aaaa` fails with `LocalNotDirectory` before any archive call. |
| Console.ScenarioMissingContainer | tests/test_integration.py:17 | `test1:/tmp/__init__.py .` fails with `ContainerNotFound("test1")` after the lookup alone. |
| Console.ScenarioNoContainer | tests/test_integration.py:19 | `__init__.py .` fails with the usage error `EndpointShape` and makes no query. |

## Left out

- Docker client calls (`docker.from_env`, `containers.get`, `get_archive`, `put_archive`) are remote I/O. They appear only as the answers in `Env`. Daemon errors other than `NotFound` (for example `APIError`) propagate uncaught from `docker_local_transfer` and are not modelled.
- Tar packing and extraction, and the `BytesIO` buffering of the streamed chunks (console.py:113-118, 126-129), are library codec and byte streaming. Packing (`tar.add`) runs between the `exists` check and `put_archive`. A packing failure would stop the program with an uncaught exception after `[GetContainer, Exists]`, before `put_archive`.
- Executor.Transfer: the `ToContainer` path assumes packing succeeds, so its `PutArchive` query and its `Pass` outcome hold only under that assumption. The same assumption holds for `Executor.TransferSucceedsIff`.
- Extraction (`tar.extractall`) comes after the last modelled query, `get_archive`. A failed extraction would be an uncaught exception after the `ToLocal` `Pass` the model reports. `put_archive`'s boolean result, which `docker_local_transfer` ignores, is not modelled either.
- Logging setup and messages, and the `--verbose` flag, are global side effects only.
- Click's option parsing, and its mapping of `BadParameter` to exit status 2, are framework plumbing. Failures are `Error` variants, and `IsUsageError()` marks those raised as `BadParameter`. The exit status of the uncaught `ValueError` is not modelled.
- `pathlib.Path` normalisation of the container and local paths (for example `"/tmp/"` becoming `/tmp`, or `""` becoming `.`) is left out. The model carries the split strings unchanged.
- The `pathlib` queries `is_dir` and `exists` are the `Env` answers `localIsDir` and `localExists`. `Env.Consistent` is the one relation between them a real filesystem guarantees.
- The checks use Python `assert`, and `python -O` strips them. The model assumes assertions are enabled.
- `docker_local_transfer` with a `target` tag other than `"local"` or `"container"` does nothing after the container lookup. `main` never passes such a tag, so `Direction` has only the two variants.
- Test row 18 of tests/test_integration.py (`test:tmp/__init__1.py .`, a relative container path the daemon does not find) behaves like `Console.ScenarioRemoteMissing` and has no lemma of its own.

# Mindustry server manager: configuration registry

This project models the configuration registry of the Mindustry server
manager (`msmanager`) and of its older single-file predecessor (`rcrms`).
A registry is an ordered list of server definitions keyed by `screen_name`.
It is kept in memory and written back, as one whole JSON document, to a
backing file. The model covers the following:

- **`MSManagerConfig`** models `msmanager/config.py` with the record shape of
  `msmanager/models.py`. It covers load-or-default construction, lookup by
  name, lookup of the index, membership, guarded add (`ServerExistsError`),
  guarded remove (`ServerNotExistsError`), and `refresh` (the write-back).
- **`Rcrms`** models `rcrms.py`. It covers its `ConfigManager` (load, lookup,
  membership, `add_server`, `refresh`), the `add` command (add then refresh)
  and the `start` command, which builds the line typed into a new terminal
  session. The `add` command is modelled as written, on the inverted guard of
  `add_server`, and as intended, on the corrected one (see Findings).
- Supporting modules:
  - `KeyedSeq` holds the generic first-match search that both managers use,
    plus key uniqueness and removal by position.
  - `Text` holds `str.join`, plus a `split` that serves as its reference
    inverse.
  - `PosixPath` holds POSIX `os.path.basename` / `os.path.dirname`.
  - `Storage` holds the abstract state of the backing file: missing,
    unparsable, or holding a document.
  - `Wrappers` holds `Option`.

Everything is a pure function over immutable values. A manager is a pair:
the in-memory document and what the backing file holds. `Persisted(m)`
means the file holds exactly the in-memory document. A mutating call of
`msmanager` returns `Call(after, raised)`, the manager after the call and
the exception raised, if any. This lets "an error leaves everything
unchanged" be stated as `after == m`.

Parsing and serialisation are not modelled. A file that "parses" is one
whose content is a document (`Holds(doc)`), and `refresh` makes the file
hold the in-memory document. Which sessions exist is an input to `start`
(a set of session names). The path given to the `add` command arrives
already made absolute, because `os.path.abspath` depends on the process's
working directory.

Facts about the code that shape the model:
- `msmanager/config.py:4`, `msmanager/msm.py:5` and `msmanager/cli.py:7`
  import `MindustryServerConfig`, which `msmanager/models.py` does not define.
  The model uses the four fields of `MindustryServer`
  (`msmanager/models.py:4-8`).
- On a missing or unparsable file, the constructor uses `MainConfig()`, an
  empty document, and writes it at once (`msmanager/config.py:26-34`).
- `ServerIsStartedError` and `ServerIsStoppedError`
  (`msmanager/exceptions.py:52-66`) are raised nowhere in the modelled files.
- `msmanager/cli.py:83` and `msmanager/cli.py:96` call `start_server` and
  `stop_server`, which `msmanager/msm.py` does not define. Only the
  configuration calls of `msm.py` delegate to real code.

## Model

| member | source | states |
|---|---|---|
| KeyedSeq.IndexOf | msmanager/config.py:41-44 | the position found holds a matching entry and every earlier entry does not match; `None` exactly when no entry matches |
| KeyedSeq.Find | msmanager/config.py:36-39 | the element found is in the list and carries the key; `None` exactly when no entry matches |
| KeyedSeq.FindAtIndexOf | msmanager/config.py:36-44 | the element-returning search returns the element at the position the index search reports, so both find the first match |
| KeyedSeq.RemoveAt | msmanager/config.py:58 | `pop(i)` shortens the list by one, keeps entries before `i` in place, shifts later ones down by one, and loses exactly one copy of the popped entry |
| MSManagerConfig.Refresh | msmanager/config.py:20 | after a refresh the file holds the in-memory document, which is unchanged |
| MSManagerConfig.Load | msmanager/config.py:22-34 | a parsable file is adopted as it is; a missing or unparsable one yields an empty registry; either way the file then holds the in-memory document |
| MSManagerConfig.GetServer | msmanager/config.py:36-39 | a server found is registered and carries the name; `None` exactly when no registered server has the name |
| MSManagerConfig.GetServerIndex | msmanager/config.py:41-44 | the index is that of the first server with the name; `None` exactly when no server has it |
| MSManagerConfig.ExistsServer | msmanager/config.py:46-47 | true exactly when `get_server` finds something, that is, exactly when some registered server has the name |
| MSManagerConfig.AddServer | msmanager/config.py:49-54 | a fresh name is appended at the end and persisted; a taken name raises `ServerExistsError` and leaves the list and the file unchanged |
| MSManagerConfig.RemoveServer | msmanager/config.py:56-61 | a present name loses exactly its first entry, the others keep their relative order, and the result is persisted; an absent name raises `ServerNotExistsError` and leaves everything unchanged |
| MSManagerConfig.GetServerAgreesWithIndex | msmanager/config.py:36-44 | `servers[get_server_index(n)] == get_server(n)`, and one is `None` exactly when the other is |
| MSManagerConfig.AddThenGetServer | msmanager/config.py:49-52 | after a successful add, the length grows by one, the earlier entries are unchanged and in order, the new server is what `get_server` returns and sits at the last index, and the file is up to date |
| MSManagerConfig.AddKeepsUniqueNames | msmanager/config.py:49-54 | `add_server` preserves unique screen names |
| MSManagerConfig.RemoveKeepsUniqueNames | msmanager/config.py:56-61 | `remove_server` preserves unique screen names |
| MSManagerConfig.RemoveThenNotExists | msmanager/config.py:56-61 | with unique names, the name is not registered after `remove_server` |
| MSManagerConfig.RemoveLeavesLaterDuplicate | msmanager/config.py:57-58 | with two servers named alike, removing the name leaves the second one registered, so the previous row needs uniqueness |
| MSManagerConfig.RemoveUndoesAdd | msmanager/config.py:49-61 | removing a server just added under a fresh name restores the previous document, and the file holds it |
| MSManagerConfig.Run | msmanager/cli.py:53-75 | the registry after a sequence of add and remove commands, each error caught so the next command runs: the file stays in sync with memory if it was, and each command adds at most one server |
| MSManagerConfig.RunKeepsInvariants | msmanager/config.py:20-61 | over any sequence of adds and removes, with errors caught between commands, the file keeps holding the in-memory document and names stay unique |
| Rcrms.Load | rcrms.py:35-41 | a parsable file is adopted; otherwise the empty document is written and loaded; either way the file then holds the in-memory document |
| Rcrms.Refresh | rcrms.py:43 | after a refresh the file holds the in-memory document, which is unchanged |
| Rcrms.GetServer | rcrms.py:45-48 | a server found is registered and carries the name; `None` exactly when no registered server has it |
| Rcrms.GetServerIsFirstMatch | rcrms.py:45-48 | the server returned is the first one in list order with the name |
| Rcrms.ExistsServer | rcrms.py:50-51 | true exactly when `get_server` finds something, that is, exactly when some registered server has the name |
| Rcrms.AddServerAsWritten | rcrms.py:53-55 | as written, the server is appended only when its name is already present; otherwise nothing changes; the file is never touched |
| Rcrms.AsWrittenDropsFreshServer | rcrms.py:53-55 | as written, adding a new name leaves the list unchanged and the name unregistered |
| Rcrms.AsWrittenDuplicatesName | rcrms.py:53-55 | as written, adding a present name breaks uniqueness |
| Rcrms.AsWrittenEmptyStaysEmpty | rcrms.py:53-55 | as written, adding to a freshly created registry leaves it empty |
| Rcrms.AddServer | rcrms.py:53-55 | corrected: a new name is appended at the end; a present name changes nothing |
| Rcrms.AddServerThenGet | rcrms.py:53-55 | corrected: after an add the name is registered, names stay unique, and a new server is what `get_server` returns |
| Rcrms.AddCommand | rcrms.py:70-72 | the `add` command as written: the file then holds the list the as-written `add_server` produced, and a name is registered afterwards exactly when it was before |
| Rcrms.IntendedAddCommand | rcrms.py:70-72 | corrected: after the `add` command on the fixed `add_server`, the file holds the list and the name is registered; a registered name leaves the list unchanged, a new one is appended at the end, and unique names stay unique |
| Rcrms.AddCommandOnFreshRegistry | rcrms.py:53-55 | concretely: `add hub` on a fresh registry writes back an empty list and leaves `hub` unregistered, while the corrected command registers it |
| Rcrms.StartServer | rcrms.py:77-83 | a launch happens exactly when the name is registered and no session of that name exists; it targets that session and types `cd <dirname>; <command>` |
| Rcrms.LaunchCommand | rcrms.py:82 | the command is `java -jar `, the jar's base name, then each argument in order, each preceded by one space |
| Rcrms.LaunchCommandWords | rcrms.py:82 | the launch command splits on spaces into exactly `java`, `-jar`, the jar's base name and the arguments in order |
| Rcrms.StartServerLaunchesJar | rcrms.py:81-83 | the line typed is `cd `, the jar's directory, `; `, then the launch command; that directory, some slashes and the base name rebuild the configured path |
| Text.Join | rcrms.py:82 | `sep.join(words)`: the empty list gives the empty string, any other list gives a string starting with its first word |
| Text.JoinShape | rcrms.py:82 | a join of one or more words ends with the last word and is as long as all the words plus one separator per gap |
| Text.Split | rcrms.py:82 | splitting yields at least one piece, no piece holds the separator, and joining the pieces with it gives back the input |
| Text.SplitJoin | rcrms.py:82 | splitting a join of separator-free words gives back the words in order |
| PosixPath.Basename | rcrms.py:82 | the base name holds no `/` and is what follows the last `/` of the path |
| PosixPath.Dirname | rcrms.py:81 | the directory part is a prefix of the path ending before the last `/`, followed only by slashes up to that point; it is empty exactly when the path has no `/`; a head made only of slashes is kept whole |
| PosixPath.DirnameBasename | rcrms.py:81-82 | directory part, dropped slashes and base name concatenate back to the path |

## Findings

| source | as written | input that shows it | evidently intended | confidence | as-written member | corrected member |
|---|---|---|---|---|---|---|
| rcrms.py:54 | `if self.exists_server(...)`: appends only when the name is already registered | `add hub /srv/hub/server.jar` on a fresh (empty) registry leaves it empty; adding an already registered name registers it twice | `if not self.exists_server(...)`, as in `msmanager/config.py:50` | high; not executed | `Rcrms.AddServerAsWritten` and `Rcrms.AddCommand` (shown by `Rcrms.AsWrittenDropsFreshServer`, `Rcrms.AsWrittenDuplicatesName`, `Rcrms.AsWrittenEmptyStaysEmpty`, `Rcrms.AddCommandOnFreshRegistry`) | `Rcrms.AddServer` and `Rcrms.IntendedAddCommand` (proved by `Rcrms.AddServerThenGet` and the contract of `Rcrms.IntendedAddCommand`) |

## Left out

- JSON parsing and writing (`load`, `dump`, `parse_file`, `json_dump`, `json_load`, `writefile`): library I/O. The file is modelled only as missing, unparsable, or holding a document. Every write is assumed to succeed.
- Rcrms.Load: in the source, the re-parse after writing the default document could itself fail. It is modelled as always yielding the empty document.
- The `config_path` argument of `rcrms.ConfigManager` is stored but never used. The code always reads and writes the fixed `CONFIG_PATH`, so the model has a single file.
- The click command layer (`msmanager/cli.py`, `rcrms.py:60-96` beyond the `add` and `start` bodies): argument parsing and console rendering.
- Rcrms.AddCommand and Rcrms.IntendedAddCommand: `os.path.abspath` is not modelled, because it depends on the working directory. The path is taken as already absolute.
- Rcrms.StartServer: the GNU Screen session is not created and `send_command` is not issued. The model returns the session name and the text that would be sent, and takes the set of existing sessions as an input.
- `start_rcrms.py` opens three hard-coded sessions (`RCRMS_HUB`, `RCRMS_SURVIVAL`, `RCRMS_PvP`) and sends two commands to each. These are side effects on external processes.
- `msmanager/msm.py`: a delegation wrapper that also creates a directory. Its `get_server_config` and `exists_server_config` lack `return` and always yield `None`, so they are not the lookup contract.
- Platform, Screen and Java checks (`msmanager/functions.py`) and constants (`msmanager/units.py`): OS queries.
- Exception message text (`msmanager/exceptions.py`): errors are modelled only as `ConfigError` constructors.
- `ServerIsStartedError` / `ServerIsStoppedError` (`msmanager/exceptions.py:52-66`): raised nowhere in the modelled files, so no start/stop guard is modelled.
- Concurrent access to the backing file by several processes: each call is modelled as atomic.

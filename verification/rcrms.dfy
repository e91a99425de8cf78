/**
 The older single-file manager: its configuration manager (same first-match
 lookups over a differently shaped record) and the `start` command, which
 opens a terminal session named after the server and types the launch
 command into it.
 */
module Rcrms {
  import opened Wrappers
  import opened Storage
  import KeyedSeq
  import Text
  import PosixPath

  /** One server: the session name, the path of the server jar, its arguments. */
  datatype ConfigMindustryServer = ConfigMindustryServer(
    screenName: string,
    executable: string,
    args: seq<string>)

  datatype ConfigRCRMS = ConfigRCRMS(servers: seq<ConfigMindustryServer>)

  const DefaultConfig: ConfigRCRMS := ConfigRCRMS([])

  function ScreenName(s: ConfigMindustryServer): string
  {
    s.screenName
  }

  /** The manager: the loaded document and what the fixed configuration file holds. */
  datatype ConfigManager = ConfigManager(config: ConfigRCRMS, file: File<ConfigRCRMS>)

  function Servers(m: ConfigManager): seq<ConfigMindustryServer>
  {
    m.config.servers
  }

  predicate Persisted(m: ConfigManager)
  {
    m.file == Holds(m.config)
  }

  predicate UniqueNames(m: ConfigManager)
  {
    KeyedSeq.UniqueKeys(Servers(m), ScreenName)
  }

  /**
   The constructor: parse the file; if that fails for any reason, write the
   empty document and parse that instead.
   */
  function Load(file: File<ConfigRCRMS>): (m: ConfigManager)
    ensures Persisted(m)
    ensures file.Holds? ==> m.config == file.doc
    ensures !file.Holds? ==> Servers(m) == [] && UniqueNames(m)
  {
    match file
    case Holds(doc) => ConfigManager(doc, file)
    case _ => ConfigManager(DefaultConfig, Holds(DefaultConfig))
  }

  /** Writes the whole in-memory document over the configuration file. */
  function Refresh(m: ConfigManager): (r: ConfigManager)
    ensures Persisted(r)
    ensures r.config == m.config
  {
    m.(file := Holds(m.config))
  }

  /** The first registered server named `screenName`, or `None`. */
  function GetServer(m: ConfigManager, screenName: string): (r: Option<ConfigMindustryServer>)
    ensures r.Some? ==> r.value in Servers(m) && r.value.screenName == screenName
    ensures r.None? <==> forall i :: 0 <= i < |Servers(m)| ==> Servers(m)[i].screenName != screenName
  {
    KeyedSeq.Find(Servers(m), ScreenName, screenName)
  }

  /** Whether a server named `screenName` is registered. */
  function ExistsServer(m: ConfigManager, screenName: string): (b: bool)
    ensures b <==> GetServer(m, screenName).Some?
    ensures b <==> exists i :: 0 <= i < |Servers(m)| && Servers(m)[i].screenName == screenName
  {
    GetServer(m, screenName).Some?
  }

  /** The server found by `GetServer` is the first one carrying the name. */
  lemma GetServerIsFirstMatch(m: ConfigManager, screenName: string, i: nat)
    requires i < |Servers(m)| && Servers(m)[i].screenName == screenName
    requires forall j :: 0 <= j < i ==> Servers(m)[j].screenName != screenName
    ensures GetServer(m, screenName) == Some(Servers(m)[i])
  {
    KeyedSeq.FindAtIndexOf(Servers(m), ScreenName, screenName);
    var k := KeyedSeq.IndexOf(Servers(m), ScreenName, screenName).value;
    assert !(k < i) && !(i < k);
  }

  /**
   `add_server` as written: the guard is inverted, so the server is appended
   only when its name is already registered. The file is not touched here.
   */
  function AddServerAsWritten(m: ConfigManager, server: ConfigMindustryServer): (r: ConfigManager)
    ensures r.file == m.file
    ensures ExistsServer(m, server.screenName) ==> Servers(r) == Servers(m) + [server]
    ensures !ExistsServer(m, server.screenName) ==> r == m
  {
    if ExistsServer(m, server.screenName) then
      m.(config := m.config.(servers := Servers(m) + [server]))
    else
      m
  }

  /** As written, a server with a new name is silently dropped: it is still absent afterwards. */
  lemma AsWrittenDropsFreshServer(m: ConfigManager, server: ConfigMindustryServer)
    requires !ExistsServer(m, server.screenName)
    ensures !ExistsServer(AddServerAsWritten(m, server), server.screenName)
    ensures Servers(AddServerAsWritten(m, server)) == Servers(m)
  {
  }

  /** As written, adding a registered name registers it twice. */
  lemma AsWrittenDuplicatesName(m: ConfigManager, server: ConfigMindustryServer)
    requires ExistsServer(m, server.screenName)
    ensures !UniqueNames(AddServerAsWritten(m, server))
  {
    var i :| 0 <= i < |Servers(m)| && Servers(m)[i].screenName == server.screenName;
    var xs := Servers(AddServerAsWritten(m, server));
    assert xs[i] == Servers(m)[i] && xs[|Servers(m)|] == server;
    assert ScreenName(xs[i]) == ScreenName(xs[|Servers(m)|]);
  }

  /** Concretely: on an empty registry no server can ever be added. */
  lemma AsWrittenEmptyStaysEmpty()
    ensures var hub := ConfigMindustryServer("hub", "/srv/hub/server.jar", ["host"]);
            Servers(AddServerAsWritten(Load(Missing), hub)) == []
  {
  }

  /** `add_server` as intended: append only when the name is not yet registered. */
  function AddServer(m: ConfigManager, server: ConfigMindustryServer): (r: ConfigManager)
    ensures r.file == m.file
    ensures !ExistsServer(m, server.screenName) ==> Servers(r) == Servers(m) + [server]
    ensures ExistsServer(m, server.screenName) ==> r == m
  {
    if !ExistsServer(m, server.screenName) then
      m.(config := m.config.(servers := Servers(m) + [server]))
    else
      m
  }

  /** The corrected add registers a new server under its name and keeps names unique. */
  lemma AddServerThenGet(m: ConfigManager, server: ConfigMindustryServer)
    requires UniqueNames(m)
    ensures ExistsServer(AddServer(m, server), server.screenName)
    ensures UniqueNames(AddServer(m, server))
    ensures !ExistsServer(m, server.screenName) ==>
              GetServer(AddServer(m, server), server.screenName) == Some(server)
  {
    if !ExistsServer(m, server.screenName) {
      KeyedSeq.IndexOfAppendFresh(Servers(m), ScreenName, server);
      KeyedSeq.AppendKeepsUnique(Servers(m), ScreenName, server);
    }
  }

  /**
   The `add` command as written: build the record (the executable path
   arrives already made absolute), pass it to the as-written `add_server`,
   then write the whole document back. Because of the inverted guard it never
   registers a name that was not registered before.
   */
  function AddCommand(m: ConfigManager, screenName: string, executable: string, args: seq<string>)
    : (r: ConfigManager)
    ensures Persisted(r)
    ensures Servers(r) == Servers(AddServerAsWritten(m, ConfigMindustryServer(screenName, executable, args)))
    ensures forall n :: ExistsServer(r, n) <==> ExistsServer(m, n)
  {
    var server := ConfigMindustryServer(screenName, executable, args);
    var added := AddServerAsWritten(m, server);
    assert forall n :: ExistsServer(added, n) <==> ExistsServer(m, n) by {
      forall n
        ensures ExistsServer(added, n) <==> ExistsServer(m, n)
      {
        if ExistsServer(m, screenName) {
          assert forall i :: 0 <= i < |Servers(m)| ==> Servers(added)[i] == Servers(m)[i];
          assert Servers(added)[|Servers(m)|] == server;
        }
      }
    }
    Refresh(added)
  }

  /**
   The `add` command as intended, on the corrected `add_server`: the name is
   registered afterwards, at most one entry is appended, and the file holds
   the result.
   */
  function IntendedAddCommand(m: ConfigManager, screenName: string, executable: string, args: seq<string>)
    : (r: ConfigManager)
    ensures Persisted(r)
    ensures ExistsServer(r, screenName)
    ensures |Servers(m)| <= |Servers(r)| <= |Servers(m)| + 1
    ensures Servers(r)[..|Servers(m)|] == Servers(m)
    ensures ExistsServer(m, screenName) ==> Servers(r) == Servers(m)
    ensures !ExistsServer(m, screenName) ==>
              Servers(r) == Servers(m) + [ConfigMindustryServer(screenName, executable, args)]
    ensures UniqueNames(m) ==> UniqueNames(r)
  {
    var server := ConfigMindustryServer(screenName, executable, args);
    var added := AddServer(m, server);
    assert UniqueNames(m) ==> UniqueNames(added) by {
      if UniqueNames(m) {
        AddServerThenGet(m, server);
      }
    }
    assert Servers(added)[..|Servers(m)|] == Servers(m);
    assert ExistsServer(added, screenName) by {
      if !ExistsServer(m, screenName) {
        assert Servers(added)[|Servers(m)|] == server;
      }
    }
    Refresh(added)
  }

  /** Concretely: the `add` command as written on a fresh registry writes back an empty list. */
  lemma AddCommandOnFreshRegistry()
    ensures var r := AddCommand(Load(Missing), "hub", "/srv/hub/server.jar", []);
            Servers(r) == [] && Persisted(r) && !ExistsServer(r, "hub")
    ensures ExistsServer(IntendedAddCommand(Load(Missing), "hub", "/srv/hub/server.jar", []), "hub")
  {
  }

  /** What `start` does to the outside world: open a session and type one line into it. */
  datatype Launch = Launch(session: string, text: string)

  /** The words of the launch command: the Java runtime, the jar's base name, the arguments. */
  function LaunchWords(server: ConfigMindustryServer): seq<string>
  {
    ["java", "-jar", PosixPath.Basename(server.executable)] + server.args
  }

  /** Joining the launch words spells out `java -jar`, the base name, then the arguments. */
  lemma JoinLaunchWords(server: ConfigMindustryServer)
    ensures Text.Join(LaunchWords(server), " ") ==
              "java -jar " + PosixPath.Basename(server.executable)
              + (if server.args == [] then "" else " " + Text.Join(server.args, " "))
  {
    var base := PosixPath.Basename(server.executable);
    Text.JoinThreeThen("java", "-jar", base, server.args, " ");
    assert "java" + " " + "-jar" + " " + base == "java -jar " + base;
  }

  /**
   The launch command: `java -jar`, the jar's base name, then each argument,
   in order, every one preceded by a single space.
   */
  function LaunchCommand(server: ConfigMindustryServer): (r: string)
    ensures r == "java -jar " + PosixPath.Basename(server.executable)
                 + (if server.args == [] then "" else " " + Text.Join(server.args, " "))
  {
    JoinLaunchWords(server);
    Text.Join(LaunchWords(server), " ")
  }

  /**
   The `start` command, given the names of the sessions that exist: a launch
   happens only for a registered server whose session does not exist yet;
   otherwise nothing happens and nothing is raised.
   */
  function StartServer(m: ConfigManager, screenName: string, sessions: set<string>): (r: Option<Launch>)
    ensures r.Some? <==> ExistsServer(m, screenName) && screenName !in sessions
    ensures r.Some? ==> r.value.session == screenName
    ensures r.Some? ==>
              var server := GetServer(m, screenName).value;
              r.value.text == "cd " + PosixPath.Dirname(server.executable) + "; " + LaunchCommand(server)
  {
    match GetServer(m, screenName)
    case None => None
    case Some(server) =>
      if screenName !in sessions then
        Some(Launch(screenName,
                    "cd " + PosixPath.Dirname(server.executable) + "; " + LaunchCommand(server)))
      else
        None
  }

  /**
   The launch command splits back, on spaces, into exactly the runtime, the
   jar's base name and the arguments in order, when none of them holds a space.
   */
  lemma LaunchCommandWords(server: ConfigMindustryServer)
    requires ' ' !in PosixPath.Basename(server.executable)
    requires forall i :: 0 <= i < |server.args| ==> ' ' !in server.args[i]
    ensures Text.Split(LaunchCommand(server), ' ') ==
              ["java", "-jar", PosixPath.Basename(server.executable)] + server.args
  {
    var words := LaunchWords(server);
    forall i | 0 <= i < |words|
      ensures ' ' !in words[i]
    {
      if i >= 3 {
        assert words[i] == server.args[i - 3];
      }
    }
    Text.SplitJoin(words, ' ');
  }

  /**
   A launched line changes into the jar's directory and runs the jar from
   there: the directory and the base name rebuild the configured path, up to
   the slashes between them.
   */
  lemma StartServerLaunchesJar(m: ConfigManager, screenName: string, sessions: set<string>)
    requires StartServer(m, screenName, sessions).Some?
    ensures var server := GetServer(m, screenName).value;
            var dir := PosixPath.Dirname(server.executable);
            var text := StartServer(m, screenName, sessions).value.text;
            && text[..3] == "cd "
            && text[3..3 + |dir|] == dir
            && text[3 + |dir|..5 + |dir|] == "; "
            && text[5 + |dir|..] == LaunchCommand(server)
            && server.executable ==
                 dir + server.executable[|dir|..PosixPath.TailStart(server.executable)]
                 + PosixPath.Basename(server.executable)
  {
    var server := GetServer(m, screenName).value;
    PosixPath.DirnameBasename(server.executable);
  }
}

/**
 The msmanager configuration manager: the in-memory document, the file it is
 written back to after every successful change, and the lookups and guarded
 mutations of its server list.
 */
module MSManagerConfig {
  import opened Wrappers
  import opened Storage
  import opened Models
  import KeyedSeq

  /** The two configuration errors; their message text is not modelled. */
  datatype ConfigError = ServerExistsError(name: string) | ServerNotExistsError(name: string)

  /** A manager instance: the loaded document and what its backing file holds. */
  datatype Manager = Manager(config: MainConfig, file: File<MainConfig>)

  /** The outcome of a mutating call: the manager afterwards and the error raised, if any. */
  datatype Call = Call(after: Manager, raised: Option<ConfigError>)

  function Servers(m: Manager): seq<MindustryServer>
  {
    m.config.servers
  }

  /** The backing file holds exactly the in-memory document. */
  predicate Persisted(m: Manager)
  {
    m.file == Holds(m.config)
  }

  /** No two registered servers share a screen name. */
  predicate UniqueNames(m: Manager)
  {
    KeyedSeq.UniqueKeys(Servers(m), ScreenName)
  }

  /** Writes the whole in-memory document over the backing file. */
  function Refresh(m: Manager): (r: Manager)
    ensures Persisted(r)
    ensures r.config == m.config
  {
    m.(file := Holds(m.config))
  }

  /**
   The constructor: a file that parses is adopted as it is; a missing file or
   one that fails to parse is replaced by the empty document, written at once.
   */
  function Load(file: File<MainConfig>): (m: Manager)
    ensures Persisted(m)
    ensures file.Holds? ==> m.config == file.doc
    ensures !file.Holds? ==> Servers(m) == [] && UniqueNames(m)
  {
    match file
    case Missing => Refresh(Manager(DefaultMainConfig, file))
    case Unparsable => Refresh(Manager(DefaultMainConfig, file))
    case Holds(doc) => Manager(doc, file)
  }

  /** The first registered server named `screenName`, or `None`. */
  function GetServer(m: Manager, screenName: string): (r: Option<MindustryServer>)
    ensures r.Some? ==> r.value in Servers(m) && r.value.screenName == screenName
    ensures r.None? <==> forall i :: 0 <= i < |Servers(m)| ==> Servers(m)[i].screenName != screenName
  {
    KeyedSeq.Find(Servers(m), ScreenName, screenName)
  }

  /** The position of the first registered server named `screenName`, or `None`. */
  function GetServerIndex(m: Manager, screenName: string): (r: Option<nat>)
    ensures r.Some? ==> r.value < |Servers(m)| && Servers(m)[r.value].screenName == screenName
    ensures r.Some? ==> forall j :: 0 <= j < r.value ==> Servers(m)[j].screenName != screenName
    ensures r.None? <==> forall i :: 0 <= i < |Servers(m)| ==> Servers(m)[i].screenName != screenName
  {
    KeyedSeq.IndexOf(Servers(m), ScreenName, screenName)
  }

  /** Whether a server named `screenName` is registered. */
  function ExistsServer(m: Manager, screenName: string): (b: bool)
    ensures b <==> GetServer(m, screenName).Some?
    ensures b <==> exists i :: 0 <= i < |Servers(m)| && Servers(m)[i].screenName == screenName
  {
    GetServer(m, screenName).Some?
  }

  /** Appends `server` and persists, or raises `ServerExistsError` and changes nothing. */
  function AddServer(m: Manager, server: MindustryServer): (c: Call)
    ensures !ExistsServer(m, server.screenName) ==>
              && c.raised.None?
              && Servers(c.after) == Servers(m) + [server]
              && Persisted(c.after)
    ensures ExistsServer(m, server.screenName) ==>
              c.raised == Some(ServerExistsError(server.screenName)) && c.after == m
  {
    if !ExistsServer(m, server.screenName) then
      Call(Refresh(m.(config := m.config.(servers := Servers(m) + [server]))), None)
    else
      Call(m, Some(ServerExistsError(server.screenName)))
  }

  /**
   Pops the first server named `screenName` and persists, or raises
   `ServerNotExistsError` and changes nothing.
   */
  function RemoveServer(m: Manager, screenName: string): (c: Call)
    ensures GetServerIndex(m, screenName).Some? ==>
              var i := GetServerIndex(m, screenName).value;
              && c.raised.None?
              && |Servers(c.after)| == |Servers(m)| - 1
              && (forall j :: 0 <= j < i ==> Servers(c.after)[j] == Servers(m)[j])
              && (forall j :: i <= j < |Servers(c.after)| ==> Servers(c.after)[j] == Servers(m)[j + 1])
              && multiset(Servers(c.after)) + multiset{Servers(m)[i]} == multiset(Servers(m))
              && Persisted(c.after)
    ensures GetServerIndex(m, screenName).None? ==>
              c.raised == Some(ServerNotExistsError(screenName)) && c.after == m
  {
    match GetServerIndex(m, screenName)
    case Some(i) =>
      Call(Refresh(m.(config := m.config.(servers := KeyedSeq.RemoveAt(Servers(m), i)))), None)
    case None =>
      Call(m, Some(ServerNotExistsError(screenName)))
  }

  /** The index lookup and the server lookup agree: both find the first match. */
  lemma GetServerAgreesWithIndex(m: Manager, screenName: string)
    ensures GetServerIndex(m, screenName).None? <==> GetServer(m, screenName).None?
    ensures GetServerIndex(m, screenName).Some? ==>
              GetServer(m, screenName) == Some(Servers(m)[GetServerIndex(m, screenName).value])
  {
    KeyedSeq.FindAtIndexOf(Servers(m), ScreenName, screenName);
  }

  /**
   A successful add grows the list by one at its end, keeps every earlier
   entry in place, and makes the new server the one found by its name.
   */
  lemma AddThenGetServer(m: Manager, server: MindustryServer)
    requires !ExistsServer(m, server.screenName)
    ensures var after := AddServer(m, server).after;
            && |Servers(after)| == |Servers(m)| + 1
            && (forall j :: 0 <= j < |Servers(m)| ==> Servers(after)[j] == Servers(m)[j])
            && GetServer(after, server.screenName) == Some(server)
            && GetServerIndex(after, server.screenName) == Some(|Servers(m)|)
            && Persisted(after)
  {
    KeyedSeq.IndexOfAppendFresh(Servers(m), ScreenName, server);
  }

  /** `add_server` keeps screen names unique. */
  lemma AddKeepsUniqueNames(m: Manager, server: MindustryServer)
    requires UniqueNames(m)
    ensures UniqueNames(AddServer(m, server).after)
  {
    if !ExistsServer(m, server.screenName) {
      KeyedSeq.AppendKeepsUnique(Servers(m), ScreenName, server);
    }
  }

  /** `remove_server` keeps screen names unique. */
  lemma RemoveKeepsUniqueNames(m: Manager, screenName: string)
    requires UniqueNames(m)
    ensures UniqueNames(RemoveServer(m, screenName).after)
  {
    if GetServerIndex(m, screenName).Some? {
      KeyedSeq.RemoveAtKeepsUnique(Servers(m), ScreenName, GetServerIndex(m, screenName).value);
    }
  }

  /** With unique names, after `remove_server` no server of that name remains. */
  lemma RemoveThenNotExists(m: Manager, screenName: string)
    requires UniqueNames(m)
    ensures !ExistsServer(RemoveServer(m, screenName).after, screenName)
  {
    if GetServerIndex(m, screenName).Some? {
      KeyedSeq.RemoveMatchClearsKey(Servers(m), ScreenName, screenName);
    }
  }

  /** Without unique names the claim above fails: only the first duplicate is popped. */
  lemma RemoveLeavesLaterDuplicate()
    ensures var a := MindustryServer("hub", "/srv/a", "/srv/a/server.jar", []);
            var b := MindustryServer("hub", "/srv/b", "/srv/b/server.jar", []);
            var m := Manager(MainConfig([a, b]), Holds(MainConfig([a, b])));
            && !UniqueNames(m)
            && GetServer(RemoveServer(m, "hub").after, "hub") == Some(b)
  {
    var a := MindustryServer("hub", "/srv/a", "/srv/a/server.jar", []);
    var b := MindustryServer("hub", "/srv/b", "/srv/b/server.jar", []);
    var m := Manager(MainConfig([a, b]), Holds(MainConfig([a, b])));
    assert Servers(m)[0].screenName == Servers(m)[1].screenName;
    assert Servers(RemoveServer(m, "hub").after) == [b];
  }

  /** Removing a server right after adding it restores the previous document. */
  lemma RemoveUndoesAdd(m: Manager, server: MindustryServer)
    requires !ExistsServer(m, server.screenName)
    ensures var c := RemoveServer(AddServer(m, server).after, server.screenName);
            c.raised.None? && c.after.config == m.config && Persisted(c.after)
  {
    KeyedSeq.IndexOfAppendFresh(Servers(m), ScreenName, server);
    KeyedSeq.RemoveAtUndoesAppend(Servers(m), server);
  }

  /** One mutating command against the store. */
  datatype Op = Add(server: MindustryServer) | Remove(screenName: string)

  function Apply(m: Manager, op: Op): Call
  {
    match op
    case Add(server) => AddServer(m, server)
    case Remove(screenName) => RemoveServer(m, screenName)
  }

  /**
   The manager after a sequence of commands, each error caught at the command
   boundary (as the command layer does) so that the next command still runs.
   */
  function Run(m: Manager, ops: seq<Op>): (r: Manager)
    ensures Persisted(m) ==> Persisted(r)
    ensures |Servers(r)| <= |Servers(m)| + |ops|
    decreases |ops|
  {
    if |ops| == 0 then m else Run(Apply(m, ops[0]).after, ops[1..])
  }

  /**
   Starting from a freshly loaded store, whatever commands run, the backing
   file holds the in-memory document and screen names stay unique, provided
   the loaded document had unique names.
   */
  lemma {:induction false} RunKeepsInvariants(m: Manager, ops: seq<Op>)
    requires Persisted(m) && UniqueNames(m)
    ensures Persisted(Run(m, ops)) && UniqueNames(Run(m, ops))
    decreases |ops|
  {
    if |ops| > 0 {
      match ops[0] {
        case Add(server) => AddKeepsUniqueNames(m, server);
        case Remove(screenName) => RemoveKeepsUniqueNames(m, screenName);
      }
      RunKeepsInvariants(Apply(m, ops[0]).after, ops[1..]);
    }
  }
}

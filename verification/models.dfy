/**
 The records of the msmanager configuration document: a server definition
 and the top-level document that lists them in insertion order.
 */
module Models {

  /** One managed server; `screenName` is also the name of its terminal session. */
  datatype MindustryServer = MindustryServer(
    screenName: string,
    workDirpath: string,
    executableFilepath: string,
    arguments: seq<string>)

  /** The whole document; a freshly created one lists no servers. */
  datatype MainConfig = MainConfig(servers: seq<MindustryServer>)

  const DefaultMainConfig: MainConfig := MainConfig([])

  /** The key servers are looked up by. */
  function ScreenName(s: MindustryServer): string
  {
    s.screenName
  }
}

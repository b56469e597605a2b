/**
 * The non-UI steps of `StartTest_Click` up to the download: pick the best server, look its
 * URL up in the table, probe it once more and store the result in the `pingTimeMs` field.
 */
module Window {
  import opened Wrappers
  import opened Ping
  import opened Selection
  import opened Progress

  /** How the first part of a test run ends. */
  datatype TestStart =
    | ReadyToDownload(bestServer: string, fileUrl: string, fileSizeBytes: Int32)
      // `MeasurePingTime` threw; `StartTest_Click` has no handler, so the run stops here
    | ProbeThrew(bestServer: string)

  class MainWindow {
    const serverUrls: seq<Server> := ServerUrls
    var pingTimeMs: Int64

    constructor ()
      ensures pingTimeMs == 0
    {
      pingTimeMs := 0;
    }

    /**
     * `GetBestServerByPingAsync`, then `serverUrls[bestServer]` (which cannot miss), then
     * `MeasurePingTime` on the chosen server, whose value goes into `pingTimeMs`.
     */
    method StartTest(replies: seq<PingOutcome>, chosenReply: PingOutcome) returns (r: TestStart)
      requires |replies| == |serverUrls|
      modifies this
      ensures r.bestServer == GetBestServerByPing(serverUrls, replies)
      ensures r.bestServer != DefaultServer
      ensures r.ReadyToDownload? <==> !chosenReply.Threw?
      ensures r.ReadyToDownload? ==>
        Some(r.fileUrl) == LookupUrl(serverUrls, r.bestServer) &&
        r.fileSizeBytes == TestFileSizeBytes &&
        pingTimeMs == MeasurePingTime(chosenReply).value
      ensures r.ProbeThrew? ==> pingTimeMs == old(pingTimeMs)
    {
      var bestServer := GetBestServerByPing(serverUrls, replies);
      FixedTableLookupCannotMiss(replies);
      var fileUrl := LookupUrl(serverUrls, bestServer).value;
      match MeasurePingTime(chosenReply)
      case Raised =>
        r := ProbeThrew(bestServer);
      case Returned(ms) =>
        pingTimeMs := ms;
        r := ReadyToDownload(bestServer, fileUrl, TestFileSizeBytes);
    }
  }
}

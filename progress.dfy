/**
 * The integer and control-state part of the `DownloadProgressChanged` handler registered by
 * `MeasureDownloadSpeedAsync`: whole-megabyte counters, the stopwatch's running flag and the
 * captured `lastBytesReceived`. Percentages and rates are floating point and are not modelled.
 */
module Progress {
  import opened Wrappers

  /** The range of a C# `int`; `fileSizeBytes` is declared with that type. */
  type Int32 = x: int | -0x8000_0000 <= x <= 0x7FFF_FFFF

  /** `DownloadProgressChangedEventArgs.BytesReceived`: a non-negative `long`. */
  type ByteCount = x: int | 0 <= x <= 0x7FFF_FFFF_FFFF_FFFF

  const BytesPerMb: int := 1048576

  /** The size the speed test downloads, `100 * 1024 * 1024`. */
  const TestFileSizeBytes: Int32 := 100 * 1024 * 1024

  /** C# integer division by 1048576, which truncates toward zero. */
  function WholeMb(bytes: int): (mb: int)
    ensures bytes >= 0 ==> 0 <= mb && mb * BytesPerMb <= bytes < mb * BytesPerMb + BytesPerMb
    ensures bytes < 0 ==> mb <= 0 && mb * BytesPerMb - BytesPerMb < bytes <= mb * BytesPerMb
  {
    if bytes >= 0 then bytes / BytesPerMb else -((-bytes) / BytesPerMb)
  }

  /** The two numbers of the "{received}MB/{total}MB" progress text. */
  datatype MbText = MbText(receivedMb: int, totalMb: int)

  function ProgressMb(bytesReceived: ByteCount, fileSizeBytes: Int32): (t: MbText)
    ensures bytesReceived <= fileSizeBytes ==> 0 <= t.receivedMb <= t.totalMb
    ensures t.receivedMb * BytesPerMb <= bytesReceived < (t.receivedMb + 1) * BytesPerMb
    ensures t.totalMb == WholeMb(fileSizeBytes)
    ensures fileSizeBytes >= 0 ==> t.totalMb * BytesPerMb <= fileSizeBytes < (t.totalMb + 1) * BytesPerMb
  {
    MbText(WholeMb(bytesReceived), WholeMb(fileSizeBytes))
  }

  /**
   * The state the handler reads and writes: whether the stopwatch runs, the captured
   * `lastBytesReceived`, and the MB counts last written into the progress text (None before
   * the first tick).
   */
  datatype HandlerState = HandlerState(stopwatchRunning: bool, lastBytesReceived: int,
                                       progressText: Option<MbText>)

  /**
   * One `DownloadProgressChanged` event: the completion event stops the stopwatch, any other
   * event records its count, and both rewrite the MB text with their own count.
   */
  function OnProgress(s: HandlerState, fileSizeBytes: Int32, bytesReceived: ByteCount): (r: HandlerState)
    ensures r.stopwatchRunning == (s.stopwatchRunning && bytesReceived != fileSizeBytes)
    ensures r.lastBytesReceived == if bytesReceived == fileSizeBytes then s.lastBytesReceived else bytesReceived
    ensures r.progressText == Some(ProgressMb(bytesReceived, fileSizeBytes))
  {
    var text := Some(ProgressMb(bytesReceived, fileSizeBytes));
    if bytesReceived == fileSizeBytes then
      s.(stopwatchRunning := false, progressText := text)
    else
      s.(lastBytesReceived := bytesReceived, progressText := text)
  }

  /** The state after a sequence of events, the last one applied last. */
  function AfterTicks(s: HandlerState, fileSizeBytes: Int32, ticks: seq<ByteCount>): HandlerState {
    if ticks == [] then s
    else OnProgress(AfterTicks(s, fileSizeBytes, ticks[..|ticks| - 1]), fileSizeBytes, ticks[|ticks| - 1])
  }

  /**
   * The stopwatch is still running after a sequence of events exactly when it ran before and
   * no event reported `BytesReceived == fileSizeBytes`; once stopped it stays stopped.
   */
  lemma {:induction false} StopsExactlyOnFinalTick(s: HandlerState, fileSizeBytes: Int32, ticks: seq<ByteCount>)
    ensures AfterTicks(s, fileSizeBytes, ticks).stopwatchRunning <==>
      s.stopwatchRunning && forall k :: 0 <= k < |ticks| ==> ticks[k] != fileSizeBytes
  {
    if ticks != [] {
      var init := ticks[..|ticks| - 1];
      StopsExactlyOnFinalTick(s, fileSizeBytes, init);
      assert forall k :: 0 <= k < |init| ==> init[k] == ticks[k];
    }
  }

  /**
   * `lastBytesReceived` holds the byte count of the last event that was not the completion
   * event, and keeps its value when every event was a completion event.
   */
  lemma {:induction false} LastBytesIsLastNonFinalTick(s: HandlerState, fileSizeBytes: Int32, ticks: seq<ByteCount>)
    ensures (forall k :: 0 <= k < |ticks| ==> ticks[k] == fileSizeBytes) ==>
      AfterTicks(s, fileSizeBytes, ticks).lastBytesReceived == s.lastBytesReceived
    ensures forall k ::
              (0 <= k < |ticks| && ticks[k] != fileSizeBytes &&
               forall j :: k < j < |ticks| ==> ticks[j] == fileSizeBytes) ==>
              AfterTicks(s, fileSizeBytes, ticks).lastBytesReceived == ticks[k]
  {
    if ticks != [] {
      var init := ticks[..|ticks| - 1];
      LastBytesIsLastNonFinalTick(s, fileSizeBytes, init);
      assert forall k :: 0 <= k < |init| ==> init[k] == ticks[k];
    }
  }

  /** For the 100 MB test file the text reads "100MB" as total, and "100MB/100MB" at the end. */
  lemma TestFileShowsHundredMb(bytesReceived: ByteCount)
    requires bytesReceived <= TestFileSizeBytes
    ensures ProgressMb(bytesReceived, TestFileSizeBytes).totalMb == 100
    ensures ProgressMb(bytesReceived, TestFileSizeBytes).receivedMb <= 100
    ensures bytesReceived == TestFileSizeBytes ==> ProgressMb(bytesReceived, TestFileSizeBytes) == MbText(100, 100)
  {
  }

  /**
   * The variables the handler closes over: the stopwatch (only whether it runs) and
   * `lastBytesReceived`, plus the progress text it writes.
   */
  class DownloadProgress {
    const fileSizeBytes: Int32
    var stopwatchRunning: bool
    var lastBytesReceived: int
    var progressText: Option<MbText>

    function State(): HandlerState
      reads this
    {
      HandlerState(stopwatchRunning, lastBytesReceived, progressText)
    }

    /** `new Stopwatch()` and `long lastBytesReceived = 0` before the handler is attached. */
    constructor (fileSizeBytes: Int32)
      ensures this.fileSizeBytes == fileSizeBytes
      ensures State() == HandlerState(false, 0, None)
    {
      this.fileSizeBytes := fileSizeBytes;
      stopwatchRunning := false;
      lastBytesReceived := 0;
      progressText := None;
    }

    /** `stopwatch.Start()`, just before the download begins. */
    method StartStopwatch()
      modifies this
      ensures State() == old(State()).(stopwatchRunning := true)
    {
      stopwatchRunning := true;
    }

    /** The `DownloadProgressChanged` handler, for one event. */
    method OnDownloadProgressChanged(bytesReceived: ByteCount)
      modifies this
      ensures State() == OnProgress(old(State()), fileSizeBytes, bytesReceived)
      ensures stopwatchRunning == (old(stopwatchRunning) && bytesReceived != fileSizeBytes)
      ensures lastBytesReceived == if bytesReceived == fileSizeBytes then old(lastBytesReceived) else bytesReceived
    {
      var text := ProgressMb(bytesReceived, fileSizeBytes);
      if bytesReceived == fileSizeBytes {
        stopwatchRunning := false;
        progressText := Some(text);
      } else {
        progressText := Some(text);
        lastBytesReceived := bytesReceived;
      }
    }
  }
}

# SpeedTest: server selection and download progress, in Dafny

A model of the logic inside the SpeedTest window (`MainWindow.xaml.cs`). It covers two pieces.

- **Best-server selection.** `GetBestServerByPingAsync` pings every entry of the fixed `serverUrls` table. It pairs each region name with its ping time, keeping table order. It sorts the pairs with a stable `OrderBy` on the ping time, and `FirstOrDefault` then takes the head. An empty list gives `"Default Server"`. A failed or throwing asynchronous ping scores `long.MaxValue`. The synchronous probe of the chosen server returns `-1` on a non-success status.
- **Download progress.** The `DownloadProgressChanged` handler divides the byte counts by 1048576 into whole megabytes. It stops the stopwatch on the event whose `BytesReceived` equals `fileSizeBytes`. On every other event it records `lastBytesReceived`.

Modules:

- `Wrappers` (`wrappers.dfy`): `Option`, and `Thrown`, which tells a returned value from an exception that propagates.
- `Ping` (`ping.dfy`): probe outcomes as input values, and the failure conventions of both probes.
- `Selection` (`selection.dfy`): the server table, the ping results, `OrderBy` modelled as a stable insertion sort, `FirstOrDefault`, and the selection lemmas. `MinPing` and `FirstMinIndex` give an independent definition of the winner: the earliest entry holding the minimum ping. The lemmas tie the LINQ pipeline to that definition.
- `Progress` (`progress.dfy`): the handler's state as a value (`HandlerState`), one event (`OnProgress`) and a run of events (`AfterTicks`). The class `DownloadProgress` holds the variables the handler closes over. Its handler method is proved against `OnProgress`; `StartStopwatch` only sets the running flag.
- `Window` (`window.dfy`): the class `MainWindow` with its `pingTimeMs` field. `StartTest` covers the steps of `StartTest_Click` before the download: select the server, look up its URL, probe it and record the ping.

Three behaviours of the code worth knowing:

- The code has no distinct "no reachable server" result. When every ping fails, every score is `long.MaxValue` and the first table entry wins (`AllFailedPicksFirst`). `"Default Server"` comes back only for an empty result list, which the fixed six-entry table never produces.
- The handler does not ignore events after the completion event. A later event whose count differs from `fileSizeBytes` takes the non-final branch again and overwrites `lastBytesReceived`. The stopwatch stays stopped (`StopsExactlyOnFinalTick`).
- The synchronous `MeasurePingTime` has no handler. An exception from it propagates out of `StartTest_Click` (`Thrown.Raised`, `TestStart.ProbeThrew`).

## Model

| member | source | states |
|---|---|---|
| `Ping.MeasurePingTimeAsync` | MainWindow.xaml.cs:82-101 | A successful reply gives its round-trip time. A non-success status or a caught exception gives exactly `long.MaxValue`. A result below `long.MaxValue` therefore means the ping succeeded. |
| `Ping.MeasurePingTime` | MainWindow.xaml.cs:137-150 | The synchronous probe raises exactly when the echo request throws. Otherwise it returns -1 exactly when the status is not `Success`, and a non-negative time exactly when it is. On success the value is the round-trip time. |
| `Selection.LookupUrl` | MainWindow.xaml.cs:46 | The indexer `serverUrls[name]` finds a value exactly when some entry has that name. With distinct keys, the value is that entry's URL. |
| `Selection.PingAll` | MainWindow.xaml.cs:66-74 | The results have the table's length and order. Entry `i` pairs the name of table entry `i` with the score of its own probe. |
| `Selection.OrderByPing` | MainWindow.xaml.cs:77 | `OrderBy(PingTime)` returns a permutation of its input, sorted by ping time. |
| `Selection.OrderByPingStable` | MainWindow.xaml.cs:77 | `OrderBy` is stable: for every ping value, the results carrying it come out in the same relative order as they went in. |
| `Selection.FirstOrDefault` | MainWindow.xaml.cs:77 | `FirstOrDefault()` is null exactly for an empty sequence, and otherwise its first element. |
| `Selection.SelectBest` | MainWindow.xaml.cs:77-79 | An empty result list yields `"Default Server"`. |
| `Selection.GetBestServerByPing` | MainWindow.xaml.cs:63-80 | An empty table yields `"Default Server"`. |
| `Selection.SelectBestIsFirstMinimum` | MainWindow.xaml.cs:74-79 | For a non-empty list, the chosen name is the one at the earliest index holding the minimum ping. |
| `Selection.SelectBestHasMinimumPing` | MainWindow.xaml.cs:77-79 | For a non-empty list, the returned name belongs to a result whose ping is no greater than any other. |
| `Selection.SelectBestTieNeverGoesToLater` | MainWindow.xaml.cs:66-77 | When results `i < j` tie on the minimum ping, the winner is the first minimum, which sits at or before `i`. With distinct names, `j`'s name is never returned. |
| `Selection.BestServerIsFirstMinimum` | MainWindow.xaml.cs:63-80 | Over a non-empty table, the winner is the name of the earliest table entry whose probe scored the minimum. |
| `Selection.BestServerIsTableKey` | MainWindow.xaml.cs:77-79 | Over a non-empty table, the winner is a key of the table, so looking it up finds a URL. If no key is called "Default Server", the winner is never "Default Server". |
| `Selection.FixedTableNames` | MainWindow.xaml.cs:15-23 | The six regions have distinct names, and none is "Default Server". |
| `Selection.FixedTableLookupCannotMiss` | MainWindow.xaml.cs:42-46 | For the fixed table, whatever the probe outcomes, the winner is not "Default Server" and `serverUrls[bestServer]` does not miss. |
| `Selection.ReachedServerBeatsFailed` | MainWindow.xaml.cs:89-100 | If any server answers in under `long.MaxValue` ms, the winning entry is one whose probe succeeded. A failed server never beats it. |
| `Selection.AllFailedPicksFirst` | MainWindow.xaml.cs:74-79 | When every probe fails, the first table entry is returned. |
| `Progress.WholeMb` | MainWindow.xaml.cs:115 | Division by 1048576 truncates toward zero, as C# integer division does. For a non-negative count, the result is the number of whole megabytes the count contains. |
| `Progress.ProgressMb` | MainWindow.xaml.cs:112-120 | The received MB count is the number of whole megabytes in `BytesReceived`. The total MB count is `fileSizeBytes` divided by 1048576 with C#'s truncating division, which for a non-negative size is the number of whole megabytes it contains. When `BytesReceived <= fileSizeBytes`, the received count is between 0 and the total. |
| `Progress.OnProgress` | MainWindow.xaml.cs:110-127 | One event stops the stopwatch exactly when `BytesReceived == fileSizeBytes`. Only the other events set `lastBytesReceived`, to their own count. Every event rewrites the MB text with its own count and the total. |
| `Progress.StopsExactlyOnFinalTick` | MainWindow.xaml.cs:112-116 | After any sequence of events, the stopwatch still runs exactly when it ran before and no event had `BytesReceived == fileSizeBytes`. Once stopped, it stays stopped. |
| `Progress.LastBytesIsLastNonFinalTick` | MainWindow.xaml.cs:117-126 | `lastBytesReceived` equals the count of the last event that was not a completion event. If every event was a completion event, it keeps its earlier value. |
| `Progress.TestFileShowsHundredMb` | MainWindow.xaml.cs:53 | For the 104857600-byte test file, the total reads 100 MB and the received count never exceeds it. The final event reads 100MB/100MB. |
| `Progress.DownloadProgress.constructor` | MainWindow.xaml.cs:107-108 | A fresh stopwatch is not running, `lastBytesReceived` starts at 0, and no MB text has been written. |
| `Progress.DownloadProgress.StartStopwatch` | MainWindow.xaml.cs:129 | The stopwatch runs afterwards, and nothing else changes. |
| `Progress.DownloadProgress.OnDownloadProgressChanged` | MainWindow.xaml.cs:110-127 | The new state is `OnProgress` of the old one. The stopwatch stops exactly on a completion event. `lastBytesReceived` changes only on other events, and takes their count. |
| `Window.MainWindow.constructor` | MainWindow.xaml.cs:25-26 | `pingTimeMs` starts at 0. |
| `Window.MainWindow.StartTest` | MainWindow.xaml.cs:42-53 | The chosen server is the selection's winner and never "Default Server". The run reaches the download exactly when the synchronous probe does not throw. It then returns `ReadyToDownload` carrying the looked-up URL and the 100 MB size, and `pingTimeMs` holds the probe's value (-1 on failure). If the probe throws, `pingTimeMs` is unchanged. |

## Left out

- The ICMP echo calls (`SendPingAsync`, `Send`) are network I/O. Each outcome is an input value: a status and a round-trip time, or an exception.
- `new Uri(url).Host` is not modelled. The probe outcome is given per table entry. A malformed URL would fault outside the probe's handler, but the fixed table holds none.
- The concurrency of `Task.WhenAll` is left out. Only its result is modelled: one score per entry, in table order.
- The enumeration order of `Dictionary` is modelled as insertion order. .NET does not document that order, though it holds for a dictionary that has never had a removal.
- Floating point is left out: the percentage, the progress bar value, the MB/s and Mbps rates, and the average `downloadSpeedMbps` (nominal size over elapsed seconds).
- Wall-clock stopwatch readings are left out. Only whether the stopwatch runs is kept.
- The `WebClient` download, the temp file and `DeleteTempFile` are I/O. So are all label, progress bar and `MessageBox` updates, including the dialog `MeasurePingTimeAsync` shows when it catches an exception.

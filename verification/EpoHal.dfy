/**
 The EPO globals of the HAL and the functions that change them, proved to take the steps of the
 state machine in EpoWorker.
 */
module EpoHal {
  import opened Bytes
  import opened Calendar
  import opened EpoTime
  import opened EpoRound
  import opened EpoWorker

  const COPY_SIZE := 256

  /** The merge loop: appends a piece file to EPOHAL.DAT in blocks of 256 bytes. */
  method AppendFile(target: seq<byte>, source: seq<byte>) returns (merged: seq<byte>)
    ensures merged == target + source
  {
    merged := target;
    var read, bytesIn := 0, if |source| < COPY_SIZE then |source| else COPY_SIZE;
    while bytesIn > 0
      invariant 0 <= read && 0 <= bytesIn && read + bytesIn <= |source|
      invariant bytesIn == 0 ==> read == |source|
      invariant merged == target + source[..read]
      decreases |source| - read
    {
      merged := merged + source[read..read + bytesIn];
      assert source[..read + bytesIn] == source[..read] + source[read..read + bytesIn];
      read := read + bytesIn;
      bytesIn := if |source| - read < COPY_SIZE then |source| - read else COPY_SIZE;
    }
    assert source[..read] == source;
  }

  class Hal {
    // gps_epo_file_count, gps_epo_file_name, s->epo_data_updated, epo_download_failed
    var fileCount: int
    var fileName: int
    var dataUpdated: bool
    var downloadFailed: bool
    // epo_download_retry, retry_time, file_retrying
    var downloadRetry: bool
    var retryTime: int
    var fileRetrying: int
    // configuration and connection
    var config: Config
    var net: Net
    // files
    var pieceFiles: Pieces
    var halFile: Option<seq<byte>>
    var epoFile: Option<seq<byte>>
    const zone: int

    ghost function Round(): EpoRound.Round
      reads this
    {
      EpoRound.Round(fileCount, fileName, dataUpdated, downloadFailed, pieceFiles, halFile, epoFile)
    }

    ghost function View(): Epo
      reads this
    {
      Epo(Round(), Retry(downloadRetry, retryTime, fileRetrying), config, net)
    }

    constructor (pieces: Pieces, hal: Option<seq<byte>>, epoDat: Option<seq<byte>>, zone: int)
      ensures View() == Started(pieces, hal, epoDat) && this.zone == zone
    {
      this.zone := zone;
      fileCount, fileName, dataUpdated, downloadFailed := 0, -1, false, false;
      downloadRetry, retryTime, fileRetrying := true, 0, NOT_RETRYING;
      config, net := Config(30, 3, 1, true, false), Net(false, false, NW_DATA);
      pieceFiles, halFile, epoFile := pieces, hal, epoDat;
    }

    /** gps_download_epo_enable: the configuration file line by line. */
    method ReadConfigFile(lines: seq<Line>)
      modifies this`config
      ensures View() == Step(old(View()), ReadConfig(lines), zone)
    {
      hide ConfigNumber;
      var i := 0;
      while i < |lines|
        invariant 0 <= i <= |lines| && config == Configure(old(config), lines[..i])
      {
        var key, v := lines[i].key, ConfigNumber(lines[i].val);
        if key == "EPO_ENABLE" {
          config := config.(enabled := if v != 1 && v != 0 then true else v == 1);
        }
        if key == "DW_DAYS" {
          config := config.(days := if v > 30 || v < 0 then 30 else v);
        }
        if key == "GPS_EPO_PERIOD" {
          config := config.(period := if v != 30 && v != 3 && v != 15 then 3 else v);
        }
        if key == "WIFI_EPO_PERIOD" {
          config := config.(wifiPeriod := if v != 30 && v != 3 && v != 15 then 1 else v);
        }
        if key == "EPO_WIFI_TRIGGER" {
          config := config.(wifiTrigger := if v != 1 && v != 0 then true else v == 1);
        }
        assert lines[..i + 1][..i] == lines[..i];
        i := i + 1;
      }
      assert lines[..i] == lines;
    }

    /** gps_download_epo_file_name: there are names for pieces 0 to 9 only. */
    method DownloadFileName(count: int)
      modifies this`fileName
      ensures Round() == WithName(old(Round()), count)
    {
      if 0 <= count <= 9 {
        fileName := count;
      }
    }

    /** curl_easy_download_epo and mtk_gps_epo_file_update_hal. */
    method DownloadPiece(dl: Download) returns (ok: bool)
      modifies this`pieceFiles, this`halFile, this`downloadFailed
      ensures ok == dl.Fetched? && Round() == Fetch(old(Round()), dl)
    {
      match dl
      case Fetched(piece) =>
        pieceFiles := pieceFiles[fileName := piece];
        if fileCount == 0 {
          halFile := None;
        }
        var merged := AppendFile(if halFile.Some? then halFile.value else [], piece);
        halFile := Some(merged);
        ok := true;
      case Failed(removed) =>
        if removed {
          pieceFiles := pieceFiles - {fileName};
        }
        downloadFailed := true;
        ok := false;
    }

    /** Removes the piece files first..0, last one first. */
    method UnlinkDownTo0(first: int)
      requires first < MAX_PIECES
      modifies this`pieceFiles, this`fileName
      ensures pieceFiles == Without(old(pieceFiles), first + 1)
      ensures fileName == if first >= 0 then 0 else old(fileName)
    {
      var i := first;
      while 0 <= i
        invariant i <= first && (if first >= 0 then -1 <= i else i == first)
        invariant pieceFiles == map k | k in old(pieceFiles) && !(i < k <= first && 0 <= k) :: old(pieceFiles)[k]
        invariant i == first ==> fileName == old(fileName)
        invariant i < first ==> fileName == i + 1
      {
        DownloadFileName(i);
        pieceFiles := pieceFiles - {fileName};
        i := i - 1;
      }
    }

    /** Removes the piece files 0..n-1. */
    method UnlinkUpTo(n: int)
      requires n <= MAX_PIECES
      modifies this`pieceFiles, this`fileName
      ensures pieceFiles == Without(old(pieceFiles), n)
      ensures fileName == if n > 0 then n - 1 else old(fileName)
    {
      var i := 0;
      while i < n
        invariant 0 <= i && (n >= 0 ==> i <= n) && (n < 0 ==> i == 0)
        invariant pieceFiles == Without(old(pieceFiles), i)
        invariant fileName == if i > 0 then i - 1 else old(fileName)
      {
        DownloadFileName(i);
        pieceFiles := pieceFiles - {fileName};
        i := i + 1;
      }
    }

    /** mtk_gps_epo_server_data_is_changed. */
    method ServerDataIsChanged() returns (changed: bool)
      requires fileCount < MAX_PIECES
      modifies this`pieceFiles, this`fileName, this`halFile, this`fileCount, this`downloadFailed
      ensures (Round(), changed) == ServerChanged(old(Round()), zone)
    {
      hide StartTime, EndTime;
      var timeStart, timeEnd := 0, 0;
      changed := false;
      if fileName in pieceFiles {
        var t := PeriodStart(pieceFiles[fileName], zone);
        if t.Some? {
          timeStart := t.value;
        } else {
          downloadFailed := true;
          changed := true;
        }
      }
      if fileCount > 0 {
        DownloadFileName(fileCount - 1);
        if fileName in pieceFiles {
          var t := PeriodEnd(pieceFiles[fileName], zone);
          if t.Some? {
            timeEnd := t.value;
          } else {
            downloadFailed := true;
            changed := true;
          }
        }
      } else if fileCount == 0 {
        timeEnd := timeStart;
      }
      if timeStart - timeEnd >= 24 * 60 * 60 {
        UnlinkDownTo0(fileCount);
        halFile := None;
        fileCount := 0;
        changed := true;
      }
    }

    /** mtk_gps_epo_file_update. */
    method UpdateFile(dl: Download)
      requires 0 <= config.days <= 30 && fileCount < MAX_PIECES
      modifies this
      ensures View() == old(View()).(round := FileUpdate(old(Round()), config.days, net.started, dl, zone))
    {
      hide ServerChanged, Fetch, CompleteRound;
      var ok := DownloadPiece(dl);
      if !ok {
        return;
      }
      var changed := ServerDataIsChanged();
      if changed {
        return;
      }
      fileCount := fileCount + 1;
      var countTemp := config.days / 3;
      var countMini := config.days % 3;
      if countMini > 0 {
        countTemp := countTemp + 1;
      }
      if !(fileCount < 10 && fileCount < countTemp) {
        FinishRound(countTemp);
      }
    }

    /** The completed branch of mtk_gps_epo_file_update. */
    method FinishRound(countTemp: int)
      requires 0 <= config.days <= 30 && countTemp == PiecesFor(config.days)
      modifies this`pieceFiles, this`fileName, this`dataUpdated, this`fileCount, this`downloadFailed, this`epoFile
      ensures Round() == CompleteRound(old(Round()), config.days, net.started)
    {
      UnlinkUpTo(countTemp);
      dataUpdated := false;
      fileCount := 0;
      downloadFailed := false;
      if net.started {
        epoFile := None;
      }
    }

    /** mtk_epo_is_expired: an expired file also resets the piece counter. */
    method IsExpired(wifi: bool, now: int) returns (expired: bool)
      modifies this`fileCount
      ensures expired == FileExpired(old(Round()), config, wifi, now, zone)
      ensures fileCount == if expired then 0 else old(fileCount)
    {
      var span := ReadSpan();
      expired := EpoIsExpired(wifi, config.period, config.wifiPeriod, span.0, span.1, now);
      if expired {
        fileCount := 0;
      }
    }

    /** mtk_gps_epo_file_time_hal: EPOHAL.DAT if it is there, else EPO.DAT. */
    method ReadSpan() returns (span: (int, int))
      ensures span == FileSpan(CurrentFile(Round()), zone)
    {
      var file := if halFile.Some? then halFile else epoFile;
      span := (0, 0);
      if file.Some? {
        var start := PeriodStart(file.value, zone);
        if start.Some? {
          var end := PeriodEnd(file.value, zone);
          span := (start.value, if end.Some? then end.value else 0);
        }
      }
    }

    /** gps_download_epo. */
    method RequestEpo()
      modifies this`dataUpdated, this`fileCount
      ensures Round() == RequestDownload(old(Round()))
    {
      dataUpdated := true;
      fileCount := 0;
    }

    /** First part of the worker's loop. */
    method RunDownload(dl: Download)
      requires 0 <= config.days <= 30 && fileCount < MAX_PIECES
      modifies this
      ensures View() == DownloadPhase(old(View()), dl, zone)
    {
      if dataUpdated {
        downloadFailed := false;
        DownloadFileName(fileCount);
        UpdateFile(dl);
        if downloadFailed {
          dataUpdated := false;
        }
      }
    }

    /** Second part: resuming a failed download. */
    method RunResume(now: int, dl: Download)
      requires 0 <= config.days <= 30 && fileCount < MAX_PIECES
      modifies this
      ensures View() == ResumePhase(old(View()), now, dl, zone)
    {
      hide ResumeRound;
      if net.started || net.kind == NW_WIFI {
        if net.connected && downloadFailed && downloadRetry {
          if fileRetrying == 50 {
            fileRetrying := fileCount;
          }
          var fileCountTemp := fileCount;
          ResumeDownload(now, dl);
          if fileCountTemp == fileCount {
            if fileRetrying == fileCount {
              retryTime := retryTime + 1;
            } else {
              fileRetrying := fileCount;
              retryTime := 0;
            }
            if retryTime < 10 {
              downloadRetry := false;
            } else {
              downloadFailed := false;
              retryTime := 0;
              fileRetrying := 50;
            }
          }
        }
      }
    }

    /** Begins again when the data at hand is a day old, else tries the failed piece once more. */
    method ResumeDownload(now: int, dl: Download)
      requires 0 <= config.days <= 30 && fileCount < MAX_PIECES
      modifies this
      ensures View() == old(View()).(round := ResumeRound(old(Round()), config.days, net.started, now, dl, zone))
    {
      hide FileUpdate, FileSpan;
      var span := ReadSpan();
      if now >= span.0 + 24 * 60 * 60 {
        downloadFailed := false;
        fileCount := 0;
        dataUpdated := true;
        halFile := None;
      } else {
        DownloadFileName(fileCount);
        UpdateFile(dl);
      }
    }

    /** Third part: a wifi connection triggers a download when the data is old. */
    method RunWifi(now: int)
      modifies this
      ensures View() == WifiPhase(old(View()), now, zone)
    {
      if !dataUpdated && config.wifiTrigger && config.enabled {
        if !downloadFailed && net.connected && net.kind == NW_WIFI {
          var expired := IsExpired(true, now);
          if expired {
            RequestEpo();
            halFile := None;
          }
        }
      }
    }

    /** The EPO part of mtk_gps_start. */
    method Start(now: int)
      modifies this
      ensures View() == Step(old(View()), GpsStart(now), zone)
    {
      if config.enabled {
        if halFile.None? {
          if epoFile.None? {
            RequestEpo();
          } else {
            var expired := IsExpired(false, now);
            if expired {
              RequestEpo();
            }
          }
        } else {
          if (net.kind == NW_DATA && net.connected && downloadFailed)
             || (!net.connected && downloadFailed) || !downloadFailed {
            var expired := IsExpired(false, now);
            if expired {
              halFile := None;
              RequestEpo();
            } else {
              epoFile := None;
            }
          }
        }
      }
    }
  }
}

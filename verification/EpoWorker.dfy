/**
 The EPO worker thread, interleaved with the framework, the alarm and the daemon's answers.

 The worker's loop has three phases (download, resume, wifi trigger); each phase, and each step of
 another thread, is atomic. What the network delivers, what the clock says and what the
 configuration file holds are inputs of the steps.
 */
module EpoWorker {
  import opened Bytes
  import opened Calendar
  import opened EpoTime
  import opened EpoRound
  import opened Tokenizer

  const NOT_RETRYING := 50
  const RETRY_LIMIT := 10

  /** alarmed: epo_download_retry; times, piece: the static retry_time and file_retrying. */
  datatype Retry = Retry(alarmed: bool, times: int, piece: int)

  datatype Config = Config(days: int, period: int, wifiPeriod: int, enabled: bool, wifiTrigger: bool)

  const NW_DATA := 0
  const NW_WIFI := 1

  /** kind: nw_type. */
  datatype Net = Net(started: bool, connected: bool, kind: int)

  datatype Epo = Epo(round: Round, retry: Retry, config: Config, net: Net)

  /** The HAL starts: whatever files an earlier run left are there, everything else is as initialised. */
  function Started(pieces: Pieces, hal: Option<seq<byte>>, epoDat: Option<seq<byte>>): Epo {
    Epo(Round(0, -1, false, false, pieces, hal, epoDat), Retry(true, 0, NOT_RETRYING),
        Config(30, 3, 1, true, false), Net(false, false, NW_DATA))
  }

  // ----- configuration -----

  /** The value text without its last character, as every numeric key is read. */
  function ConfigNumber(val: seq<byte>): int {
    StrToInt(if val == [] then [] else val[..|val| - 1])
  }

  function ConfigDays(val: seq<byte>): (d: int)
    ensures 0 <= d <= 30
  {
    var d := ConfigNumber(val);
    if d > 30 || d < 0 then 30 else d
  }

  function ConfigPeriod(val: seq<byte>, fallback: int): (p: int)
    ensures p in {3, 15, 30, fallback}
  {
    var p := ConfigNumber(val);
    if p != 30 && p != 3 && p != 15 then fallback else p
  }

  function ConfigSwitch(val: seq<byte>): bool {
    var v := ConfigNumber(val);
    if v != 1 && v != 0 then true else v == 1
  }

  /** A period key's text as it is meant: 3, 15 or 30 days, anything else the fallback. */
  function MeantPeriod(d: int, fallback: int): int {
    if d in {3, 15, 30} then d else fallback
  }

  /**
   A decimal value loses its last digit: DW_DAYS=30 asks for 3 days, and EPO_ENABLE=1 switches EPO
   off. Days mean what they say only when they are 0 or at least 300, a switch only when it is 0 or
   at least 10, and a period only when neither it nor a tenth of it is a period other than the
   fallback.
   */
  lemma ConfigDropsLastDigit(val: seq<byte>, fallback: int)
    requires val != [] && AllDigits(val) && Decimal(val) < TWO_31
    ensures ConfigNumber(val) == Decimal(val) / 10
    ensures ConfigDays(val) == if Decimal(val) < 310 then Decimal(val) / 10 else 30
    ensures ConfigDays(val) == (if Decimal(val) > 30 then 30 else Decimal(val))
       <==> Decimal(val) == 0 || Decimal(val) >= 300
    ensures ConfigSwitch(val) <==> Decimal(val) >= 10
    ensures ConfigSwitch(val) == (Decimal(val) != 0) <==> Decimal(val) == 0 || Decimal(val) >= 10
    ensures ConfigPeriod(val, fallback) == MeantPeriod(Decimal(val) / 10, fallback)
    ensures ConfigPeriod(val, fallback) == MeantPeriod(Decimal(val), fallback)
       <==> Decimal(val) !in {3, 15, 30} - {fallback} && Decimal(val) / 10 !in {3, 15, 30} - {fallback}
  {
  }

  /** A line of the configuration file, as get_val takes it apart. */
  datatype Line = Line(key: string, val: seq<byte>)

  function ConfigureLine(c: Config, l: Line): Config {
    match l.key
    case "EPO_ENABLE" => c.(enabled := ConfigSwitch(l.val))
    case "DW_DAYS" => c.(days := ConfigDays(l.val))
    case "GPS_EPO_PERIOD" => c.(period := ConfigPeriod(l.val, 3))
    case "WIFI_EPO_PERIOD" => c.(wifiPeriod := ConfigPeriod(l.val, 1))
    case "EPO_WIFI_TRIGGER" => c.(wifiTrigger := ConfigSwitch(l.val))
    case _ => c
  }

  /** gps_download_epo_enable: line by line. */
  function Configure(c: Config, lines: seq<Line>): Config {
    if lines == [] then c else ConfigureLine(Configure(c, lines[..|lines| - 1]), lines[|lines| - 1])
  }

  /** The value of the last line with this key. */
  function LastValue(lines: seq<Line>, key: string): Option<seq<byte>> {
    if lines == [] then None
    else if lines[|lines| - 1].key == key then Some(lines[|lines| - 1].val)
    else LastValue(lines[..|lines| - 1], key)
  }

  /** Each setting is what the last line of its own key says, and stays if there is none. */
  lemma {:induction false} LastLineCounts(c: Config, lines: seq<Line>)
    ensures var d := LastValue(lines, "DW_DAYS");
            Configure(c, lines).days == if d.Some? then ConfigDays(d.value) else c.days
    ensures var p := LastValue(lines, "GPS_EPO_PERIOD");
            Configure(c, lines).period == if p.Some? then ConfigPeriod(p.value, 3) else c.period
    ensures var w := LastValue(lines, "WIFI_EPO_PERIOD");
            Configure(c, lines).wifiPeriod == if w.Some? then ConfigPeriod(w.value, 1) else c.wifiPeriod
    ensures var e := LastValue(lines, "EPO_ENABLE");
            Configure(c, lines).enabled == if e.Some? then ConfigSwitch(e.value) else c.enabled
    ensures var t := LastValue(lines, "EPO_WIFI_TRIGGER");
            Configure(c, lines).wifiTrigger == if t.Some? then ConfigSwitch(t.value) else c.wifiTrigger
  {
    hide ConfigDays, ConfigPeriod, ConfigSwitch, ConfigureLine;
    if lines != [] {
      LastLineCounts(c, lines[..|lines| - 1]);
      LineSetsItsOwn(Configure(c, lines[..|lines| - 1]), lines[|lines| - 1]);
    }
  }

  lemma LineSetsItsOwn(c: Config, l: Line)
    ensures var r := ConfigureLine(c, l);
            && r.days == (if l.key == "DW_DAYS" then ConfigDays(l.val) else c.days)
            && r.period == (if l.key == "GPS_EPO_PERIOD" then ConfigPeriod(l.val, 3) else c.period)
            && r.wifiPeriod == (if l.key == "WIFI_EPO_PERIOD" then ConfigPeriod(l.val, 1) else c.wifiPeriod)
            && r.enabled == (if l.key == "EPO_ENABLE" then ConfigSwitch(l.val) else c.enabled)
            && r.wifiTrigger == (if l.key == "EPO_WIFI_TRIGGER" then ConfigSwitch(l.val) else c.wifiTrigger)
  {
    hide ConfigDays, ConfigPeriod, ConfigSwitch;
  }

  // ----- the steps -----

  function CurrentFile(r: Round): Option<seq<byte>> {
    if r.hal.Some? then r.hal else r.epoDat
  }

  predicate FileExpired(r: Round, c: Config, wifi: bool, now: int, zone: int) {
    var span := FileSpan(CurrentFile(r), zone);
    Expired(wifi, c.period, c.wifiPeriod, span.0, span.1, now)
  }

  function RequestDownload(r: Round): Round {
    r.(updated := true, count := 0)
  }

  function DownloadPhase(s: Epo, dl: Download, zone: int): Epo {
    if !s.round.updated then s
    else
      var start := WithName(s.round.(failed := false), s.round.count);
      var r := FileUpdate(start, s.config.days, s.net.started, dl, zone);
      s.(round := if r.failed then r.(updated := false) else r)
  }

  predicate Resumes(s: Epo) {
    (s.net.started || s.net.kind == NW_WIFI) && s.net.connected && s.round.failed && s.retry.alarmed
  }

  /** The data at hand began more than a day ago: begin with the first piece again. */
  predicate Stale(r: Round, now: int, zone: int) {
    now >= FileSpan(CurrentFile(r), zone).0 + SECONDS_PER_DAY
  }

  function ResumeRound(r: Round, days: int, started: bool, now: int, dl: Download, zone: int): Round {
    if Stale(r, now, zone) then r.(failed := false, count := 0, updated := true, hal := None)
    else FileUpdate(WithName(r, r.count), days, started, dl, zone)
  }

  /** Whether the retries of piece `count` are used up by one more, and the bookkeeping after it. */
  predicate GivesUp(t: Retry, count: int) {
    (t.piece == NOT_RETRYING || t.piece == count) && t.times + 1 >= RETRY_LIMIT
  }

  function CountRetry(t: Retry, count: int): Retry {
    var times := if t.piece == NOT_RETRYING || t.piece == count then t.times + 1 else 0;
    if times < RETRY_LIMIT then Retry(false, times, count) else Retry(t.alarmed, 0, NOT_RETRYING)
  }

  function ResumePhase(s: Epo, now: int, dl: Download, zone: int): Epo {
    if !Resumes(s) then s
    else
      var r := ResumeRound(s.round, s.config.days, s.net.started, now, dl, zone);
      var count := s.round.count;
      if r.count != count then
        s.(round := r, retry := s.retry.(piece := if s.retry.piece == NOT_RETRYING then count else s.retry.piece))
      else s.(round := r.(failed := r.failed && !GivesUp(s.retry, count)), retry := CountRetry(s.retry, count))
  }

  function WifiPhase(s: Epo, now: int, zone: int): Epo {
    if && !s.round.updated && s.config.wifiTrigger && s.config.enabled
       && !s.round.failed && s.net.connected && s.net.kind == NW_WIFI && FileExpired(s.round, s.config, true, now, zone)
    then s.(round := RequestDownload(s.round).(hal := None)) else s
  }

  /** The EPO part of mtk_gps_start. */
  function StartRound(s: Epo, now: int, zone: int): Round {
    var r := s.round;
    if !s.config.enabled then r
    else if r.hal.None? then
      if r.epoDat.None? || FileExpired(r, s.config, false, now, zone) then RequestDownload(r) else r
    else if (s.net.kind == NW_DATA && s.net.connected && r.failed) || (!s.net.connected && r.failed) || !r.failed then
      if FileExpired(r, s.config, false, now, zone) then RequestDownload(r).(hal := None) else r.(epoDat := None)
    else r
  }

  datatype Event =
    | DownloadStep(dl: Download)
    | ResumeStep(now: int, dl: Download)
    | WifiStep(now: int)
    | GpsStart(now: int)
    | UpdateDone
    | RetryAlarm
    | NetworkState(connected: bool, kind: int)
    | Session(started: bool)
    | EpoDatChanged(file: Option<seq<byte>>)
    | ReadConfig(lines: seq<Line>)

  function Step(s: Epo, e: Event, zone: int): Epo {
    match e
    case DownloadStep(dl) => DownloadPhase(s, dl, zone)
    case ResumeStep(now, dl) => ResumePhase(s, now, dl, zone)
    case WifiStep(now) => WifiPhase(s, now, zone)
    case GpsStart(now) => s.(round := StartRound(s, now, zone))
    case UpdateDone => if !s.round.failed && s.round.count == 0 then s.(round := s.round.(hal := None)) else s
    case RetryAlarm => s.(retry := s.retry.(alarmed := true))
    case NetworkState(connected, kind) => s.(net := s.net.(connected := connected, kind := kind))
    case Session(started) => s.(net := s.net.(started := started))
    case EpoDatChanged(file) => s.(round := s.round.(epoDat := file))
    case ReadConfig(lines) => s.(config := Configure(s.config, lines))
  }

  function Run(s: Epo, es: seq<Event>, zone: int): Epo {
    if es == [] then s else Step(Run(s, es[..|es| - 1], zone), es[|es| - 1], zone)
  }

  // ----- what every run keeps -----

  ghost predicate Inv(s: Epo, zone: int) {
    && Good(s.round, zone)
    && 0 <= s.config.days <= 30 && s.config.period in {3, 15, 30} && s.config.wifiPeriod in {1, 3, 15, 30}
    && RetryInRange(s.retry)
  }

  predicate RetryInRange(t: Retry) {
    0 <= t.times < RETRY_LIMIT && (0 <= t.piece < MAX_PIECES || t.piece == NOT_RETRYING)
  }

  /** Behind counted pieces the event appends bytes that cannot be read as a piece. */
  predicate Spoils(s: Epo, e: Event, zone: int) {
    s.round.count > 0 &&
    match e
    case DownloadStep(dl) => s.round.updated && !Whole(dl)
    case ResumeStep(now, dl) => Resumes(s) && !Stale(s.round, now, zone) && !Whole(dl)
    case _ => false
  }

  /** A step keeps the worker in order if and only if it does not spoil the file. */
  lemma StepKeepsInv(s: Epo, e: Event, zone: int)
    requires Inv(s, zone) && IsZone(zone)
    ensures Inv(Step(s, e, zone), zone) <==> !Spoils(s, e, zone)
  {
    hide FileUpdate, MergedUpTo, FileExpired, FileSpan, Whole;
    match e
    case DownloadStep(dl) =>
      UpdateKeepsGoodIff(WithName(s.round.(failed := false), s.round.count), s.config.days, s.net.started, dl, zone);
    case ResumeStep(now, dl) =>
      UpdateKeepsGoodIff(WithName(s.round, s.round.count), s.config.days, s.net.started, dl, zone);
    case ReadConfig(lines) =>
      hide Configure;
      LastLineCounts(s.config, lines);
    case _ =>
  }

  lemma UpdateKeepsGoodIff(r: Round, days: int, started: bool, dl: Download, zone: int)
    requires Good(r, zone) && IsZone(zone) && r.name == r.count
    ensures Good(FileUpdate(r, days, started, dl, zone), zone) <==> r.count == 0 || Whole(dl)
  {
    FileUpdateKeepsMergedIff(r, days, started, dl, zone);
  }

  /** The worker is in order all through a run. */
  ghost predicate InvAlong(s: Epo, es: seq<Event>, zone: int) {
    && (es != [] ==> InvAlong(s, es[..|es| - 1], zone))
    && Inv(Run(s, es, zone), zone)
  }

  /** No event of a run spoils the file. */
  predicate NoneSpoils(s: Epo, es: seq<Event>, zone: int) {
    es != [] ==>
      NoneSpoils(s, es[..|es| - 1], zone) && !Spoils(Run(s, es[..|es| - 1], zone), es[|es| - 1], zone)
  }

  /**
   Every run from a state in order, in whatever order the worker's phases and the other threads'
   steps come: the counter and the configuration stay in range, and while pieces are counted
   EPOHAL.DAT is exactly those pieces in order, each beginning less than a day after the previous
   one ends; all along if and only if no event spoils the file.
   */
  lemma {:induction false} RunKeepsInv(s: Epo, es: seq<Event>, zone: int)
    requires Inv(s, zone) && IsZone(zone)
    ensures InvAlong(s, es, zone) <==> NoneSpoils(s, es, zone)
    ensures NoneSpoils(s, es, zone) ==> Inv(Run(s, es, zone), zone)
  {
    hide Step, Spoils, Inv;
    if es != [] {
      var init := es[..|es| - 1];
      RunKeepsInv(s, init, zone);
      if NoneSpoils(s, init, zone) { StepKeepsInv(Run(s, init, zone), es[|es| - 1], zone); }
    }
  }

  /** And a starting HAL is in order with whatever files it finds. */
  lemma RunFromStart(pieces: Pieces, hal: Option<seq<byte>>, epoDat: Option<seq<byte>>, es: seq<Event>, zone: int)
    requires IsZone(zone)
    ensures InvAlong(Started(pieces, hal, epoDat), es, zone) <==> NoneSpoils(Started(pieces, hal, epoDat), es, zone)
  {
    RunKeepsInv(Started(pieces, hal, epoDat), es, zone);
  }

  // ----- rounds of constant length -----

  predicate KeepsDays(e: Event) {
    e.ReadConfig? ==> LastValue(e.lines, "DW_DAYS").None?
  }

  ghost predicate InvForDays(s: Epo, days: int, zone: int)
    requires 0 <= days <= 30
  {
    Inv(s, zone) && s.config.days == days && s.round.count < RoundLength(days)
  }

  lemma StepKeepsRoundLength(s: Epo, e: Event, days: int, zone: int)
    requires IsZone(zone) && !Spoils(s, e, zone) && KeepsDays(e)
    requires 0 <= days <= 30 && InvForDays(s, days, zone)
    ensures InvForDays(Step(s, e, zone), days, zone)
  {
    StepKeepsInv(s, e, zone);
    hide FileUpdate, MergedUpTo, FileExpired, FileSpan, Whole, StartsOver, CompleteRound;
    match e
    case DownloadStep(dl) =>
      RoundClosesExactly(WithName(s.round.(failed := false), s.round.count), days, s.net.started, dl, zone);
    case ResumeStep(now, dl) =>
      RoundClosesExactly(WithName(s.round, s.round.count), days, s.net.started, dl, zone);
    case ReadConfig(lines) =>
      hide Configure;
      LastLineCounts(s.config, lines);
    case _ =>
  }

  lemma {:induction false} RunKeepsRoundLength(s: Epo, es: seq<Event>, days: int, zone: int)
    requires IsZone(zone) && NoneSpoils(s, es, zone) && forall i :: 0 <= i < |es| ==> KeepsDays(es[i])
    requires 0 <= days <= 30 && InvForDays(s, days, zone)
    ensures InvForDays(Run(s, es, zone), days, zone)
  {
    hide Step, InvForDays, Spoils;
    if es != [] {
      RunKeepsRoundLength(s, es[..|es| - 1], days, zone);
      StepKeepsRoundLength(Run(s, es[..|es| - 1], zone), es[|es| - 1], days, zone);
    }
  }

  /** What the download phase or the resume phase of a reachable state starts its file update from. */
  function Attempt(s: Epo): Round {
    WithName(s.round.(failed := false), s.round.count)
  }

  /** What a download does in a state within a round of `days` days. */
  lemma DownloadMeetsRequestIff(s: Epo, dl: Download, days: int, zone: int)
    requires IsZone(zone) && 0 <= days <= 30 && InvForDays(s, days, zone) && s.round.updated
    ensures var r := Step(s, DownloadStep(dl), zone).round;
            && (!r.updated && !r.failed <==> Closes(Attempt(s), days, dl, zone))
            && (Closes(Attempt(s), days, dl, zone) ==>
                  && s.round.count + 1 == RoundLength(days) && r.count == 0
                  && MergedUpTo(s.round.pieces[s.round.count := dl.piece], r.hal, RoundLength(days), zone))
  {
    hide MergedUpTo, StartTime, EndTime, RoundLength;
    RoundClosesExactly(Attempt(s), days, s.net.started, dl, zone);
    if dl.Fetched? {
      hide FileUpdate;
      if |dl.piece| >= RECORD_SIZE {
        LongPiece(Attempt(s), days, s.net.started, dl.piece, zone);
      } else {
        ShortPiece(Attempt(s), days, s.net.started, dl.piece, zone);
      }
    }
  }

  /** The same for a resumed download. */
  lemma ResumeMeetsRequest(s: Epo, now: int, dl: Download, days: int, zone: int)
    requires IsZone(zone) && 0 <= days <= 30 && InvForDays(s, days, zone)
    requires Resumes(s) && !Stale(s.round, now, zone)
    requires Closes(WithName(s.round, s.round.count), days, dl, zone)
    ensures var r := Step(s, ResumeStep(now, dl), zone).round;
            && s.round.count + 1 == RoundLength(days) && r.count == 0 && !r.updated && !r.failed
            && MergedUpTo(s.round.pieces[s.round.count := dl.piece], r.hal, RoundLength(days), zone)
  {
    hide MergedUpTo, StartTime, EndTime, RoundLength, FileUpdate, StartsOver, FileSpan;
    RoundClosesExactly(WithName(s.round, s.round.count), days, s.net.started, dl, zone);
  }

  /**
   From a start with any files on disk: the configured days once read, then any run that does not
   change them, whatever failures, retries, restarts and requests it holds: the next download meets
   the request if and only if it brings a readable continuation as piece number
   max(1, ceil(days / 3)), and EPOHAL.DAT then is exactly that many pieces in order.
   */
  lemma RoundEndsExactly(pieces: Pieces, hal: Option<seq<byte>>, epoDat: Option<seq<byte>>, settings: seq<Line>,
                         es: seq<Event>, dl: Download, zone: int)
    requires IsZone(zone) && forall i :: 0 <= i < |es| ==> KeepsDays(es[i])
    requires NoneSpoils(Step(Started(pieces, hal, epoDat), ReadConfig(settings), zone), es, zone)
    ensures var s := Run(Step(Started(pieces, hal, epoDat), ReadConfig(settings), zone), es, zone);
            var days := s.config.days;
            && 0 <= days <= 30
            && (s.round.updated ==>
                  var r := Step(s, DownloadStep(dl), zone).round;
                  && (!r.updated && !r.failed <==> Closes(Attempt(s), days, dl, zone))
                  && (Closes(Attempt(s), days, dl, zone) ==>
                        && s.round.count + 1 == RoundLength(days) && r.count == 0
                        && MergedUpTo(s.round.pieces[s.round.count := dl.piece], r.hal, RoundLength(days), zone)))
  {
    hide Run, Step, Closes, MergedUpTo, InvForDays;
    var s0 := Step(Started(pieces, hal, epoDat), ReadConfig(settings), zone);
    StartedForDays(pieces, hal, epoDat, settings, zone);
    var days := s0.config.days;
    RunKeepsRoundLength(s0, es, days, zone);
    var s := Run(s0, es, zone);
    assert s.config.days == days by { DaysKept(s, days, zone); }
    if s.round.updated { DownloadMeetsRequestIff(s, dl, days, zone); }
  }

  lemma DaysKept(s: Epo, days: int, zone: int)
    requires 0 <= days <= 30 && InvForDays(s, days, zone)
    ensures s.config.days == days
  {
  }

  lemma StartedForDays(pieces: Pieces, hal: Option<seq<byte>>, epoDat: Option<seq<byte>>, settings: seq<Line>,
                       zone: int)
    ensures var s := Step(Started(pieces, hal, epoDat), ReadConfig(settings), zone);
            0 <= s.config.days <= 30 && InvForDays(s, s.config.days, zone)
  {
    hide Configure;
    LastLineCounts(Started(pieces, hal, epoDat).config, settings);
  }

  // ----- a round without failures -----

  /** Each piece is readable and begins less than a day after the one before it ends. */
  predicate Continuous(ps: seq<seq<byte>>, zone: int) {
    && (forall i :: 0 <= i < |ps| ==> |ps[i]| >= RECORD_SIZE)
    && (forall i :: 0 < i < |ps| ==> StartTime(ps[i], zone) - EndTime(ps[i - 1], zone) < SECONDS_PER_DAY)
  }

  function Flatten(ps: seq<seq<byte>>): seq<byte> {
    if ps == [] then [] else Flatten(ps[..|ps| - 1]) + ps[|ps| - 1]
  }

  function Downloads(ps: seq<seq<byte>>): (es: seq<Event>)
    ensures |es| == |ps| && forall i :: 0 <= i < |ps| ==> es[i] == DownloadStep(Fetched(ps[i]))
  {
    seq(|ps|, i requires 0 <= i < |ps| => DownloadStep(Fetched(ps[i])))
  }

  /**
   Requested anew, a round takes exactly RoundLength(days) successful downloads: before the last
   one the request stands and the counter counts them, after it the request is met, and EPOHAL.DAT
   is what was downloaded, byte for byte.
   */
  lemma {:induction false} RoundTakesItsLength(s: Epo, ps: seq<seq<byte>>, zone: int)
    requires Inv(s, zone) && IsZone(zone) && s.round.updated && s.round.count == 0
    requires Continuous(ps, zone) && 0 < |ps| <= RoundLength(s.config.days)
    ensures var t := Run(s, Downloads(ps), zone);
            && Inv(t, zone) && t.config == s.config && t.net == s.net
            && t.round.hal == Some(Flatten(ps))
            && (if |ps| < RoundLength(s.config.days)
                then t.round.updated && t.round.count == |ps|
                     && |ps| - 1 in t.round.pieces && t.round.pieces[|ps| - 1] == ps[|ps| - 1]
                else !t.round.updated && t.round.count == 0 && !t.round.failed)
  {
    var k := |ps| - 1;
    var init, last := ps[..k], ps[k];
    var es := Downloads(ps);
    assert es[..k] == Downloads(init);
    var before := Run(s, es[..k], zone);
    assert Flatten([]) == [];
    if k > 0 {
      RoundTakesItsLength(s, init, zone);
      assert Continues(before.round.pieces, k - 1, zone) by { LastContinues(before.round, zone); }
    } else {
      assert es[..0] == [];
    }
    hide Step, Inv, StartTime, EndTime, RoundLength;
    DownloadContinues(before, last, zone);
  }

  /** One successful download inside a round: counted, or the round's last. */
  lemma DownloadContinues(s: Epo, piece: seq<byte>, zone: int)
    requires Inv(s, zone) && IsZone(zone) && s.round.updated && s.round.count < RoundLength(s.config.days)
    requires |piece| >= RECORD_SIZE && !StartsOver(s.round, piece, zone)
    ensures var t := Step(s, DownloadStep(Fetched(piece)), zone);
            && Inv(t, zone) && t.config == s.config && t.net == s.net
            && t.round.hal == Some((if s.round.count == 0 || s.round.hal.None? then [] else s.round.hal.value) + piece)
            && (if s.round.count + 1 < RoundLength(s.config.days)
                then t.round.updated && t.round.count == s.round.count + 1
                     && t.round.pieces == s.round.pieces[s.round.count := piece]
                else !t.round.updated && t.round.count == 0 && !t.round.failed)
  {
    StepKeepsInv(s, DownloadStep(Fetched(piece)), zone);
    hide FileUpdate, MergedUpTo, StartTime, EndTime, RoundLength;
    LongPiece(Attempt(s), s.config.days, s.net.started, piece, zone);
    GoesOnIff(s.round.count, s.config.days);
  }

  lemma GoesOnIff(count: int, days: int)
    requires 0 <= days <= 30 && 0 <= count < RoundLength(days)
    ensures count + 1 < MAX_PIECES && count + 1 < PiecesFor(days) <==> count + 1 < RoundLength(days)
  {
  }

  // ----- a round taken up again -----

  function ResumeAll(nows: seq<int>, ps: seq<seq<byte>>): (es: seq<Event>)
    requires |nows| == |ps|
    ensures |es| == |ps| && forall i :: 0 <= i < |ps| ==> es[i] == ResumeStep(nows[i], Fetched(ps[i]))
  {
    seq(|ps|, i requires 0 <= i < |ps| => ResumeStep(nows[i], Fetched(ps[i])))
  }

  /** Where a round in progress begins: with its first piece, or with the piece now coming. */
  function RoundBegins(r: Round, piece: seq<byte>, zone: int): int
    requires |piece| >= RECORD_SIZE
  {
    if r.count == 0 then StartTime(piece, zone) else FileSpan(CurrentFile(r), zone).0
  }

  /** The piece files are those of before, with `ps` from piece `count` on. */
  ghost predicate Stored(pieces: Pieces, before: Pieces, count: int, ps: seq<seq<byte>>) {
    && (forall i :: i in pieces <==> i in before || count <= i < count + |ps|)
    && (forall i :: i in pieces ==> pieces[i] == if count <= i < count + |ps| then ps[i - count] else before[i])
  }

  /** The old EPOHAL.DAT of a round in progress, followed by `ps`. */
  function Merging(r: Round, ps: seq<seq<byte>>): Option<seq<byte>> {
    Some((if r.count == 0 || r.hal.None? then [] else r.hal.value) + Flatten(ps))
  }

  /** The state `t` of a round taken up in `s`, when `ps` have been fetched and more are missing. */
  ghost predicate Underway(s: Epo, t: Epo, ps: seq<seq<byte>>, zone: int) {
    if ps == [] then t == s && Inv(s, zone) && Resumes(s) && !s.round.updated
    else
      && Inv(t, zone) && t.config == s.config && t.net == s.net && !t.round.updated && Resumes(t)
      && t.round.count == s.round.count + |ps| && t.round.hal == Merging(s.round, ps)
      && Stored(t.round.pieces, s.round.pieces, s.round.count, ps)
      && |ps[0]| >= RECORD_SIZE && FileSpan(CurrentFile(t.round), zone).0 == RoundBegins(s.round, ps[0], zone)
  }

  /** The round taken up in `s` is closed with `ps`. */
  ghost predicate Closed(s: Epo, t: Epo, ps: seq<seq<byte>>, zone: int) {
    && Inv(t, zone) && t.config == s.config && t.net == s.net && !t.round.updated && !t.round.failed
    && t.round.count == 0 && t.round.hal == Merging(s.round, ps)
  }

  /**
   Resumes that each bring a continuing piece, while the round is less than a day old, are counted one
   after the other with no alarm in between, and close the round after exactly as many as are missing.
   EPOHAL.DAT is then the old one followed by those pieces.
   */
  lemma {:induction false} ResumesTakeTheRest(s: Epo, nows: seq<int>, ps: seq<seq<byte>>, zone: int)
    requires Inv(s, zone) && IsZone(zone) && Resumes(s) && !s.round.updated
    requires 0 < |nows| == |ps| <= RoundLength(s.config.days) - s.round.count
    requires Continuous(ps, zone) && !StartsOver(s.round, ps[0], zone)
    requires !Stale(s.round, nows[0], zone)
    requires forall i :: 0 < i < |ps| ==> nows[i] < RoundBegins(s.round, ps[0], zone) + 86400
    ensures var t := Run(s, ResumeAll(nows, ps), zone);
            if |ps| < RoundLength(s.config.days) - s.round.count then Underway(s, t, ps, zone)
            else Closed(s, t, ps, zone)
  {
    hide Step, Underway, Closed, StartTime, EndTime, FileSpan, Resumes, StartsOver, Inv, Stale, RoundBegins;
    var k := |ps| - 1;
    var init, last := ps[..k], ps[k];
    var es := ResumeAll(nows, ps);
    assert es[..k] == ResumeAll(nows[..k], init);
    assert init + [last] == ps;
    if k > 0 {
      ResumesTakeTheRest(s, nows[..k], init, zone);
    } else {
      assert es[..0] == [];
      assert Underway(s, s, [], zone) by { NothingFetched(s, zone); }
    }
    InRange(s, zone);
    UnderwayStep(s, Run(s, es[..k], zone), init, last, nows[k], zone);
  }

  lemma InRange(s: Epo, zone: int)
    requires Inv(s, zone)
    ensures 0 <= s.config.days <= 30 && 0 <= s.round.count < MAX_PIECES
  {
  }

  lemma NothingFetched(s: Epo, zone: int)
    requires Inv(s, zone) && Resumes(s) && !s.round.updated
    ensures Underway(s, s, [], zone)
  {
  }

  lemma UnderwayStep(s: Epo, t: Epo, ps: seq<seq<byte>>, piece: seq<byte>, now: int, zone: int)
    requires IsZone(zone) && Underway(s, t, ps, zone)
    requires 0 <= s.config.days <= 30 && 0 <= s.round.count && s.round.count + |ps| < RoundLength(s.config.days)
    requires Continuous(ps + [piece], zone) && !StartsOver(s.round, (ps + [piece])[0], zone)
    requires if ps == [] then !Stale(s.round, now, zone) else now < RoundBegins(s.round, ps[0], zone) + 86400
    ensures var t' := Step(t, ResumeStep(now, Fetched(piece)), zone);
            if s.round.count + |ps| + 1 < RoundLength(s.config.days) then Underway(s, t', ps + [piece], zone)
            else Closed(s, t', ps + [piece], zone)
  {
    hide Step, RoundLength, FileSpan, Resumes, StartsOver, MergedUpTo, Continuous, Inv, Stored, Merging, RoundBegins,
         Flatten, Whole, CurrentFile, Underway, Closed, Stale;
    UnderwayHolds(s, t, ps, zone);
    NoRestart(s, t, ps, piece, zone);
    StoredMore(t.round.pieces, s.round.pieces, s.round.count, ps, piece);
    MergingMore(s, t, ps, piece);
    StillFresh(s, t, ps, now, zone);
    ResumeContinues(t, now, piece, zone);
    assert (ps + [piece])[0] == if ps == [] then piece else ps[0];
    if ps != [] { BeginsAlike(s, t, ps, piece, zone); }
    MakeUnderway(s, t, Step(t, ResumeStep(now, Fetched(piece)), zone), ps, piece, zone);
  }

  lemma UnderwayHolds(s: Epo, t: Epo, ps: seq<seq<byte>>, zone: int)
    requires Underway(s, t, ps, zone)
    ensures Inv(t, zone) && Resumes(t) && !t.round.updated && t.config == s.config && t.net == s.net
    ensures t.round.count == s.round.count + |ps|
    ensures Stored(t.round.pieces, s.round.pieces, s.round.count, ps)
    ensures ps == [] ==> t == s
    ensures ps != [] ==> t.round.hal == Merging(s.round, ps) && |ps[0]| >= RECORD_SIZE
    ensures ps != [] ==> FileSpan(CurrentFile(t.round), zone).0 == RoundBegins(s.round, ps[0], zone)
  {
    hide Resumes, FileSpan, Inv, Merging, RoundBegins;
  }

  lemma StillFresh(s: Epo, t: Epo, ps: seq<seq<byte>>, now: int, zone: int)
    requires Underway(s, t, ps, zone)
    requires ps == [] ==> !Stale(s.round, now, zone)
    requires ps != [] ==> |ps[0]| >= RECORD_SIZE && now < RoundBegins(s.round, ps[0], zone) + 86400
    ensures !Stale(t.round, now, zone)
  {
    hide Resumes, FileSpan, Inv, Merging, RoundBegins, Stored;
  }

  /** Later pieces leave the beginning of the round alone. */
  lemma BeginsAlike(s: Epo, t: Epo, ps: seq<seq<byte>>, piece: seq<byte>, zone: int)
    requires Underway(s, t, ps, zone) && ps != [] && |ps[0]| >= RECORD_SIZE && |piece| >= RECORD_SIZE
    requires 0 <= s.round.count
    ensures RoundBegins(t.round, piece, zone) == RoundBegins(s.round, ps[0], zone)
  {
    hide Resumes, FileSpan, Inv, Merging, Stored;
  }

  lemma MakeUnderway(s: Epo, t: Epo, t': Epo, ps: seq<seq<byte>>, piece: seq<byte>, zone: int)
    requires 0 <= s.config.days <= 30 && |piece| >= RECORD_SIZE && (ps != [] ==> |ps[0]| >= RECORD_SIZE)
    requires Inv(t', zone) && t'.config == s.config && t'.net == s.net && !t'.round.updated
    requires t'.round.hal == Merging(s.round, ps + [piece])
    requires if s.round.count + |ps| + 1 < RoundLength(s.config.days)
             then Resumes(t') && t'.round.count == s.round.count + |ps| + 1
                  && Stored(t'.round.pieces, s.round.pieces, s.round.count, ps + [piece])
                  && FileSpan(CurrentFile(t'.round), zone).0
                     == RoundBegins(s.round, if ps == [] then piece else ps[0], zone)
             else t'.round.count == 0 && !t'.round.failed
    ensures if s.round.count + |ps| + 1 < RoundLength(s.config.days) then Underway(s, t', ps + [piece], zone)
            else Closed(s, t', ps + [piece], zone)
  {
    hide Resumes, FileSpan, Inv, Merging, Stored, RoundBegins, RoundLength;
    assert (ps + [piece])[0] == if ps == [] then piece else ps[0];
  }

  lemma StoredMore(pieces: Pieces, before: Pieces, count: int, ps: seq<seq<byte>>, piece: seq<byte>)
    requires Stored(pieces, before, count, ps)
    ensures Stored(pieces[count + |ps| := piece], before, count, ps + [piece])
  {
  }

  lemma NoRestart(s: Epo, t: Epo, ps: seq<seq<byte>>, piece: seq<byte>, zone: int)
    requires Underway(s, t, ps, zone) && Continuous(ps + [piece], zone) && 0 <= s.round.count
    requires !StartsOver(s.round, (ps + [piece])[0], zone)
    ensures |piece| >= RECORD_SIZE && !StartsOver(t.round, piece, zone)
  {
    hide StartTime, EndTime, FileSpan, Resumes, MergedUpTo;
    var all, n := ps + [piece], |ps|;
    assert all[n] == piece;
    if n > 0 {
      assert all[n - 1] == ps[n - 1];
      assert t.round.pieces[s.round.count + (n - 1)] == ps[n - 1];
    }
  }

  lemma MergingMore(s: Epo, t: Epo, ps: seq<seq<byte>>, piece: seq<byte>)
    requires ps == [] ==> t == s
    requires ps != [] ==> t.round.hal == Merging(s.round, ps) && t.round.count > 0
    ensures Some((if t.round.count == 0 || t.round.hal.None? then [] else t.round.hal.value) + piece)
         == Merging(s.round, ps + [piece])
  {
    var all := ps + [piece];
    assert all[..|all| - 1] == ps && all[|all| - 1] == piece;
    if ps == [] {
      assert Flatten([]) == [] && [] + piece == piece;
    } else {
      var base := if s.round.count == 0 || s.round.hal.None? then [] else s.round.hal.value;
      assert base + (Flatten(ps) + piece) == base + Flatten(ps) + piece;
    }
  }

  /** One resume with progress: counted, or the round's last. */
  lemma ResumeContinues(s: Epo, now: int, piece: seq<byte>, zone: int)
    requires Inv(s, zone) && IsZone(zone) && Resumes(s) && !s.round.updated && !Stale(s.round, now, zone)
    requires s.round.count < RoundLength(s.config.days)
    requires |piece| >= RECORD_SIZE && !StartsOver(s.round, piece, zone)
    ensures var t := Step(s, ResumeStep(now, Fetched(piece)), zone);
            && Inv(t, zone) && t.config == s.config && t.net == s.net && !t.round.updated
            && t.round.hal == Some((if s.round.count == 0 || s.round.hal.None? then [] else s.round.hal.value) + piece)
            && (if s.round.count + 1 < RoundLength(s.config.days)
                then Resumes(t) && t.round.count == s.round.count + 1
                     && t.round.pieces == s.round.pieces[s.round.count := piece]
                     && FileSpan(CurrentFile(t.round), zone).0 == RoundBegins(s.round, piece, zone)
                else t.round.count == 0 && !t.round.failed)
  {
    hide FileUpdate, MergedUpTo, StartTime, EndTime, RoundLength, FileSpan, Spoils;
    assert Inv(Step(s, ResumeStep(now, Fetched(piece)), zone), zone) by {
      StepKeepsInv(s, ResumeStep(now, Fetched(piece)), zone);
      assert !Spoils(s, ResumeStep(now, Fetched(piece)), zone) by { WholePieceSpoilsNothing(s, now, piece, zone); }
    }
    var r := WithName(s.round, s.round.count);
    LongPiece(r, s.config.days, s.net.started, piece, zone);
    GoesOnIff(s.round.count, s.config.days);
    RoundBeginsStays(r, piece, zone);
  }

  lemma WholePieceSpoilsNothing(s: Epo, now: int, piece: seq<byte>, zone: int)
    requires |piece| >= RECORD_SIZE
    ensures !Spoils(s, ResumeStep(now, Fetched(piece)), zone)
  {
  }

  /** Appending a piece leaves the beginning of a round's file where it is. */
  lemma RoundBeginsStays(r: Round, piece: seq<byte>, zone: int)
    requires Good(r, zone) && |piece| >= RECORD_SIZE
    ensures FileSpan(CurrentFile(Appended(r, piece)), zone).0 == RoundBegins(r, piece, zone)
  {
    if r.count > 0 {
      FirstPieceThere(r.pieces, r.count, zone);
      var hal := r.hal.value;
      assert (hal + piece)[..RECORD_SIZE] == hal[..RECORD_SIZE];
    } else {
      assert [] + piece == piece;
    }
  }

  lemma {:induction false} FirstPieceThere(pieces: Pieces, k: int, zone: int)
    requires k > 0 && forall i :: 0 <= i < k ==> Continues(pieces, i, zone)
    ensures |Concat(pieces, k)| >= RECORD_SIZE
    decreases k
  {
    assert Continues(pieces, 0, zone);
    if k > 1 {
      FirstPieceThere(pieces, k - 1, zone);
    } else {
      assert Concat(pieces, 0) == [];
    }
  }

  // ----- retries are bounded -----

  /** How many more resumes may leave the counter at `count` with the failure still standing. */
  function Budget(t: Retry, count: int): int {
    if t.piece == NOT_RETRYING || t.piece == count then RETRY_LIMIT - 1 - t.times else RETRY_LIMIT
  }

  /** The events of `es` that actually resume a download. */
  function ResumeCount(s: Epo, es: seq<Event>, zone: int): nat
    decreases es
  {
    if es == [] then 0
    else (if es[0].ResumeStep? && Resumes(s) then 1 else 0) + ResumeCount(Step(s, es[0], zone), es[1..], zone)
  }

  /** All along, the counter stays at `count` and the failure stands. */
  predicate StuckAt(s: Epo, es: seq<Event>, count: int, zone: int)
    decreases es
  {
    s.round.count == count && s.round.failed && (es != [] ==> StuckAt(Step(s, es[0], zone), es[1..], count, zone))
  }

  lemma StepSpendsBudget(s: Epo, e: Event, count: int, zone: int)
    requires RetryInRange(s.retry) && s.round.count == count && 0 <= count < MAX_PIECES
    requires Step(s, e, zone).round.count == count && Step(s, e, zone).round.failed
    ensures RetryInRange(Step(s, e, zone).retry)
    ensures Budget(Step(s, e, zone).retry, count)
         <= Budget(s.retry, count) - (if e.ResumeStep? && Resumes(s) then 1 else 0)
    ensures Budget(s.retry, count) >= (if e.ResumeStep? && Resumes(s) then 1 else 0)
  {
  }

  /**
   A failing piece is resumed at most ten times with the failure still standing, so an eleventh
   resume that leaves the counter alone clears it; alarms, starts and network changes in between
   make no difference.
   */
  lemma {:induction false} RetriesBounded(s: Epo, es: seq<Event>, count: int, zone: int)
    requires RetryInRange(s.retry) && 0 <= count < MAX_PIECES && StuckAt(s, es, count, zone)
    ensures ResumeCount(s, es, zone) <= Budget(s.retry, count) <= 10
    decreases es
  {
    if es != [] {
      var s' := Step(s, es[0], zone);
      StepSpendsBudget(s, es[0], count, zone);
      RetriesBounded(s', es[1..], count, zone);
    }
  }

  /**
   A resume that moves the counter with the failure standing can be followed by another at once;
   after any other resume nothing more is resumed before something else happens.
   */
  lemma ResumesAgainIff(s: Epo, now: int, dl: Download, zone: int)
    requires Inv(s, zone) && IsZone(zone) && Resumes(s)
    ensures var t := Step(s, ResumeStep(now, dl), zone);
            && t.net == s.net
            && (Resumes(t) <==> t.round.count != s.round.count && t.round.failed)
            && (t.round.failed && t.round.count == s.round.count ==> !t.retry.alarmed)
  {
    hide FileUpdate, FileSpan;
  }

  /** A download that brings nothing countable drops the request, and the failure stands for a resume. */
  lemma FailedDownload(s: Epo, dl: Download, zone: int)
    requires Inv(s, zone) && IsZone(zone) && s.round.updated && Fails(dl)
    ensures var t := Step(s, DownloadStep(dl), zone);
            && !t.round.updated && t.round.failed && t.round.count == s.round.count
            && t.round.epoDat == s.round.epoDat && t.retry == s.retry && t.net == s.net && t.config == s.config
            && (dl.Failed? ==> t.round.hal == s.round.hal)
  {
    hide FileUpdate;
    UpdateLeaves(Attempt(s), s.config.days, s.net.started, dl, zone);
    FailingUpdate(Attempt(s), s.config.days, s.net.started, dl, zone);
  }

  /** An alarm followed by a resume that fails again, n times over. */
  function FailingResumes(now: int, n: nat): (es: seq<Event>)
    ensures |es| == 2 * n
  {
    if n == 0 then [] else [RetryAlarm, ResumeStep(now, Failed(false))] + FailingResumes(now, n - 1)
  }

  /** The bound is met: `left` failing resumes keep the failure standing as long as the budget lasts. */
  lemma {:induction false} BudgetCanBeSpent(s: Epo, now: int, left: nat, zone: int)
    requires RetryInRange(s.retry) && 0 <= s.round.count < MAX_PIECES && s.round.failed
    requires (s.net.started || s.net.kind == NW_WIFI) && s.net.connected && !Stale(s.round, now, zone)
    requires left <= Budget(s.retry, s.round.count)
    ensures StuckAt(s, FailingResumes(now, left), s.round.count, zone)
    ensures ResumeCount(s, FailingResumes(now, left), zone) == left
    decreases left
  {
    if left > 0 {
      var es := FailingResumes(now, left);
      var s1 := Step(s, es[0], zone);
      var s2 := Step(s1, es[1], zone);
      assert s1 == s.(retry := s.retry.(alarmed := true));
      FailedResume(s1, now, zone);
      BudgetCanBeSpent(s2, now, left - 1, zone);
      assert es[1..][1..] == FailingResumes(now, left - 1);
      assert StuckAt(s1, es[1..], s.round.count, zone);
      assert ResumeCount(s1, es[1..], zone) == 1 + ResumeCount(s2, es[1..][1..], zone);
    }
  }

  lemma {:induction false} StuckMeansResumed(s: Epo, now: int, n: nat, zone: int)
    requires (s.net.started || s.net.kind == NW_WIFI) && s.net.connected
    requires StuckAt(s, FailingResumes(now, n), s.round.count, zone)
    ensures ResumeCount(s, FailingResumes(now, n), zone) == n
    decreases n
  {
    if n > 0 {
      hide FileUpdate, FileSpan;
      var es := FailingResumes(now, n);
      var s1 := Step(s, es[0], zone);
      var s2 := Step(s1, es[1], zone);
      assert es[1..][1..] == FailingResumes(now, n - 1);
      assert StuckAt(s1, es[1..], s.round.count, zone);
      assert StuckAt(s2, es[1..][1..], s.round.count, zone);
      StuckMeansResumed(s2, now, n - 1, zone);
      assert ResumeCount(s1, es[1..], zone) == 1 + ResumeCount(s2, es[1..][1..], zone);
    }
  }

  /**
   Exactly: with the network back and data less than a day old, n failing resumes leave the failure
   standing iff n is at most 9 for a piece not retried before, at most 9 less the retries counted for
   the piece being retried, and at most 10 for a piece that takes over from another.
   */
  lemma FailureStandsIff(s: Epo, now: int, n: nat, zone: int)
    requires RetryInRange(s.retry) && 0 <= s.round.count < MAX_PIECES && s.round.failed
    requires (s.net.started || s.net.kind == NW_WIFI) && s.net.connected && !Stale(s.round, now, zone)
    ensures StuckAt(s, FailingResumes(now, n), s.round.count, zone)
       <==> n <= if s.retry.piece in {50, s.round.count} then 9 - s.retry.times else 10
  {
    hide Stale, StuckAt, ResumeCount, Step;
    if n <= Budget(s.retry, s.round.count) {
      BudgetCanBeSpent(s, now, n, zone);
    } else if StuckAt(s, FailingResumes(now, n), s.round.count, zone) {
      StuckMeansResumed(s, now, n, zone);
      RetriesBounded(s, FailingResumes(now, n), s.round.count, zone);
    }
  }

  lemma FailedResume(s: Epo, now: int, zone: int)
    requires Resumes(s) && !Stale(s.round, now, zone) && Budget(s.retry, s.round.count) > 0
    requires RetryInRange(s.retry) && 0 <= s.round.count < MAX_PIECES
    ensures var t := Step(s, ResumeStep(now, Failed(false)), zone);
            && t == s.(round := WithName(s.round, s.round.count), retry := t.retry)
            && RetryInRange(t.retry)
            && Budget(t.retry, s.round.count) == Budget(s.retry, s.round.count) - 1
  {
  }

  // ----- after giving up -----

  /** Nothing to download and nothing to resume. */
  predicate Quiet(s: Epo) {
    !s.round.updated && !s.round.failed
  }

  /** What the network brings adds nothing that can be counted. */
  predicate Fails(dl: Download) {
    dl.Fetched? ==> |dl.piece| < RECORD_SIZE
  }

  /**
   The resume that uses up the retries is the end of it if and only if no request stands and the
   data at hand is not stale; otherwise the worker goes on with a download at once.
   */
  lemma GivingUpIsFinalIff(s: Epo, now: int, dl: Download, zone: int)
    requires Inv(s, zone) && IsZone(zone)
    requires Resumes(s) && GivesUp(s.retry, s.round.count) && Fails(dl)
    ensures var t := Step(s, ResumeStep(now, dl), zone);
            && !t.round.failed
            && (t.round.updated <==> s.round.updated || Stale(s.round, now, zone))
            && (Quiet(t) <==> !s.round.updated && !Stale(s.round, now, zone))
            && (!Stale(s.round, now, zone) ==> t.retry == Retry(true, 0, NOT_RETRYING))
  {
    hide FileUpdate, FileSpan;
    FailingUpdate(WithName(s.round, s.round.count), s.config.days, s.net.started, dl, zone);
  }

  lemma FailingUpdate(r: Round, days: int, started: bool, dl: Download, zone: int)
    requires Good(r, zone) && IsZone(zone) && r.name == r.count && Fails(dl)
    ensures var r' := FileUpdate(r, days, started, dl, zone);
            r'.count == r.count && r'.failed && r'.updated == r.updated && r'.epoDat == r.epoDat
  {
    if dl.Fetched? {
      hide FileUpdate;
      ShortPiece(r, days, started, dl.piece, zone);
    }
  }

  /** A start, or the wifi trigger, that finds no data or data past the age it allows. */
  predicate Orders(s: Epo, e: Event, zone: int) {
    match e
    case GpsStart(now) =>
      s.config.enabled && (CurrentFile(s.round).None? || FileExpired(s.round, s.config, false, now, zone))
    case WifiStep(now) =>
      && s.config.wifiTrigger && s.config.enabled && s.net.connected && s.net.kind == NW_WIFI
      && FileExpired(s.round, s.config, true, now, zone)
    case _ => false
  }

  /** Some event orders a download. */
  ghost predicate SomeOrder(s: Epo, es: seq<Event>, zone: int)
    decreases es
  {
    es != [] && (Orders(s, es[0], zone) || SomeOrder(Step(s, es[0], zone), es[1..], zone))
  }

  /** How often the network is asked for a piece. */
  function Attempts(s: Epo, es: seq<Event>, zone: int): nat
    decreases es
  {
    if es == [] then 0
    else
      (match es[0]
       case DownloadStep(_) => if s.round.updated then 1 else 0
       case ResumeStep(now, _) => if Resumes(s) && !Stale(s.round, now, zone) then 1 else 0
       case _ => 0)
      + Attempts(Step(s, es[0], zone), es[1..], zone)
  }

  /** All along there is nothing to download. */
  ghost predicate StaysQuiet(s: Epo, es: seq<Event>, zone: int)
    decreases es
  {
    Quiet(s) && (es != [] ==> StaysQuiet(Step(s, es[0], zone), es[1..], zone))
  }

  lemma QuietUntilOrdered(s: Epo, e: Event, zone: int)
    requires Quiet(s)
    ensures Quiet(Step(s, e, zone)) <==> !Orders(s, e, zone)
    ensures e.WifiStep? && Orders(s, e, zone) && s.config.wifiPeriod >= 1 ==> Stale(s.round, e.now, zone)
  {
    hide FileSpan;
  }

  /**
   Once the worker is quiet, as after giving up for good, it stays quiet through a run if and only
   if no event of the run orders a download: retry alarms, network changes and the end of an update
   alone never bring one back. Until then the network is not asked.
   */
  lemma {:induction false} QuietRunIff(s: Epo, es: seq<Event>, zone: int)
    requires Quiet(s)
    ensures StaysQuiet(s, es, zone) <==> !SomeOrder(s, es, zone)
    ensures StaysQuiet(s, es, zone) ==> Attempts(s, es, zone) == 0
    decreases es
  {
    hide Step, Orders, Stale;
    if es != [] {
      QuietUntilOrdered(s, es[0], zone);
      if Quiet(Step(s, es[0], zone)) { QuietRunIff(Step(s, es[0], zone), es[1..], zone); }
    }
  }

  /** From the last retry on: no download is attempted before an event orders one. */
  lemma NothingAfterGivingUp(s: Epo, now: int, dl: Download, es: seq<Event>, zone: int)
    requires Inv(s, zone) && IsZone(zone) && !s.round.updated && !Stale(s.round, now, zone)
    requires Resumes(s) && GivesUp(s.retry, s.round.count) && Fails(dl)
    ensures var t := Step(s, ResumeStep(now, dl), zone);
            !SomeOrder(t, es, zone) ==> Attempts(t, es, zone) == 0
  {
    hide Step, Stale;
    GivingUpIsFinalIff(s, now, dl, zone);
    QuietRunIff(Step(s, ResumeStep(now, dl), zone), es, zone);
  }

  /** No data at all counts as data of 1970. */
  lemma NoDataIsStale(r: Round, now: int, zone: int)
    requires CurrentFile(r).None?
    ensures Stale(r, now, zone) <==> now >= SECONDS_PER_DAY
  {
  }

  /** An alarm, a resume that finds stale data, and the download it orders, which fails; n times over. */
  function FutileRounds(now: int, n: nat): (es: seq<Event>)
    ensures |es| == 3 * n
  {
    if n == 0 then []
    else [RetryAlarm, ResumeStep(now, Failed(true)), DownloadStep(Failed(true))] + FutileRounds(now, n - 1)
  }

  /**
   So with neither EPO file fresh and the server out of reach the attempts never end: every alarm
   brings one more, for any number of them.
   */
  lemma {:induction false} StaleNeverGivesUp(s: Epo, now: int, n: nat, zone: int)
    requires (s.net.started || s.net.kind == NW_WIFI) && s.net.connected && s.round.failed
    requires Stale(s.round, now, zone) && Stale(s.round.(hal := None), now, zone)
    ensures Attempts(s, FutileRounds(now, n), zone) == n
    decreases n
  {
    hide Step, Stale;
    if n > 0 {
      var es := FutileRounds(now, n);
      var s1 := Step(s, es[0], zone);
      var s2 := Step(s1, es[1], zone);
      var s3 := Step(s2, es[2], zone);
      FutileRound(s, now, zone);
      assert es[1..][1..][1..] == FutileRounds(now, n - 1);
      StaleNeverGivesUp(s3, now, n - 1, zone);
      assert Attempts(s2, es[1..][1..], zone) == 1 + Attempts(s3, es[1..][1..][1..], zone);
      assert Attempts(s1, es[1..], zone) == Attempts(s2, es[1..][1..], zone);
    }
  }

  /** One such round: the resume orders a download however many retries have been used, and its failure stands. */
  lemma FutileRound(s: Epo, now: int, zone: int)
    requires (s.net.started || s.net.kind == NW_WIFI) && s.net.connected && s.round.failed
    requires Stale(s.round, now, zone) && Stale(s.round.(hal := None), now, zone)
    ensures var s1 := Step(s, RetryAlarm, zone);
            var s2 := Step(s1, ResumeStep(now, Failed(true)), zone);
            var s3 := Step(s2, DownloadStep(Failed(true)), zone);
            && s1.round == s.round && Resumes(s1)
            && s2.round == s.round.(failed := false, count := 0, updated := true, hal := None)
            && s3.net == s.net && s3.round.failed
            && Stale(s3.round, now, zone) && Stale(s3.round.(hal := None), now, zone)
  {
    hide FileSpan;
  }

  // ----- what starts decide, and what becomes of EPOHAL.DAT -----

  /** The file at hand is missing or past the age the ordinary check allows. */
  predicate Wanting(s: Epo, now: int, zone: int) {
    CurrentFile(s.round).None? || FileExpired(s.round, s.config, false, now, zone)
  }

  /** EPOHAL.DAT is there, but its download failed and can be taken up over a connection that is not mobile data. */
  predicate LeftToResume(s: Epo) {
    s.round.hal.Some? && s.round.failed && s.net.connected && s.net.kind != NW_DATA
  }

  /**
   A start orders a new round exactly when EPO is enabled, the data is missing or expired, and no
   failed round is left to the worker; then EPOHAL.DAT goes. Exactly when it finds EPOHAL.DAT good
   instead, EPO.DAT goes. Nothing else changes.
   */
  lemma StartDecides(s: Epo, now: int, zone: int)
    ensures var t := Step(s, GpsStart(now), zone);
            var orders := s.config.enabled && Wanting(s, now, zone) && !LeftToResume(s);
            var keeps := s.config.enabled && s.round.hal.Some? && !Wanting(s, now, zone) && !LeftToResume(s);
            && t.round == s.round.(updated := s.round.updated || orders,
                                   count := if orders then 0 else s.round.count,
                                   hal := if orders then None else s.round.hal,
                                   epoDat := if keeps then None else s.round.epoDat)
            && t == s.(round := t.round)
  {
    hide FileSpan;
  }

  /** The download a step attempts, if it attempts one. */
  function Attempted(s: Epo, e: Event, zone: int): Option<Download> {
    match e
    case DownloadStep(dl) => if s.round.updated then Some(dl) else None
    case ResumeStep(now, dl) => if Resumes(s) && !Stale(s.round, now, zone) then Some(dl) else None
    case _ => None
  }

  /** The steps that remove EPOHAL.DAT. */
  predicate Removes(s: Epo, e: Event, zone: int) {
    || (Attempted(s, e, zone).Some? && Attempted(s, e, zone).value.Fetched?
        && StartsOver(s.round, Attempted(s, e, zone).value.piece, zone))
    || (e.ResumeStep? && Resumes(s) && Stale(s.round, e.now, zone))
    || (e.WifiStep? && Quiet(s) && Orders(s, e, zone))
    || (e.GpsStart? && s.config.enabled && Wanting(s, e.now, zone) && !LeftToResume(s))
    || (e == UpdateDone && !s.round.failed && s.round.count == 0)
  }

  /**
   EPOHAL.DAT disappears exactly when the server's data has changed under a round, a resume or the
   wifi trigger finds it old, a start finds it expired, or the daemon confirms it between rounds.
   */
  lemma HalRemovedIff(s: Epo, e: Event, zone: int)
    requires Inv(s, zone) && IsZone(zone) && s.round.hal.Some?
    ensures Step(s, e, zone).round.hal == None <==> Removes(s, e, zone)
  {
    hide FileUpdate, FileSpan, MergedUpTo, FileExpired, StartTime, EndTime, CompleteRound;
    match e
    case DownloadStep(dl) =>
      UpdateKeepsHalIff(Attempt(s), s.config.days, s.net.started, dl, zone);
    case ResumeStep(now, dl) =>
      UpdateKeepsHalIff(WithName(s.round, s.round.count), s.config.days, s.net.started, dl, zone);
    case GpsStart(now) =>
      StartDecides(s, now, zone);
    case _ =>
  }

  lemma UpdateKeepsHalIff(r: Round, days: int, started: bool, dl: Download, zone: int)
    requires Good(r, zone) && IsZone(zone) && r.name == r.count && r.hal.Some?
    ensures FileUpdate(r, days, started, dl, zone).hal == None
       <==> dl.Fetched? && StartsOver(r, dl.piece, zone)
  {
    hide StartTime, EndTime, MergedUpTo;
    if dl.Fetched? {
      hide FileUpdate;
      if |dl.piece| >= RECORD_SIZE {
        LongPiece(r, days, started, dl.piece, zone);
      } else {
        ShortPiece(r, days, started, dl.piece, zone);
      }
    }
  }

  /**
   The ordinary check measures the file at hand, EPOHAL.DAT before EPO.DAT, by GPS_EPO_PERIOD, and
   the wifi check by WIFI_EPO_PERIOD; a file that cannot be read lies in 1970 and is long expired.
   */
  lemma ExpiryMeasures(r: Round, c: Config, now: int, zone: int)
    requires c.period in {3, 15, 30}
    ensures var file := if r.hal.Some? then r.hal else r.epoDat;
            if file.Some? && |file.value| >= 72 then
              var start, end := StartTime(file.value, zone), EndTime(file.value, zone);
              && (FileExpired(r, c, true, now, zone) <==> now >= start + 86400 * c.wifiPeriod)
              && (end - start >= 86400 * c.period ==>
                    (FileExpired(r, c, false, now, zone) <==> now >= start + 86400 * c.period))
            else
              && (FileExpired(r, c, true, now, zone) <==> now >= 86400 * c.wifiPeriod)
              && (FileExpired(r, c, false, now, zone) <==> now >= 0)
  {
    hide StartTime, EndTime;
  }
}

/**
 One attempt of the EPO worker to add a piece to EPOHAL.DAT.

 A round downloads pieces 0, 1, 2, ... and appends each to EPOHAL.DAT until the configured number
 of days is covered. What the network delivers is an input. Times are local: mktime of the UTC
 calendar in a fixed zone.
 */
module EpoRound {
  import opened Bytes
  import opened Calendar
  import opened EpoTime

  const MAX_PIECES := 10

  type Pieces = map<int, seq<byte>>

  /** What one attempt to download the named piece brings. */
  datatype Download =
    | Failed(fileRemoved: bool)    // no URL, or the transfer failed and the file was removed
    | Fetched(piece: seq<byte>)

  datatype Round = Round(
    count: int,              // gps_epo_file_count
    name: int,               // the piece gps_epo_file_name stands for
    updated: bool,           // epo_data_updated: a download is wanted
    failed: bool,            // epo_download_failed
    pieces: Pieces,          // piece files on disk
    hal: Option<seq<byte>>,  // EPOHAL.DAT
    epoDat: Option<seq<byte>>)

  // ----- what the code does -----

  function WithName(r: Round, i: int): Round {
    r.(name := if 0 <= i < MAX_PIECES then i else r.name)
  }

  function Without(pieces: Pieces, n: int): Pieces {
    map i | i in pieces && !(0 <= i < n) :: pieces[i]
  }

  function Fetch(r: Round, dl: Download): Round {
    match dl
    case Failed(removed) => r.(failed := true, pieces := if removed then r.pieces - {r.name} else r.pieces)
    case Fetched(piece) =>
      r.(pieces := r.pieces[r.name := piece],
         hal := Some((if r.count == 0 || r.hal.None? then [] else r.hal.value) + piece))
  }

  predicate TooShort(pieces: Pieces, i: int) {
    i in pieces && |pieces[i]| < RECORD_SIZE
  }

  /** A piece file's start and end, 0 if it is missing or too short. */
  function PieceStart(pieces: Pieces, i: int, zone: int): int {
    if i in pieces && |pieces[i]| >= RECORD_SIZE then StartTime(pieces[i], zone) else 0
  }

  function PieceEnd(pieces: Pieces, i: int, zone: int): int {
    if i in pieces && |pieces[i]| >= RECORD_SIZE then EndTime(pieces[i], zone) else 0
  }

  /** Seconds between the end of the previous piece and the start of the named one. */
  function Gap(r: Round, zone: int): int {
    PieceStart(r.pieces, r.name, zone)
    - (if r.count > 0 then PieceEnd(r.pieces, r.count - 1, zone)
       else if r.count == 0 then PieceStart(r.pieces, r.name, zone) else 0)
  }

  /** Compares the named piece with the one before it; true tells the caller to stop. */
  function ServerChanged(r: Round, zone: int): (Round, bool) {
    var bad := TooShort(r.pieces, r.name) || (r.count > 0 && TooShort(r.pieces, r.count - 1));
    var r1 := if r.count > 0 then WithName(r, r.count - 1) else r;
    if Gap(r, zone) >= SECONDS_PER_DAY then
      (r1.(failed := r.failed || bad, name := if r.count >= 0 then 0 else r1.name,
           pieces := Without(r.pieces, r.count + 1), hal := None, count := 0), true)
    else (r1.(failed := r.failed || bad), bad)
  }

  /** Pieces needed for `days` days, three days a piece. */
  function PiecesFor(days: int): int {
    days / 3 + if days % 3 > 0 then 1 else 0
  }

  function CompleteRound(r: Round, days: int, started: bool): Round {
    var n := PiecesFor(days);
    Round(0, if 0 < n <= MAX_PIECES then n - 1 else r.name, false, false, Without(r.pieces, n), r.hal,
          if started then None else r.epoDat)
  }

  function FileUpdate(r: Round, days: int, started: bool, dl: Download, zone: int): Round {
    var r1 := Fetch(r, dl);
    if dl.Failed? then r1
    else
      var (r2, stop) := ServerChanged(r1, zone);
      if stop then r2
      else
        var r3 := r2.(count := r2.count + 1);
        if r3.count < MAX_PIECES && r3.count < PiecesFor(days) then r3 else CompleteRound(r3, days, started)
  }

  // ----- what EPOHAL.DAT holds -----

  /** Pieces 0..k-1 one after the other. */
  function Concat(pieces: Pieces, k: int): seq<byte>
    decreases k
  {
    if k <= 0 then [] else Concat(pieces, k - 1) + (if k - 1 in pieces then pieces[k - 1] else [])
  }

  /** Piece i exists, is readable, and begins less than a day after the piece before it ends. */
  predicate Continues(pieces: Pieces, i: int, zone: int) {
    && i in pieces && |pieces[i]| >= RECORD_SIZE
    && (i > 0 ==> PieceStart(pieces, i, zone) - PieceEnd(pieces, i - 1, zone) < SECONDS_PER_DAY)
  }

  /** EPOHAL.DAT is exactly the first k pieces, in order and without a day's gap. */
  ghost predicate MergedUpTo(pieces: Pieces, hal: Option<seq<byte>>, k: int, zone: int) {
    && (forall i :: 0 <= i < k ==> Continues(pieces, i, zone))
    && hal == Some(Concat(pieces, k))
  }

  ghost predicate Merged(r: Round, zone: int) {
    r.count > 0 ==> MergedUpTo(r.pieces, r.hal, r.count, zone)
  }

  ghost predicate Good(r: Round, zone: int) {
    0 <= r.count < MAX_PIECES && Merged(r, zone)
  }

  predicate AgreeBelow(a: Pieces, b: Pieces, k: int) {
    forall i :: 0 <= i < k && i in a ==> i in b && a[i] == b[i]
  }

  lemma {:induction false} ConcatAgree(a: Pieces, b: Pieces, k: int)
    requires AgreeBelow(a, b, k) && forall i :: 0 <= i < k ==> i in a
    ensures Concat(a, k) == Concat(b, k)
    decreases k
  {
    if k > 0 { ConcatAgree(a, b, k - 1); }
  }

  /** Only the files of the pieces counted matter. */
  lemma MergedAgree(a: Pieces, b: Pieces, hal: Option<seq<byte>>, k: int, zone: int)
    requires MergedUpTo(a, hal, k, zone) && AgreeBelow(a, b, k)
    ensures MergedUpTo(b, hal, k, zone)
  {
    forall i | 0 <= i < k
      ensures i in a && Continues(b, i, zone)
    {
      assert Continues(a, i, zone);
      if i > 0 { assert Continues(a, i - 1, zone); }
    }
    ConcatAgree(a, b, k);
  }

  /** Appending one continuing piece. */
  lemma MergedAppend(pieces: Pieces, hal: Option<seq<byte>>, k: int, piece: seq<byte>, zone: int)
    requires k >= 0 && (k > 0 ==> MergedUpTo(pieces, hal, k, zone))
    requires Continues(pieces[k := piece], k, zone)
    ensures MergedUpTo(pieces[k := piece], Some((if k == 0 || hal.None? then [] else hal.value) + piece), k + 1, zone)
  {
    var next := pieces[k := piece];
    if k > 0 { MergedAgree(pieces, next, hal, k, zone); }
    assert Concat(next, 0) == [];
    assert Concat(next, k + 1) == Concat(next, k) + piece;
  }

  // ----- the cases of a file update -----

  /** A readable piece after a day's gap: the server's data changed, and the round starts over. */
  predicate StartsOver(r: Round, piece: seq<byte>, zone: int) {
    |piece| >= RECORD_SIZE && r.count > 0
    && StartTime(piece, zone) - PieceEnd(r.pieces, r.count - 1, zone) >= SECONDS_PER_DAY
  }

  /** The round after this piece has been appended and counted, before it is perhaps closed. */
  function Appended(r: Round, piece: seq<byte>): Round {
    r.(pieces := r.pieces[r.count := piece],
       hal := Some((if r.count == 0 || r.hal.None? then [] else r.hal.value) + piece),
       count := r.count + 1, name := if r.count > 0 then r.count - 1 else r.name)
  }

  predicate RoundGoesOn(r: Round, days: int) {
    r.count + 1 < MAX_PIECES && r.count + 1 < PiecesFor(days)
  }

  lemma LongPiece(r: Round, days: int, started: bool, piece: seq<byte>, zone: int)
    requires Good(r, zone) && r.name == r.count && |piece| >= RECORD_SIZE
    ensures var r' := FileUpdate(r, days, started, Fetched(piece), zone);
            if StartsOver(r, piece, zone)
            then r'.count == 0 && r'.hal == None && r'.failed == r.failed && r'.updated == r.updated
            else if RoundGoesOn(r, days) then r' == Appended(r, piece)
            else r' == CompleteRound(Appended(r, piece), days, started)
    ensures !StartsOver(r, piece, zone) ==>
              MergedUpTo(Appended(r, piece).pieces, Appended(r, piece).hal, r.count + 1, zone)
  {
    hide MergedUpTo, StartTime, EndTime;
    var r1 := Fetch(r, Fetched(piece));
    if r.count > 0 {
      assert Continues(r.pieces, r.count - 1, zone) by { LastContinues(r, zone); }
    }
    if !StartsOver(r, piece, zone) {
      MergedAppend(r.pieces, r.hal, r.count, piece, zone);
    }
  }

  lemma LastContinues(r: Round, zone: int)
    requires Merged(r, zone) && r.count > 0
    ensures Continues(r.pieces, r.count - 1, zone) && r.hal.Some?
  {
  }

  /** A piece shorter than a record fails the round but stays appended. */
  lemma ShortPiece(r: Round, days: int, started: bool, piece: seq<byte>, zone: int)
    requires Good(r, zone) && IsZone(zone) && r.name == r.count && |piece| < RECORD_SIZE
    ensures FileUpdate(r, days, started, Fetched(piece), zone)
         == Appended(r, piece).(count := r.count, failed := true)
  {
  }

  /** The piece can be read, or adds no bytes. */
  predicate Whole(dl: Download) {
    dl.Fetched? ==> |dl.piece| >= RECORD_SIZE || dl.piece == []
  }

  /**
   A file update keeps EPOHAL.DAT equal to the pieces counted so far exactly when it does not
   append a piece too short to be read: such a piece stays in the file although it is not counted,
   and the resumed download appends it again.
   */
  lemma FileUpdateKeepsMergedIff(r: Round, days: int, started: bool, dl: Download, zone: int)
    requires Good(r, zone) && IsZone(zone) && r.name == r.count
    ensures Merged(FileUpdate(r, days, started, dl, zone), zone) <==> r.count == 0 || Whole(dl)
    ensures 0 <= FileUpdate(r, days, started, dl, zone).count < MAX_PIECES
  {
    var r' := FileUpdate(r, days, started, dl, zone);
    match dl
    case Failed(removed) =>
      if r.count > 0 { MergedAgree(r.pieces, r'.pieces, r.hal, r.count, zone); }
    case Fetched(piece) =>
      if |piece| >= RECORD_SIZE {
        hide FileUpdate, MergedUpTo;
        LongPiece(r, days, started, piece, zone);
      } else {
        hide FileUpdate;
        ShortPiece(r, days, started, piece, zone);
        if r.count > 0 {
          ShortAppendMerges(r.pieces, r.hal.value, r.count, piece, zone);
        }
      }
  }

  lemma ShortAppendMerges(pieces: Pieces, hal: seq<byte>, k: int, piece: seq<byte>, zone: int)
    requires k > 0 && MergedUpTo(pieces, Some(hal), k, zone)
    ensures MergedUpTo(pieces[k := piece], Some(hal + piece), k, zone) <==> piece == []
  {
    MergedAgree(pieces, pieces[k := piece], Some(hal), k, zone);
    assert hal + [] == hal;
    if piece != [] { assert |hal + piece| != |hal|; }
  }

  /** The consequence: the next good piece is counted behind a short one that stays in the file. */
  lemma ShortPieceStays(r: Round, days: int, started: bool, short: seq<byte>, piece: seq<byte>, zone: int)
    requires Good(r, zone) && IsZone(zone) && r.name == r.count > 0
    requires 0 < |short| < RECORD_SIZE <= |piece|
    requires !StartsOver(r, piece, zone) && RoundGoesOn(r, days)
    ensures var r1 := FileUpdate(r, days, started, Fetched(short), zone);
            var r2 := FileUpdate(WithName(r1, r1.count), days, started, Fetched(piece), zone);
            && r2.count == r.count + 1
            && r.hal.Some? && r2.hal == Some(r.hal.value + short + piece)
            && !Merged(r2, zone)
  {
    hide FileUpdate, StartTime, EndTime;
    ShortPiece(r, days, started, short, zone);
    var r1 := WithName(Appended(r, short).(count := r.count, failed := true), r.count);
    var clean := r1.(hal := r.hal);
    MergedAgree(r.pieces, r1.pieces, r.hal, r.count, zone);
    SamePath(r1, clean, days, started, piece, zone);
    LongPiece(clean, days, started, piece, zone);
    var hal := r.hal.value;
    assert |hal + short + piece| != |hal + piece|;
  }

  /** What is in EPOHAL.DAT plays no part in the decisions of a file update. */
  lemma SamePath(r: Round, s: Round, days: int, started: bool, piece: seq<byte>, zone: int)
    requires r.hal.Some? && s.hal.Some? && r.count > 0 && r == s.(hal := r.hal) && r.name == r.count
    ensures var r' := FileUpdate(r, days, started, Fetched(piece), zone);
            var s' := FileUpdate(s, days, started, Fetched(piece), zone);
            && r' == s'.(hal := r'.hal)
            && (s'.hal.Some? ==> s'.hal.value == s.hal.value + piece && r'.hal == Some(r.hal.value + piece))
  {
    hide StartTime, EndTime, PieceStart, PieceEnd, Without;
  }

  // ----- the length of a round -----

  /** max(1, ceil(days / 3)). */
  function RoundLength(days: int): (n: int)
    requires 0 <= days <= 30
    ensures 1 <= n <= MAX_PIECES
    ensures 3 * n >= days && (n > 1 ==> 3 * (n - 1) < days)
  {
    if days == 0 then 1 else PiecesFor(days)
  }

  /** The update closes the round with this piece. */
  predicate Closes(r: Round, days: int, dl: Download, zone: int) {
    dl.Fetched? && |dl.piece| >= RECORD_SIZE && !StartsOver(r, dl.piece, zone) && !RoundGoesOn(r, days)
  }

  /**
   Within a round of at most RoundLength(days) pieces, an update either stays inside it or closes
   it with piece number RoundLength(days); then EPOHAL.DAT is exactly that many pieces in order.
   */
  lemma RoundClosesExactly(r: Round, days: int, started: bool, dl: Download, zone: int)
    requires Good(r, zone) && IsZone(zone) && r.name == r.count && 0 <= days <= 30
    requires r.count < RoundLength(days)
    ensures var r' := FileUpdate(r, days, started, dl, zone);
            && r'.count < RoundLength(days)
            && (Closes(r, days, dl, zone) ==>
                  && r.count + 1 == RoundLength(days)
                  && r' == CompleteRound(Appended(r, dl.piece), days, started)
                  && MergedUpTo(Appended(r, dl.piece).pieces, r'.hal, RoundLength(days), zone))
  {
    if dl.Fetched? {
      if |dl.piece| >= RECORD_SIZE {
        LongPiece(r, days, started, dl.piece, zone);
      } else {
        ShortPiece(r, days, started, dl.piece, zone);
      }
    }
  }

  // ----- what an update leaves on disk -----

  /** `after` holds the files of `before` except those from 0 to n-1. */
  ghost predicate OnlyFrom(n: int, before: Pieces, after: Pieces) {
    && (forall i :: i in after <==> i in before && !(0 <= i < n))
    && (forall i :: i in after ==> after[i] == before[i])
  }

  /**
   A failed download touches at most its own piece file. A piece after a day's gap takes all piece
   files of the round and EPOHAL.DAT with it. The last piece of a round takes the piece files of
   the configured days, three days each, with it, and EPO.DAT if a session is on; EPO.DAT stays in
   every other case.
   */
  lemma UpdateLeaves(r: Round, days: int, started: bool, dl: Download, zone: int)
    requires Good(r, zone) && IsZone(zone) && r.name == r.count && 0 <= days <= 30
    ensures var r' := FileUpdate(r, days, started, dl, zone);
            && (dl.Failed? ==>
                  && r'.hal == r.hal && r'.count == r.count && r'.failed && r'.updated == r.updated
                  && r'.pieces == if dl.fileRemoved then r.pieces - {r.count} else r.pieces)
            && (dl.Fetched? && StartsOver(r, dl.piece, zone) ==>
                  r'.count == 0 && r'.hal == None && OnlyFrom(r.count + 1, r.pieces, r'.pieces))
            && (Closes(r, days, dl, zone) ==>
                  && OnlyFrom((days + 2) / 3, r.pieces[r.count := dl.piece], r'.pieces)
                  && r'.count == 0 && !r'.updated && !r'.failed)
            && r'.epoDat == if Closes(r, days, dl, zone) && started then None else r.epoDat
  {
    hide MergedUpTo, StartTime, EndTime;
    if dl.Fetched? {
      if |dl.piece| >= RECORD_SIZE {
        if r.count > 0 {
          assert Continues(r.pieces, r.count - 1, zone) by { LastContinues(r, zone); }
        }
      } else {
        hide FileUpdate;
        ShortPiece(r, days, started, dl.piece, zone);
      }
    }
  }
}

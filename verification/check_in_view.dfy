/** What the operator console (src/App.tsx) does with the server's replies:
    the "signed today" flag, the branches of `checkParticipant` on a
    check-in reply, the refresh of the participant list, and the guard of
    the manual-entry form. Each reply arrives as a parameter; the clock
    enters only as the start of the current local day. */
module CheckInView {
  import opened Optional
  import opened Text
  import opened Roster

  // ---------------------------------------------------------------------
  // "Signed today"

  /** `checkIns.some(checkIn => new Date(checkIn) >= today)`, where
      `todayStart` is local midnight of the current day. */
  function SignedToday(history: seq<int>, todayStart: int): (r: bool)
    ensures r <==> exists i :: 0 <= i < |history| && history[i] >= todayStart
  {
    |history| > 0 && (history[0] >= todayStart || SignedToday(history[1..], todayStart))
  }

  /** An empty history is never signed today. */
  lemma NotSignedWithoutCheckIns(todayStart: int)
    ensures !SignedToday([], todayStart)
  {
  }

  /** Appending a check-in can only turn the flag on, and turns it on
      exactly when the new check-in is today. */
  lemma SignedTodayAppend(history: seq<int>, t: int, todayStart: int)
    ensures SignedToday(history + [t], todayStart) <==> SignedToday(history, todayStart) || t >= todayStart
  {
    var h := history + [t];
    if SignedToday(history, todayStart) {
      var i :| 0 <= i < |history| && history[i] >= todayStart;
      assert h[i] == history[i];
    }
    if SignedToday(h, todayStart) {
      var i :| 0 <= i < |h| && h[i] >= todayStart;
      if i < |history| {
        assert history[i] == h[i];
      }
    }
    assert h[|history|] == t;
  }

  /** Signed since a midnight means signed since every earlier midnight. */
  lemma {:induction false} SignedTodayAntitone(history: seq<int>, earlier: int, later: int)
    requires earlier <= later
    requires SignedToday(history, later)
    ensures SignedToday(history, earlier)
  {
    if history[0] < later {
      SignedTodayAntitone(history[1..], earlier, later);
    }
  }

  // ---------------------------------------------------------------------
  // Replies and console state

  /** The body of a check-in reply. */
  datatype CheckInReply = CheckInReply(
    participant: Option<Participant>,
    message: string,
    isDuplicate: bool,
    dailyCheckInCount: int,
    totalPeople: int)

  /** How an HTTP request ends: a body, an error status with the server's
      message, or no response at all. */
  datatype Response<T> = Delivered(data: T) | HttpError(status: nat, message: string) | NoResponse

  /** The state the console keeps for the check-in area and the list. */
  datatype Console = Console(
    participant: Option<Participant>,
    lastCheckInStatus: string,
    error: Option<string>,
    dailyCheckInCount: int,
    totalPeople: int,
    manualEntry: string,
    participants: seq<Participant>)

  const DuplicateSuffix: string := " (重複簽到)"
  const CheckFailedText: string := "檢查參與者時發生錯誤"
  const UnknownErrorText: string := "發生未知錯誤"
  const FetchFailedText: string := "無法獲取參與者資料。請稍後再試。"
  const ErrorPrefix: string := "錯誤："

  /** `ID: <id> - ` opens every status line written for a check-in. */
  function StatusHead(id: string): string {
    "ID: " + id + " - "
  }

  /** The status line of a reply that carries a participant. */
  function StatusLine(id: string, message: string, isDuplicate: bool): (r: string)
    ensures StartsWith(r, StatusHead(id) + message)
    ensures |r| == |StatusHead(id) + message| + (if isDuplicate then |DuplicateSuffix| else 0)
    ensures isDuplicate ==> r[|StatusHead(id) + message|..] == DuplicateSuffix
  {
    var base := StatusHead(id) + message;
    assert (base + DuplicateSuffix)[..|base|] == base;
    assert (base + DuplicateSuffix)[|base|..] == DuplicateSuffix;
    if isDuplicate then base + DuplicateSuffix else base
  }

  /** The duplicate flag can be read back from the status line: for a given
      id and message the two lines differ, and the flagged one ends with the
      suffix. */
  lemma StatusLineShowsDuplicate(id: string, message: string)
    ensures StatusLine(id, message, true) != StatusLine(id, message, false)
    ensures StatusLine(id, message, true)[|StatusLine(id, message, false)|..] == DuplicateSuffix
  {
    var base := StatusHead(id) + message;
    assert (base + DuplicateSuffix)[|base|..] == DuplicateSuffix;
  }

  /** The whole of the `catch` block of `checkParticipant`. */
  function CheckFailed(c: Console, id: string, error: string): (r: Console)
    ensures r.participant == None && r.error == Some(error)
    ensures r.lastCheckInStatus == StatusHead(id) + CheckFailedText
    ensures r.(lastCheckInStatus := c.lastCheckInStatus, participant := c.participant, error := c.error) == c
  {
    var s := StatusHead(id) + CheckFailedText;
    assert s[..|StatusHead(id)|] == StatusHead(id);
    c.(lastCheckInStatus := s, participant := None, error := Some(error))
  }

  /** `fetchParticipants`: on a delivered list, the console shows the
      rows keyed by id and sorted; otherwise only the error changes. */
  function FetchParticipants(c: Console, reply: Response<seq<Participant>>): (r: Console)
    ensures reply.Delivered? ==>
      && NonIncreasing(r.participants) && DistinctIds(r.participants)
      && IdsOf(r.participants) == IdsOf(reply.data)
      && |r.participants| == |IdsOf(reply.data)|
      && (forall i :: 0 <= i < |r.participants| ==> r.participants[i] == LastRow(reply.data, r.participants[i].id))
      && (forall k :: WithKey(r.participants, k) == WithKey(KeyById(reply.data), k))
      && r.error == None
    ensures !reply.Delivered? ==> r.participants == c.participants && r.error == Some(FetchFailedText)
    ensures r.(participants := c.participants, error := c.error) == c
  {
    match reply
    case Delivered(rows) =>
      ViewKeepsTieOrder(rows);
      c.(participants := ParticipantsView(rows), error := None)
    case _ => c.(error := Some(FetchFailedText))
  }

  /** `fetchParticipantsOnLogin`: the same refresh, and `totalPeople` set to
      the number of keys. */
  function FetchParticipantsOnLogin(c: Console, reply: Response<seq<Participant>>): (r: Console)
    ensures reply.Delivered? ==>
      && r.participants == FetchParticipants(c, reply).participants
      && r.totalPeople == |IdsOf(reply.data)|
      && r.error == None
    ensures r.(participants := c.participants, totalPeople := c.totalPeople, error := c.error) == c
    ensures !reply.Delivered? ==> r == FetchParticipants(c, reply)
  {
    match reply
    case Delivered(rows) =>
      var view := ParticipantsView(rows);
      c.(participants := view, totalPeople := |view|, error := None)
    case _ => c.(error := Some(FetchFailedText))
  }

  /** The reply was accepted for display: it carries a participant whose
      history is present (otherwise `.some` on it throws). */
  predicate Shown(reply: Response<CheckInReply>) {
    reply.Delivered? && reply.data.participant.Some? && reply.data.participant.value.checkIns.Some?
  }

  /** `checkParticipant(id)` once the check-in request has ended with
      `reply` and, when the reply is shown, the list refresh it awaits has
      ended with `refetch`. */
  function CheckParticipant(
    c: Console, id: string, reply: Response<CheckInReply>, todayStart: int,
    refetch: Response<seq<Participant>>): (r: Console)
    // every branch reports the id as it was submitted
    ensures StartsWith(r.lastCheckInStatus, StatusHead(id))
    ensures r.participant.Some? <==> Shown(reply)
    ensures Shown(reply) ==>
      var p := reply.data.participant.value;
      && r.participant.value.id == id
      && r.participant.value.(id := p.id, signedToday := p.signedToday) == p
      && (r.participant.value.signedToday <==>
          exists i :: 0 <= i < |p.checkIns.value| && p.checkIns.value[i] >= todayStart)
      && r.lastCheckInStatus == StatusHead(id) + reply.data.message + (if reply.data.isDuplicate then DuplicateSuffix else "")
      && r.participants == (if refetch.Delivered? then FetchParticipants(c, refetch).participants else c.participants)
      && r.dailyCheckInCount == reply.data.dailyCheckInCount
      && r.totalPeople == reply.data.totalPeople
      && r.manualEntry == ""
      && r.error == None
    ensures reply.Delivered? && reply.data.participant.None? ==>
      && r.lastCheckInStatus == StatusHead(id) + reply.data.message
      && r.error == None
    // the `catch` block: a missing history, an HTTP error or no response
    ensures !Shown(reply) && !(reply.Delivered? && reply.data.participant.None?) ==>
      && r.participant == None
      && r.lastCheckInStatus == StatusHead(id) + CheckFailedText
      && r.error == Some(if reply.HttpError? then ErrorPrefix + NatToDecimal(reply.status) + " - " + reply.message
                         else UnknownErrorText)
    // only a shown reply touches the counters, the list and the entry field
    ensures !Shown(reply) ==>
      && r.dailyCheckInCount == c.dailyCheckInCount
      && r.totalPeople == c.totalPeople
      && r.manualEntry == c.manualEntry
      && r.participants == c.participants
  {
    match reply
    case Delivered(d) =>
      (match d.participant
       case Some(p) =>
         (match p.checkIns
          case Some(history) =>
            var shown := p.(id := id, signedToday := SignedToday(history, todayStart));
            var status := StatusLine(id, d.message, d.isDuplicate);
            StatusLineShowsDuplicate(id, d.message);
            assert StartsWith(status, StatusHead(id)) by {
              assert status[..|StatusHead(id)|] == (StatusHead(id) + d.message)[..|StatusHead(id)|];
            }
            var c1 := c.(participant := Some(shown), lastCheckInStatus := status,
                         dailyCheckInCount := d.dailyCheckInCount, totalPeople := d.totalPeople);
            FetchParticipants(c1, refetch).(manualEntry := "", error := None)
          case None =>
            CheckFailed(c, id, UnknownErrorText))
       case None =>
         var status := StatusHead(id) + d.message;
         assert status[..|StatusHead(id)|] == StatusHead(id);
         c.(participant := None, lastCheckInStatus := status, error := None))
    case HttpError(code, message) =>
      CheckFailed(c, id, ErrorPrefix + NatToDecimal(code) + " - " + message)
    case NoResponse =>
      CheckFailed(c, id, UnknownErrorText)
  }

  /** A refresh that fails after an accepted check-in leaves no error on
      screen: the `setError(null)` after it overwrites its message. */
  lemma RefreshErrorIsOverwritten(
    c: Console, id: string, reply: Response<CheckInReply>, todayStart: int)
    requires Shown(reply)
    ensures CheckParticipant(c, id, reply, todayStart, NoResponse).error == None
    ensures CheckParticipant(c, id, reply, todayStart, NoResponse).participants == c.participants
  {
  }

  /** `handleManualSubmit`: the typed text is submitted only when it holds a
      non-space character, and then it is submitted as typed, untrimmed; the
      field is cleared afterwards. */
  function ManualSubmit(
    c: Console, reply: Response<CheckInReply>, todayStart: int,
    refetch: Response<seq<Participant>>): (r: Console)
    ensures (forall k :: 0 <= k < |c.manualEntry| ==> IsJsSpace(c.manualEntry[k])) ==> r == c
    ensures (exists k :: 0 <= k < |c.manualEntry| && !IsJsSpace(c.manualEntry[k])) ==>
      && StartsWith(r.lastCheckInStatus, StatusHead(c.manualEntry))
      && r.manualEntry == ""
      && r == CheckParticipant(c, c.manualEntry, reply, todayStart, refetch).(manualEntry := "")
      && (Shown(reply) ==> r.participant.Some? && r.participant.value.id == c.manualEntry)
  {
    TrimEmptyIffAllSpace(c.manualEntry);
    if Trim(c.manualEntry) != [] then
      CheckParticipant(c, c.manualEntry, reply, todayStart, refetch).(manualEntry := "")
    else
      c
  }

  /** Surrounding spaces reach the server: `" 42 "` is submitted as is. */
  lemma ManualSubmitKeepsSpaces(c: Console, reply: Response<CheckInReply>, todayStart: int,
                                refetch: Response<seq<Participant>>)
    requires c.manualEntry == " 42 "
    requires Shown(reply)
    ensures ManualSubmit(c, reply, todayStart, refetch).participant.Some?
    ensures ManualSubmit(c, reply, todayStart, refetch).participant.value.id == " 42 "
  {
    assert !IsJsSpace(c.manualEntry[1]);
  }
}

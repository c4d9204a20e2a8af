/** The contract between the dispatcher and a command handler's `process`
    function in sigma_dut.h: `process` returns one of four integer codes,
    and each code tells the caller which `sigma_status` it must then send,
    if any. The codes become a tagged datatype; the integers stay available
    through `ResultCode` and its inverse `ResultOfCode`. */
module ProcessStatus {
  import opened Wrappers

  /** `enum sigma_status`: the four statuses of a response line, in
      declaration order (so their C values are 0, 1, 2 and 3). */
  datatype SigmaStatus = Running | Invalid | Error | Complete

  /** The C value of each `sigma_status` enumerator. */
  function StatusValue(s: SigmaStatus): (v: nat)
    ensures v < 4
    ensures StatusOfValue(v) == Some(s)
  {
    match s
    case Running => 0
    case Invalid => 1
    case Error => 2
    case Complete => 3
  }

  /** The enumerator with C value v, if v is one. */
  function StatusOfValue(v: int): (s: Option<SigmaStatus>)
    ensures s.Some? <==> 0 <= v < 4
  {
    if v == 0 then Some(Running)
    else if v == 1 then Some(Invalid)
    else if v == 2 then Some(Error)
    else if v == 3 then Some(Complete)
    else None
  }

  /** The four outcomes a handler's `process` may report. */
  datatype ProcessResult =
    | ErrorCallerSendStatus    // failed, caller will send status,ERROR
    | InvalidCallerSendStatus  // failed, caller will send status,INVALID
    | SuccessStatusSent        // success, the handler already sent the response
    | SuccessCallerSendStatus  // success, caller will send status,COMPLETE
  {
    predicate Failed() {
      ErrorCallerSendStatus? || InvalidCallerSendStatus?
    }
  }

  const SIGMA_DUT_ERROR_CALLER_SEND_STATUS: int := -2
  const SIGMA_DUT_INVALID_CALLER_SEND_STATUS: int := -1
  const SIGMA_DUT_SUCCESS_STATUS_SENT: int := 0
  const SIGMA_DUT_SUCCESS_CALLER_SEND_STATUS: int := 1

  /** The integer `process` returns for each outcome. The code is negative
      exactly for the failures, and the outcome can be read back from it,
      so the four codes are pairwise distinct. */
  function ResultCode(r: ProcessResult): (c: int)
    ensures SIGMA_DUT_ERROR_CALLER_SEND_STATUS <= c <= SIGMA_DUT_SUCCESS_CALLER_SEND_STATUS
    ensures c < 0 <==> r.Failed()
    ensures ResultOfCode(c) == Some(r)
  {
    match r
    case ErrorCallerSendStatus => SIGMA_DUT_ERROR_CALLER_SEND_STATUS
    case InvalidCallerSendStatus => SIGMA_DUT_INVALID_CALLER_SEND_STATUS
    case SuccessStatusSent => SIGMA_DUT_SUCCESS_STATUS_SENT
    case SuccessCallerSendStatus => SIGMA_DUT_SUCCESS_CALLER_SEND_STATUS
  }

  /** The outcome a returned integer stands for; integers other than the
      four codes stand for none (the header does not say what a caller does
      with them). */
  function ResultOfCode(c: int): (r: Option<ProcessResult>)
    ensures r.Some? <==> -2 <= c <= 1
  {
    if c == SIGMA_DUT_ERROR_CALLER_SEND_STATUS then Some(ErrorCallerSendStatus)
    else if c == SIGMA_DUT_INVALID_CALLER_SEND_STATUS then Some(InvalidCallerSendStatus)
    else if c == SIGMA_DUT_SUCCESS_STATUS_SENT then Some(SuccessStatusSent)
    else if c == SIGMA_DUT_SUCCESS_CALLER_SEND_STATUS then Some(SuccessCallerSendStatus)
    else None
  }

  /** What the caller of `process` does next. */
  datatype CallerAction = SendStatus(status: SigmaStatus) | SendNothing

  /** The caller's action for each outcome of `process`. The caller stays
      silent exactly when the handler reported that it already responded;
      a failure is answered with INVALID or ERROR, a success with COMPLETE;
      RUNNING is never sent on the handler's behalf. ERROR goes with code
      -2 and INVALID with code -1, and with no other code. */
  function CallerActionFor(r: ProcessResult): (a: CallerAction)
    ensures a == SendNothing <==> r == SuccessStatusSent
    ensures a == SendStatus(Error) <==> ResultCode(r) == SIGMA_DUT_ERROR_CALLER_SEND_STATUS
    ensures a == SendStatus(Invalid) <==> ResultCode(r) == SIGMA_DUT_INVALID_CALLER_SEND_STATUS
    ensures a.SendStatus? ==> a.status != Running
    ensures r.Failed() <==> a in {SendStatus(Invalid), SendStatus(Error)}
    ensures !r.Failed() ==> a in {SendNothing, SendStatus(Complete)}
  {
    match r
    case ErrorCallerSendStatus => SendStatus(Error)
    case InvalidCallerSendStatus => SendStatus(Invalid)
    case SuccessStatusSent => SendNothing
    case SuccessCallerSendStatus => SendStatus(Complete)
  }

  /** The caller's action for a returned integer, as the comment on
      `process` lists it: -2 sends ERROR, -1 sends INVALID, 0 sends
      nothing, 1 sends COMPLETE; other integers have no documented action. */
  function CallerActionForCode(c: int): (a: Option<CallerAction>)
    ensures c == -2 ==> a == Some(SendStatus(Error))
    ensures c == -1 ==> a == Some(SendStatus(Invalid))
    ensures c == 0 ==> a == Some(SendNothing)
    ensures c == 1 ==> a == Some(SendStatus(Complete))
    ensures a.None? <==> !(-2 <= c <= 1)
  {
    match ResultOfCode(c)
    case Some(r) => Some(CallerActionFor(r))
    case None => None
  }

  /** Distinct outcomes lead to distinct caller actions: the action the
      caller takes identifies what the handler reported. */
  lemma CallerActionInjective(r1: ProcessResult, r2: ProcessResult)
    ensures CallerActionFor(r1) == CallerActionFor(r2) <==> r1 == r2
  {
  }
}

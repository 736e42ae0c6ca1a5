/** The server's single in-memory control record and the three ways the
    request handlers change it: the set-point decision taken on every
    directive poll, the manual override, and the ingest of a reading.
    Time is an integer count of microseconds, the resolution of Python's
    `datetime`; the handlers read the clock themselves, here it is passed in. */
module Control {
  import opened Results
  import PyText

  /** The set point that means "heater off". */
  const Idle := 6
  /** The set point written when heating seems to have run too long. */
  const Fallback := 7
  /** `datetime.timedelta(hours=1)` in microseconds. */
  const OneHour := 3_600_000_000

  /** `AppState`: the last reading, the set point, and when the set point was
      last written by an override. */
  datatype AppState = AppState(currentTemp: int, setTemp: int, setTempTime: int)

  /** `AppState()` constructed at time `now`: no reading yet, heater off,
      stamped at start-up. */
  function Init(now: int): (s: AppState)
    ensures s.currentTemp == 0 && s.setTemp == Idle && s.setTempTime == now
  {
    AppState(0, Idle, now)
  }

  /** The state after a poll and the SetTemp value the directive carries. */
  datatype Decision = Decision(next: AppState, directive: int)

  /** The set-point decision of `updated()`. Below the set point, the set
      point is kept while its stamp is earlier than one hour AFTER `now`, and
      replaced by 7 otherwise; at or above it the set point becomes 6,
      whatever it was. The stamp is never touched. */
  function Decide(s: AppState, now: int): (d: Decision)
    ensures d.directive == d.next.setTemp
    ensures d.next.currentTemp == s.currentTemp && d.next.setTempTime == s.setTempTime
    ensures s.currentTemp >= s.setTemp ==> d.next.setTemp == Idle
    ensures s.currentTemp < s.setTemp && s.setTempTime < now + OneHour ==> d.next == s
    ensures s.currentTemp < s.setTemp && s.setTempTime >= now + OneHour ==> d.next.setTemp == Fallback
  {
    if s.currentTemp < s.setTemp then
      if s.setTempTime < now + OneHour then
        Decision(s, s.setTemp)
      else
        var next := s.(setTemp := Fallback);
        Decision(next, next.setTemp)
    else
      var next := s.(setTemp := Idle);
      Decision(next, next.setTemp)
  }

  /** A stamp that is not in the future never triggers the fallback: the
      timeout test compares the stamp with one hour after `now`, so the set
      point only ever stays or drops to 6. */
  lemma NoFallbackForPastStamp(s: AppState, now: int)
    requires s.setTempTime <= now
    ensures Decide(s, now).next.setTemp == s.setTemp || Decide(s, now).next.setTemp == Idle
  {
  }

  /** Heating from 5 towards 20 keeps asking for 20 whether the set point was
      written 30 or 90 minutes ago: an hour of heating does not stop it. */
  lemma HourOldRequestStillHeats(now: int)
    ensures Decide(AppState(5, 20, now - 30 * 60_000_000), now).directive == 20
    ensures Decide(AppState(5, 20, now - 90 * 60_000_000), now).directive == 20
  {
  }

  /** Until a report arrives, every poll after start-up asks for 6 and leaves
      the start-up state as it is. */
  lemma StartsIdle(start: int, now: int)
    requires start <= now
    ensures Decide(Init(start), now) == Decision(Init(start), Idle)
  {
  }

  /** Within the timeout window a second poll at the same time changes
      nothing: the decision is idempotent. */
  lemma DecideIdempotent(s: AppState, now: int)
    requires s.setTempTime < now + OneHour
    ensures Decide(Decide(s, now).next, now) == Decide(s, now)
  {
  }

  /** Once idle with the reading at or above 6, every further poll leaves the
      state as it is. */
  lemma IdleIsStable(s: AppState, now: int)
    requires s.setTemp == Idle && s.currentTemp >= Idle
    ensures Decide(s, now).next == s && Decide(s, now).directive == Idle
  {
  }

  /** The value of the `set_temp` argument, -1 when it is absent. */
  function Requested(arg: Option<int>): int {
    arg.GetOr(-1)
  }

  /** What the `set_temp` route leaves behind: the new state and the response
      body, None when the handler falls through without returning one. */
  datatype OverrideReply = OverrideReply(next: AppState, body: Option<string>)

  /** The `set_temp` route. A non-negative request becomes the set point,
      stamped with `now`, and is echoed as `temp_set:<value>`; a negative or
      absent request changes nothing. The reading is never changed. */
  function Override(s: AppState, arg: Option<int>, now: int): (r: OverrideReply)
    ensures r.next.currentTemp == s.currentTemp
    ensures Requested(arg) >= 0 ==> r.next.setTemp == Requested(arg) && r.next.setTempTime == now
    ensures Requested(arg) >= 0 <==> r.body.Some?
    ensures Requested(arg) < 0 ==> r.next == s
  {
    var v := Requested(arg);
    if v >= 0 then
      OverrideReply(s.(setTemp := v, setTempTime := now), Some("temp_set:" + PyText.Decimal(v)))
    else
      OverrideReply(s, None)
  }

  /** The reply body names the value that was set: the text after
      `temp_set:` reads back as the request. */
  lemma OverrideReplyNamesValue(s: AppState, arg: Option<int>, now: int)
    requires Override(s, arg, now).body.Some?
    ensures var body := Override(s, arg, now).body.value;
      |body| > 9 && body[..9] == "temp_set:" &&
      PyText.IsDecimal(body[9..]) && PyText.ParseInt(body[9..]) == Requested(arg)
  {
    var body := Override(s, arg, now).body.value;
    assert body[9..] == PyText.Decimal(Requested(arg));
    PyText.DecimalRoundTrip(Requested(arg));
  }

  /** What `main_page` shows when it does not redirect. */
  datatype MainView =
    | Redirect
    | Render(currentTemp: int, setTemp: int, requested: int, setTempTime: int)

  /** The `main` route: the same override as `set_temp`, answered with a
      redirect when it took effect and with the page showing the unchanged
      state otherwise. */
  function MainPage(s: AppState, arg: Option<int>, now: int): (r: (AppState, MainView))
    ensures r.0 == Override(s, arg, now).next
    ensures r.1.Redirect? <==> Requested(arg) >= 0
    ensures r.1.Render? ==> r.1 == Render(s.currentTemp, s.setTemp, Requested(arg), s.setTempTime)
  {
    var v := Requested(arg);
    if v >= 0 then
      (s.(setTemp := v, setTempTime := now), Redirect)
    else
      (s, Render(s.currentTemp, s.setTemp, v, s.setTempTime))
  }

  /** The `espcreate` route's state change: the reported `CurTemp`, 0 when it
      is missing, becomes the reading; nothing else changes. */
  function Ingest(s: AppState, curTemp: Option<int>): (r: AppState)
    ensures r.currentTemp == (if curTemp.Some? then curTemp.value else 0)
    ensures r.setTemp == s.setTemp && r.setTempTime == s.setTempTime
  {
    s.(currentTemp := curTemp.GetOr(0))
  }

  /** Only the latest report matters. */
  lemma LatestReportWins(s: AppState, a: Option<int>, b: Option<int>)
    ensures Ingest(Ingest(s, a), b) == Ingest(s, b)
  {
  }
}

/** The listeners `downloadVideo` and `downloadAudio` attach to the
    downloader process's event emitter, modelled once for both kinds of
    download as a state machine over the emitter's events. The wall clock is
    the `now` carried by each progress event. */
module Download {
  import opened Text
  import opened Number
  import opened Formatters
  import opened PosixPath

  /** Which download was started; it only changes the success message. */
  datatype Kind = Video | Audio

  /** `progress.percent` as the emitter delivers it: absent, a number, or a
      string such as " 42.5%". */
  datatype PercentField = NoPercent | NumericPercent(n: Number) | TextPercent(text: string)

  /** A progress event's payload. An absent size, speed or ETA is the empty
      string: both are falsy and print the same placeholder. */
  datatype Progress = Progress(percent: PercentField, totalSize: string, currentSpeed: string, eta: string)

  datatype Event =
    | ProgressEvent(now: int, progress: Progress)
    | ToolEvent(eventType: string, data: string)
    | ErrorEvent(message: string)
    | CloseEvent

  /** The state of the promise the download returns. */
  datatype Settlement = Pending | Resolved | Rejected(reason: string)

  /** The closure variables the listeners share, plus the promise state. */
  datatype Handler = Handler(started: bool, lastUpdate: int, fileName: string, settlement: Settlement)

  /** One redraw of the progress line: the percentage (which determines the
      bar, see FrameBar), the size, the speed and the ETA as printed. */
  datatype Frame = Frame(percent: Number, size: string, speed: string, eta: string)

  /** What the listeners print. */
  datatype Effect =
    | StartNotice
    | Render(at: int, frame: Frame)
    | FailureNotice
    | SuccessNotice(kind: Kind, shownFile: Option<string>)

  /** One listener invocation: the state after it, what it printed, and
      whether it threw (the exception leaves the listener). */
  datatype Reaction = Reaction(next: Handler, effects: seq<Effect>, threw: bool)

  /** A run over a sequence of events: the final state, everything printed,
      how many events were handled, and whether a listener threw. */
  datatype Trace = Trace(final: Handler, effects: seq<Effect>, consumed: nat, crashed: bool)

  /** Redraws happen only when strictly more than this many milliseconds
      have passed since the last accepted progress event. */
  const ThrottleMs: int := 300
  const DestinationMarker := "Destination: "
  const NoValue := "---"
  const NoEta := "--:--"

  /** The state right after the process is spawned at `spawnTime`. */
  function Spawned(spawnTime: int): (h: Handler)
    ensures !h.started && h.lastUpdate == spawnTime && h.fileName == "" && h.settlement == Pending
  {
    Handler(false, spawnTime, "", Pending)
  }

  // ---------------------------------------------------------------------------
  // Percent parsing

  /** `if (progress.percent)`: an empty string, 0 and NaN are falsy. */
  predicate PercentPresent(p: PercentField) {
    match p
    case NoPercent => false
    case NumericPercent(n) => Truthy(n)
    case TextPercent(t) => |t| > 0
  }

  /** The percentage drawn: a number as is (parseFloat of a number is the
      number), a string with its first `%` removed, trimmed, then parsed. */
  function PercentValue(p: PercentField): Number {
    match p
    case NoPercent => NaN
    case NumericPercent(n) => n
    case TextPercent(t) => ParseFloat(Trim(RemoveFirst(t, '%')))
  }

  /** `value || fallback` on a string. */
  function OrElse(s: string, fallback: string): (r: string)
    ensures |s| > 0 ==> r == s
    ensures |s| == 0 ==> r == fallback
  {
    if |s| > 0 then s else fallback
  }

  // ---------------------------------------------------------------------------
  // The 'progress' listener

  /** The throttle test `now - lastUpdate > 300`. */
  predicate Passes(h: Handler, now: int) {
    now - h.lastUpdate > ThrottleMs
  }

  /** What the accepted part of the 'progress' listener does with the
      percentage: nothing when it is falsy, throw when the bar cannot be
      drawn, otherwise redraw. */
  datatype Outcome = Quiet | Throws | Draws(frame: Frame)

  function Attempt(progress: Progress): (o: Outcome)
    ensures o.Quiet? <==> !PercentPresent(progress.percent)
    ensures o.Throws? <==> PercentPresent(progress.percent) && !Drawable(PercentValue(progress.percent))
    ensures o.Draws? ==> o.frame.percent == PercentValue(progress.percent) && Drawable(o.frame.percent)
  {
    if PercentPresent(progress.percent) then
      var percent := PercentValue(progress.percent);
      if Drawable(percent) then
        Draws(Frame(percent, OrElse(progress.totalSize, NoValue),
                    OrElse(progress.currentSpeed, NoValue), OrElse(progress.eta, NoEta)))
      else Throws
    else Quiet
  }

  /** Attempt throws exactly where createProgressBar does, and a frame it
      draws is one createProgressBar can draw. */
  lemma AttemptFollowsCreateProgressBar(progress: Progress)
    ensures Attempt(progress).Throws?
            <==> PercentPresent(progress.percent) && CreateProgressBar(PercentValue(progress.percent)).RangeError?
    ensures Attempt(progress).Draws? ==> CreateProgressBar(Attempt(progress).frame.percent).Drawn?
  {
  }

  /** The bar a frame shows. */
  function FrameBar(f: Frame): (b: Bar)
    requires Drawable(f.percent)
    ensures Drawn(b) == CreateProgressBar(f.percent)
  {
    CreateProgressBar(f.percent).bar
  }

  /** The start notices among some printed effects. */
  function StartNotices(effects: seq<Effect>): nat {
    if |effects| == 0 then 0
    else (if effects[0] == StartNotice then 1 else 0) + StartNotices(effects[1..])
  }

  /** The times of the redraws among some printed effects, in order. */
  function RenderTimes(effects: seq<Effect>): seq<int> {
    if |effects| == 0 then []
    else (if effects[0].Render? then [effects[0].at] else []) + RenderTimes(effects[1..])
  }

  /** The success lines among some printed effects. */
  function SuccessNotices(effects: seq<Effect>): nat {
    if |effects| == 0 then 0
    else (if effects[0].SuccessNotice? then 1 else 0) + SuccessNotices(effects[1..])
  }

  lemma {:induction false} StartNoticesOfConcat(a: seq<Effect>, b: seq<Effect>)
    ensures StartNotices(a + b) == StartNotices(a) + StartNotices(b)
    decreases |a|
  {
    if |a| == 0 {
      assert a + b == b;
    } else {
      assert (a + b)[0] == a[0];
      assert (a + b)[1..] == a[1..] + b;
      StartNoticesOfConcat(a[1..], b);
    }
  }

  lemma {:induction false} RenderTimesOfConcat(a: seq<Effect>, b: seq<Effect>)
    ensures RenderTimes(a + b) == RenderTimes(a) + RenderTimes(b)
    decreases |a|
  {
    if |a| == 0 {
      assert a + b == b;
    } else {
      assert (a + b)[0] == a[0];
      assert (a + b)[1..] == a[1..] + b;
      RenderTimesOfConcat(a[1..], b);
    }
  }

  lemma {:induction false} SuccessNoticesOfConcat(a: seq<Effect>, b: seq<Effect>)
    ensures SuccessNotices(a + b) == SuccessNotices(a) + SuccessNotices(b)
    decreases |a|
  {
    if |a| == 0 {
      assert a + b == b;
    } else {
      assert (a + b)[0] == a[0];
      assert (a + b)[1..] == a[1..] + b;
      SuccessNoticesOfConcat(a[1..], b);
    }
  }

  /** Counting distributes over concatenated output. */
  lemma CountersOfConcat(a: seq<Effect>, b: seq<Effect>)
    ensures StartNotices(a + b) == StartNotices(a) + StartNotices(b)
    ensures RenderTimes(a + b) == RenderTimes(a) + RenderTimes(b)
    ensures SuccessNotices(a + b) == SuccessNotices(a) + SuccessNotices(b)
  {
    StartNoticesOfConcat(a, b);
    RenderTimesOfConcat(a, b);
    SuccessNoticesOfConcat(a, b);
  }

  /** The 'progress' listener, given the outcome its drawing attempt would
      have (Attempt): the start notice on the first event, then, past the
      throttle, nothing, a throw, or a redraw. */
  function OnProgress(h: Handler, now: int, outcome: Outcome): (r: Reaction)
    // the start notice is printed on the first progress event only
    ensures r.next.started
    ensures StartNotices(r.effects) == if h.started then 0 else 1
    // only the throttle and the drawing change
    ensures r.next.fileName == h.fileName && r.next.settlement == h.settlement
    // the listener throws exactly when an accepted, present percentage cannot be drawn
    ensures r.threw <==> Passes(h, now) && outcome.Throws?
    // the throttle timestamp moves to `now` on every accepted event that does not throw
    ensures r.next.lastUpdate == if Passes(h, now) && !r.threw then now else h.lastUpdate
    // a redraw, stamped `now`, happens exactly on accepted events with a drawable percentage
    ensures RenderTimes(r.effects) == if Passes(h, now) && outcome.Draws? then [now] else []
    ensures SuccessNotices(r.effects) == 0
  {
    var notice := if h.started then [] else [StartNotice];
    assert StartNotices(notice) == if h.started then 0 else 1;
    assert RenderTimes(notice) == [] && SuccessNotices(notice) == 0;
    var h1 := h.(started := true);
    if Passes(h, now) then
      match outcome
      case Quiet => Reaction(h1.(lastUpdate := now), notice, false)
      case Throws => Reaction(h1, notice, true)
      case Draws(frame) =>
        var redraw := [Render(now, frame)];
        assert StartNotices(redraw) == 0 && RenderTimes(redraw) == [now] && SuccessNotices(redraw) == 0;
        CountersOfConcat(notice, redraw);
        Reaction(h1.(lastUpdate := now), notice + redraw, false)
    else Reaction(h1, notice, false)
  }

  /** What the progress listener prints: the start notice on the first
      event, then the attempt's frame, stamped `now`, when it is drawn. */
  lemma OnProgressPrints(h: Handler, now: int, outcome: Outcome)
    ensures OnProgress(h, now, outcome).effects
         == (if h.started then [] else [StartNotice])
            + (if Passes(h, now) && outcome.Draws? then [Render(now, outcome.frame)] else [])
  {
    var notice := if h.started then [] else [StartNotice];
    assert notice + [] == notice;
  }

  // ---------------------------------------------------------------------------
  // The 'ytDlpEvent' listener: /Destination: (.+)/

  /** The characters `.` does not match in a regular expression. */
  predicate IsLineTerminator(c: char) {
    c == '\n' || c == '\r' || c == '\U{2028}' || c == '\U{2029}'
  }

  /** The pattern matches at i: the marker, then at least one character that
      is not a line terminator. */
  predicate MatchesAt(data: string, i: int) {
    OccursAt(data, DestinationMarker, i)
    && i + |DestinationMarker| < |data|
    && !IsLineTerminator(data[i + |DestinationMarker|])
  }

  /** The leftmost match position at or after `from`. */
  function FindMatch(data: string, from: nat): (r: Option<nat>)
    ensures r.Some? ==> from <= r.value && MatchesAt(data, r.value)
    ensures r.Some? ==> forall j :: from <= j < r.value ==> !MatchesAt(data, j)
    ensures r.None? ==> forall j :: from <= j ==> !MatchesAt(data, j)
    decreases |data| - from
  {
    if from + |DestinationMarker| >= |data| then None
    else if MatchesAt(data, from) then Some(from)
    else FindMatch(data, from + 1)
  }

  /** Number of characters from `from` up to the next line terminator. */
  function LineRun(s: string, from: nat): (n: nat)
    requires from <= |s|
    ensures from + n <= |s|
    ensures forall i :: from <= i < from + n ==> !IsLineTerminator(s[i])
    ensures from + n < |s| ==> IsLineTerminator(s[from + n])
    decreases |s| - from
  {
    if from < |s| && !IsLineTerminator(s[from]) then 1 + LineRun(s, from + 1) else 0
  }

  /** The capture group of `/Destination: (.+)/`: the rest of the line after
      the leftmost marker that is followed by a character on the same line. */
  function DestinationCapture(data: string): Option<string> {
    match FindMatch(data, 0)
    case None => None
    case Some(i) =>
      var start := i + |DestinationMarker|;
      var n := LineRun(data, start);
      Some(data[start..start + n])
  }

  /** There is no capture exactly when nothing matches; otherwise the capture
      is non-empty, holds no line terminator, and is the whole rest of the
      line after the leftmost match. */
  lemma CaptureIsRestOfLine(data: string)
    ensures DestinationCapture(data).None? <==> forall j :: !MatchesAt(data, j)
    ensures var r := DestinationCapture(data);
            r.Some? ==>
              && |r.value| > 0
              && (forall k :: 0 <= k < |r.value| ==> !IsLineTerminator(r.value[k]))
              && exists i :: && MatchesAt(data, i)
                             && (forall j :: 0 <= j < i ==> !MatchesAt(data, j))
                             && var start := i + |DestinationMarker|;
                                && start + |r.value| <= |data|
                                && data[start..start + |r.value|] == r.value
                                && (start + |r.value| == |data| || IsLineTerminator(data[start + |r.value|]))
  {
  }

  /** The file name a 'ytDlpEvent' announces: only for type 'download' with
      non-empty data that matches the pattern. */
  function DestinationOf(eventType: string, data: string): (r: Option<string>)
    ensures r.Some? ==> eventType == "download" && DestinationCapture(data).Some?
    ensures eventType == "download" && DestinationCapture(data).Some? ==> r.Some?
    ensures r.Some? ==> Separator !in r.value
    // the name is the basename of the captured path
    ensures r.Some? ==> r.value == Basename(DestinationCapture(data).value)
  {
    if eventType == "download" && |data| > 0 then
      match DestinationCapture(data)
      case Some(capture) => Some(Basename(capture))
      case None => None
    else None
  }

  // ---------------------------------------------------------------------------
  // The 'error' and 'close' listeners

  /** resolve/reject: only the first call settles the promise. */
  function Settle(current: Settlement, outcome: Settlement): (s: Settlement)
    ensures current.Pending? ==> s == outcome
    ensures !current.Pending? ==> s == current
  {
    if current.Pending? then outcome else current
  }

  function OnError(h: Handler, message: string): (r: Reaction)
    ensures r.effects == [FailureNotice] && !r.threw
    ensures r.next == h.(settlement := Settle(h.settlement, Rejected(message)))
  {
    Reaction(h.(settlement := Settle(h.settlement, Rejected(message))), [FailureNotice], false)
  }

  /** The file name the success line shows: none when it is empty. */
  function Shown(name: string): (r: Option<string>)
    ensures r.Some? <==> |name| > 0
    ensures r.Some? ==> r.value == name
  {
    if |name| > 0 then Some(name) else None
  }

  /** The success line names the file only when one was found. */
  function OnClose(kind: Kind, h: Handler): (r: Reaction)
    ensures r.effects == [SuccessNotice(kind, Shown(h.fileName))] && !r.threw
    ensures r.next == h.(settlement := Settle(h.settlement, Resolved))
  {
    Reaction(h.(settlement := Settle(h.settlement, Resolved)), [SuccessNotice(kind, Shown(h.fileName))], false)
  }

  // ---------------------------------------------------------------------------
  // Signals: what each listener takes from its event

  /** Everything a listener's decisions depend on: the outcome of the
      progress listener's drawing attempt, the file name a 'ytDlpEvent'
      announces, the error's message, or the close. */
  datatype Signal =
    | ProgressSignal(now: int, outcome: Outcome)
    | ToolSignal(destination: Option<string>)
    | ErrorSignal(message: string)
    | CloseSignal

  /** The file name an event announces, if any. */
  function EventDestination(e: Event): Option<string> {
    if e.ToolEvent? then DestinationOf(e.eventType, e.data) else None
  }

  /** How an event would settle the promise: 'error' rejects with the
      error's message, 'close' resolves, whatever the exit code. */
  function SettlementOf(e: Event): Option<Settlement> {
    match e
    case ErrorEvent(message) => Some(Rejected(message))
    case CloseEvent => Some(Resolved)
    case _ => None
  }

  /** What the listener for an event reads from it. */
  function Read(e: Event): Signal {
    match e
    case ProgressEvent(now, progress) => ProgressSignal(now, Attempt(progress))
    case ToolEvent(eventType, data) => ToolSignal(DestinationOf(eventType, data))
    case ErrorEvent(message) => ErrorSignal(message)
    case CloseEvent => CloseSignal
  }

  function Reads(events: seq<Event>): seq<Signal> {
    seq(|events|, i requires 0 <= i < |events| => Read(events[i]))
  }

  lemma ReadsAt(events: seq<Event>, k: nat)
    requires k < |events|
    ensures |Reads(events)| == |events| && Reads(events)[k] == Read(events[k])
  {
  }

  /** The file name a signal announces, if any. */
  function Announced(s: Signal): Option<string> {
    if s.ToolSignal? then s.destination else None
  }

  /** How a signal would settle the promise. */
  function Settles(s: Signal): Option<Settlement> {
    match s
    case ErrorSignal(message) => Some(Rejected(message))
    case CloseSignal => Some(Resolved)
    case _ => None
  }

  /** Reading an event keeps what kind of event it was, the file name it
      announces and how it would settle the promise. */
  lemma ReadKeepsMeaning(e: Event)
    ensures Read(e).ProgressSignal? <==> e.ProgressEvent?
    ensures Read(e).ProgressSignal? ==> Read(e).outcome == Attempt(e.progress)
    ensures Read(e).CloseSignal? <==> e.CloseEvent?
    ensures Announced(Read(e)) == EventDestination(e)
    ensures Settles(Read(e)) == SettlementOf(e)
  {
  }

  /** A progress signal whose drawing attempt throws was read from a present
      percentage the bar cannot draw. */
  lemma ThrowIsUndrawable(e: Event)
    requires Read(e).ProgressSignal? && Read(e).outcome.Throws?
    ensures e.ProgressEvent?
    ensures PercentPresent(e.progress.percent) && !Drawable(PercentValue(e.progress.percent))
  {
    ReadKeepsMeaning(e);
  }

  // ---------------------------------------------------------------------------
  // Runs

  /** One listener invocation on what it read from its event. */
  function React(kind: Kind, h: Handler, s: Signal): (r: Reaction)
    ensures r.threw ==> s.ProgressSignal?
    ensures s.ProgressSignal? ==> r == OnProgress(h, s.now, s.outcome)
    // signals other than progress leave the throttle alone and draw nothing
    ensures !s.ProgressSignal? ==>
              && !r.threw && r.next.started == h.started && r.next.lastUpdate == h.lastUpdate
              && StartNotices(r.effects) == 0 && RenderTimes(r.effects) == []
    // the remembered file name changes only on an announced destination
    ensures r.next.fileName == Announced(s).GetOr(h.fileName)
    // only the first settling signal counts
    ensures Settles(s).None? ==> r.next.settlement == h.settlement
    ensures Settles(s).Some? ==> r.next.settlement == Settle(h.settlement, Settles(s).value)
    // every close prints a success line, even after an error
    ensures SuccessNotices(r.effects) == if s.CloseSignal? then 1 else 0
  {
    match s
    case ProgressSignal(now, outcome) => OnProgress(h, now, outcome)
    case ToolSignal(destination) => Reaction(h.(fileName := destination.GetOr(h.fileName)), [], false)
    case ErrorSignal(message) => OnError(h, message)
    case CloseSignal => OnClose(kind, h)
  }

  /** Dispatches one event to its listener. */
  function Step(kind: Kind, h: Handler, e: Event): (r: Reaction)
    ensures r.threw ==> e.ProgressEvent?
    ensures e.ProgressEvent? ==> r == OnProgress(h, e.now, Attempt(e.progress))
    // events other than progress leave the throttle alone and draw nothing
    ensures !e.ProgressEvent? ==>
              && !r.threw && r.next.started == h.started && r.next.lastUpdate == h.lastUpdate
              && StartNotices(r.effects) == 0 && RenderTimes(r.effects) == []
    // a 'ytDlpEvent' changes the remembered file name exactly when it announces one
    ensures r.next.fileName == EventDestination(e).GetOr(h.fileName)
    // only the first settling event counts
    ensures SettlementOf(e).None? ==> r.next.settlement == h.settlement
    ensures SettlementOf(e).Some? ==> r.next.settlement == Settle(h.settlement, SettlementOf(e).value)
    // every close prints a success line, even after an error
    ensures SuccessNotices(r.effects) == if e.CloseEvent? then 1 else 0
  {
    ReadKeepsMeaning(e);
    React(kind, h, Read(e))
  }

  /** Feeds signals to the listeners in order: all but the last, then the
      last one's listener on the handler they left behind. A listener that
      throws ends the run: the exception escapes into the emitter and nothing
      after it is handled. */
  function Replay(kind: Kind, h: Handler, signals: seq<Signal>): (t: Trace)
    ensures t.consumed <= |signals|
    ensures !t.crashed ==> t.consumed == |signals|
    ensures t.crashed ==> t.consumed >= 1 && signals[t.consumed - 1].ProgressSignal?
    decreases |signals|
  {
    if |signals| == 0 then Trace(h, [], 0, false)
    else
      var t := Replay(kind, h, signals[..|signals| - 1]);
      if t.crashed then t
      else
        var r := React(kind, t.final, signals[|signals| - 1]);
        Trace(r.next, t.effects + r.effects, |signals|, r.threw)
  }

  /** The listeners run over a sequence of events. */
  function Run(kind: Kind, h: Handler, events: seq<Event>): (t: Trace)
    ensures t.consumed <= |events|
    ensures !t.crashed ==> t.consumed == |events|
    ensures t.crashed ==> t.consumed >= 1 && events[t.consumed - 1].ProgressEvent?
  {
    var t := Replay(kind, h, Reads(events));
    if t.crashed then ReadKeepsMeaning(events[t.consumed - 1]); t else t
  }
}

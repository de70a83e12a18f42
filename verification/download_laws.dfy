/** What the download listeners guarantee over a whole run: one
    start notice, throttled redraws, the file name of the last destination,
    a promise settled by the first error or close, and a crash only on a
    percentage the bar cannot draw. */
module DownloadLaws {
  import opened Text
  import opened Number
  import opened Formatters
  import opened Download
  import PosixPath

  /** A replay extended by one signal: the listener of the new signal runs on
      the handler the replay left behind, unless the replay crashed. */
  lemma ReplaySnoc(kind: Kind, h: Handler, signals: seq<Signal>, s: Signal)
    ensures var t := Replay(kind, h, signals);
            var r := React(kind, t.final, s);
            Replay(kind, h, signals + [s])
              == if t.crashed then t else Trace(r.next, t.effects + r.effects, |signals| + 1, r.threw)
  {
    assert (signals + [s])[..|signals|] == signals;
  }

  // ---------------------------------------------------------------------------
  // The start notice

  /** Some progress signal is among the first n signals. */
  predicate ProgressBefore(signals: seq<Signal>, n: nat)
    requires n <= |signals|
  {
    exists i :: 0 <= i < n && signals[i].ProgressSignal?
  }

  lemma ProgressBeforeOfPrefix(signals: seq<Signal>, m: nat, n: nat)
    requires n <= m <= |signals|
    ensures ProgressBefore(signals[..m], n) <==> ProgressBefore(signals, n)
  {
    if ProgressBefore(signals, n) {
      var i :| 0 <= i < n && signals[i].ProgressSignal?;
      assert signals[..m][i] == signals[i];
    }
  }

  /** The start notice is printed exactly once, on the first progress signal,
      and `started` records whether one has been seen. */
  lemma {:induction false} StartNoticeOnce(kind: Kind, h: Handler, signals: seq<Signal>)
    ensures var t := Replay(kind, h, signals);
            && (t.final.started <==> h.started || ProgressBefore(signals, t.consumed))
            && StartNotices(t.effects) == if !h.started && ProgressBefore(signals, t.consumed) then 1 else 0
    decreases |signals|
  {
    if |signals| > 0 {
      var n := |signals| - 1;
      var t := Replay(kind, h, signals[..n]);
      StartNoticeOnce(kind, h, signals[..n]);
      ProgressBeforeOfPrefix(signals, n, t.consumed);
      if !t.crashed {
        var r := React(kind, t.final, signals[n]);
        assert ProgressBefore(signals, n + 1) <==> ProgressBefore(signals, n) || signals[n].ProgressSignal?;
        StartNoticesOfConcat(t.effects, r.effects);
      }
    }
  }

  // ---------------------------------------------------------------------------
  // Throttling

  /** Each time is more than the throttle interval after the one before it,
      the first after `last`. */
  predicate Spaced(last: int, times: seq<int>)
    decreases |times|
  {
    |times| == 0 || (times[0] > last + ThrottleMs && Spaced(times[0], times[1..]))
  }

  /** A time far enough after the last one extends a spaced sequence. */
  lemma {:induction false} SpacedSnoc(last: int, times: seq<int>, x: int)
    requires Spaced(last, times)
    requires x > (if |times| == 0 then last else times[|times| - 1]) + ThrottleMs
    ensures Spaced(last, times + [x])
    decreases |times|
  {
    if |times| > 0 {
      SpacedSnoc(times[0], times[1..], x);
      assert (times + [x])[1..] == times[1..] + [x];
    }
  }

  /** What the throttle keeps over a replay from `h`: the redraws are spaced
      starting from `h.lastUpdate`, the timestamp never moves back, and no
      redraw lies after it. */
  predicate Throttled(h: Handler, t: Trace) {
    var times := RenderTimes(t.effects);
    && Spaced(h.lastUpdate, times)
    && h.lastUpdate <= t.final.lastUpdate
    && (|times| > 0 ==> times[|times| - 1] <= t.final.lastUpdate)
  }

  /** One more signal keeps the throttle's guarantees. */
  lemma ThrottledStep(kind: Kind, h: Handler, front: seq<Signal>, s: Signal)
    requires Throttled(h, Replay(kind, h, front))
    ensures Throttled(h, Replay(kind, h, front + [s]))
  {
    var t := Replay(kind, h, front);
    ReplaySnoc(kind, h, front, s);
    if !t.crashed {
      var r := React(kind, t.final, s);
      var times := RenderTimes(t.effects);
      RenderTimesOfConcat(t.effects, r.effects);
      if RenderTimes(r.effects) == [] {
        assert times + [] == times;
      } else {
        SpacedSnoc(h.lastUpdate, times, s.now);
      }
    }
  }

  /** The redraws of a run are spaced by the throttle, starting from the
      handler's last accepted update (the spawn time for a fresh download). */
  lemma {:induction false} RedrawsAreThrottled(kind: Kind, h: Handler, signals: seq<Signal>)
    ensures Throttled(h, Replay(kind, h, signals))
    decreases |signals|
  {
    if |signals| > 0 {
      var n := |signals| - 1;
      RedrawsAreThrottled(kind, h, signals[..n]);
      ThrottledStep(kind, h, signals[..n], signals[n]);
      assert signals[..n] + [signals[n]] == signals;
    }
  }

  /** Spacing read pairwise: any two redraws k places apart are more than k
      throttle intervals apart, and all come after `last`. */
  lemma {:induction false} SpacedPairwise(last: int, times: seq<int>, j: nat, k: nat)
    requires Spaced(last, times) && j < k < |times|
    ensures times[k] - times[j] > ThrottleMs * (k - j)
    ensures times[j] > last + ThrottleMs
    decreases k
  {
    if j > 0 {
      SpacedPairwise(times[0], times[1..], j - 1, k - 1);
    } else if k > 1 {
      SpacedPairwise(times[0], times[1..], 0, k - 1);
    }
  }

  /** Every time of a spaced sequence lies more than the throttle interval
      after `last`. */
  lemma {:induction false} SpacedAfter(last: int, times: seq<int>, j: nat)
    requires Spaced(last, times) && j < |times|
    ensures times[j] > last + ThrottleMs
    decreases j
  {
    if j > 0 {
      SpacedAfter(times[0], times[1..], j - 1);
    }
  }

  /** For a download spawned at `spawn`, no redraw happens within the
      throttle interval of the spawn, and redraws are pairwise spaced. */
  lemma RedrawsOfFreshDownload(kind: Kind, spawn: int, events: seq<Event>, j: nat)
    requires j < |RenderTimes(Run(kind, Spawned(spawn), events).effects)|
    ensures var times := RenderTimes(Run(kind, Spawned(spawn), events).effects);
            times[j] > spawn + ThrottleMs
    ensures var times := RenderTimes(Run(kind, Spawned(spawn), events).effects);
            forall k :: j < k < |times| ==> times[k] - times[j] > ThrottleMs * (k - j)
  {
    var times := RenderTimes(Run(kind, Spawned(spawn), events).effects);
    RedrawsAreThrottled(kind, Spawned(spawn), Reads(events));
    SpacedAfter(spawn, times, j);
    forall k | j < k < |times|
      ensures times[k] - times[j] > ThrottleMs * (k - j)
    {
      SpacedPairwise(spawn, times, j, k);
    }
  }

  // ---------------------------------------------------------------------------
  // The file name

  /** Reference definition: the destination announced by the last signal
      that announces one, or `initial` when none does. */
  function LastDestination(initial: string, signals: seq<Signal>): string
    decreases |signals|
  {
    if |signals| == 0 then initial
    else Announced(signals[|signals| - 1]).GetOr(LastDestination(initial, signals[..|signals| - 1]))
  }

  /** The destination announced last wins. */
  lemma {:induction false} LastDestinationIsLatest(initial: string, signals: seq<Signal>, i: nat)
    requires i < |signals| && Announced(signals[i]).Some?
    requires forall j :: i < j < |signals| ==> Announced(signals[j]).None?
    ensures LastDestination(initial, signals) == Announced(signals[i]).value
    decreases |signals|
  {
    if i < |signals| - 1 {
      LastDestinationIsLatest(initial, signals[..|signals| - 1], i);
    }
  }

  /** Without any announced destination the name stays what it was. */
  lemma {:induction false} LastDestinationWithoutAnnouncement(initial: string, signals: seq<Signal>)
    requires forall j :: 0 <= j < |signals| ==> Announced(signals[j]).None?
    ensures LastDestination(initial, signals) == initial
    decreases |signals|
  {
    if |signals| > 0 {
      LastDestinationWithoutAnnouncement(initial, signals[..|signals| - 1]);
    }
  }

  /** One more signal: the file name it leaves is the last destination among
      one more handled signal. */
  lemma FileNameStep(kind: Kind, h: Handler, front: seq<Signal>, s: Signal)
    requires var t := Replay(kind, h, front);
             t.final.fileName == LastDestination(h.fileName, front[..t.consumed])
    ensures var t := Replay(kind, h, front + [s]);
            t.final.fileName == LastDestination(h.fileName, (front + [s])[..t.consumed])
  {
    var t := Replay(kind, h, front);
    ReplaySnoc(kind, h, front, s);
    if t.crashed {
      assert (front + [s])[..t.consumed] == front[..t.consumed];
    } else {
      assert (front + [s])[..|front| + 1][..|front|] == front[..t.consumed];
    }
  }

  /** The remembered file name is the last destination among the handled
      signals. */
  lemma {:induction false} FileNameIsLastDestination(kind: Kind, h: Handler, signals: seq<Signal>)
    ensures var t := Replay(kind, h, signals);
            t.final.fileName == LastDestination(h.fileName, signals[..t.consumed])
    decreases |signals|
  {
    if |signals| == 0 {
      assert signals[..0] == [];
    } else {
      var n := |signals| - 1;
      FileNameIsLastDestination(kind, h, signals[..n]);
      FileNameStep(kind, h, signals[..n], signals[n]);
      assert signals[..n] + [signals[n]] == signals;
    }
  }

  /** A close after some handled signals prints the last destination among
      them, or no name when there was none. */
  lemma CloseShowsLastDestination(kind: Kind, h: Handler, signals: seq<Signal>)
    requires !Replay(kind, h, signals).crashed
    ensures var name := LastDestination(h.fileName, signals);
            var t := Replay(kind, h, signals + [CloseSignal]);
            |t.effects| > 0 && t.effects[|t.effects| - 1] == SuccessNotice(kind, Shown(name))
  {
    var t := Replay(kind, h, signals);
    ReplaySnoc(kind, h, signals, CloseSignal);
    FileNameIsLastDestination(kind, h, signals);
    assert signals[..t.consumed] == signals;
  }

  // ---------------------------------------------------------------------------
  // Destination lines

  /** A line without terminators runs to the end of the text. */
  lemma LineRunToEnd(s: string, from: nat)
    requires from <= |s|
    requires forall i :: from <= i < |s| ==> !IsLineTerminator(s[i])
    ensures LineRun(s, from) == |s| - from
  {
  }

  /** FindMatch finds the leftmost match. */
  lemma FindMatchIsLeftmost(data: string, i: nat)
    requires MatchesAt(data, i)
    requires forall j :: 0 <= j < i ==> !MatchesAt(data, j)
    ensures FindMatch(data, 0) == Some(i)
  {
  }

  /** No match starts inside a tag without the marker's first letter. */
  lemma NoMatchInTag(tag: string, rest: string, j: nat)
    requires DestinationMarker[0] !in tag && j < |tag|
    ensures !MatchesAt(tag + rest, j)
  {
    assert (tag + rest)[j] == tag[j];
  }

  /** The marker followed by a character on its line is a match. */
  lemma MatchAtMarker(tag: string, path: string)
    requires |path| > 0 && !IsLineTerminator(path[0])
    ensures MatchesAt(tag + DestinationMarker + path, |tag|)
  {
    var data := tag + DestinationMarker + path;
    assert data[|tag|..|tag| + |DestinationMarker|] == DestinationMarker;
    assert data[|tag| + |DestinationMarker|] == path[0];
  }

  /** Behind a tag without the marker's first letter, the first match is
      where the marker starts. */
  lemma FirstMatchAfterTag(tag: string, path: string)
    requires DestinationMarker[0] !in tag
    requires |path| > 0 && !IsLineTerminator(path[0])
    ensures FindMatch(tag + DestinationMarker + path, 0) == Some(|tag|)
  {
    var data := tag + DestinationMarker + path;
    assert data == tag + (DestinationMarker + path);
    forall j | 0 <= j < |tag| ensures !MatchesAt(data, j) {
      NoMatchInTag(tag, DestinationMarker + path, j);
    }
    MatchAtMarker(tag, path);
    FindMatchIsLeftmost(data, |tag|);
  }

  /** The line run after the marker covers a path without terminators. */
  lemma LineRunOfPath(head: string, path: string)
    requires forall k :: 0 <= k < |path| ==> !IsLineTerminator(path[k])
    ensures LineRun(head + path, |head|) == |path|
    ensures (head + path)[|head|..|head| + |path|] == path
  {
    var data := head + path;
    forall k | |head| <= k < |data| ensures !IsLineTerminator(data[k]) {
      assert data[k] == path[k - |head|];
    }
    LineRunToEnd(data, |head|);
  }

  /** The capture read off a known match position and line run. */
  lemma CaptureAt(data: string, i: nat, n: nat)
    requires FindMatch(data, 0) == Some(i)
    requires i + |DestinationMarker| <= |data| && LineRun(data, i + |DestinationMarker|) == n
    ensures i + |DestinationMarker| + n <= |data|
    ensures DestinationCapture(data) == Some(data[i + |DestinationMarker|..i + |DestinationMarker| + n])
  {
  }

  /** The capture is the whole rest of a line without terminators. */
  lemma {:induction false} CaptureOfLine(tag: string, path: string)
    requires DestinationMarker[0] !in tag
    requires |path| > 0 && forall k :: 0 <= k < |path| ==> !IsLineTerminator(path[k])
    ensures DestinationCapture(tag + DestinationMarker + path) == Some(path)
  {
    var head := tag + DestinationMarker;
    var data := tag + DestinationMarker + path;
    assert data == head + path;
    FirstMatchAfterTag(tag, path);
    LineRunOfPath(head, path);
    CaptureAt(data, |tag|, |path|);
  }

  /** A downloader line announcing `dir/name`, behind a tag without a
      capital D such as "[download] ", names the file `name`. */
  lemma {:induction false} DestinationOfLine(tag: string, dir: string, name: string)
    requires DestinationMarker[0] !in tag
    requires |name| > 0 && PosixPath.Separator !in name
    requires forall k :: 0 <= k < |dir| ==> !IsLineTerminator(dir[k])
    requires forall k :: 0 <= k < |name| ==> !IsLineTerminator(name[k])
    ensures DestinationOf("download", tag + DestinationMarker + dir + [PosixPath.Separator] + name) == Some(name)
  {
    var path := dir + [PosixPath.Separator] + name;
    forall k | 0 <= k < |path| ensures !IsLineTerminator(path[k]) {
      if k < |dir| {
        assert path[k] == dir[k];
      } else if k > |dir| {
        assert path[k] == name[k - |dir| - 1];
      }
    }
    CaptureOfLine(tag, path);
    assert tag + DestinationMarker + dir + [PosixPath.Separator] + name == tag + DestinationMarker + path;
    PosixPath.BasenameOfJoin(dir, name);
  }

  // ---------------------------------------------------------------------------
  // Settlement of the promise

  /** A settled promise stays as it is. */
  lemma {:induction false} SettlementIsFinal(kind: Kind, h: Handler, signals: seq<Signal>)
    requires !h.settlement.Pending?
    ensures Replay(kind, h, signals).final.settlement == h.settlement
    decreases |signals|
  {
    if |signals| > 0 {
      SettlementIsFinal(kind, h, signals[..|signals| - 1]);
    }
  }

  /** Without an error or close among the handled signals the promise keeps
      its state. */
  lemma {:induction false} UnsettledWithoutSettlingEvent(kind: Kind, h: Handler, signals: seq<Signal>)
    requires forall j :: 0 <= j < Replay(kind, h, signals).consumed ==> Settles(signals[j]).None?
    ensures Replay(kind, h, signals).final.settlement == h.settlement
    decreases |signals|
  {
    if |signals| > 0 {
      var n := |signals| - 1;
      var t := Replay(kind, h, signals[..n]);
      forall j | 0 <= j < t.consumed ensures Settles(signals[..n][j]).None? {
        assert signals[..n][j] == signals[j];
      }
      UnsettledWithoutSettlingEvent(kind, h, signals[..n]);
    }
  }

  /** The first handled error or close decides the outcome of the download. */
  lemma {:induction false} FirstSettlingEventDecides(kind: Kind, h: Handler, signals: seq<Signal>, i: nat)
    requires h.settlement.Pending?
    requires i < Replay(kind, h, signals).consumed && Settles(signals[i]).Some?
    requires forall j :: 0 <= j < i ==> Settles(signals[j]).None?
    ensures Replay(kind, h, signals).final.settlement == Settles(signals[i]).value
    decreases |signals|
  {
    var n := |signals| - 1;
    var t := Replay(kind, h, signals[..n]);
    if i < t.consumed {
      assert signals[..n][i] == signals[i];
      FirstSettlingEventDecides(kind, h, signals[..n], i);
    } else {
      assert i == n;
      forall j | 0 <= j < t.consumed ensures Settles(signals[..n][j]).None? {
        assert signals[..n][j] == signals[j];
      }
      UnsettledWithoutSettlingEvent(kind, h, signals[..n]);
    }
  }

  lemma ClosesOfSnoc(front: seq<Signal>, s: Signal)
    ensures multiset(front + [s])[CloseSignal]
         == multiset(front)[CloseSignal] + if s.CloseSignal? then 1 else 0
  {
    assert multiset(front + [s]) == multiset(front) + multiset{s};
  }

  /** One more signal adds a success line exactly when it is a handled close. */
  lemma SuccessLineStep(kind: Kind, h: Handler, front: seq<Signal>, s: Signal)
    requires var t := Replay(kind, h, front);
             SuccessNotices(t.effects) == multiset(front[..t.consumed])[CloseSignal]
    ensures var t := Replay(kind, h, front + [s]);
            SuccessNotices(t.effects) == multiset((front + [s])[..t.consumed])[CloseSignal]
  {
    var t := Replay(kind, h, front);
    ReplaySnoc(kind, h, front, s);
    if t.crashed {
      assert (front + [s])[..t.consumed] == front[..t.consumed];
    } else {
      var r := React(kind, t.final, s);
      SuccessNoticesOfConcat(t.effects, r.effects);
      assert (front + [s])[..|front| + 1] == front[..t.consumed] + [s];
      ClosesOfSnoc(front[..t.consumed], s);
    }
  }

  /** Every handled close prints a success line, so an error followed by a
      close prints both the failure and the success message. */
  lemma {:induction false} SuccessLinePerClose(kind: Kind, h: Handler, signals: seq<Signal>)
    ensures var t := Replay(kind, h, signals);
            SuccessNotices(t.effects) == multiset(signals[..t.consumed])[CloseSignal]
    decreases |signals|
  {
    if |signals| == 0 {
      assert signals[..0] == [];
    } else {
      var n := |signals| - 1;
      SuccessLinePerClose(kind, h, signals[..n]);
      SuccessLineStep(kind, h, signals[..n], signals[n]);
      assert signals[..n] + [signals[n]] == signals;
    }
  }

  // ---------------------------------------------------------------------------
  // Crashes

  /** A percentage from 0 to 100, or one the bar treats as NaN. */
  predicate PercentWithinRange(p: PercentField) {
    var v := PercentValue(p);
    !PercentPresent(p) || v.NaN? || (v.Finite? && 0.0 <= v.value <= 100.0)
  }

  /** A replay without a throwing drawing attempt handles every signal. */
  lemma {:induction false} NoCrashWithoutThrow(kind: Kind, h: Handler, signals: seq<Signal>)
    requires forall i :: 0 <= i < |signals| && signals[i].ProgressSignal? ==> !signals[i].outcome.Throws?
    ensures !Replay(kind, h, signals).crashed && Replay(kind, h, signals).consumed == |signals|
    decreases |signals|
  {
    if |signals| > 0 {
      var n := |signals| - 1;
      forall i | 0 <= i < n && signals[..n][i].ProgressSignal?
        ensures !signals[..n][i].outcome.Throws?
      {
        assert signals[..n][i] == signals[i];
      }
      NoCrashWithoutThrow(kind, h, signals[..n]);
    }
  }

  /** A replay crashes only on a progress signal whose drawing attempt throws. */
  lemma {:induction false} CrashOnThrow(kind: Kind, h: Handler, signals: seq<Signal>)
    requires Replay(kind, h, signals).crashed
    ensures var s := signals[Replay(kind, h, signals).consumed - 1];
            s.ProgressSignal? && s.outcome.Throws?
    decreases |signals|
  {
    var n := |signals| - 1;
    var t := Replay(kind, h, signals[..n]);
    if t.crashed {
      CrashOnThrow(kind, h, signals[..n]);
      assert signals[..n][t.consumed - 1] == signals[t.consumed - 1];
    }
  }

  /** When every progress event carries a percentage from 0 to 100, no
      listener throws and every event is handled. */
  lemma NoCrashWithinRange(kind: Kind, h: Handler, events: seq<Event>)
    requires forall i :: 0 <= i < |events| && events[i].ProgressEvent? ==> PercentWithinRange(events[i].progress.percent)
    ensures !Run(kind, h, events).crashed && Run(kind, h, events).consumed == |events|
  {
    var signals := Reads(events);
    forall i | 0 <= i < |signals| && signals[i].ProgressSignal?
      ensures !signals[i].outcome.Throws?
    {
      ReadKeepsMeaning(events[i]);
    }
    NoCrashWithoutThrow(kind, h, signals);
  }

  /** A crash happens only on a present percentage the bar cannot draw. */
  lemma CrashMeansUndrawable(kind: Kind, h: Handler, events: seq<Event>)
    requires Run(kind, h, events).crashed
    ensures var e := events[Run(kind, h, events).consumed - 1];
            e.ProgressEvent? && PercentPresent(e.progress.percent) && !Drawable(PercentValue(e.progress.percent))
  {
    var k := Run(kind, h, events).consumed - 1;
    CrashOnThrow(kind, h, Reads(events));
    ReadsAt(events, k);
    ThrowIsUndrawable(events[k]);
  }

  /** An accepted progress event with a drawable percentage redraws, last
      and stamped with the event's time, the frame of its parsed percentage. */
  lemma RedrawShowsPercent(kind: Kind, h: Handler, e: Event)
    requires e.ProgressEvent? && Passes(h, e.now)
    requires PercentPresent(e.progress.percent) && Drawable(PercentValue(e.progress.percent))
    ensures var effects := Step(kind, h, e).effects;
            && |effects| > 0 && effects[|effects| - 1].Render?
            && effects[|effects| - 1].at == e.now
            && effects[|effects| - 1].frame.percent == PercentValue(e.progress.percent)
  {
    OnProgressPrints(h, e.now, Attempt(e.progress));
  }

  // ---------------------------------------------------------------------------
  // Percentages as text

  /** Whitespace and a tenths literal hold no percent sign. */
  lemma NoPercentSign(lead: string, t: nat)
    requires AllWhitespace(lead)
    ensures '%' !in lead + TenthsText(t)
  {
    var x := TenthsText(t);
    forall k | 0 <= k < |lead + x| ensures (lead + x)[k] != '%' {
      if k < |lead| {
        assert IsJsWhitespace(lead[k]);
      } else {
        assert (lead + x)[k] == x[k - |lead|];
        assert AllDigits(NatToString(t / 10));
        assert x == NatToString(t / 10) + "." + [DigitChar(t % 10)];
        if k - |lead| < |NatToString(t / 10)| {
          assert x[k - |lead|] == NatToString(t / 10)[k - |lead|];
        }
      }
    }
  }

  /** A percentage printed as `NN.N%` behind any leading whitespace is read
      as its exact value. */
  lemma PercentTextValue(lead: string, t: nat)
    requires AllWhitespace(lead)
    ensures PercentValue(TextPercent(lead + TenthsText(t) + "%")) == Finite(t as real / 10.0)
  {
    var x := TenthsText(t);
    NoPercentSign(lead, t);
    RemoveFirstOfLast(lead + x, '%');
    assert x[0] == NatToString(t / 10)[0];
    assert x[|x| - 1] == DigitChar(t % 10);
    TrimStripsPadding(lead, x, []);
    assert lead + x + [] == lead + x;
    ParseFloatOfTenths(t);
  }

  // ---------------------------------------------------------------------------
  // Scenarios

  /** A download that closes before any output resolves and prints the
      success line without a file name. */
  lemma CloseWithoutOutput(kind: Kind, spawn: int)
    ensures Run(kind, Spawned(spawn), [CloseEvent])
         == Trace(Handler(false, spawn, "", Resolved), [SuccessNotice(kind, None)], 1, false)
  {
    assert Reads([CloseEvent]) == [] + [CloseSignal];
    ReplaySnoc(kind, Spawned(spawn), [], CloseSignal);
  }

  /** An error followed by a close: the error's message settles the promise,
      and the close still prints its success line. */
  lemma ReplayErrorThenClose(kind: Kind, h: Handler, message: string)
    requires h.settlement.Pending?
    ensures var t := Replay(kind, h, [ErrorSignal(message), CloseSignal]);
            t.final.settlement == Rejected(message)
            && t.effects == [FailureNotice, SuccessNotice(kind, Shown(h.fileName))]
  {
    assert [ErrorSignal(message)] == [] + [ErrorSignal(message)];
    ReplaySnoc(kind, h, [], ErrorSignal(message));
    ReplaySnoc(kind, h, [ErrorSignal(message)], CloseSignal);
  }

  /** An error followed by a close that reaches the listeners rejects with
      the error's message yet prints both messages. */
  lemma ErrorThenClose(kind: Kind, spawn: int, message: string)
    ensures var t := Run(kind, Spawned(spawn), [ErrorEvent(message), CloseEvent]);
            t.final.settlement == Rejected(message)
            && t.effects == [FailureNotice, SuccessNotice(kind, None)]
  {
    var signals := [ErrorSignal(message), CloseSignal];
    assert Reads([ErrorEvent(message), CloseEvent]) == signals;
    assert Run(kind, Spawned(spawn), [ErrorEvent(message), CloseEvent]) == Replay(kind, Spawned(spawn), signals);
    ReplayErrorThenClose(kind, Spawned(spawn), message);
  }
}

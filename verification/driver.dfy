/** The command-line flow around the downloads: the format argument and its
    dispatch, the video metadata step (author fallback, timeouts tolerated),
    the hint printed for a failure, and the exit code. The downloader
    binary's bootstrap, the metadata request and the downloads themselves
    are inputs: their outcomes are parameters. */
module Driver {
  import opened Text
  import opened Number
  import opened Download
  import DownloadLaws

  datatype Result<T> = Success(value: T) | Failure(message: string)

  const DefaultFormat := "mp4"
  const AudioFormat := "mp3"
  const UnsupportedFormat := "Formato no soportado. Use \"mp4\" o \"mp3\""
  const InitFailurePrefix := "Error al inicializar yt-dlp: "
  const UnknownAuthor := "Desconocido"
  const TimeoutMarker := "Timeout"

  // ---------------------------------------------------------------------------
  // Format

  /** `args[1] || 'mp4'`: a missing or empty second argument means mp4. */
  function FormatArgument(args: seq<string>): (f: string)
    ensures |args| < 2 || args[1] == "" ==> f == DefaultFormat
    ensures |args| >= 2 && args[1] != "" ==> f == args[1]
  {
    if |args| >= 2 && args[1] != "" then args[1] else DefaultFormat
  }

  /** The download a format selects; anything but the exact, lower-case
      "mp4" or "mp3" is refused. */
  function Dispatch(format: string): (r: Result<Kind>)
    ensures r == Success(Video) <==> format == DefaultFormat
    ensures r == Success(Audio) <==> format == AudioFormat
    ensures r.Failure? <==> format != DefaultFormat && format != AudioFormat
    ensures r.Failure? ==> r.message == UnsupportedFormat
  {
    if format == DefaultFormat then Success(Video)
    else if format == AudioFormat then Success(Audio)
    else Failure(UnsupportedFormat)
  }

  /** Without a format argument the video download is chosen; the format is
      matched case-sensitively. */
  lemma DispatchDefaultsAndCase()
    ensures Dispatch(FormatArgument(["https://youtu.be/x"])) == Success(Video)
    ensures Dispatch(FormatArgument(["https://youtu.be/x", ""])) == Success(Video)
    ensures Dispatch(FormatArgument(["https://youtu.be/x", "mp3"])) == Success(Audio)
    ensures Dispatch("MP4").Failure? && Dispatch("mp3 ").Failure?
  {
  }

  // ---------------------------------------------------------------------------
  // Metadata

  /** The fields of the metadata the downloader uses; an absent or empty
      text field is None or "". */
  datatype RawInfo = RawInfo(title: Option<string>, duration: Option<Number>,
                             uploader: Option<string>, channel: Option<string>)

  datatype VideoInfo = VideoInfo(title: Option<string>, duration: Option<Number>, author: string)

  /** A text field's truthiness. */
  predicate Present(s: Option<string>) {
    s.Some? && |s.value| > 0
  }

  /** `uploader || channel || 'Desconocido'`. */
  function Author(uploader: Option<string>, channel: Option<string>): (a: string)
    ensures Present(uploader) ==> a == uploader.value
    ensures !Present(uploader) && Present(channel) ==> a == channel.value
    ensures !Present(uploader) && !Present(channel) ==> a == UnknownAuthor
  {
    if Present(uploader) then uploader.value
    else if Present(channel) then channel.value
    else UnknownAuthor
  }

  /** The author is never empty, and it is one of the candidates. */
  lemma AuthorIsNonEmptyChoice(uploader: Option<string>, channel: Option<string>)
    ensures |Author(uploader, channel)| > 0
    ensures Author(uploader, channel) in {uploader.GetOr(""), channel.GetOr(""), UnknownAuthor}
  {
  }

  function Summarise(raw: RawInfo): (v: VideoInfo)
    ensures v.title == raw.title && v.duration == raw.duration
    ensures v.author == Author(raw.uploader, raw.channel)
  {
    VideoInfo(raw.title, raw.duration, Author(raw.uploader, raw.channel))
  }

  /** How the metadata request (raced against its 30-second timer) ended. */
  datatype Fetch = Fetched(raw: RawInfo) | FetchFailed(message: string)

  /** The metadata step: an error whose message mentions "Timeout" is
      tolerated and the download goes on without metadata; any other error
      ends the run. */
  function MetadataStep(fetch: Fetch): (r: Result<Option<VideoInfo>>)
    ensures fetch.Fetched? ==> r == Success(Some(Summarise(fetch.raw)))
    ensures fetch.FetchFailed? ==> (r == Success(None) <==> Includes(fetch.message, TimeoutMarker))
    ensures fetch.FetchFailed? ==> (r.Failure? <==> !Includes(fetch.message, TimeoutMarker))
    ensures r.Failure? ==> r.message == fetch.message
  {
    match fetch
    case Fetched(raw) => Success(Some(Summarise(raw)))
    case FetchFailed(message) =>
      if Includes(message, TimeoutMarker) then Success(None) else Failure(message)
  }

  /** The timer's own rejection, and any error mentioning a timeout inside a
      longer message, are tolerated. */
  lemma TimeoutsAreTolerated(pre: string, post: string)
    ensures MetadataStep(FetchFailed(pre + TimeoutMarker + post)) == Success(None)
  {
    IncludesInContext(pre, TimeoutMarker, post);
  }

  // ---------------------------------------------------------------------------
  // Hints

  datatype Hint = TooManyRequests | Unavailable | SignInRequired

  const RateLimitMarker := "HTTP Error 429"
  const UnavailableMarker := "Video unavailable"
  const SignInMarker := "Sign in"

  /** The hint printed under a failure, first match wins: rate limiting,
      then an unavailable video, then a sign-in requirement. */
  function ErrorHint(message: string): (r: Option<Hint>)
    ensures r == Some(TooManyRequests) <==> Includes(message, RateLimitMarker)
    ensures r == Some(Unavailable)
            <==> !Includes(message, RateLimitMarker) && Includes(message, UnavailableMarker)
    ensures r == Some(SignInRequired)
            <==> !Includes(message, RateLimitMarker) && !Includes(message, UnavailableMarker)
                 && Includes(message, SignInMarker)
    ensures r.None? <==> !Includes(message, RateLimitMarker) && !Includes(message, UnavailableMarker)
                         && !Includes(message, SignInMarker)
  {
    if Includes(message, RateLimitMarker) then Some(TooManyRequests)
    else if Includes(message, UnavailableMarker) then Some(Unavailable)
    else if Includes(message, SignInMarker) then Some(SignInRequired)
    else None
  }

  /** Rate limiting wins wherever it appears in a message, whatever else the
      message says. */
  lemma RateLimitWins(pre: string, post: string)
    ensures ErrorHint(pre + RateLimitMarker + post) == Some(TooManyRequests)
  {
    IncludesInContext(pre, RateLimitMarker, post);
  }

  /** An unavailable video is reported unless the message also speaks of
      rate limiting. */
  lemma UnavailableUnlessRateLimited(pre: string, post: string)
    requires !Includes(pre + UnavailableMarker + post, RateLimitMarker)
    ensures ErrorHint(pre + UnavailableMarker + post) == Some(Unavailable)
  {
    IncludesInContext(pre, UnavailableMarker, post);
  }

  /** The hints are matched case-sensitively: a text shorter than a marker
      cannot contain it. */
  lemma ShortMessagesGetNoHint(message: string)
    requires |message| < |SignInMarker|
    ensures ErrorHint(message).None?
  {
    IncludesMeansOccurs(message, RateLimitMarker);
    IncludesMeansOccurs(message, UnavailableMarker);
    IncludesMeansOccurs(message, SignInMarker);
  }

  // ---------------------------------------------------------------------------
  // The whole run

  /** How downloadYouTube ends: it completes, fails with a message, waits
      forever on a download promise nothing settles, or dies of an exception
      a download listener threw outside its try/catch. */
  datatype Ending = Completed | Failed(message: string) | Waiting | Crashed

  /** What a run did: how it ended, which download it started, and the
      metadata it showed. */
  datatype Session = Session(ending: Ending, started: Option<Kind>, shown: Option<VideoInfo>)

  /** downloadYouTube(url, format): bootstrap the binary (its failure, if
      any, is `initFailure`), fetch the metadata, then dispatch on the
      format; `settlement` is the state of the started download's promise
      when its listeners stopped, and `crashed` whether one of them threw.
      The listeners see every event before the promise's continuation runs,
      so an uncaught exception ends the process before a settlement can. */
  function DownloadYouTube(format: string, initFailure: Option<string>, fetch: Fetch,
                           settlement: Settlement, crashed: bool): (s: Session)
    // a bootstrap failure ends the run first, with its message prefixed
    ensures initFailure.Some? ==> s == Session(Failed(InitFailurePrefix + initFailure.value), None, None)
    // a download starts exactly when bootstrap and metadata pass and the format is known
    ensures s.started.Some? <==> initFailure.None? && MetadataStep(fetch).Success? && Dispatch(format).Success?
    ensures s.started.Some? ==> Dispatch(format) == Success(s.started.value)
    ensures s.started.Some? ==> s.shown == MetadataStep(fetch).value
    // a metadata failure that is not a timeout is rethrown with its message
    ensures initFailure.None? && MetadataStep(fetch).Failure? ==>
              s == Session(Failed(MetadataStep(fetch).message), None, None)
    // a listener's exception is uncaught: it ends the run whatever the promise did
    ensures s.ending == Crashed <==> s.started.Some? && crashed
    // otherwise the run completes exactly when the started download resolves
    ensures s.ending == Completed <==> s.started.Some? && !crashed && settlement == Resolved
    ensures s.ending == Waiting <==> s.started.Some? && !crashed && settlement == Pending
    ensures s.started.Some? && !crashed && settlement.Rejected? ==> s.ending == Failed(settlement.reason)
  {
    if initFailure.Some? then Session(Failed(InitFailurePrefix + initFailure.value), None, None)
    else
      match MetadataStep(fetch)
      case Failure(message) => Session(Failed(message), None, None)
      case Success(shown) =>
        match Dispatch(format)
        case Failure(message) => Session(Failed(message), None, shown)
        case Success(kind) =>
          var ending :=
            if crashed then Crashed
            else match settlement
              case Resolved => Completed
              case Rejected(reason) => Failed(reason)
              case Pending => Waiting;
          Session(ending, Some(kind), shown)
  }

  /** An unsupported format is refused only after the metadata step, so a
      metadata failure is reported instead; no download ever starts. */
  lemma UnsupportedFormatFailsAfterMetadata(format: string, fetch: Fetch, settlement: Settlement, crashed: bool)
    requires Dispatch(format).Failure?
    ensures var s := DownloadYouTube(format, None, fetch, settlement, crashed);
            && s.started.None?
            && (MetadataStep(fetch).Success? ==> s.ending == Failed(UnsupportedFormat))
            && (MetadataStep(fetch).Failure? ==> s.ending == Failed(MetadataStep(fetch).message))
  {
  }

  /** The process exit code: 1 for the usage screen (no arguments), a
      failure or an uncaught listener exception, 0 for a completed run, none
      while waiting. */
  function ExitCode(args: seq<string>, initFailure: Option<string>, fetch: Fetch,
                    settlement: Settlement, crashed: bool): (code: Option<int>)
    ensures |args| == 0 ==> code == Some(1)
    ensures code == Some(0) <==>
              |args| > 0 && DownloadYouTube(FormatArgument(args), initFailure, fetch, settlement, crashed).ending == Completed
    ensures code.None? <==>
              |args| > 0 && DownloadYouTube(FormatArgument(args), initFailure, fetch, settlement, crashed).ending == Waiting
    ensures code.Some? && code != Some(0) ==> code == Some(1)
  {
    if |args| == 0 then Some(1)
    else
      match DownloadYouTube(FormatArgument(args), initFailure, fetch, settlement, crashed).ending
      case Completed => Some(0)
      case Failed(_) => Some(1)
      case Waiting => None
      case Crashed => Some(1)
  }

  /** A download whose error is followed by a close reaching the listeners
      still prints its success line, yet the process exits with 1. */
  lemma ErrorThenCloseExitsWithFailure(url: string, spawn: int, message: string, raw: RawInfo)
    ensures var t := Run(Video, Spawned(spawn), [ErrorEvent(message), CloseEvent]);
            && SuccessNotices(t.effects) == 1
            && ExitCode([url], None, Fetched(raw), t.final.settlement, t.crashed) == Some(1)
  {
    DownloadLaws.ErrorThenClose(Video, spawn, message);
  }

  /** A download whose listener throws exits with 1: the exception is
      uncaught, and a settled promise does not save it. */
  lemma CrashExitsWithFailure(url: string, kind: Kind, spawn: int, events: seq<Event>, raw: RawInfo)
    requires Run(kind, Spawned(spawn), events).crashed
    ensures var t := Run(kind, Spawned(spawn), events);
            ExitCode([url], None, Fetched(raw), t.final.settlement, t.crashed) == Some(1)
  {
  }
}

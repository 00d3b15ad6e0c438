/** `handleGenerateChapters`: the ordered checks that take the stored video
    id through an audio download, the status poll and chapter rendering,
    with every failure turned into an on-page message.

    The replies of the download request and of each status check are
    inputs; the messages shown are returned in the order they appear. */
module Generate {
  import opened Values
  import opened Chapters
  import opened JobPoll

  const NoVideoMessage: string := "No video ID found. Make sure you are on a YouTube video page."
  const DownloadingMessage: string := "Starting audio download..."
  const ProcessingMessage: string := "Processing audio... This may take a few minutes."
  const SuccessMessage: string := "Chapters generated successfully!"
  const NoJobIdError: string := "No job_id received from download API"
  const NoChaptersError: string := "Job completed but no chapters data received"

  /** The reply to the audio download request: its data's `job_id`, or the
      message of the error the request was rejected with. */
  datatype DownloadReply = Started(jobId: Option<string>) | DownloadFailed(message: string)

  /** What one run did: the messages shown, whether a download was
      requested, how many status checks were made, and the chapters
      injected, if any. */
  datatype Generation = Generation(messages: seq<string>, downloadRequested: bool,
                                   statusChecks: nat, injected: Option<seq<ChapterItem>>)

  /** The message the `catch` block shows for an error: the error's own
      text, quoted whole between a fixed prefix and suffix. */
  function ErrorNotice(message: string): (notice: string)
    ensures |notice| == |message| + 35
    ensures notice[..7] == "Error: "
    ensures notice[7..7 + |message|] == message
    ensures notice[7 + |message|..] == ". Check console for details."
  {
    var notice := "Error: " + message + ". Check console for details.";
    assert notice[7..7 + |message|] == message;
    assert notice[7 + |message|..] == ". Check console for details.";
    notice
  }

  /** Different errors show different notices. */
  lemma ErrorNoticeInjective(a: string, b: string)
    requires ErrorNotice(a) == ErrorNotice(b)
    ensures a == b
  {
    assert a == ErrorNotice(a)[7..7 + |a|];
  }

  ghost predicate IsErrorNotice(m: string) {
    exists e :: m == ErrorNotice(e)
  }

  /** The run ends successfully exactly when a download started with a
      job id and the poll returned a completed response with chapters. */
  predicate SucceedsWith(currentVideoId: Option<string>, download: DownloadReply,
                         responses: seq<CheckResult>, chapters: seq<ChapterRecord>)
    requires MaxAttempts <= |responses|
  {
    && Truthy(currentVideoId)
    && download.Started? && Truthy(download.jobId)
    && Poll(responses).outcome.Resolved?
    && Poll(responses).outcome.response.chapters == Some(chapters)
  }

  function HandleGenerateChapters(currentVideoId: Option<string>, download: DownloadReply,
                                  responses: seq<CheckResult>): (g: Generation)
    requires MaxAttempts <= |responses|
    ensures 1 <= |g.messages| <= 3
    ensures g.statusChecks <= MaxAttempts
    ensures g.downloadRequested <==> Truthy(currentVideoId)
    ensures g.injected.Some? <==> g.messages[|g.messages| - 1] == SuccessMessage
  {
    if !Truthy(currentVideoId) then
      Generation([NoVideoMessage], false, 0, None)
    else
      match download
      case DownloadFailed(message) =>
        Generation([DownloadingMessage, ErrorNotice(message)], true, 0, None)
      case Started(jobId) =>
        if !Truthy(jobId) then
          Generation([DownloadingMessage, ErrorNotice(NoJobIdError)], true, 0, None)
        else
          var poll := Poll(responses);
          var shown := [DownloadingMessage, ProcessingMessage];
          match poll.outcome
          case Rejected(message) =>
            Generation(shown + [ErrorNotice(message)], true, poll.checks, None)
          case Resolved(response) =>
            if response.status == "completed" && response.chapters.Some? then
              Generation(shown + [SuccessMessage], true, poll.checks,
                         Some(RenderAll(response.chapters.value)))
            else
              Generation(shown + [ErrorNotice(NoChaptersError)], true, poll.checks, None)
  }

  /** Without a stored video id nothing is requested: one message, no
      download, no polling, no chapters. */
  lemma NoVideoShowsOnlyMessage(download: DownloadReply, responses: seq<CheckResult>)
    requires MaxAttempts <= |responses|
    ensures HandleGenerateChapters(None, download, responses)
            == Generation([NoVideoMessage], false, 0, None)
    ensures HandleGenerateChapters(Some(""), download, responses)
            == Generation([NoVideoMessage], false, 0, None)
  {
  }

  /** Chapters are injected exactly on the success path, and what is
      injected is the rendering of the poll's chapters, one item per record
      in order. */
  lemma InjectedIffSuccess(currentVideoId: Option<string>, download: DownloadReply,
                           responses: seq<CheckResult>)
    requires MaxAttempts <= |responses|
    ensures var g := HandleGenerateChapters(currentVideoId, download, responses);
            g.injected.Some? <==>
              exists chapters :: SucceedsWith(currentVideoId, download, responses, chapters)
    ensures var g := HandleGenerateChapters(currentVideoId, download, responses);
            forall chapters :: SucceedsWith(currentVideoId, download, responses, chapters) ==>
              g.injected == Some(RenderAll(chapters))
  {
    var g := HandleGenerateChapters(currentVideoId, download, responses);
    if g.injected.Some? {
      ResolvedIsCompleted(responses);
      var chapters := Poll(responses).outcome.response.chapters.value;
      assert SucceedsWith(currentVideoId, download, responses, chapters);
    }
    forall chapters | SucceedsWith(currentVideoId, download, responses, chapters)
      ensures g.injected == Some(RenderAll(chapters))
    {
      ResolvedIsCompleted(responses);
    }
  }

  /** A resolved poll always carries a 'completed' status, so the status
      test before injection never fails on its own. */
  lemma ResolvedIsCompleted(responses: seq<CheckResult>)
    requires MaxAttempts <= |responses|
    requires Poll(responses).outcome.Resolved?
    ensures Poll(responses).outcome.response.status == "completed"
  {
    var r := Poll(responses);
    assert IsCompleted(responses[r.checks - 1]);
    ResolvedIffCompleted(responses);
    var k := FirstCompleted(responses);
    FirstCompletedIsReturned(responses, k);
  }

  /** The run always finishes with a message: success, the missing-video
      notice, or an error notice; errors never escape. A failing poll shows
      the poll's own error text. */
  lemma EveryRunEndsWithNotice(currentVideoId: Option<string>, download: DownloadReply,
                               responses: seq<CheckResult>)
    requires MaxAttempts <= |responses|
    ensures var g := HandleGenerateChapters(currentVideoId, download, responses);
            var last := g.messages[|g.messages| - 1];
            last == SuccessMessage || last == NoVideoMessage || IsErrorNotice(last)
    ensures var g := HandleGenerateChapters(currentVideoId, download, responses);
            Truthy(currentVideoId) && download.Started? && Truthy(download.jobId)
            && Poll(responses).outcome.Rejected? ==>
              g.messages == [DownloadingMessage, ProcessingMessage,
                             ErrorNotice(Poll(responses).outcome.message)]
  {
    var g := HandleGenerateChapters(currentVideoId, download, responses);
    var last := g.messages[|g.messages| - 1];
    if last != SuccessMessage && last != NoVideoMessage {
      if download.DownloadFailed? {
        assert last == ErrorNotice(download.message);
      } else if !Truthy(download.jobId) {
        assert last == ErrorNotice(NoJobIdError);
      } else if Poll(responses).outcome.Rejected? {
        assert last == ErrorNotice(Poll(responses).outcome.message);
      } else {
        assert last == ErrorNotice(NoChaptersError);
      }
    }
  }

  /** With a stored video id the run starts with the download message and
      never shows the missing-video message. */
  lemma StoredIdNeverShowsNoVideo(videoId: string, download: DownloadReply,
                                  responses: seq<CheckResult>)
    requires videoId != ""
    requires MaxAttempts <= |responses|
    ensures var g := HandleGenerateChapters(Some(videoId), download, responses);
            g.messages[0] == DownloadingMessage && NoVideoMessage !in g.messages
  {
  }

  /** With a stored video id, each way the run can end shows its own
      notice: the download error's text, the missing-job-id error without
      any status check, the poll's error, or the missing-chapters error
      after a resolved poll. */
  lemma BranchNotices(videoId: string, download: DownloadReply, responses: seq<CheckResult>)
    requires videoId != ""
    requires MaxAttempts <= |responses|
    ensures var g := HandleGenerateChapters(Some(videoId), download, responses);
            download.DownloadFailed? ==>
              g == Generation([DownloadingMessage, ErrorNotice(download.message)], true, 0, None)
    ensures var g := HandleGenerateChapters(Some(videoId), download, responses);
            download.Started? && !Truthy(download.jobId) ==>
              g == Generation([DownloadingMessage, ErrorNotice(NoJobIdError)], true, 0, None)
    ensures var g := HandleGenerateChapters(Some(videoId), download, responses);
            download.Started? && Truthy(download.jobId) ==>
              g.statusChecks == Poll(responses).checks
              && g.messages[..2] == [DownloadingMessage, ProcessingMessage]
    ensures var g := HandleGenerateChapters(Some(videoId), download, responses);
            download.Started? && Truthy(download.jobId) && Poll(responses).outcome.Resolved?
            && Poll(responses).outcome.response.chapters.None? ==>
              g == Generation([DownloadingMessage, ProcessingMessage, ErrorNotice(NoChaptersError)],
                              true, Poll(responses).checks, None)
  {
  }

  /** A 'failed' status reported before the last attempt does not end the
      run: if a later attempt completes with chapters, they are injected. */
  lemma EarlyFailureThenSuccessInjects(videoId: string, jobId: string,
                                       responses: seq<CheckResult>, k: nat,
                                       chapters: seq<ChapterRecord>)
    requires videoId != "" && jobId != ""
    requires 2 <= k <= MaxAttempts <= |responses|
    requires responses[0].Reply? && responses[0].response.status == "failed"
    requires forall j :: 0 <= j < k - 1 ==> !IsCompleted(responses[j])
    requires responses[k - 1] == Reply(StatusResponse("completed", None, Some(chapters)))
    ensures HandleGenerateChapters(Some(videoId), Started(Some(jobId)), responses).injected
            == Some(RenderAll(chapters))
  {
    FirstCompletedIsReturned(responses, k);
  }
}

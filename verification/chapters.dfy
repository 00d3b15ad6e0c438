/** The per-record part of `injectChapters`: each chapter record of a job's
    result becomes one list item holding a seek offset in whole seconds,
    the display of that offset, and a title. */
module Chapters {
  import opened Values
  import opened Text
  import opened TimeFormat

  /** A chapter record as the job result carries it: `start_time` in
      milliseconds and `headline`, either of which may be missing. */
  datatype ChapterRecord = ChapterRecord(startTime: Option<nat>, headline: Option<string>)

  /** One rendered chapter: where clicking it seeks to and what it shows
      as the title. The time it shows is `formatTime` of the seek offset. */
  datatype ChapterItem = ChapterItem(seek: nat, title: string) {
    function Display(): string {
      FormatTime(Num(seek))
    }
  }

  const UntitledChapter: string := "Untitled Chapter"

  /** `chapter.start_time || 0`: a missing start counts as zero. */
  function StartMillis(c: ChapterRecord): (ms: nat)
    ensures c.startTime.Some? ==> ms == c.startTime.value
    ensures c.startTime.None? ==> ms == 0
  {
    c.startTime.GetOr(0)
  }

  /** One chapter record rendered: the seek offset is the start rounded
      down to whole seconds, and the title is the headline unless it is
      missing or empty. */
  function RenderChapter(c: ChapterRecord): (item: ChapterItem)
    ensures item.seek * 1000 <= StartMillis(c) < item.seek * 1000 + 1000
    ensures Truthy(c.headline) ==> item.title == c.headline.value
    ensures !Truthy(c.headline) ==> item.title == UntitledChapter
    ensures item.title != ""
  {
    var seek := StartMillis(c) / 1000;
    ChapterItem(seek, OrElse(c.headline, UntitledChapter))
  }

  /** The time shown for a chapter reads back as its seek offset. */
  lemma RenderedDisplayReadsBack(c: ChapterRecord)
    ensures ParseClock(RenderChapter(c).Display()) == Some(RenderChapter(c).seek)
  {
    FormatTimeRoundTrip(RenderChapter(c).seek);
  }

  /** `chapters.forEach(...)` as a value: one item per record, in order. */
  function RenderAll(chapters: seq<ChapterRecord>): (items: seq<ChapterItem>)
    ensures |items| == |chapters|
    ensures forall i :: 0 <= i < |chapters| ==> items[i] == RenderChapter(chapters[i])
    decreases |chapters|
  {
    if |chapters| == 0 then []
    else [RenderChapter(chapters[0])] + RenderAll(chapters[1..])
  }

  /** The loop of `injectChapters`, building the items one record at a time.
      Each record is rendered on its own, so a record with a missing start
      or headline does not affect the others. */
  method InjectChapters(chapters: seq<ChapterRecord>) returns (items: seq<ChapterItem>)
    ensures |items| == |chapters|
    ensures forall i :: 0 <= i < |chapters| ==> items[i] == RenderChapter(chapters[i])
  {
    items := [];
    var index := 0;
    while index < |chapters|
      invariant 0 <= index <= |chapters|
      invariant |items| == index
      invariant forall i :: 0 <= i < index ==> items[i] == RenderChapter(chapters[i])
    {
      var item := RenderChapter(chapters[index]);
      items := items + [item];
      index := index + 1;
    }
  }

  /** Rendering a batch is rendering its parts and joining the results. */
  lemma RenderAllAppend(a: seq<ChapterRecord>, b: seq<ChapterRecord>)
    ensures RenderAll(a + b) == RenderAll(a) + RenderAll(b)
  {
  }

  /** A record without a start time seeks to 0 and shows "0:00". */
  lemma MissingStartRendersZero(c: ChapterRecord)
    requires c.startTime.None?
    ensures RenderChapter(c).seek == 0
    ensures RenderChapter(c).Display() == Fallback
  {
    FallbackIsZero();
  }

  /** A start of 125000 ms seeks to 125 s and shows "2:05"; a record
      without a headline is titled "Untitled Chapter". */
  lemma RenderChapterExample()
    ensures RenderChapter(ChapterRecord(Some(125000), None)) == ChapterItem(125, UntitledChapter)
    ensures RenderChapter(ChapterRecord(Some(125000), None)).Display() == "2:05"
    ensures RenderChapter(ChapterRecord(Some(999), Some(""))) == ChapterItem(0, UntitledChapter)
    ensures RenderChapter(ChapterRecord(Some(999), Some(""))).Display() == "0:00"
  {
    var c := ChapterRecord(Some(125000), None);
    assert StartMillis(c) / 1000 == 125;
    TwoMinutesExample();
    var d := ChapterRecord(Some(999), Some(""));
    assert StartMillis(d) / 1000 == 0;
    FallbackIsZero();
  }
}

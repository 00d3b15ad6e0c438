/** `checkCurrentVideo`: the content script keeps the id of the video it is
    on and, when the page's `v` query parameter names another video, drops
    the chapters panel it rendered for the previous one. */
module VideoSession {
  import opened Values

  /** The page controller's state: the stored video id (`null` at first)
      and whether a chapters panel is on the page. */
  datatype Session = Session(currentVideoId: Option<string>, panelPresent: bool)

  const InitialSession: Session := Session(None, false)

  /** The result of one check: the next state and whether
      `clearPreviousChapters` ran. */
  datatype Observation = Observation(next: Session, cleared: bool)

  /** A stored id is either absent or a non-empty string. */
  predicate ValidSession(s: Session) {
    s.currentVideoId.None? || Truthy(s.currentVideoId)
  }

  /** One run of `checkCurrentVideo` given the id read from the URL. The
      stored id moves exactly when the read id is non-empty and different;
      the panel is cleared exactly then; otherwise nothing changes. */
  function CheckCurrentVideo(s: Session, videoId: Option<string>): (o: Observation)
    ensures o.cleared <==> o.next.currentVideoId != s.currentVideoId
    ensures o.cleared <==> Truthy(videoId) && videoId != s.currentVideoId
    ensures o.cleared ==> o.next == Session(videoId, false)
    ensures !o.cleared ==> o.next == s
  {
    if Truthy(videoId) && videoId != s.currentVideoId then
      Observation(Session(videoId, false), true)
    else
      Observation(s, false)
  }

  /** Placing a chapters panel on the page (the DOM side of
      `injectChapters`). */
  function ShowPanel(s: Session): Session {
    s.(panelPresent := true)
  }

  /** The stored id is never the empty string. */
  lemma CheckPreservesValid(s: Session, videoId: Option<string>)
    requires ValidSession(s)
    ensures ValidSession(CheckCurrentVideo(s, videoId).next)
  {
  }

  /** Checking the same id a second time changes nothing and clears
      nothing. */
  lemma CheckCurrentVideoIdempotent(s: Session, videoId: Option<string>)
    ensures var o := CheckCurrentVideo(s, videoId);
            CheckCurrentVideo(o.next, videoId) == Observation(o.next, false)
  {
  }

  /** A panel shown for one video is gone once another video is detected. */
  lemma NavigationRemovesPanel(s: Session, videoId: Option<string>)
    requires Truthy(videoId) && videoId != s.currentVideoId
    ensures !CheckCurrentVideo(ShowPanel(s), videoId).next.panelPresent
  {
  }

  /** The first check after start-up: a non-empty id in the URL is always
      new, so it is stored and the (absent) panel is cleared once. */
  lemma FirstCheckStoresId(videoId: Option<string>)
    ensures ValidSession(InitialSession)
    ensures CheckCurrentVideo(InitialSession, videoId).cleared <==> Truthy(videoId)
    ensures Truthy(videoId) ==>
              CheckCurrentVideo(InitialSession, videoId).next == Session(videoId, false)
  {
  }

  /** The state after a series of checks and how many of them cleared the
      panel. */
  datatype Tracked = Tracked(session: Session, clears: nat)

  /** Running the check once per observed id, in order. */
  function Track(s: Session, ids: seq<Option<string>>): (r: Tracked)
    ensures ValidSession(s) ==> ValidSession(r.session)
    ensures r.clears == 0 ==> r.session == s
    ensures r.clears > 0 ==> !r.session.panelPresent
    decreases |ids|
  {
    if |ids| == 0 then Tracked(s, 0)
    else
      var o := CheckCurrentVideo(s, ids[0]);
      var rest := Track(o.next, ids[1..]);
      Tracked(rest.session, rest.clears + if o.cleared then 1 else 0)
  }

  /** Reference definition, read from the last observation backwards: the
      stored id is the last non-empty id seen, or the initial one. */
  function LastStored(stored: Option<string>, ids: seq<Option<string>>): Option<string>
    decreases |ids|
  {
    if |ids| == 0 then stored
    else if Truthy(ids[|ids| - 1]) then ids[|ids| - 1]
    else LastStored(stored, ids[..|ids| - 1])
  }

  /** Reference definition: the number of positions whose id is non-empty
      and differs from the id stored just before it. */
  function NewIds(stored: Option<string>, ids: seq<Option<string>>): nat
    decreases |ids|
  {
    if |ids| == 0 then 0
    else
      var before := ids[..|ids| - 1];
      var id := ids[|ids| - 1];
      NewIds(stored, before)
        + if Truthy(id) && id != LastStored(stored, before) then 1 else 0
  }

  /** The reference definitions split at the first observation. */
  lemma {:induction false} HistoryAfterFirst(stored: Option<string>, x: Option<string>,
                                             rest: seq<Option<string>>)
    ensures LastStored(stored, [x] + rest) == LastStored(LastStored(stored, [x]), rest)
    ensures NewIds(stored, [x] + rest)
            == NewIds(stored, [x]) + NewIds(LastStored(stored, [x]), rest)
    decreases |rest|
  {
    if |rest| == 0 {
      assert [x] + rest == [x];
    } else {
      var front := rest[..|rest| - 1];
      assert ([x] + rest)[..|[x] + rest| - 1] == [x] + front;
      HistoryAfterFirst(stored, x, front);
    }
  }

  /** A series of checks stores the last non-empty id seen and clears the
      panel once for every position where a new non-empty id appears. */
  lemma {:induction false} TrackFollowsHistory(s: Session, ids: seq<Option<string>>)
    ensures Track(s, ids).session.currentVideoId == LastStored(s.currentVideoId, ids)
    ensures Track(s, ids).clears == NewIds(s.currentVideoId, ids)
    decreases |ids|
  {
    if |ids| > 0 {
      var o := CheckCurrentVideo(s, ids[0]);
      TrackFollowsHistory(o.next, ids[1..]);
      assert ids == [ids[0]] + ids[1..];
      HistoryAfterFirst(s.currentVideoId, ids[0], ids[1..]);
      assert [ids[0]][..0] == [];
      assert LastStored(s.currentVideoId, [ids[0]]) == o.next.currentVideoId;
    }
  }

  /** Seeing the same id any number of times in a row clears the panel at
      most once: once if it is a new non-empty id, never otherwise. */
  lemma {:induction false} RepeatedIdClearsOnce(s: Session, videoId: Option<string>, n: nat)
    requires 1 <= n
    ensures var ids := seq(n, _ => videoId);
            Track(s, ids).clears == (if Truthy(videoId) && videoId != s.currentVideoId then 1 else 0)
    ensures Track(s, seq(n, _ => videoId)).session == CheckCurrentVideo(s, videoId).next
    decreases n
  {
    var ids := seq(n, _ => videoId);
    var o := CheckCurrentVideo(s, videoId);
    assert ids[0] == videoId;
    if n > 1 {
      assert ids[1..] == seq(n - 1, _ => videoId);
      RepeatedIdClearsOnce(o.next, videoId, n - 1);
    } else {
      assert ids[1..] == [];
    }
  }
}

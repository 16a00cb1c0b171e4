/**
 * extract_video_id (app.py:57-63): pulls the video id out of the two URL
 * shapes the application accepts, or reports that there is none.
 */
module VideoId {
  import opened Outcomes
  import opened PyStr

  const WATCH_MARKER := "youtube.com/watch?v="
  const SHORT_MARKER := "youtu.be/"

  /**
   * A watch URL yields `url.split('v=')[1].split('&')[0]`; otherwise a short
   * URL yields `url.split('/')[-1]`; any other URL yields `None`.
   */
  function ExtractVideoId(url: string): (r: Option<string>)
    ensures r.None? <==> !Contains(url, WATCH_MARKER) && !Contains(url, SHORT_MARKER)
  {
    if Contains(url, WATCH_MARKER) then
      MarkerHasChar(url, WATCH_MARKER, 18, "v=");
      Some(Split(Split(url, "v=")[1], "&")[0])
    else if Contains(url, SHORT_MARKER) then
      var parts := Split(url, "/");
      Some(parts[|parts| - 1])
    else None
  }

  /** A URL that contains a marker contains every piece of that marker. */
  lemma MarkerHasChar(url: string, marker: string, at: nat, piece: string)
    requires Contains(url, marker)
    requires at + |piece| <= |marker| && marker[at..at + |piece|] == piece
    ensures Contains(url, piece)
  {
    var j: nat :| j <= |url| && OccursAt(url, marker, j);
    forall k | 0 <= k < |piece|
      ensures url[j + at + k] == piece[k]
    {
      assert url[j + at + k] == url[j..j + |marker|][at + k];
      assert piece[k] == marker[at..at + |piece|][k];
    }
    assert url[j + at..j + at + |piece|] == piece;
    assert OccursAt(url, piece, j + at);
  }

  /**
   * For a watch URL the id is the text after the first `"v="` up to the
   * first `'&'` or the next `"v="`, whichever comes first, or to the end of
   * the URL when neither follows.
   */
  lemma WatchUrlId(url: string)
    requires Contains(url, WATCH_MARKER)
    ensures var rest := AfterFirst(url, "v="); var id := ExtractVideoId(url).value;
      |id| <= |rest| && id == rest[..|id|]
      && !Contains(id, "&") && !Contains(id, "v=")
      && (|id| == |rest| || rest[|id|] == '&' || OccursAt(rest, "v=", |id|))
  {
    MarkerHasChar(url, WATCH_MARKER, 18, "v=");
    var rest := AfterFirst(url, "v=");
    var segment := Split(url, "v=")[1];
    assert segment == Split(rest, "v=")[0] by {
      SecondPiece(url, "v=");
    }
    var id := Split(segment, "&")[0];
    assert ExtractVideoId(url) == Some(id);
    IdInSegment(rest, segment, id);
  }

  /**
   * The first `"&"`-piece of the first `"v="`-piece of `rest` is a prefix of
   * `rest` that stops at the end, at an `'&'` or where a `"v="` begins.
   */
  lemma IdInSegment(rest: string, segment: string, id: string)
    requires segment == Split(rest, "v=")[0] && id == Split(segment, "&")[0]
    ensures |id| <= |rest| && id == rest[..|id|]
      && !Contains(id, "&") && !Contains(id, "v=")
      && (|id| == |rest| || rest[|id|] == '&' || OccursAt(rest, "v=", |id|))
  {
    assert segment == rest[..|segment|] && !Contains(segment, "v=")
      && (|segment| == |rest| || OccursAt(rest, "v=", |segment|)) by {
      FirstPiece(rest, "v=");
    }
    assert id == segment[..|id|] && !Contains(id, "&")
      && (|id| == |segment| || OccursAt(segment, "&", |id|)) by {
      FirstPiece(segment, "&");
    }
    PrefixAvoids(segment, |id|, "v=");
    PrefixOfPrefix(rest, segment, id);
    if |id| < |segment| {
      OneCharAt(segment, "&", |id|);
    }
  }

  /** A prefix of a prefix of `rest` is a prefix of `rest`, and agrees with it one further. */
  lemma PrefixOfPrefix(rest: string, segment: string, id: string)
    requires |segment| <= |rest| && segment == rest[..|segment|]
    requires |id| <= |segment| && id == segment[..|id|]
    ensures id == rest[..|id|]
    ensures |id| < |segment| ==> rest[|id|] == segment[|id|]
  {
    assert rest[..|segment|][..|id|] == rest[..|id|];
  }

  /** A one-character separator occurring at `k` is the character at `k`. */
  lemma OneCharAt(s: string, sep: string, k: nat)
    requires |sep| == 1 && OccursAt(s, sep, k)
    ensures s[k] == sep[0]
  {
    assert s[k] == s[k..k + 1][0];
  }

  /**
   * For a short URL (and no watch marker) the id is the suffix after the
   * last `'/'`: it holds no `'/'` and a `'/'` stands right before it.
   */
  lemma ShortUrlId(url: string)
    requires !Contains(url, WATCH_MARKER) && Contains(url, SHORT_MARKER)
    ensures var id := ExtractVideoId(url).value;
      |id| < |url| && id == url[|url| - |id|..] && '/' !in id && url[|url| - |id| - 1] == '/'
  {
    MarkerHasChar(url, SHORT_MARKER, 8, "/");
    AfterLastSlash(url);
  }

  lemma AfterLastSlash(url: string)
    requires Contains(url, "/")
    ensures var parts := Split(url, "/"); var id := parts[|parts| - 1];
      |id| < |url| && id == url[|url| - |id|..] && '/' !in id && url[|url| - |id| - 1] == '/'
  {
    LastPieceAfterChar(url, '/');
    PiecesLackChar(url, '/');
  }

  /** The characters of a suffix without `'/'` are not `'/'` in the whole string. */
  lemma NoSlashIn(url: string, suffix: string)
    requires |suffix| <= |url| && suffix == url[|url| - |suffix|..] && '/' !in suffix
    ensures forall k | |url| - |suffix| <= k < |url| :: url[k] != '/'
  {
    forall k | |url| - |suffix| <= k < |url|
      ensures url[k] != '/'
    {
      assert url[k] == suffix[k - (|url| - |suffix|)];
    }
  }

  /** The id of a canonical watch URL is read back unchanged. */
  lemma WatchUrlRoundTrip(id: string)
    requires !Contains(id, "&") && !Contains(id, "v=")
    ensures ExtractVideoId(WATCH_PREFIX + id) == Some(id)
  {
    var url := WATCH_PREFIX + id;
    WatchPrefixHasMarker(id);
    WatchPrefixThenId(id);
    WatchUrlId(url);
    WholeIdFound(id, ExtractVideoId(url).value);
  }

  /** The canonical head of a watch URL, ending in the `"v="` the id follows. */
  const WATCH_PREFIX := "https://www.youtube.com/watch?v="

  lemma WatchPrefixHasMarker(id: string)
    ensures Contains(WATCH_PREFIX + id, WATCH_MARKER)
  {
    var url := WATCH_PREFIX + id;
    assert url[12..32] == WATCH_MARKER;
    assert OccursAt(url, WATCH_MARKER, 12);
  }

  /** The first `"v="` of a canonical watch URL is the one right before the id. */
  lemma WatchPrefixThenId(id: string)
    ensures AfterFirst(WATCH_PREFIX + id, "v=") == id
  {
    var head := "https://www.youtube.com/watch?";
    assert WATCH_PREFIX + id == head + "v=" + id;
    assert 'v' !in head;
    AvoidsFirstChar(head, "v=");
    AfterFirstOfJoined(head, "v=", id);
  }

  /** A prefix of `id` that can only stop at an `'&'` or a `"v="` is all of `id` when it has neither. */
  lemma WholeIdFound(id: string, found: string)
    requires !Contains(id, "&") && !Contains(id, "v=")
    requires |found| <= |id| && found == id[..|found|]
    requires |found| == |id| || id[|found|] == '&' || OccursAt(id, "v=", |found|)
    ensures found == id
  {
    if |found| == |id| {
      assert id[..|id|] == id;
    } else if id[|found|] == '&' {
      assert id[|found|..|found| + 1] == "&";
      assert OccursAt(id, "&", |found|);
    }
  }

  /** The id of a canonical short URL is read back unchanged. */
  lemma ShortUrlRoundTrip(id: string)
    requires '/' !in id
    ensures ExtractVideoId("https://youtu.be/" + id) == Some(id)
  {
    var url := "https://youtu.be/" + id;
    assert url[8..17] == SHORT_MARKER;
    assert OccursAt(url, SHORT_MARKER, 8);
    forall j: nat | j <= |url|
      ensures !OccursAt(url, WATCH_MARKER, j)
    {
      if j + 20 <= |url| {
        assert url[j + 11] == url[j..j + 20][11];
        assert url[j] == url[j..j + 20][0];
        if j + 11 >= 17 {
          assert url[j + 11] == id[j + 11 - 17];
        }
      }
    }
    ShortUrlId(url);
    var found := ExtractVideoId(url).value;
    NoSlashIn(url, id);
    NoSlashIn(url, found);
    assert url[|url| - |id| - 1] == '/';
    assert url[|url| - |found| - 1] == '/';
    assert |found| <= |id|;
    assert |found| >= |id|;
  }
}

/**
  Per-account post selection: `get_last_n_tweets_of_user`. The two API calls
  become function parameters (`nameOf` for `api.get_user(u).name`,
  `timelineOf` for `api.user_timeline(u, count=n)`), and the clock reading
  becomes the parameter `now`. Times are whole seconds.
 */
module Fetch {
  import opened Builtins
  import opened Links
  import opened Outcomes

  /** A post as the timeline returns it, newest first. */
  datatype Post = Post(text: string, createdAt: int)

  /** The largest count passed to the timeline call. */
  const MaxCount := 20

  /** The staleness window: 24 hours, in seconds. */
  const Day := 24 * 60 * 60

  /** The count actually requested from the timeline: capped at 20, never raised. */
  function CappedCount(n: int): (c: int)
    ensures c <= MaxCount
    ensures n <= MaxCount ==> c == n
    ensures n > MaxCount ==> c == MaxCount
  {
    if n > MaxCount then MaxCount else n
  }

  /** The account counts as inactive when its newest post is older than `now` minus 24 hours. */
  predicate IsStale(newest: Post, now: int) {
    newest.createdAt < now - Day
  }

  /** A post's entry in the digest: link-rendered when "https" occurs anywhere in it, verbatim otherwise. */
  function PostText(text: string): string {
    if Contains(text, Marker) then Rendered(text) else text
  }

  /**
    The entries kept from a non-empty timeline. Only the newest post's age is
    looked at: a stale account keeps nothing, an active one keeps one entry per post.
   */
  function Selected(timeline: seq<Post>, now: int): (r: seq<string>)
    requires timeline != []
    ensures r == [] <==> IsStale(timeline[0], now)
    ensures r != [] ==> |r| == |timeline|
  {
    if IsStale(timeline[0], now) then []
    else seq(|timeline|, i requires 0 <= i < |timeline| => PostText(timeline[i].text))
  }

  /** The one-entry map the account contributes, or the error an empty timeline raises. */
  function UserTweets(username: string, count: int, nameOf: string -> string,
                      timelineOf: (string, int) -> seq<Post>, now: int): (r: Result<map<string, seq<string>>>)
    ensures r.Failure? <==> timelineOf(username, CappedCount(count)) == []
    ensures r.Failure? ==> r.error == EmptyTimeline(username)
    ensures r.Ok? ==> r.value.Keys == {nameOf(username)}
  {
    var timeline := timelineOf(username, CappedCount(count));
    if timeline == [] then Failure(EmptyTimeline(username))
    else Ok(map[nameOf(username) := Selected(timeline, now)])
  }

  /** `get_last_n_tweets_of_user`: cap the count, fetch, apply the staleness rule, render. */
  method GetLastNTweetsOfUser(username: string, numberOfTweets: int, nameOf: string -> string,
                              timelineOf: (string, int) -> seq<Post>, now: int)
    returns (r: Result<map<string, seq<string>>>)
    ensures r == UserTweets(username, numberOfTweets, nameOf, timelineOf, now)
  {
    var tweets: seq<string> := [];
    var user := nameOf(username);
    var n := numberOfTweets;
    if n > MaxCount {
      n := MaxCount;
    }
    var userTweets := timelineOf(username, n);
    if userTweets == [] {
      return Failure(EmptyTimeline(username));
    }
    var lastTweetTime := userTweets[0].createdAt;
    var yesterday := now - Day;
    if lastTweetTime < yesterday {
      return Ok(map[user := []]);
    }
    var i := 0;
    while i < |userTweets|
      invariant i <= |userTweets|
      invariant |tweets| == i
      invariant forall k :: 0 <= k < i ==> tweets[k] == PostText(userTweets[k].text)
    {
      var tweet := userTweets[i];
      if Contains(tweet.text, Marker) {
        var clickable := MakeLinksClickable(tweet.text);
        tweets := tweets + [clickable];
      } else {
        tweets := tweets + [tweet.text];
      }
      i := i + 1;
    }
    assert tweets == Selected(userTweets, now);
    return Ok(map[user := tweets]);
  }

  // ---------------------------------------------------------------------
  // Properties of the selection.

  /** Any count above 20 behaves exactly like 20. */
  lemma CountAboveCapActsAsCap(username: string, count: int, nameOf: string -> string,
                               timelineOf: (string, int) -> seq<Post>, now: int)
    requires count > MaxCount
    ensures UserTweets(username, count, nameOf, timelineOf, now)
         == UserTweets(username, MaxCount, nameOf, timelineOf, now)
  {
  }

  /** An inactive account is reported with no posts, whatever the count and the other posts. */
  lemma StaleAccountIsEmpty(username: string, count: int, nameOf: string -> string,
                            timelineOf: (string, int) -> seq<Post>, now: int)
    requires timelineOf(username, CappedCount(count)) != []
    requires IsStale(timelineOf(username, CappedCount(count))[0], now)
    ensures UserTweets(username, count, nameOf, timelineOf, now) == Ok(map[nameOf(username) := []])
  {
  }

  /** The window is strict: a newest post exactly 24 hours old keeps the account active. */
  lemma ExactlyOneDayIsNotStale(post: Post, now: int)
    requires post.createdAt == now - Day
    ensures !IsStale(post, now)
  {
  }

  /**
    An active account keeps every fetched post, in order and one entry per
    post, including posts older than the window further down the timeline.
   */
  lemma ActiveAccountKeepsAll(timeline: seq<Post>, now: int)
    requires timeline != [] && !IsStale(timeline[0], now)
    ensures |Selected(timeline, now)| == |timeline|
    ensures forall i :: 0 <= i < |timeline| ==> Selected(timeline, now)[i] == PostText(timeline[i].text)
  {
  }

  /** A post without "https" is passed through unchanged. */
  lemma PlainPostVerbatim(text: string)
    requires !Contains(text, Marker)
    ensures PostText(text) == text
  {
  }

  /**
    A post that mentions "https" only inside words (no word starts with it) is
    still re-joined, so its whitespace collapses to single spaces.
   */
  lemma MarkerInsideWordsNormalisesSpacing(text: string)
    requires Contains(text, Marker)
    requires forall k :: 0 <= k < |Words(text, Unicode)| ==> !StartsWith(Words(text, Unicode)[k], Marker)
    ensures PostText(text) == Join(Words(text, Unicode), " ")
  {
    assert RenderWords(Words(text, Unicode)) == Words(text, Unicode);
  }

  /** Every word split off `s` occurs in `s`. */
  lemma {:induction false} WordsOccur(s: string, kind: Kind, k: nat)
    requires k < |Words(s, kind)|
    ensures exists i :: 0 <= i <= |s| && StartsWith(s[i..], Words(s, kind)[k])
    decreases |s|
  {
    if IsSpace(s[0], kind) {
      WordsOccur(s[1..], kind, k);
      var i :| 0 <= i <= |s[1..]| && StartsWith(s[1..][i..], Words(s[1..], kind)[k]);
      assert s[1..][i..] == s[i + 1..];
    } else {
      var n := WordLength(s, kind);
      if k == 0 {
        assert StartsWith(s[0..], s[..n]);
      } else {
        assert Words(s, kind)[k] == Words(s[n..], kind)[k - 1];
        WordsOccur(s[n..], kind, k - 1);
        var i :| 0 <= i <= |s[n..]| && StartsWith(s[n..][i..], Words(s[n..], kind)[k - 1]);
        assert s[n..][i..] == s[i + n..];
      }
    }
  }

  /** A word of `text` that starts with the marker makes the marker occur in `text`. */
  lemma MarkedWordInText(text: string, k: nat)
    requires k < |Words(text, Unicode)|
    ensures StartsWith(Words(text, Unicode)[k], Marker) ==> Contains(text, Marker)
  {
    var w := Words(text, Unicode)[k];
    if StartsWith(w, Marker) {
      WordsOccur(text, Unicode, k);
      var i :| 0 <= i <= |text| && StartsWith(text[i..], w);
      assert text[i..][..|Marker|] == w[..|Marker|];
      assert StartsWith(text[i..], Marker);
    }
  }

  /**
    No word of a post's digest entry starts with "https": either the post had
    no "https" at all, or every such word was turned into an anchor.
   */
  lemma NoRawLinkInEntry(text: string)
    ensures forall k :: 0 <= k < |Words(PostText(text), Unicode)| ==>
              !StartsWith(Words(PostText(text), Unicode)[k], Marker)
  {
    if Contains(text, Marker) {
      NoRawLinkRemains(text);
    } else {
      forall k | 0 <= k < |Words(text, Unicode)|
        ensures StartsWith(Words(text, Unicode)[k], Marker) ==> Contains(text, Marker)
      {
        MarkedWordInText(text, k);
      }
    }
  }
}

/**
  The file-mode run: the posts of the accounts listed in a username file,
  laid out as one digest page.
 */
module Pipeline {
  import opened Outcomes
  import opened Fetch
  import opened Usernames
  import opened Digest

  /** The page a file-mode run produces, or the first error it stops at. */
  ghost function FileDigest(content: string, count: int, excludedUsers: string, nameOf: string -> string,
                            timelineOf: (string, int) -> seq<Post>, now: int): (r: Result<string>)
    ensures r.Ok? <==> AllTweets(content, count, excludedUsers, nameOf, timelineOf, now).Ok?
    ensures r.Failure? ==> r.error == NoUsernames || r.error.EmptyTimeline?
  {
    var collected := AllTweets(content, count, excludedUsers, nameOf, timelineOf, now);
    if collected.Failure? then
      Failure(collected.error)
    else
      FileModeFitsPalette(content, count, excludedUsers, nameOf, timelineOf, now);
      Html(collected.value)
  }

  /**
    A username file lists at most ten accounts, so a file-mode run never asks
    for an eleventh heading colour: the only errors left are the empty file
    and an empty timeline.
   */
  lemma FileModeFitsPalette(content: string, count: int, excludedUsers: string, nameOf: string -> string,
                            timelineOf: (string, int) -> seq<Post>, now: int)
    requires AllTweets(content, count, excludedUsers, nameOf, timelineOf, now).Ok?
    ensures Html(AllTweets(content, count, excludedUsers, nameOf, timelineOf, now).value).Ok?
  {
    AtMostTenAccounts(content, count, excludedUsers, nameOf, timelineOf, now);
  }

  /** The run as the script sequences it: collect, then compose (mailing is not modelled). */
  method CollectAndCompose(content: string, count: int, excludedUsers: string, nameOf: string -> string,
                    timelineOf: (string, int) -> seq<Post>, now: int) returns (r: Result<string>)
    ensures r == FileDigest(content, count, excludedUsers, nameOf, timelineOf, now)
  {
    var tweets := GetAllTweets(content, count, excludedUsers, nameOf, timelineOf, now);
    if tweets.Failure? {
      return Failure(tweets.error);
    }
    r := ConstructHtmlMessage(tweets.value);
  }
}

/**
  Username-list bookkeeping: `get_usernames_from_file` on the file's content,
  the exclusion loop of `get_all_tweets`, and the fold of the per-account
  results into one map keyed by display name.
 */
module Usernames {
  import opened Builtins
  import opened Outcomes
  import opened Fetch

  /** The most usernames one run processes. */
  const MaxUsernames := 10

  /**
    `get_usernames_from_file` after the file is read: its lines, blank ones
    included; none at all is fatal; more than ten are cut to the first ten.
   */
  function UsernamesFromFile(content: string): (r: Result<seq<string>>)
    ensures r.Failure? <==> content == []
    ensures r.Failure? ==> r.error == NoUsernames
    ensures r.Ok? ==> 1 <= |r.value| <= MaxUsernames
    ensures r.Ok? ==> |r.value| <= |SplitLines(content)| && r.value == SplitLines(content)[..|r.value|]
    ensures r.Ok? && |SplitLines(content)| <= MaxUsernames ==> r.value == SplitLines(content)
    ensures r.Ok? && |SplitLines(content)| > MaxUsernames ==> |r.value| == MaxUsernames
  {
    var usernames := SplitLines(content);
    if usernames == [] then Failure(NoUsernames)
    else if |usernames| > MaxUsernames then Ok(usernames[..MaxUsernames])
    else Ok(usernames)
  }

  /** A file of lines loads as those lines, at most the first ten. */
  lemma LoadFile(ls: seq<string>, eol: string, last: string)
    requires IsTerminator(eol)
    requires forall i :: 0 <= i < |ls| ==> IsLine(ls[i])
    requires IsLine(last)
    requires ls != [] || last != []
    ensures var lines := ls + (if last == [] then [] else [last]);
            UsernamesFromFile(Terminated(ls, eol) + last)
            == Ok(if |lines| > MaxUsernames then lines[..MaxUsernames] else lines)
  {
    SplitLinesOfFile(ls, eol, last);
  }

  // ---------------------------------------------------------------------
  // Order-preserving removal.

  /** `a` is `b` with some elements left out, the rest in their order. */
  predicate IsSubsequence(a: seq<string>, b: seq<string>)
    decreases |b|
  {
    a == [] || (b != [] && ((a[0] == b[0] && IsSubsequence(a[1..], b[1..])) || IsSubsequence(a, b[1..])))
  }

  lemma {:induction false} SubsequenceReflexive(a: seq<string>)
    ensures IsSubsequence(a, a)
    decreases |a|
  {
    if a != [] {
      SubsequenceReflexive(a[1..]);
    }
  }

  lemma {:induction false} SubsequenceTransitive(a: seq<string>, b: seq<string>, c: seq<string>)
    requires IsSubsequence(a, b) && IsSubsequence(b, c)
    ensures IsSubsequence(a, c)
    decreases |c|
  {
    if a != [] {
      if IsSubsequence(b, c[1..]) {
        SubsequenceTransitive(a, b, c[1..]);
      } else {
        assert b[0] == c[0] && IsSubsequence(b[1..], c[1..]);
        if a[0] == b[0] && IsSubsequence(a[1..], b[1..]) {
          SubsequenceTransitive(a[1..], b[1..], c[1..]);
        } else {
          SubsequenceTransitive(a, b[1..], c[1..]);
        }
      }
    }
  }

  lemma {:induction false} DropOneIsSubsequence(s: seq<string>, i: nat)
    requires i < |s|
    ensures IsSubsequence(s[..i] + s[i + 1..], s)
    decreases i
  {
    if i == 0 {
      assert s[..0] + s[1..] == s[1..];
      SubsequenceReflexive(s[1..]);
    } else {
      var a := s[..i] + s[i + 1..];
      assert a[0] == s[0];
      assert a[1..] == s[1..][..i - 1] + s[1..][i..];
      DropOneIsSubsequence(s[1..], i - 1);
    }
  }

  /** `usernames.remove(x)`: drop the first occurrence of `x`. */
  function Remove(s: seq<string>, x: string): (r: seq<string>)
    requires x in s
    ensures exists i :: 0 <= i < |s| && s[i] == x && x !in s[..i] && r == s[..i] + s[i + 1..]
    ensures |r| == |s| - 1
    ensures multiset(r) == multiset(s) - multiset{x}
    ensures IsSubsequence(r, s)
  {
    var i := IndexOf(s, x);
    assert s == s[..i] + [x] + s[i + 1..];
    DropOneIsSubsequence(s, i);
    s[..i] + s[i + 1..]
  }

  /**
    One turn of the exclusion loop: `if x in usernames: usernames.remove(x)`.
    One copy of `x` goes, if there is one, and the rest keep their order.
   */
  function ExcludeOne(s: seq<string>, x: string): (r: seq<string>)
    ensures |r| == if x in s then |s| - 1 else |s|
    ensures multiset(r) == multiset(s) - multiset{x}
    ensures IsSubsequence(r, s)
  {
    if x in s then Remove(s, x)
    else
      assert multiset(s)[x] == 0;
      SubsequenceReflexive(s);
      s
  }

  /**
    The usernames left once every excluded name has been handled, in the given
    order: each name takes away at most one username.
   */
  function Excluded(s: seq<string>, names: seq<string>): (r: seq<string>)
    ensures |s| - |names| <= |r| <= |s|
    decreases |names|
  {
    if names == [] then s else ExcludeOne(Excluded(s, names[..|names| - 1]), names[|names| - 1])
  }

  /**
    Each excluded name takes away one occurrence, if there is one, and the
    remaining usernames keep their relative order.
   */
  lemma {:induction false} ExcludedRemovesOneEach(s: seq<string>, names: seq<string>)
    ensures multiset(Excluded(s, names)) == multiset(s) - multiset(names)
    ensures IsSubsequence(Excluded(s, names), s)
    decreases |names|
  {
    if names == [] {
      SubsequenceReflexive(s);
    } else {
      var front, x := names[..|names| - 1], names[|names| - 1];
      assert names == front + [x];
      ExcludedRemovesOneEach(s, front);
      var before := Excluded(s, front);
      DifferenceOfSum(multiset(s), multiset(front), multiset{x});
      SubsequenceTransitive(ExcludeOne(before, x), before, s);
    }
  }

  lemma DifferenceOfSum<T>(a: multiset<T>, b: multiset<T>, c: multiset<T>)
    ensures a - b - c == a - (b + c)
  {
  }

  /** Names that are not in the list leave it as it is. */
  lemma {:induction false} ExcludedAbsentNames(s: seq<string>, names: seq<string>)
    requires forall i :: 0 <= i < |names| ==> names[i] !in s
    ensures Excluded(s, names) == s
    decreases |names|
  {
    if names != [] {
      ExcludedAbsentNames(s, names[..|names| - 1]);
    }
  }

  /** The exclusion loop of `get_all_tweets`, over the words of the `-e` argument. */
  method ApplyExclusions(usernames: seq<string>, excludedUsers: string) returns (r: seq<string>)
    ensures r == Excluded(usernames, Words(excludedUsers, Str))
  {
    r := usernames;
    if excludedUsers != [] {
      var names := Words(excludedUsers, Str);
      var i := 0;
      while i < |names|
        invariant i <= |names|
        invariant r == Excluded(usernames, names[..i])
      {
        var username := names[i];
        assert names[..i + 1][..i] == names[..i];
        if username in r {
          r := Remove(r, username);
        }
        i := i + 1;
      }
      assert names[..|names|] == names;
    }
  }

  // ---------------------------------------------------------------------
  // Folding the per-account maps.

  /** `tweets.update(...)` for each username in order, stopping at the first error. */
  function Collected(users: seq<string>, count: int, nameOf: string -> string,
                     timelineOf: (string, int) -> seq<Post>, now: int): (r: Result<map<string, seq<string>>>)
    ensures r.Failure? ==> r.error.EmptyTimeline?
    decreases |users|
  {
    if users == [] then Ok(map[])
    else
      var before := Collected(users[..|users| - 1], count, nameOf, timelineOf, now);
      if before.Failure? then before
      else
        var one := UserTweets(users[|users| - 1], count, nameOf, timelineOf, now);
        if one.Failure? then one else Ok(before.value + one.value)
  }

  /**
    `get_all_tweets` on the file's content. It stops only for an empty username
    file or an empty timeline.
   */
  function AllTweets(content: string, count: int, excludedUsers: string, nameOf: string -> string,
                     timelineOf: (string, int) -> seq<Post>, now: int): (r: Result<map<string, seq<string>>>)
    ensures r.Failure? ==> (r.error == NoUsernames <==> content == [])
    ensures r.Failure? ==> (r.error.EmptyTimeline? <==> content != [])
  {
    var loaded := UsernamesFromFile(content);
    if loaded.Failure? then Failure(loaded.error)
    else Collected(Excluded(loaded.value, Words(excludedUsers, Str)), count, nameOf, timelineOf, now)
  }

  /** Once an account has failed, later accounts do not change the outcome. */
  lemma {:induction false} FailureSticks(users: seq<string>, n: nat, count: int, nameOf: string -> string,
                                         timelineOf: (string, int) -> seq<Post>, now: int)
    requires n <= |users|
    requires Collected(users[..n], count, nameOf, timelineOf, now).Failure?
    ensures Collected(users, count, nameOf, timelineOf, now) == Collected(users[..n], count, nameOf, timelineOf, now)
    decreases |users| - n
  {
    if n < |users| {
      assert users[..|users| - 1][..n] == users[..n];
      FailureSticks(users[..|users| - 1], n, count, nameOf, timelineOf, now);
    } else {
      assert users[..n] == users;
    }
  }

  /** One more username: its map is merged in, or its error ends the fold. */
  lemma CollectedStep(users: seq<string>, i: nat, count: int, nameOf: string -> string,
                      timelineOf: (string, int) -> seq<Post>, now: int)
    requires i < |users|
    ensures var before := Collected(users[..i], count, nameOf, timelineOf, now);
            var one := UserTweets(users[i], count, nameOf, timelineOf, now);
            Collected(users[..i + 1], count, nameOf, timelineOf, now)
            == if before.Failure? then before else if one.Failure? then one else Ok(before.value + one.value)
  {
    assert users[..i + 1][..i] == users[..i];
    assert users[..i + 1][i] == users[i];
  }

  /** `get_all_tweets`: load, exclude, then fold one account at a time. */
  method GetAllTweets(content: string, tweetCount: int, excludedUsers: string, nameOf: string -> string,
                      timelineOf: (string, int) -> seq<Post>, now: int)
    returns (r: Result<map<string, seq<string>>>)
    ensures r == AllTweets(content, tweetCount, excludedUsers, nameOf, timelineOf, now)
  {
    var tweets: map<string, seq<string>> := map[];
    var loaded := UsernamesFromFile(content);
    if loaded.Failure? {
      return Failure(loaded.error);
    }
    var usernames := ApplyExclusions(loaded.value, excludedUsers);
    var i := 0;
    while i < |usernames|
      invariant i <= |usernames|
      invariant Collected(usernames[..i], tweetCount, nameOf, timelineOf, now) == Ok(tweets)
    {
      var user := usernames[i];
      CollectedStep(usernames, i, tweetCount, nameOf, timelineOf, now);
      var one := GetLastNTweetsOfUser(user, tweetCount, nameOf, timelineOf, now);
      if one.Failure? {
        FailureSticks(usernames, i + 1, tweetCount, nameOf, timelineOf, now);
        return one;
      }
      tweets := tweets + one.value;
      i := i + 1;
    }
    assert usernames[..|usernames|] == usernames;
    return Ok(tweets);
  }

  // ---------------------------------------------------------------------
  // Properties of the fold.

  /** The display names of a list of usernames. */
  function DisplayNames(users: seq<string>, nameOf: string -> string): set<string> {
    set i | 0 <= i < |users| :: nameOf(users[i])
  }

  /** The digest has one key per distinct display name of the processed usernames. */
  lemma {:induction false} CollectedKeys(users: seq<string>, count: int, nameOf: string -> string,
                                         timelineOf: (string, int) -> seq<Post>, now: int)
    requires Collected(users, count, nameOf, timelineOf, now).Ok?
    ensures Collected(users, count, nameOf, timelineOf, now).value.Keys == DisplayNames(users, nameOf)
    decreases |users|
  {
    if users != [] {
      var front := users[..|users| - 1];
      CollectedKeys(front, count, nameOf, timelineOf, now);
      assert DisplayNames(users, nameOf) == DisplayNames(front, nameOf) + {nameOf(users[|users| - 1])} by {
        forall i | 0 <= i < |users| - 1 ensures users[i] == front[i] { }
      }
    }
  }

  /**
    Last write wins: the entry under a display name is the selection of the
    last username in the list that has that display name.
   */
  lemma {:induction false} CollectedLastWins(users: seq<string>, count: int, nameOf: string -> string,
                                             timelineOf: (string, int) -> seq<Post>, now: int, i: nat)
    requires Collected(users, count, nameOf, timelineOf, now).Ok?
    requires i < |users|
    requires forall j :: i < j < |users| ==> nameOf(users[j]) != nameOf(users[i])
    ensures timelineOf(users[i], CappedCount(count)) != []
    ensures nameOf(users[i]) in Collected(users, count, nameOf, timelineOf, now).value
    ensures Collected(users, count, nameOf, timelineOf, now).value[nameOf(users[i])]
         == Selected(timelineOf(users[i], CappedCount(count)), now)
    decreases |users|
  {
    var front := users[..|users| - 1];
    var before := Collected(front, count, nameOf, timelineOf, now);
    if i < |users| - 1 {
      CollectedLastWins(front, count, nameOf, timelineOf, now, i);
    }
  }

  /** The fold fails exactly when some processed username has an empty timeline. */
  lemma {:induction false} CollectedFailsOnEmptyTimeline(users: seq<string>, count: int, nameOf: string -> string,
                                                         timelineOf: (string, int) -> seq<Post>, now: int)
    ensures Collected(users, count, nameOf, timelineOf, now).Failure?
        <==> exists i :: 0 <= i < |users| && timelineOf(users[i], CappedCount(count)) == []
    decreases |users|
  {
    if users != [] {
      var front := users[..|users| - 1];
      CollectedFailsOnEmptyTimeline(front, count, nameOf, timelineOf, now);
      assert forall i :: 0 <= i < |front| ==> front[i] == users[i];
    }
  }

  /** The run stops at the first username, in list order, whose timeline is empty. */
  lemma FirstFailureReported(users: seq<string>, count: int, nameOf: string -> string,
                             timelineOf: (string, int) -> seq<Post>, now: int, i: nat)
    requires i < |users| && timelineOf(users[i], CappedCount(count)) == []
    requires forall j :: 0 <= j < i ==> timelineOf(users[j], CappedCount(count)) != []
    ensures Collected(users, count, nameOf, timelineOf, now) == Failure(EmptyTimeline(users[i]))
  {
    var front := users[..i];
    CollectedFailsOnEmptyTimeline(front, count, nameOf, timelineOf, now);
    assert users[..i + 1][..i] == front;
    FailureSticks(users, i + 1, count, nameOf, timelineOf, now);
  }

  lemma {:induction false} DisplayNamesBound(users: seq<string>, nameOf: string -> string)
    ensures |DisplayNames(users, nameOf)| <= |users|
    decreases |users|
  {
    if users != [] {
      var front := users[..|users| - 1];
      DisplayNamesBound(front, nameOf);
      assert DisplayNames(users, nameOf) == DisplayNames(front, nameOf) + {nameOf(users[|users| - 1])} by {
        forall i | 0 <= i < |users| - 1 ensures users[i] == front[i] { }
      }
    }
  }

  /** A successful run reports at most ten accounts. */
  lemma AtMostTenAccounts(content: string, count: int, excludedUsers: string, nameOf: string -> string,
                          timelineOf: (string, int) -> seq<Post>, now: int)
    requires AllTweets(content, count, excludedUsers, nameOf, timelineOf, now).Ok?
    ensures |AllTweets(content, count, excludedUsers, nameOf, timelineOf, now).value.Keys| <= MaxUsernames
  {
    var loaded := UsernamesFromFile(content);
    var users := Excluded(loaded.value, Words(excludedUsers, Str));
    ExcludedRemovesOneEach(loaded.value, Words(excludedUsers, Str));
    assert |users| <= |loaded.value| by {
      assert |multiset(users)| <= |multiset(loaded.value)|;
    }
    CollectedKeys(users, count, nameOf, timelineOf, now);
    DisplayNamesBound(users, nameOf);
  }

  /**
    Exclusion runs after the cap: with more than ten lines, every processed
    username comes from the first ten lines, even when names were excluded.
   */
  lemma ExclusionAfterCap(content: string, excludedUsers: string)
    requires |SplitLines(content)| > MaxUsernames
    ensures UsernamesFromFile(content).Ok?
    ensures var users := Excluded(UsernamesFromFile(content).value, Words(excludedUsers, Str));
            forall u :: u in users ==> u in SplitLines(content)[..MaxUsernames]
  {
    var first := UsernamesFromFile(content).value;
    var names := Words(excludedUsers, Str);
    ExcludedRemovesOneEach(first, names);
    forall u | u in Excluded(first, names) ensures u in first {
      assert u in multiset(Excluded(first, names));
    }
  }
}

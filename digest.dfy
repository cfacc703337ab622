/**
  Digest composition: `construct_html_message` lays out a map from display
  name to digest entries as one HTML document, accounts in ascending order of
  name, each headed in its own colour from a ten-entry palette.
 */
module Digest {
  import opened Builtins
  import opened Outcomes

  /** The heading colours, one per account by position. */
  const Palette: seq<string> := ["darkslategrey", "#FF3300", "#0000CC", "#009933", "#6600CC",
                                 "#850C0C", "#3C3C0C", "#CC6600", "#666633", "#003300"]

  /** The fixed document head (the literal holds an escaped and a real line break after the doctype). */
  const Header: string := "<!DOCTYPE html>\n\n    <html>\n    <head>\n        <meta content=\"text/html; charset=UTF-8\" http-equiv=\"content-type\">\n        <title>Recent Tweets</title>\n    </head>\n    "

  const BodyOpen: string := "<body style='background-color: #E6E6E6;'>"

  const Footer: string := "\n</body>\n</html>"

  /** The notice written for an account with no posts. */
  const NoTweets: string := "\n<p style='color: #303030; font-size: 1.2em;'>No tweets for this user in last day.</p>"

  const Rule: string := "<hr>"

  /** An account's heading; the source string continues over a line, keeping the next line's indentation. */
  function Heading(color: string, name: string): string {
    HeadingOpen + color + HeadingMiddle + name + HeadingClose
  }

  const HeadingOpen: string := "<h2 style='color: "

  const HeadingMiddle: string := "; font-weight: normal;                         font-size: 2.2em;'>Tweets from "

  const HeadingClose: string := "</h2>"

  function Paragraph(post: string): string {
    ParagraphOpen + post + ParagraphClose
  }

  const ParagraphOpen: string := "\n<p style='color: #303030; font-size: 1.2em;'>"

  const ParagraphClose: string := "</p>"

  /** One paragraph and one rule per post, in order. */
  function PostsHtml(posts: seq<string>): string
    decreases |posts|
  {
    if posts == [] then []
    else PostsHtml(posts[..|posts| - 1]) + Paragraph(posts[|posts| - 1]) + Rule
  }

  /** An account's part of the body. */
  function Section(color: string, name: string, posts: seq<string>): string {
    Heading(color, name) + (if posts == [] then NoTweets else PostsHtml(posts))
  }

  /**
    The accounts `ks` laid out in order, the i-th in colour `Palette[i]`, each
    drawn by `draw`. The layout does not depend on the markup, so its
    properties are stated for any `draw`.
   */
  function Layout(ks: seq<string>, tweets: map<string, seq<string>>,
                  draw: (string, string, seq<string>) -> string): string
    requires |ks| <= |Palette|
    requires forall i :: 0 <= i < |ks| ==> ks[i] in tweets
    decreases |ks|
  {
    if ks == [] then []
    else
      var last := ks[|ks| - 1];
      Layout(ks[..|ks| - 1], tweets, draw) + draw(Palette[|ks| - 1], last, tweets[last])
  }

  /** The sections of the accounts `ks`, the i-th coloured `Palette[i]`. */
  function Sections(ks: seq<string>, tweets: map<string, seq<string>>): string
    requires |ks| <= |Palette|
    requires forall i :: 0 <= i < |ks| ==> ks[i] in tweets
  {
    Layout(ks, tweets, Section)
  }

  // ---------------------------------------------------------------------
  // The visiting order of `sorted(tweets.items())`.

  predicate IsLeast(k: string, keys: set<string>) {
    k in keys && forall j :: j in keys ==> LessEq(k, j)
  }

  predicate Ascending(ks: seq<string>) {
    forall i, j :: 0 <= i < j < |ks| ==> Less(ks[i], ks[j])
  }

  /** `ks` lists exactly the strings of `keys`. */
  ghost predicate Lists(ks: seq<string>, keys: set<string>) {
    forall k :: k in ks <==> k in keys
  }

  lemma LeastExists(keys: set<string>)
    requires keys != {}
    ensures exists k :: IsLeast(k, keys)
    decreases keys
  {
    var x :| x in keys;
    if keys != {x} {
      LeastExists(keys - {x});
      var m :| IsLeast(m, keys - {x});
      LessEqTotal(x, m);
      if LessEq(x, m) {
        forall j | j in keys ensures LessEq(x, j) {
          if j != x { LessEqTransitive(x, m, j); }
          else { LessEqTotal(x, x); }
        }
        assert IsLeast(x, keys);
      } else {
        assert IsLeast(m, keys);
      }
    } else {
      LessEqTotal(x, x);
      assert IsLeast(x, keys);
    }
  }

  /** The keys in ascending order. */
  ghost function SortedKeys(keys: set<string>): (ks: seq<string>)
    ensures Ascending(ks) && Lists(ks, keys) && |ks| == |keys|
    decreases keys
  {
    if keys == {} then []
    else
      LeastExists(keys);
      var k :| IsLeast(k, keys);
      var rest := SortedKeys(keys - {k});
      assert forall j :: 0 <= j < |rest| ==> Less(k, rest[j]);
      [k] + rest
  }

  /** The first of an ascending listing is the least of what it lists. */
  lemma FirstIsLeast(ks: seq<string>, keys: set<string>)
    requires ks != [] && Ascending(ks) && Lists(ks, keys)
    ensures IsLeast(ks[0], keys)
  {
    forall j | j in keys ensures LessEq(ks[0], j) {
      var i :| 0 <= i < |ks| && ks[i] == j;
      if i == 0 { LessEqTotal(j, j); }
    }
  }

  /** What remains listed once the first element of an ascending listing is taken off. */
  lemma ListsTail(a: seq<string>, keys: set<string>)
    requires a != [] && Ascending(a) && Lists(a, keys)
    ensures Ascending(a[1..]) && Lists(a[1..], keys - {a[0]})
  {
    assert a == [a[0]] + a[1..];
    forall k ensures k in a[1..] <==> k in keys - {a[0]} {
      if k in a[1..] {
        var i :| 1 <= i < |a| && a[i] == k;
        assert Less(a[0], a[i]);
      }
    }
  }

  /** An ascending listing has no repeats, so it is as long as the set it lists. */
  lemma {:induction false} AscendingLength(a: seq<string>, keys: set<string>)
    requires Ascending(a) && Lists(a, keys)
    ensures |a| == |keys|
    decreases |a|
  {
    if a == [] {
      assert keys == {};
    } else {
      ListsTail(a, keys);
      AscendingLength(a[1..], keys - {a[0]});
    }
  }

  /** There is only one ascending listing of a set. */
  lemma {:induction false} AscendingUnique(a: seq<string>, b: seq<string>, keys: set<string>)
    requires Ascending(a) && Lists(a, keys)
    requires Ascending(b) && Lists(b, keys)
    ensures a == b
    decreases |a|
  {
    AscendingLength(a, keys);
    AscendingLength(b, keys);
    if a != [] {
      FirstIsLeast(a, keys);
      FirstIsLeast(b, keys);
      LessEqAntisymmetric(a[0], b[0]);
      ListsTail(a, keys);
      ListsTail(b, keys);
      AscendingUnique(a[1..], b[1..], keys - {a[0]});
      assert a == [a[0]] + a[1..] && b == [b[0]] + b[1..];
    }
  }

  // ---------------------------------------------------------------------
  // The document.

  /** The page around a body: the head, then the body, then the closing tags. */
  function Document(body: string): (doc: string)
    ensures StartsWith(doc, Header)
    ensures |doc| == |Header| + |body| + |Footer|
    ensures doc[|Header|..|Header| + |body|] == body
    ensures doc[|Header| + |body|..] == Footer
  {
    var doc := Header + (body + Footer);
    assert doc[..|Header|] == Header;
    assert doc[|Header|..][..|body|] == body;
    assert doc[|Header| + |body|..] == Footer;
    doc
  }

  /** The document for `tweets`, or the error the eleventh palette lookup raises. */
  ghost function Html(tweets: map<string, seq<string>>): (r: Result<string>)
    ensures r.Ok? <==> |tweets.Keys| <= |Palette|
    ensures r.Failure? ==> r.error == PaletteExhausted
  {
    if |tweets.Keys| > |Palette| then Failure(PaletteExhausted)
    else
      var ks := SortedKeys(tweets.Keys);
      Ok(Document(BodyOpen + Sections(ks, tweets)))
  }

  /** Any ascending listing of the names yields the document. */
  lemma HtmlInAscendingOrder(tweets: map<string, seq<string>>, ks: seq<string>)
    requires Ascending(ks) && Lists(ks, tweets.Keys) && |ks| <= |Palette|
    ensures Html(tweets) == Ok(Document(BodyOpen + Sections(ks, tweets)))
  {
    AscendingLength(ks, tweets.Keys);
    AscendingUnique(ks, SortedKeys(tweets.Keys), tweets.Keys);
  }

  /** Appending one account to the visited ones appends its section. */
  lemma SectionsSnoc(ks: seq<string>, k: string, tweets: map<string, seq<string>>)
    requires |ks| < |Palette|
    requires forall i :: 0 <= i < |ks| ==> ks[i] in tweets
    requires k in tweets
    ensures Sections(ks + [k], tweets) == Sections(ks, tweets) + Section(Palette[|ks|], k, tweets[k])
  {
    LayoutSnoc(ks, k, tweets, Section);
  }

  lemma LayoutSnoc(ks: seq<string>, k: string, tweets: map<string, seq<string>>,
                   draw: (string, string, seq<string>) -> string)
    requires |ks| < |Palette|
    requires forall i :: 0 <= i < |ks| ==> ks[i] in tweets
    requires k in tweets
    ensures Layout(ks + [k], tweets, draw) == Layout(ks, tweets, draw) + draw(Palette[|ks|], k, tweets[k])
  {
    assert (ks + [k])[..|ks|] == ks;
  }

  /** One more post appends one paragraph and one rule. */
  lemma PostsHtmlSnoc(posts: seq<string>, j: nat)
    requires j < |posts|
    ensures PostsHtml(posts[..j + 1]) == PostsHtml(posts[..j]) + Paragraph(posts[j]) + Rule
  {
    assert posts[..j + 1][..j] == posts[..j];
  }

  /** Regrouping of appended pieces, stated once so that the literals inside them are never unfolded. */
  lemma RegroupSection(a: string, b: string, c: string, d: string)
    ensures ((a + b) + c) + d == a + (b + (c + d))
  {
  }

  lemma AppendNothing(a: string)
    ensures a + [] == a
  {
  }

  lemma RegroupPost(a: string, b: string, c: string, d: string)
    ensures ((a + b) + c) + d == a + ((b + c) + d)
  {
  }

  /** Appending an account's heading and posts to the body so far appends its section. */
  lemma SectionStep(body: string, ks: seq<string>, k: string, tweets: map<string, seq<string>>)
    requires |ks| < |Palette|
    requires forall i :: 0 <= i < |ks| ==> ks[i] in tweets
    requires k in tweets
    requires body == BodyOpen + Sections(ks, tweets)
    ensures var posts := tweets[k];
            body + Heading(Palette[|ks|], k) + (if |posts| == 0 then NoTweets else PostsHtml(posts))
            == BodyOpen + Sections(ks + [k], tweets)
  {
    var posts := tweets[k];
    var tail := if |posts| == 0 then NoTweets else PostsHtml(posts);
    SectionsSnoc(ks, k, tweets);
    RegroupSection(BodyOpen, Sections(ks, tweets), Heading(Palette[|ks|], k), tail);
  }

  /**
    Part way through the visit: `visited` lists, in ascending order, the keys
    no longer `remaining`, and each of them is below every remaining key.
   */
  ghost predicate Visiting(visited: seq<string>, remaining: set<string>, keys: set<string>) {
    && remaining <= keys
    && |visited| + |remaining| == |keys|
    && Ascending(visited)
    && (forall k :: k in visited <==> k in keys && k !in remaining)
    && (forall i, k :: 0 <= i < |visited| && k in remaining ==> Less(visited[i], k))
  }

  lemma VisitingStep(visited: seq<string>, remaining: set<string>, keys: set<string>, k: string)
    requires Visiting(visited, remaining, keys) && IsLeast(k, remaining)
    ensures Visiting(visited + [k], remaining - {k}, keys)
    ensures k in keys
  {
    forall i, j | 0 <= i < |visited| && j in remaining - {k}
      ensures Less(visited[i], j)
    { }
    assert forall j :: j in remaining - {k} ==> Less(k, j);
  }

  lemma VisitingCount(visited: seq<string>, remaining: set<string>, keys: set<string>)
    requires Visiting(visited, remaining, keys) && remaining != {}
    ensures |keys| > |visited|
  {
  }

  lemma VisitingDone(visited: seq<string>, keys: set<string>)
    requires Visiting(visited, {}, keys)
    ensures Ascending(visited) && Lists(visited, keys)
  {
  }

  /** The inner loop of `construct_html_message`: a paragraph and a rule per post, appended to `body`. */
  method AppendPosts(body: string, posts: seq<string>) returns (r: string)
    ensures r == body + PostsHtml(posts)
  {
    r := body;
    var j := 0;
    AppendNothing(r);
    while j < |posts|
      invariant j <= |posts|
      invariant r == body + PostsHtml(posts[..j])
    {
      PostsHtmlSnoc(posts, j);
      RegroupPost(body, PostsHtml(posts[..j]), Paragraph(posts[j]), Rule);
      r := r + Paragraph(posts[j]);
      r := r + Rule;
      j := j + 1;
    }
    assert posts[..j] == posts;
  }

  /** `construct_html_message`: visit the accounts from the least name up, numbering them for the palette. */
  method ConstructHtmlMessage(tweets: map<string, seq<string>>) returns (r: Result<string>)
    ensures r == Html(tweets)
  {
    var bodyText := BodyOpen;
    var index := 0;
    var remaining := tweets.Keys;
    ghost var visited: seq<string> := [];
    assert Sections(visited, tweets) == [];
    AppendNothing(bodyText);
    while remaining != {}
      invariant Visiting(visited, remaining, tweets.Keys)
      invariant index == |visited| <= |Palette|
      invariant bodyText == BodyOpen + Sections(visited, tweets)
      decreases remaining
    {
      LeastExists(remaining);
      var user :| IsLeast(user, remaining);
      if index >= |Palette| {
        VisitingCount(visited, remaining, tweets.Keys);
        return Failure(PaletteExhausted);
      }
      ghost var before := bodyText;
      bodyText := bodyText + Heading(Palette[index], user);
      var posts := tweets[user];
      if |posts| == 0 {
        bodyText := bodyText + NoTweets;
      } else {
        bodyText := AppendPosts(bodyText, posts);
      }
      SectionStep(before, visited, user, tweets);
      index := index + 1;
      VisitingStep(visited, remaining, tweets.Keys, user);
      visited := visited + [user];
      remaining := remaining - {user};
    }
    VisitingDone(visited, tweets.Keys);
    HtmlInAscendingOrder(tweets, visited);
    bodyText := bodyText + Footer;
    r := Ok(Header + bodyText);
  }

  // ---------------------------------------------------------------------
  // Properties of the document.

  /** The posts of a longer list render as the posts of its two parts. */
  lemma {:induction false} PostsHtmlAppend(a: seq<string>, b: seq<string>)
    ensures PostsHtml(a + b) == PostsHtml(a) + PostsHtml(b)
    decreases |b|
  {
    if b == [] {
      assert a + b == a;
      AppendNothing(PostsHtml(a));
    } else {
      var c := b[..|b| - 1];
      assert (a + b)[..|a + b| - 1] == a + c;
      assert (a + b)[|a + b| - 1] == b[|b| - 1];
      PostsHtmlAppend(a, c);
      RegroupPost(PostsHtml(a), PostsHtml(c), Paragraph(b[|b| - 1]), Rule);
    }
  }

  /** No accounts: the page holds only the opening of the body. */
  lemma HtmlOfNoAccounts(tweets: map<string, seq<string>>)
    requires tweets == map[]
    ensures Html(tweets) == Ok(Document(BodyOpen))
  {
    HtmlInAscendingOrder(tweets, []);
    AppendNothing(BodyOpen);
  }

  /**
    Two accounts come out in ascending order of name, whatever order the map
    was built in: the lesser takes the first colour, the greater the second;
    an account without posts gets the notice.
   */
  lemma HtmlOfTwoAccounts(tweets: map<string, seq<string>>, a: string, b: string, post: string)
    requires Less(a, b)
    requires tweets == map[b := [], a := [post]]
    ensures Html(tweets) == Ok(Document(BodyOpen + (Section(Palette[0], a, [post]) + Section(Palette[1], b, []))))
  {
    var ks := [a, b];
    assert tweets.Keys == {a, b};
    assert Lists(ks, tweets.Keys);
    HtmlInAscendingOrder(tweets, ks);
    assert tweets[a] == [post] && tweets[b] == [];
    TwoSections(a, b, tweets);
  }

  lemma TwoSections(a: string, b: string, tweets: map<string, seq<string>>)
    requires a in tweets && b in tweets
    ensures Sections([a, b], tweets) == Section(Palette[0], a, tweets[a]) + Section(Palette[1], b, tweets[b])
  {
    SectionsSnoc([], a, tweets);
    assert [] + [a] == [a];
    SectionsSnoc([a], b, tweets);
    assert [a] + [b] == [a, b];
    PrependNothing(Section(Palette[0], a, tweets[a]));
  }

  lemma SectionOfOnePost(color: string, name: string, post: string)
    ensures Section(color, name, [post]) == Heading(color, name) + (Paragraph(post) + Rule)
  {
    var posts := [post];
    PostsHtmlSnoc(posts, 0);
    assert posts[..1] == posts && posts[..0] == [] && posts[0] == post;
    PrependNothing(Paragraph(post));
    assert PostsHtml(posts) == Paragraph(post) + Rule;
  }

  lemma SectionOfNoPosts(color: string, name: string)
    ensures Section(color, name, []) == Heading(color, name) + NoTweets
  {
  }

  lemma PrependNothing(a: string)
    ensures [] + a == a
  {
  }

  /**
    The account at position `i` of the listing is written, in `Palette[i]`,
    right after the accounts before it.
   */
  lemma SectionsPrefix(ks: seq<string>, tweets: map<string, seq<string>>, i: nat)
    requires |ks| <= |Palette|
    requires forall j :: 0 <= j < |ks| ==> ks[j] in tweets
    requires i < |ks|
    ensures StartsWith(Sections(ks, tweets), Sections(ks[..i], tweets) + Section(Palette[i], ks[i], tweets[ks[i]]))
  {
    LayoutPrefix(ks, tweets, Section, i);
  }

  lemma {:induction false} LayoutPrefix(ks: seq<string>, tweets: map<string, seq<string>>,
                                        draw: (string, string, seq<string>) -> string, i: nat)
    requires |ks| <= |Palette|
    requires forall j :: 0 <= j < |ks| ==> ks[j] in tweets
    requires i < |ks|
    ensures StartsWith(Layout(ks, tweets, draw), Layout(ks[..i], tweets, draw) + draw(Palette[i], ks[i], tweets[ks[i]]))
    decreases |ks|
  {
    var init := ks[..|ks| - 1];
    var p := Layout(ks[..i], tweets, draw) + draw(Palette[i], ks[i], tweets[ks[i]]);
    if i == |ks| - 1 {
      assert init == ks[..i];
      assert Layout(ks, tweets, draw) == p;
    } else {
      LayoutPrefix(init, tweets, draw, i);
      assert init[..i] == ks[..i] && init[i] == ks[i];
      StartsWithAppend(Layout(init, tweets, draw), p, draw(Palette[|ks| - 1], ks[|ks| - 1], tweets[ks[|ks| - 1]]));
    }
  }

  lemma StartsWithAppend(s: string, p: string, t: string)
    requires StartsWith(s, p)
    ensures StartsWith(s + t, p)
  {
    assert (s + t)[..|p|] == s[..|p|];
  }
}

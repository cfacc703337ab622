/**
  Link rendering: `make_links_clickable` turns every whitespace-separated word
  of a post that starts with "https" into an HTML anchor, and joins the words
  back with single spaces.
 */
module Links {
  import opened Builtins

  /** The secure-scheme marker. */
  const Marker := "https"

  /** The anchor element written for a link word. The closing tag is "<a>", as in the script. */
  function Anchor(url: string): string {
    AnchorOpen + url + AnchorMiddle + url + AnchorClose
  }

  const AnchorOpen := "<a href='"

  const AnchorMiddle := "' style='color: #404040'>"

  const AnchorClose := "<a>"

  /**
    What a single word becomes. The result never starts with the marker (an
    anchor starts with '<'), and a word without the marker is kept as it is.
   */
  function RenderWord(w: string): (r: string)
    ensures !StartsWith(r, Marker)
    ensures !StartsWith(w, Marker) ==> r == w
  {
    if StartsWith(w, Marker) then
      assert Anchor(w)[0] == AnchorOpen[0] == '<';
      Anchor(w)
    else w
  }

  function RenderWords(ws: seq<string>): seq<string> {
    seq(|ws|, i requires 0 <= i < |ws| => RenderWord(ws[i]))
  }

  /** The rendered text as a plain per-word map over the words of `text`. */
  function Rendered(text: string): string {
    Join(RenderWords(Words(text, Unicode)), " ")
  }

  /**
    `make_links_clickable`. The loop rewrites the list it walks, finding the
    slot to overwrite with `list.index`; the result is still the per-word map,
    repeated links included, because every slot before the current one already
    holds a word that does not start with the marker.
   */
  method MakeLinksClickable(text: string) returns (r: string)
    ensures r == Rendered(text)
  {
    var parts := Words(text, Unicode);
    ghost var words := parts;
    var i := 0;
    while i < |parts|
      invariant i <= |parts| == |words|
      invariant parts == RenderWords(words[..i]) + words[i..]
    {
      var part := parts[i];
      RenderStep(words, i);
      if StartsWith(part, Marker) {
        FirstOccurrenceIsCurrent(words, i);
        var location := IndexOf(parts, part);
        parts := parts[location := Anchor(part)];
      }
      i := i + 1;
    }
    assert words[..i] == words && words[i..] == [];
    assert parts == RenderWords(words) + [];
    assert parts == RenderWords(words);
    r := Join(parts, " ");
  }

  /** Rendering slot `i` moves the boundary between rendered and raw words one place on. */
  lemma RenderStep(words: seq<string>, i: nat)
    requires i < |words|
    ensures var parts := RenderWords(words[..i]) + words[i..];
            var next := RenderWords(words[..i + 1]) + words[i + 1..];
            parts[i] == words[i] &&
            (StartsWith(words[i], Marker) ==> parts[i := Anchor(words[i])] == next) &&
            (!StartsWith(words[i], Marker) ==> parts == next)
  {
    var parts := RenderWords(words[..i]) + words[i..];
    var next := RenderWords(words[..i + 1]) + words[i + 1..];
    var updated := parts[i := RenderWord(words[i])];
    assert |updated| == |next|;
    forall k | 0 <= k < |next| ensures updated[k] == next[k] {
      if k < i {
        assert next[k] == RenderWords(words[..i + 1])[k];
      } else if k > i {
        assert next[k] == words[i + 1..][k - i - 1];
      }
    }
    assert updated == next;
    if !StartsWith(words[i], Marker) {
      assert updated == parts;
    }
  }

  /**
    `list.index` finds the current slot: the slots before it hold rendered
    words, and no rendered word starts with the marker.
   */
  lemma FirstOccurrenceIsCurrent(words: seq<string>, i: nat)
    requires i < |words| && StartsWith(words[i], Marker)
    ensures var parts := RenderWords(words[..i]) + words[i..];
            words[i] in parts && IndexOf(parts, words[i]) == i
  {
    var parts := RenderWords(words[..i]) + words[i..];
    assert parts[i] == words[i];
    forall k | 0 <= k < i ensures parts[k] != words[i] {
      assert parts[k] == RenderWord(words[k]);
    }
  }

  // ---------------------------------------------------------------------
  // Properties of the rendering.

  /** The words an anchor splits into, and the one word a plain word stays. */
  function Pieces(w: string): seq<string> {
    if StartsWith(w, Marker) then [TagName, HrefAttr + w + Quote, StyleAttr, ColorValue + w + AnchorClose]
    else [w]
  }

  const TagName := "<a"

  const HrefAttr := "href='"

  const Quote := "'"

  const StyleAttr := "style='color:"

  const ColorValue := "#404040'>"

  function AllPieces(ws: seq<string>): seq<string> {
    if ws == [] then [] else Pieces(ws[0]) + AllPieces(ws[1..])
  }

  lemma PiecesAreUnmarkedWords(w: string)
    requires IsWord(w, Unicode)
    ensures Join(Pieces(w), " ") == RenderWord(w)
    ensures forall i :: 0 <= i < |Pieces(w)| ==> IsWord(Pieces(w)[i], Unicode)
    ensures forall i :: 0 <= i < |Pieces(w)| ==> !StartsWith(Pieces(w)[i], Marker)
  {
    PiecesJoin(w);
    PiecesWords(w);
    PiecesUnmarked(w);
  }

  lemma PiecesJoin(w: string)
    ensures Join(Pieces(w), " ") == RenderWord(w)
  {
    if StartsWith(w, Marker) {
      JoinOfFour(TagName, HrefAttr + w + Quote, StyleAttr, ColorValue + w + AnchorClose);
      AnchorSpaces();
      Regroup(TagName, HrefAttr, Quote, StyleAttr, ColorValue, AnchorClose, w);
    }
  }

  /** The anchor's fixed texts are its words joined by single spaces. */
  lemma AnchorSpaces()
    ensures AnchorOpen == TagName + " " + HrefAttr
    ensures AnchorMiddle == Quote + " " + StyleAttr + " " + ColorValue
  {
  }

  lemma Regroup(t: string, h: string, q: string, s: string, c: string, e: string, w: string)
    ensures t + " " + (h + w + q) + " " + s + " " + (c + w + e)
         == (t + " " + h) + w + (q + " " + s + " " + c) + w + e
  {
  }

  lemma PiecesWords(w: string)
    requires IsWord(w, Unicode)
    ensures forall i :: 0 <= i < |Pieces(w)| ==> IsWord(Pieces(w)[i], Unicode)
  {
    if StartsWith(w, Marker) {
      FixedTextsAreWords();
      WrappedWord(HrefAttr, w, Quote);
      WrappedWord(ColorValue, w, AnchorClose);
    }
  }

  lemma FixedTextsAreWords()
    ensures IsWord(TagName, Unicode) && IsWord(HrefAttr, Unicode) && IsWord(Quote, Unicode)
    ensures IsWord(StyleAttr, Unicode) && IsWord(ColorValue, Unicode) && IsWord(AnchorClose, Unicode)
  {
  }

  lemma PiecesUnmarked(w: string)
    ensures forall i :: 0 <= i < |Pieces(w)| ==> !StartsWith(Pieces(w)[i], Marker)
  {
    if StartsWith(w, Marker) {
      var b, d := HrefAttr + w + Quote, ColorValue + w + AnchorClose;
      assert !StartsWith(b, Marker) by { assert b[1] == HrefAttr[1] == 'r'; }
      assert !StartsWith(d, Marker) by { assert d[0] == ColorValue[0] == '#'; }
      assert !StartsWith(StyleAttr, Marker) by { assert StyleAttr[0] == 's'; }
      assert !StartsWith(TagName, Marker) by { assert TagName[0] == '<'; }
    } else {
      assert !StartsWith(RenderWord(w), Marker);
    }
  }

  lemma JoinOfFour(a: string, b: string, c: string, d: string)
    ensures Join([a, b, c, d], " ") == a + " " + b + " " + c + " " + d
  {
    var p := [a, b, c, d];
    var p1 := p[1..];
    var p2 := p1[1..];
    assert p2[1..] == [d];
    assert Join(p2, " ") == c + " " + d;
    assert Join(p1, " ") == b + " " + (c + " " + d);
  }

  lemma WrappedWord(pre: string, w: string, post: string)
    requires IsWord(w, Unicode)
    requires forall i :: 0 <= i < |pre| ==> !IsSpace(pre[i], Unicode)
    requires forall i :: 0 <= i < |post| ==> !IsSpace(post[i], Unicode)
    ensures IsWord(pre + w + post, Unicode)
  {
    var s := pre + w + post;
    forall i | 0 <= i < |s| ensures !IsSpace(s[i], Unicode) {
      if i < |pre| { assert s[i] == pre[i]; }
      else if i < |pre| + |w| { assert s[i] == w[i - |pre|]; }
      else { assert s[i] == post[i - |pre| - |w|]; }
    }
  }

  lemma AllPiecesProps(ws: seq<string>)
    requires forall i :: 0 <= i < |ws| ==> IsWord(ws[i], Unicode)
    ensures Join(AllPieces(ws), " ") == Join(RenderWords(ws), " ")
    ensures ws != [] ==> AllPieces(ws) != []
    ensures forall i :: 0 <= i < |AllPieces(ws)| ==> IsWord(AllPieces(ws)[i], Unicode)
    ensures forall i :: 0 <= i < |AllPieces(ws)| ==> !StartsWith(AllPieces(ws)[i], Marker)
  {
    AllPiecesJoin(ws);
    AllPiecesAreUnmarkedWords(ws);
  }

  lemma {:induction false} AllPiecesJoin(ws: seq<string>)
    ensures Join(AllPieces(ws), " ") == Join(RenderWords(ws), " ")
    ensures ws != [] ==> AllPieces(ws) != []
    decreases |ws|
  {
    if ws != [] {
      PiecesJoin(ws[0]);
      AllPiecesJoin(ws[1..]);
      var head, tail := Pieces(ws[0]), AllPieces(ws[1..]);
      assert RenderWords(ws) == [RenderWord(ws[0])] + RenderWords(ws[1..]);
      if ws[1..] != [] {
        JoinAppend(head, tail, " ");
        JoinAppend([RenderWord(ws[0])], RenderWords(ws[1..]), " ");
      } else {
        assert head + tail == head;
      }
    }
  }

  lemma {:induction false} AllPiecesAreUnmarkedWords(ws: seq<string>)
    requires forall i :: 0 <= i < |ws| ==> IsWord(ws[i], Unicode)
    ensures forall i :: 0 <= i < |AllPieces(ws)| ==> IsWord(AllPieces(ws)[i], Unicode) && !StartsWith(AllPieces(ws)[i], Marker)
    decreases |ws|
  {
    if ws != [] {
      PiecesWords(ws[0]);
      PiecesUnmarked(ws[0]);
      AllPiecesAreUnmarkedWords(ws[1..]);
      var head, tail := Pieces(ws[0]), AllPieces(ws[1..]);
      forall i | 0 <= i < |head + tail|
        ensures IsWord((head + tail)[i], Unicode) && !StartsWith((head + tail)[i], Marker)
      {
        if i >= |head| { assert (head + tail)[i] == tail[i - |head|]; }
      }
    }
  }

  /** The words of a rendered post are its pieces: anchors fall apart at their inner spaces. */
  lemma WordsOfRendered(text: string)
    ensures Words(Rendered(text), Unicode) == AllPieces(Words(text, Unicode))
  {
    var ws := Words(text, Unicode);
    AllPiecesProps(ws);
    WordsOfJoin(AllPieces(ws), Unicode);
  }

  /** After rendering, no word of the text starts with "https" any more. */
  lemma NoRawLinkRemains(text: string)
    ensures forall i :: 0 <= i < |Words(Rendered(text), Unicode)| ==>
              !StartsWith(Words(Rendered(text), Unicode)[i], Marker)
  {
    WordsOfRendered(text);
    AllPiecesProps(Words(text, Unicode));
  }

  /** Rendering a rendered text changes nothing. */
  lemma RenderedIdempotent(text: string)
    ensures Rendered(Rendered(text)) == Rendered(text)
  {
    var ps := AllPieces(Words(text, Unicode));
    WordsOfRendered(text);
    AllPiecesProps(Words(text, Unicode));
    assert RenderWords(ps) == ps;
  }

  /** Rendering text that is already single-spaced words maps over those words. */
  lemma RenderedOfJoin(ws: seq<string>)
    requires forall i :: 0 <= i < |ws| ==> IsWord(ws[i], Unicode)
    ensures Rendered(Join(ws, " ")) == Join(RenderWords(ws), " ")
  {
    WordsOfJoin(ws, Unicode);
  }

  /** The worked example: one link among plain words. */
  lemma RenderedExample(text: string)
    requires text == "see https://example.com now"
    ensures Rendered(text) == "see " + Anchor("https://example.com") + " now"
  {
    var ws := ["see", "https://example.com", "now"];
    ExampleText(text, ws);
    RenderedOfJoin(ws);
    ExampleRendering(ws);
  }

  lemma ExampleText(text: string, ws: seq<string>)
    requires text == "see https://example.com now"
    requires ws == ["see", "https://example.com", "now"]
    ensures forall i :: 0 <= i < |ws| ==> IsWord(ws[i], Unicode)
    ensures Join(ws, " ") == text
  {
    ExampleWordsAreWords(ws);
    JoinOfThree(ws);
    ExampleLiteral(text);
  }

  lemma ExampleWordsAreWords(ws: seq<string>)
    requires ws == ["see", "https://example.com", "now"]
    ensures forall i :: 0 <= i < |ws| ==> IsWord(ws[i], Unicode)
  {
    assert IsWord(ws[0], Unicode);
    assert IsWord(ws[1], Unicode);
    assert IsWord(ws[2], Unicode);
  }

  lemma ExampleLiteral(text: string)
    requires text == "see https://example.com now"
    ensures text == "see" + " " + ("https://example.com" + " " + "now")
  {
  }

  lemma ExampleRendering(ws: seq<string>)
    requires ws == ["see", "https://example.com", "now"]
    ensures Join(RenderWords(ws), " ") == "see " + Anchor("https://example.com") + " now"
  {
    var rs := RenderWords(ws);
    var anchor := Anchor("https://example.com");
    assert rs == ["see", anchor, "now"];
    JoinOfThree(rs);
    assert "see" + " " == "see " && " " + "now" == " now";
    assert Join(rs, " ") == ("see" + " ") + anchor + (" " + "now");
  }

  lemma JoinOfThree(ws: seq<string>)
    requires |ws| == 3
    ensures Join(ws, " ") == ws[0] + " " + (ws[1] + " " + ws[2])
  {
    var t1 := ws[1..];
    assert t1[1..] == [ws[2]];
    assert Join(t1[1..], " ") == ws[2];
    assert Join(t1, " ") == ws[1] + " " + ws[2];
  }
}

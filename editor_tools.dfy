// The markdown editor's toolbar: the heading button, which sets, changes or
// removes the `#` marker of the line under the cursor, and the image
// button, which inserts a markdown image for each uploaded file at the
// cursor.  The document is the editor's text and positions are offsets
// into it.
module EditorTools {
  import opened GoStrings

  // ---------------------------------------------------------------------
  // Lines

  /** The start of the line holding `pos`: just after the last '\n' before it, or 0. */
  function LineStart(doc: string, pos: nat): (r: nat)
    requires pos <= |doc|
    ensures r <= pos
    ensures r == 0 || doc[r - 1] == '\n'
    ensures forall i :: r <= i < pos ==> doc[i] != '\n'
  {
    if pos == 0 || doc[pos - 1] == '\n' then pos else LineStart(doc, pos - 1)
  }

  /** The end of the line holding `pos`: the next '\n' from it, or the end of the document. */
  function LineEnd(doc: string, pos: nat): (r: nat)
    requires pos <= |doc|
    ensures pos <= r <= |doc|
    ensures r == |doc| || doc[r] == '\n'
    ensures forall i :: pos <= i < r ==> doc[i] != '\n'
    decreases |doc| - pos
  {
    if pos == |doc| || doc[pos] == '\n' then pos else LineEnd(doc, pos + 1)
  }

  // ---------------------------------------------------------------------
  // Heading button

  /**
   * getCurrHead on a line's text: the number of characters before the
   * first space when the line starts with '#' and has a space, else 0.
   */
  function CurrHead(text: string): (h: nat)
    ensures h == 0 <==> !(|text| > 0 && text[0] == '#' && ' ' in text)
    ensures h > 0 ==> h < |text| && text[h] == ' ' && ' ' !in text[..h] && text[0] == '#'
  {
    if |text| > 0 && text[0] == '#' && ' ' in text then IndexOf(text, ' ') else 0
  }

  /** The first piece of a split is the text before the first separator; there are several pieces exactly when the separator occurs. */
  lemma {:induction false} SplitFirst(s: string, c: char)
    ensures |Split(s, c)| > 1 <==> c in s
    ensures c in s ==> Split(s, c)[0] == s[..IndexOf(s, c)]
  {
    if s != [] {
      SplitFirst(s[1..], c);
      assert c in s <==> s[0] == c || c in s[1..] by {
        assert s == [s[0]] + s[1..];
      }
      if s[0] != c && c in s[1..] {
        assert s[..IndexOf(s, c)] == [s[0]] + s[1..][..IndexOf(s[1..], c)];
      }
    }
  }

  /**
   * The same value through the source's own formulation: text.split(" ", 2)
   * has a second piece exactly when there is a space, and the first piece's
   * length is the heading level.
   */
  lemma {:induction false} CurrHeadBySplit(text: string)
    ensures CurrHead(text) == if |text| > 0 && text[0] == '#' && |Split(text, ' ')| > 1 then |Split(text, ' ')[0]| else 0
  {
    SplitFirst(text, ' ');
  }

  /** A change of the document: the text from `from` to `to` is replaced by `insert`. */
  datatype Change = Change(from: nat, to: nat, insert: string)

  function Apply(doc: string, c: Change): (r: string)
    requires c.from <= c.to <= |doc|
  {
    doc[..c.from] + c.insert + doc[c.to..]
  }

  /** A heading marker of level `k`: k '#'s and a space. */
  function Marker(k: nat): (r: string) {
    Repeat('#', k) + " "
  }

  /**
   * onMenuClick's change for the line at `lineFrom` with text `text` and
   * the chosen level `k`: with no heading, the marker is inserted at the
   * line start; with heading `k` the marker and its space are removed; with
   * another heading they are replaced by the marker for `k`.
   */
  function HeadingChange(lineFrom: nat, text: string, k: nat): (r: Change) {
    var h := CurrHead(text);
    if h == 0 then Change(lineFrom, lineFrom, Marker(k))
    else if h == k then Change(lineFrom, lineFrom + h + 1, "")
    else Change(lineFrom, lineFrom + h + 1, Marker(k))
  }

  /** The line's text once the heading change for level `k` is applied. */
  function NewLine(text: string, k: nat): (t: string)
    requires 1 <= k
  {
    var h := CurrHead(text);
    if h == 0 then Marker(k) + text
    else if h == k then text[h + 1..]
    else Marker(k) + text[h + 1..]
  }

  /** The heading marker of `k` makes a line a level-`k` heading, whatever follows it. */
  lemma {:induction false} MarkerLevel(k: nat, rest: string)
    requires 1 <= k
    ensures CurrHead(Marker(k) + rest) == k
  {
    var t := Marker(k) + rest;
    assert t[k] == ' ' && t[0] == '#';
    assert t[..k] == Repeat('#', k);
    assert ' ' in t;
  }

  /** A change inside the line at `lineFrom`, cutting its first `cut` characters, keeps the document around the line. */
  lemma {:induction false} ApplyInLine(doc: string, lineFrom: nat, text: string, cut: nat, ins: string)
    requires lineFrom + |text| <= |doc| && doc[lineFrom..lineFrom + |text|] == text && cut <= |text|
    ensures Apply(doc, Change(lineFrom, lineFrom + cut, ins)) == doc[..lineFrom] + (ins + text[cut..]) + doc[lineFrom + |text|..]
  {
    var after := doc[lineFrom + |text|..];
    assert doc[lineFrom..] == text + after;
    assert doc[lineFrom + cut..] == doc[lineFrom..][cut..] == text[cut..] + after;
  }

  /**
   * The heading change touches only its line: the document around the line
   * is kept, and the line becomes the inserted marker and the text (no
   * heading), the text after the marker (the same level again), or the new
   * marker and the text after the old one (another level).  Afterwards the
   * line is a level-`k` heading unless the heading was removed.
   */
  lemma {:induction false} HeadingEdit(doc: string, lineFrom: nat, text: string, k: nat)
    requires 1 <= k && lineFrom + |text| <= |doc| && doc[lineFrom..lineFrom + |text|] == text
    ensures var c := HeadingChange(lineFrom, text, k);
      && c.from <= c.to <= |doc|
      && Apply(doc, c) == doc[..lineFrom] + NewLine(text, k) + doc[lineFrom + |text|..]
    ensures CurrHead(text) == 0 ==> NewLine(text, k) == Marker(k) + text
    ensures CurrHead(text) == k ==> NewLine(text, k) == text[k + 1..]
    ensures CurrHead(text) != 0 && CurrHead(text) != k ==> NewLine(text, k) == Marker(k) + text[CurrHead(text) + 1..]
    ensures CurrHead(text) != k ==> CurrHead(NewLine(text, k)) == k
  {
    var h := CurrHead(text);
    var c := HeadingChange(lineFrom, text, k);
    var cut := if h == 0 then 0 else h + 1;
    assert c == Change(lineFrom, lineFrom + cut, c.insert);
    assert NewLine(text, k) == c.insert + text[cut..] by {
      if h == 0 {
        assert text[0..] == text;
      } else if h == k {
        assert "" + text[h + 1..] == text[h + 1..];
      }
    }
    ApplyInLine(doc, lineFrom, text, cut, c.insert);
    if h == 0 {
      MarkerLevel(k, text);
    } else if h != k {
      MarkerLevel(k, text[h + 1..]);
    }
  }

  /** Choosing the same level twice on a line without a heading gives the line back. */
  lemma {:induction false} HeadingRoundTrip(text: string, k: nat)
    requires 1 <= k && CurrHead(text) == 0
    ensures NewLine(NewLine(text, k), k) == text
  {
    MarkerLevel(k, text);
    var t := NewLine(text, k);
    assert t[k + 1..] == text;
  }

  /** The same round trip on the whole document: the second change undoes the first. */
  lemma {:induction false} HeadingRoundTripInDoc(doc: string, lineFrom: nat, text: string, k: nat)
    requires 1 <= k && CurrHead(text) == 0
    requires lineFrom + |text| <= |doc| && doc[lineFrom..lineFrom + |text|] == text
    ensures var c1 := HeadingChange(lineFrom, text, k);
      var doc1 := Apply(doc, c1);
      var c2 := HeadingChange(lineFrom, NewLine(text, k), k);
      c2.from <= c2.to <= |doc1| && Apply(doc1, c2) == doc
  {
    var before := doc[..lineFrom];
    var after := doc[lineFrom + |text|..];
    assert doc == before + text + after by {
      assert doc == doc[..lineFrom] + doc[lineFrom..lineFrom + |text|] + doc[lineFrom + |text|..];
    }
    var t := NewLine(text, k);
    HeadingEditAt(before, text, after, k);
    HeadingEditAt(before, t, after, k);
    HeadingRoundTrip(text, k);
  }

  /** The heading change of a line that sits between `before` and `after`. */
  lemma HeadingEditAt(before: string, text: string, after: string, k: nat)
    requires 1 <= k
    ensures var c := HeadingChange(|before|, text, k);
      && c.from <= c.to <= |before + text + after|
      && Apply(before + text + after, c) == before + NewLine(text, k) + after
  {
    Pieces(before, text, after);
    HeadingEdit(before + text + after, |before|, text, k);
  }

  lemma {:induction false} Pieces(a: string, b: string, c: string)
    ensures var s := a + b + c;
      s[..|a|] == a && s[|a|..|a| + |b|] == b && s[|a| + |b|..] == c
  {
  }

  /**
   * The heading button on the line under the cursor `anchor`: the line's
   * start and end come from the document, and the level's change is applied.
   */
  function HeadingCommand(doc: string, anchor: nat, k: nat): (r: string)
    requires anchor <= |doc| && 1 <= k
    ensures var s := LineStart(doc, anchor);
      var e := LineEnd(doc, anchor);
      r == doc[..s] + NewLine(doc[s..e], k) + doc[e..]
  {
    var s := LineStart(doc, anchor);
    var e := LineEnd(doc, anchor);
    LineHeading(doc, s, e, k);
    Apply(doc, HeadingChange(s, doc[s..e], k))
  }

  /** The heading change of the text between two positions, applied to the document. */
  lemma LineHeading(doc: string, s: nat, e: nat, k: nat)
    requires s <= e <= |doc| && 1 <= k
    ensures var c := HeadingChange(s, doc[s..e], k);
      && c.from <= c.to <= |doc|
      && Apply(doc, c) == doc[..s] + NewLine(doc[s..e], k) + doc[e..]
  {
    var text := doc[s..e];
    assert s + |text| == e;
    HeadingEdit(doc, s, text, k);
  }

  // ---------------------------------------------------------------------
  // Image button

  /** The markdown for an uploaded image at `url`. */
  function ImageMark(url: string): (r: string) {
    "![](" + url + ")"
  }

  /** The markdown for the uploaded images, in upload order. */
  function Images(urls: seq<string>): (r: string) {
    if urls == [] then "" else Images(urls[..|urls| - 1]) + ImageMark(urls[|urls| - 1])
  }

  /** The images of two batches are those of the first followed by those of the second. */
  lemma {:induction false} ImagesAppend(a: seq<string>, b: seq<string>)
    ensures Images(a + b) == Images(a) + Images(b)
    decreases |b|
  {
    if b == [] {
      assert a + b == a;
    } else {
      var b' := b[..|b| - 1];
      assert (a + b)[..|a + b| - 1] == a + b';
      assert (a + b)[|a + b| - 1] == b[|b| - 1];
      ImagesAppend(a, b');
    }
  }

  /**
   * The image button once the uploads come back: for each URL in turn, its
   * markdown is inserted at the cursor and the cursor moves just past it,
   * so the images land in upload order at the original cursor.
   */
  method InsertImages(doc: string, cursor: nat, urls: seq<string>) returns (d: string, c: nat)
    requires cursor <= |doc|
    ensures d == doc[..cursor] + Images(urls) + doc[cursor..]
    ensures c == cursor + |Images(urls)|
  {
    d, c := doc, cursor;
    var i := 0;
    while i < |urls|
      invariant 0 <= i <= |urls|
      invariant d == doc[..cursor] + Images(urls[..i]) + doc[cursor..]
      invariant c == cursor + |Images(urls[..i])|
    {
      var mdImg := ImageMark(urls[i]);
      d := d[..c] + mdImg + d[c..];
      c := c + |mdImg|;
      assert urls[..i + 1][..i] == urls[..i];
      i := i + 1;
    }
    assert urls[..i] == urls;
  }
}

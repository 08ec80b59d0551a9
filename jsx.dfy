// The markdown extension's JSX block: a line starting with an HTML-like tag
// whose name is capitalised and appears in the page's JavaScript becomes a
// JSX node spanning from that tag to its matching close.  The HTML lexer is
// foreign code: its output is given as the sequence of what it reports at
// each step (a token with its raw bytes, or its error state).
module Jsx {

  import opened GoStrings

  datatype Option<T> = None | Some(value: T)

  /** The token kinds the scan distinguishes; every other kind is Other. */
  datatype Kind = StartTag | StartTagVoid | EndTag | Other

  /**
   * What the lexer reports at one step: a token with its raw text ("<Name"
   * for a start tag, "/>" for a void close, "</Name>" for an end tag), or
   * the error state it is in (io.EOF or another error).
   */
  datatype Lexeme = Tok(kind: Kind, text: string) | LexError(eof: bool)

  /** The token shapes the lexer guarantees: a start tag has its '<', an end tag its "</" and '>'. */
  predicate WellFormed(x: Lexeme) {
    x.Tok? ==> (x.kind == StartTag ==> |x.text| >= 1) && (x.kind == EndTag ==> |x.text| >= 3)
  }

  predicate AllWellFormed(ts: seq<Lexeme>) {
    forall i :: 0 <= i < |ts| ==> WellFormed(ts[i])
  }

  predicate Tokens(ts: seq<Lexeme>) {
    forall i :: 0 <= i < |ts| ==> ts[i].Tok?
  }

  /** The tag name of a start tag (bs[1:]). */
  function StartName(x: Lexeme): (r: string)
    requires x.Tok? && x.kind == StartTag && WellFormed(x)
  {
    x.text[1..]
  }

  /** The tag name of an end tag (bs[2:len(bs)-1]). */
  function EndName(x: Lexeme): (r: string)
    requires x.Tok? && x.kind == EndTag && WellFormed(x)
  {
    x.text[2..|x.text| - 1]
  }

  /** A start tag with a non-empty name: the kind of token that fixes the tag being matched. */
  predicate NamedStart(x: Lexeme)
    requires WellFormed(x)
  {
    x.Tok? && x.kind == StartTag && StartName(x) != ""
  }

  /** The byte offset after the given lexemes: the sum of their token lengths. */
  function Offset(ts: seq<Lexeme>): (r: nat) {
    if ts == [] then 0
    else Offset(ts[..|ts| - 1]) + (if ts[|ts| - 1].Tok? then |ts[|ts| - 1].text| else 0)
  }

  // ---------------------------------------------------------------------
  // ParseToClose

  /** The scan's variables: nesting depth, last start tag, tag being matched, offset, start and end. */
  datatype Scanner = Scanner(nesting: int, currTag: string, matchTag: string, pos: nat, start: nat, end: nat)

  const Init := Scanner(0, "", "", 0, 0, 0)

  /** One less nesting level; reaching zero records the end just past the current token. */
  function Unnest(s: Scanner): (r: Scanner)
    ensures r.nesting == s.nesting - 1
    ensures r.end == if r.nesting == 0 then s.pos else s.end
  {
    if s.nesting - 1 == 0 then s.(nesting := 0, end := s.pos) else s.(nesting := s.nesting - 1)
  }

  /**
   * The loop body for one token.  The offset always advances by the
   * token's length; the first start tag fixes the tag to match and the
   * start offset; only tags with that name change the nesting (a void close
   * counts when the last start tag had that name); the end is recorded when
   * the nesting comes back to zero.
   */
  function Step(s: Scanner, t: Lexeme): (r: Scanner)
    requires t.Tok? && WellFormed(t)
    ensures r.pos == s.pos + |t.text|
    ensures r.nesting != s.nesting ==>
      || (t.kind == StartTag && (s.matchTag == "" || StartName(t) == s.matchTag) && r.nesting == s.nesting + 1)
      || (t.kind == StartTagVoid && s.matchTag == s.currTag && r.nesting == s.nesting - 1)
      || (t.kind == EndTag && s.matchTag == EndName(t) && r.nesting == s.nesting - 1)
    ensures r.start != s.start ==> t.kind == StartTag && s.matchTag == "" && r.start == s.pos
    ensures r.matchTag != s.matchTag ==> t.kind == StartTag && s.matchTag == "" && r.matchTag == StartName(t)
    ensures s.end == 0 && r.end != 0 ==>
      && r.end == r.pos && r.nesting == 0 && s.nesting == 1
      && (t.kind == StartTagVoid || t.kind == EndTag)
  {
    var s1 := s.(pos := s.pos + |t.text|);
    match t.kind
    case StartTag =>
      var name := StartName(t);
      if |s.matchTag| == 0 then s1.(currTag := name, matchTag := name, nesting := s.nesting + 1, start := s.pos)
      else if s.matchTag == name then s1.(currTag := name, nesting := s.nesting + 1)
      else s1.(currTag := name)
    case StartTagVoid =>
      if s.matchTag == s.currTag then Unnest(s1) else s1
    case EndTag =>
      if s.matchTag == EndName(t) then Unnest(s1) else s1
    case Other => s1
  }

  /** The scanner after the given tokens. */
  function Scanned(ts: seq<Lexeme>): (r: Scanner)
    requires Tokens(ts) && AllWellFormed(ts)
  {
    if ts == [] then Init else Step(Scanned(ts[..|ts| - 1]), ts[|ts| - 1])
  }

  /** ParseToClose's results: start, end, ok, and whether a lexer error other than io.EOF came back. */
  datatype Closing = Closing(start: int, end: int, ok: bool, failed: bool)

  /** The results from the scanner once the loop is left. */
  function Finish(s: Scanner): (r: Closing) {
    if s.end != 0 then Closing(s.start, s.end, true, false) else Closing(s.start, 0, false, false)
  }

  /** The loop from step `i` on: at most 20 steps, none once an end is recorded, none past the lexer's error. */
  function Run(ts: seq<Lexeme>, i: nat, s: Scanner): (r: Closing)
    requires i <= 20 && AllWellFormed(ts)
    decreases 20 - i
  {
    if i == 20 || s.end != 0 || i >= |ts| || ts[i] == LexError(true) then Finish(s)
    else if ts[i].LexError? then Closing(0, 0, false, true)
    else Run(ts, i + 1, Step(s, ts[i]))
  }

  /** ParseToClose over what the lexer reports; past the end of `ts` it reports io.EOF. */
  function Parse(ts: seq<Lexeme>): (r: Closing)
    requires AllWellFormed(ts)
  {
    Run(ts, 0, Init)
  }

  lemma {:induction false} RunOkNotFailed(ts: seq<Lexeme>, i: nat, s: Scanner)
    requires i <= 20 && AllWellFormed(ts)
    ensures Run(ts, i, s).failed ==> !Run(ts, i, s).ok
    decreases 20 - i
  {
    if i < 20 && s.end == 0 && i < |ts| && ts[i].Tok? {
      RunOkNotFailed(ts, i + 1, Step(s, ts[i]));
    }
  }

  /** ParseToClose's loop, over the lexer's reports `ts`. */
  method ParseToClose(ts: seq<Lexeme>) returns (start: int, end: int, ok: bool, failed: bool)
    requires AllWellFormed(ts)
    ensures Closing(start, end, ok, failed) == Parse(ts)
  {
    var nesting := 0;
    var currTag := "";
    var matchTag := "";
    var pos: nat := 0;
    var st: nat := 0;
    var en: nat := 0;
    var i := 0;
    while i < 20 && en == 0
      invariant 0 <= i <= 20
      invariant Run(ts, i, Scanner(nesting, currTag, matchTag, pos, st, en)) == Parse(ts)
    {
      if i >= |ts| || ts[i] == LexError(true) {
        break;
      }
      if ts[i].LexError? {
        return 0, 0, false, true;
      }
      ghost var before := Scanner(nesting, currTag, matchTag, pos, st, en);
      var bs := ts[i].text;
      var begin := pos;
      pos := pos + |bs|;
      match ts[i].kind {
        case StartTag =>
          currTag := bs[1..];
          if |matchTag| == 0 {
            matchTag := bs[1..];
            nesting := nesting + 1;
            st := begin;
          } else if matchTag == bs[1..] {
            nesting := nesting + 1;
          }
        case StartTagVoid =>
          if matchTag == currTag {
            nesting := nesting - 1;
            if nesting == 0 {
              en := pos;
            }
          }
        case EndTag =>
          if matchTag == bs[2..|bs| - 1] {
            nesting := nesting - 1;
            if nesting == 0 {
              en := pos;
            }
          }
        case Other =>
      }
      assert Scanner(nesting, currTag, matchTag, pos, st, en) == Step(before, ts[i]);
      i := i + 1;
    }
    var c := Finish(Scanner(nesting, currTag, matchTag, pos, st, en));
    start, end, ok, failed := c.start, c.end, c.ok, c.failed;
  }

  // ---------------------------------------------------------------------
  // What ParseToClose promises

  /** The loop ran through the first `n` reports: all tokens, and no end recorded after any of them. */
  predicate Unclosed(ts: seq<Lexeme>, n: nat)
    requires AllWellFormed(ts)
  {
    && n <= |ts|
    && (forall j :: 0 <= j < n ==> ts[j].Tok?)
    && (forall j :: 0 <= j <= n ==> Scanned(ts[..j]).end == 0)
  }

  lemma PrefixTokens(ts: seq<Lexeme>, n: nat, j: nat)
    requires AllWellFormed(ts) && n <= |ts| && j <= n && Tokens(ts[..n])
    ensures Tokens(ts[..j]) && AllWellFormed(ts[..j])
  {
    assert forall k :: 0 <= k < j ==> ts[..j][k] == ts[..n][k];
  }

  /** Scanning one more token is one more Step. */
  lemma ScannedNext(ts: seq<Lexeme>, n: nat)
    requires AllWellFormed(ts) && n < |ts| && Tokens(ts[..n + 1])
    ensures Tokens(ts[..n]) && AllWellFormed(ts[..n])
    ensures Scanned(ts[..n + 1]) == Step(Scanned(ts[..n]), ts[n])
  {
    PrefixTokens(ts, n + 1, n);
    assert ts[..n + 1][..n] == ts[..n];
  }

  /** The loop records an end after token `n - 1`, within 20 steps, having run through the tokens before it. */
  predicate ClosedAfter(ts: seq<Lexeme>, n: nat)
    requires AllWellFormed(ts)
  {
    && 0 < n <= 20 && n <= |ts| && Unclosed(ts, n - 1) && ts[n - 1].Tok?
    && Tokens(ts[..n]) && Scanned(ts[..n]).end != 0
  }

  /** The loop meets a lexer error other than io.EOF at step `n`. */
  predicate FailsAt(ts: seq<Lexeme>, n: nat)
    requires AllWellFormed(ts)
  {
    n < 20 && n < |ts| && Unclosed(ts, n) && ts[n] == LexError(false)
  }

  /** The loop stops at step `n` without an end: 20 steps done, the input used up, or io.EOF. */
  predicate StopsAt(ts: seq<Lexeme>, n: nat)
    requires AllWellFormed(ts)
  {
    n <= 20 && Unclosed(ts, n) && (n == 20 || n == |ts| || ts[n] == LexError(true))
  }

  /** The scanner's results once the tokens before `n` are scanned. */
  function ScannedUpTo(ts: seq<Lexeme>, n: nat): (r: Scanner)
    requires AllWellFormed(ts) && n <= |ts| && Tokens(ts[..n])
  {
    PrefixTokens(ts, n, n);
    Scanned(ts[..n])
  }

  /**
   * From step `i` on, the loop ends in one of three ways: it records an
   * end after some later token (ok), it meets a lexer error other than
   * io.EOF at some later step (failed), or it stops at some later step by
   * reaching 20 steps, the end of the input or io.EOF (neither).
   */
  lemma {:induction false} RunMeaning(ts: seq<Lexeme>, i: nat)
    requires AllWellFormed(ts) && i <= 20 && Unclosed(ts, i)
    ensures Tokens(ts[..i])
    ensures var r := Run(ts, i, ScannedUpTo(ts, i));
      && (r.ok ==> !r.failed && exists n :: i < n && ClosedAfter(ts, n) && r == Finish(ScannedUpTo(ts, n)))
      && (r.failed ==> !r.ok && r == Closing(0, 0, false, true) && exists n :: i <= n && FailsAt(ts, n))
      && (!r.ok && !r.failed ==> exists n :: i <= n && StopsAt(ts, n) && r == Finish(ScannedUpTo(ts, n)))
    decreases 20 - i
  {
    PrefixTokens(ts, i, i);
    var s := Scanned(ts[..i]);
    assert s.end == 0;
    if i == 20 || i >= |ts| || ts[i] == LexError(true) {
      assert StopsAt(ts, i);
    } else if ts[i].LexError? {
      assert FailsAt(ts, i);
    } else {
      assert Tokens(ts[..i + 1]) by {
        assert forall k :: 0 <= k < i + 1 ==> ts[..i + 1][k] == ts[k];
      }
      ScannedNext(ts, i);
      var s' := Scanned(ts[..i + 1]);
      if s'.end != 0 {
        assert Run(ts, i + 1, s') == Finish(s');
        assert ClosedAfter(ts, i + 1);
      } else {
        assert Unclosed(ts, i + 1) by {
          forall j | 0 <= j <= i + 1
            ensures Scanned(ts[..j]).end == 0
          {
            if j == i + 1 {
              assert s'.end == 0;
            }
          }
        }
        RunMeaning(ts, i + 1);
      }
    }
  }

  /**
   * ParseToClose's three outcomes: ok exactly when an end was recorded, and
   * then with the scanner's start and end after the closing token; the
   * error results for a lexer error; otherwise the start so far and no end.
   */
  lemma ParseMeaning(ts: seq<Lexeme>)
    requires AllWellFormed(ts)
    ensures var r := Parse(ts);
      && (r.ok <==> r.end != 0)
      && (r.ok ==> !r.failed && exists n :: ClosedAfter(ts, n) && r == Finish(ScannedUpTo(ts, n)))
      && (r.failed ==> r == Closing(0, 0, false, true) && exists n :: FailsAt(ts, n))
      && (!r.ok && !r.failed ==> exists n :: StopsAt(ts, n) && r == Finish(ScannedUpTo(ts, n)))
  {
    assert ts[..0] == [];
    assert Unclosed(ts, 0);
    RunMeaning(ts, 0);
  }

  /** The loop from any step depends on the first 20 reports only. */
  lemma {:induction false} RunWindow(ts: seq<Lexeme>, i: nat, s: Scanner)
    requires AllWellFormed(ts) && |ts| > 20 && i <= 20
    ensures AllWellFormed(ts[..20])
    ensures Run(ts, i, s) == Run(ts[..20], i, s)
    decreases 20 - i
  {
    assert forall k :: 0 <= k < 20 ==> ts[..20][k] == ts[k];
    if i < 20 && s.end == 0 && ts[i] != LexError(true) && ts[i].Tok? {
      RunWindow(ts, i + 1, Step(s, ts[i]));
    }
  }

  /** At most 20 of the lexer's reports are looked at. */
  lemma ParseWindow(ts: seq<Lexeme>)
    requires AllWellFormed(ts) && |ts| > 20
    ensures AllWellFormed(ts[..20])
    ensures Parse(ts) == Parse(ts[..20])
  {
    RunWindow(ts, 0, Init);
  }

  /** The scanner's offset is the sum of the lengths of the tokens scanned. */
  lemma {:induction false} ScannedPos(ts: seq<Lexeme>)
    requires Tokens(ts) && AllWellFormed(ts)
    ensures Scanned(ts).pos == Offset(ts)
    decreases |ts|
  {
    if ts != [] {
      ScannedPos(ts[..|ts| - 1]);
    }
  }

  /**
   * The tag being matched and the start offset: once a start tag with a
   * non-empty name has been scanned, the first such tag's name is the tag
   * matched and its offset is the start; before that, no such tag occurred.
   */
  lemma {:induction false} ScannedStart(ts: seq<Lexeme>)
    requires Tokens(ts) && AllWellFormed(ts)
    ensures Scanned(ts).matchTag == "" ==> forall i :: 0 <= i < |ts| ==> !NamedStart(ts[i])
    ensures Scanned(ts).matchTag != "" ==>
      exists j :: 0 <= j < |ts| && NamedStart(ts[j]) && (forall i :: 0 <= i < j ==> !NamedStart(ts[i]))
        && Scanned(ts).matchTag == StartName(ts[j]) && Scanned(ts).start == Offset(ts[..j])
    decreases |ts|
  {
    if ts != [] {
      var p := ts[..|ts| - 1];
      var t := ts[|ts| - 1];
      assert forall i :: 0 <= i < |p| ==> p[i] == ts[i];
      ScannedStart(p);
      ScannedPos(p);
      var s := Scanned(p);
      if s.matchTag != "" {
        var j :| 0 <= j < |p| && NamedStart(p[j]) && (forall i :: 0 <= i < j ==> !NamedStart(p[i]))
          && s.matchTag == StartName(p[j]) && s.start == Offset(p[..j]);
        assert ts[..j] == p[..j];
        assert Scanned(ts).matchTag == s.matchTag && Scanned(ts).start == s.start;
      } else if Scanned(ts).matchTag != "" {
        assert ts[..|ts| - 1] == p;
        assert Scanned(ts).start == Offset(p);
      }
    }
  }

  // ---------------------------------------------------------------------
  // jsxParser.Open

  predicate IsLetter(c: char) {
    ('a' <= c <= 'z') || ('A' <= c <= 'Z')
  }

  predicate IsUpper(c: char) {
    'A' <= c <= 'Z'
  }

  /** A character of [a-zA-Z0-9\-]. */
  predicate IsNameChar(c: char) {
    IsLetter(c) || ('0' <= c <= '9') || c == '-'
  }

  /** A word character of a regular expression's \b: [0-9A-Za-z_]. */
  predicate IsWordChar(c: char) {
    IsLetter(c) || ('0' <= c <= '9') || c == '_'
  }

  /** The number of spaces `s` starts with from `i`. */
  function SpacesFrom(s: string, i: nat): (n: nat)
    requires i <= |s|
    ensures i + n <= |s|
    ensures forall k :: i <= k < i + n ==> s[k] == ' '
    ensures i + n == |s| || s[i + n] != ' '
    decreases |s| - i
  {
    if i < |s| && s[i] == ' ' then 1 + SpacesFrom(s, i + 1) else 0
  }

  /** The length of the run of name characters at `i`. */
  function NameRun(s: string, i: nat): (n: nat)
    requires i <= |s|
    ensures i + n <= |s|
    ensures forall k :: i <= k < i + n ==> IsNameChar(s[k])
    ensures i + n == |s| || !IsNameChar(s[i + n])
    decreases |s| - i
  {
    if i < |s| && IsNameChar(s[i]) then 1 + NameRun(s, i + 1) else 0
  }

  /** `name` sits at `k` in `line` and the line does not continue it. */
  predicate NameAt(line: string, k: nat, name: string) {
    && k + |name| <= |line| && line[k..k + |name|] == name
    && (k + |name| == |line| || !IsNameChar(line[k + |name|]))
  }

  /** Where the expression's second group starts: after the spaces, '<' and the optional '/' and spaces. */
  function NameStart(line: string): (r: nat) {
    var c := SpacesFrom(line, 0);
    if c + 1 < |line| && line[c + 1] == '/' then c + 2 + SpacesFrom(line, c + 2) else c + 1
  }

  /**
   * The regular expression ^[ ]{0,3}<(/[ ]*)?([a-zA-Z]+[a-zA-Z0-9\-]*)
   * applied to a line: its second group, the tag name, a whole run of name
   * characters starting with a letter.
   */
  function TagMatch(line: string): (r: Option<string>)
    ensures r.Some? ==> ValidName(r.value) && exists k :: 0 < k && NameAt(line, k, r.value)
  {
    var c := SpacesFrom(line, 0);
    if c > 3 || c >= |line| || line[c] != '<' then None
    else
      var k := NameStart(line);
      if k < |line| && IsLetter(line[k]) then
        var n := NameRun(line, k);
        var name := line[k..k + n];
        assert forall m :: 0 <= m < n ==> name[m] == line[k + m];
        assert NameAt(line, k, name);
        Some(name)
      else None
  }

  /** A tag name of the expression's second group. */
  predicate ValidName(name: string) {
    |name| > 0 && IsLetter(name[0]) && forall k :: 0 <= k < |name| ==> IsNameChar(name[k])
  }

  lemma NameRunOf(line: string, k: nat, name: string)
    requires ValidName(name) && k + |name| <= |line| && line[k..k + |name|] == name
    requires k + |name| == |line| || !IsNameChar(line[k + |name|])
    ensures NameRun(line, k) == |name|
    decreases |line| - k
  {
    var j := k;
    while j < k + |name|
      invariant k <= j <= k + |name|
      invariant NameRun(line, k) == (j - k) + NameRun(line, j)
    {
      assert line[j] == name[j - k];
      j := j + 1;
    }
  }

  lemma SpacesOf(line: string, i: nat, n: nat)
    requires i + n <= |line| && forall k :: i <= k < i + n ==> line[k] == ' '
    requires i + n == |line| || line[i + n] != ' '
    ensures SpacesFrom(line, i) == n
  {
    var j := i;
    while j < i + n
      invariant i <= j <= i + n
      invariant SpacesFrom(line, i) == (j - i) + SpacesFrom(line, j)
    {
      j := j + 1;
    }
  }

  /**
   * Every line of the shape the expression describes gives the tag name
   * back: up to three spaces, '<', optionally '/' and spaces, the name,
   * then anything that does not continue the name.
   */
  lemma {:induction false} TagMatchOfTag(sp: nat, closing: bool, gap: nat, name: string, rest: string)
    requires sp <= 3 && ValidName(name)
    requires rest == [] || !IsNameChar(rest[0])
    ensures var head := if closing then "/" + Repeat(' ', gap) else "";
      TagMatch(Repeat(' ', sp) + "<" + (head + (name + rest))) == Some(name)
  {
    var head := if closing then "/" + Repeat(' ', gap) else "";
    var tail := name + rest;
    var line := Repeat(' ', sp) + "<" + (head + tail);
    SpacesThenAngle(sp, head + tail);
    NameStartAfter(line, sp, closing, gap, tail);
    var k := sp + 1 + |head|;
    assert line[k..] == tail by {
      assert line[k..] == line[sp + 1..][|head|..];
    }
    NameThenRest(line, k, name, rest);
    TagMatchAt(line, sp, k, name);
  }

  lemma {:induction false} NameStartAfter(line: string, sp: nat, closing: bool, gap: nat, tail: string)
    requires sp < |line| && SpacesFrom(line, 0) == sp && tail != [] && tail[0] != ' ' && tail[0] != '/'
    requires line[sp + 1..] == (if closing then "/" + Repeat(' ', gap) else "") + tail
    ensures NameStart(line) == sp + 1 + |if closing then "/" + Repeat(' ', gap) else ""|
  {
    if closing {
      SlashThenSpaces(line, sp + 1, gap, tail);
    } else {
      assert line[sp + 1] == line[sp + 1..][0] == tail[0];
    }
  }

  lemma {:induction false} SpacesThenAngle(sp: nat, tail: string)
    ensures var line := Repeat(' ', sp) + "<" + tail;
      sp < |line| && SpacesFrom(line, 0) == sp && line[sp] == '<' && line[sp + 1..] == tail
  {
    var line := Repeat(' ', sp) + "<" + tail;
    assert forall m :: 0 <= m < sp ==> line[m] == ' ';
    assert line[sp] == '<';
    SpacesOf(line, 0, sp);
    assert line[sp + 1..] == tail;
  }

  lemma {:induction false} SlashThenSpaces(line: string, i: nat, gap: nat, tail: string)
    requires i <= |line| && line[i..] == "/" + Repeat(' ', gap) + tail
    requires tail != [] && tail[0] != ' '
    ensures i + 1 < |line| && line[i] == '/' && SpacesFrom(line, i + 1) == gap
  {
    assert line[i] == line[i..][0] == '/';
    assert forall m :: i + 1 <= m < i + 1 + gap ==> line[m] == line[i..][m - i] == ' ';
    assert line[i + 1 + gap] == line[i..][1 + gap] == tail[0];
    SpacesOf(line, i + 1, gap);
  }

  lemma {:induction false} NameThenRest(line: string, k: nat, name: string, rest: string)
    requires k <= |line| && line[k..] == name + rest && ValidName(name)
    requires rest == [] || !IsNameChar(rest[0])
    ensures k + |name| <= |line| && line[k..k + |name|] == name && NameRun(line, k) == |name|
  {
    assert line[k..k + |name|] == line[k..][..|name|] == name;
    if rest != [] {
      assert line[k + |name|] == line[k..][|name|] == rest[0];
    }
    NameRunOf(line, k, name);
  }

  lemma {:induction false} TagMatchAt(line: string, sp: nat, k: nat, name: string)
    requires sp <= 3 && sp < |line| && SpacesFrom(line, 0) == sp && line[sp] == '<'
    requires NameStart(line) == k && k + |name| <= |line| && NameRun(line, k) == |name|
    requires |name| > 0 && IsLetter(name[0]) && line[k..k + |name|] == name
    ensures TagMatch(line) == Some(name)
  {
    assert line[k] == name[0];
  }

  /** A position where \b holds: a word character on exactly one side. */
  predicate Boundary(s: string, k: nat)
    requires k <= |s|
  {
    (k > 0 && IsWordChar(s[k - 1])) != (k < |s| && IsWordChar(s[k]))
  }

  /** The expression \b<name>\b matches somewhere in `code`. */
  predicate WordOccurs(code: string, name: string) {
    exists k :: 0 <= k <= |code| - |name| && code[k..k + |name|] == name && Boundary(code, k) && Boundary(code, k + |name|)
  }

  /**
   * A name standing alone in the code, between non-word characters or the
   * ends of the code, is found (when it ends in a word character).
   */
  lemma {:induction false} WordOccursBetween(pre: string, name: string, post: string)
    requires ValidName(name) && IsWordChar(name[|name| - 1])
    requires pre == [] || !IsWordChar(pre[|pre| - 1])
    requires post == [] || !IsWordChar(post[0])
    ensures WordOccurs(pre + (name + post), name)
  {
    var code := pre + (name + post);
    var k := |pre|;
    assert code[k..k + |name|] == name;
    assert code[k] == name[0];
    assert k > 0 ==> code[k - 1] == pre[|pre| - 1];
    assert code[k + |name| - 1] == name[|name| - 1];
    assert k + |name| < |code| ==> code[k + |name|] == post[0];
    assert Boundary(code, k) && Boundary(code, k + |name|);
  }

  /** The JSX node Open makes: its tag, the segment of the source it covers, and how far the reader advances. */
  datatype JsxBlock = JsxBlock(tag: string, segStart: int, segEnd: int, advance: int)

  /**
   * jsxParser.Open: `line` is the current line, `blockOffset` the offset of
   * its first non-blank character (negative for a blank line), `offset` the
   * reader's position in the source, `lexed` what the lexer reports over the
   * source from there, and `code` the page's JavaScript.
   */
  function Open(line: string, blockOffset: int, offset: nat, lexed: seq<Lexeme>, code: string): (r: Option<JsxBlock>)
    requires blockOffset < |line| && AllWellFormed(lexed)
    ensures r.Some? <==>
      && 0 <= blockOffset && line[blockOffset] == '<'
      && TagMatch(line).Some? && IsUpper(TagMatch(line).value[0])
      && Parse(lexed).ok && WordOccurs(code, TagMatch(line).value)
    ensures r.Some? ==>
      var c := Parse(lexed);
      r.value == JsxBlock(TagMatch(line).value, c.start + offset, c.end + offset, c.end - c.start - 1)
  {
    if blockOffset < 0 || line[blockOffset] != '<' then None
    else match TagMatch(line)
      case None => None
      case Some(tag) =>
        if !IsUpper(tag[0]) then None
        else
          var c := Parse(lexed);
          RunOkNotFailed(lexed, 0, Init);
          if c.failed || !c.ok then None
          else if !WordOccurs(code, tag) then None
          else Some(JsxBlock(tag, c.start + offset, c.end + offset, c.end - c.start - 1))
  }

  /** The token after which the loop records an end closes the nesting, and the end is the lexer's offset just past it. */
  lemma SegmentAt(lexed: seq<Lexeme>, n: nat)
    requires AllWellFormed(lexed) && ClosedAfter(lexed, n)
    ensures ScannedUpTo(lexed, n).nesting == 0
    ensures lexed[n - 1].kind == StartTagVoid || lexed[n - 1].kind == EndTag
    ensures ScannedUpTo(lexed, n).end == Offset(lexed[..n])
  {
    ScannedNext(lexed, n - 1);
    ScannedPos(lexed[..n]);
    var before := Scanned(lexed[..n - 1]);
    var after := ScannedUpTo(lexed, n);
    assert before.end == 0;
    assert after == Step(before, lexed[n - 1]);
    assert after.end == after.pos == Offset(lexed[..n]);
  }

  /**
   * A successful parse covers from the first named start tag to just past the
   * token that brought the nesting back to zero, among the first 20 reports.
   */
  lemma ParseSegment(lexed: seq<Lexeme>)
    requires AllWellFormed(lexed) && Parse(lexed).ok
    ensures exists n: nat :: (ClosedAfter(lexed, n) && ScannedUpTo(lexed, n).nesting == 0
        && (lexed[n - 1].kind == StartTagVoid || lexed[n - 1].kind == EndTag)
        && Parse(lexed).end == Offset(lexed[..n]) && Parse(lexed).start == ScannedUpTo(lexed, n).start)
  {
    ParseMeaning(lexed);
    var n: nat :| ClosedAfter(lexed, n) && Parse(lexed) == Finish(ScannedUpTo(lexed, n));
    SegmentAt(lexed, n);
  }

  /**
   * An accepted block runs from the first named start tag to just past the
   * token that brought the nesting back to zero, among the first 20 reports.
   */
  lemma OpenSegment(line: string, blockOffset: int, offset: nat, lexed: seq<Lexeme>, code: string)
    requires blockOffset < |line| && AllWellFormed(lexed)
    requires Open(line, blockOffset, offset, lexed, code).Some?
    ensures var b := Open(line, blockOffset, offset, lexed, code).value;
      exists n: nat :: (ClosedAfter(lexed, n) && ScannedUpTo(lexed, n).nesting == 0
        && (lexed[n - 1].kind == StartTagVoid || lexed[n - 1].kind == EndTag)
        && b.segEnd == offset + Offset(lexed[..n]) && b.segStart == offset + ScannedUpTo(lexed, n).start)
  {
    var b := Open(line, blockOffset, offset, lexed, code).value;
    ParseSegment(lexed);
    var c := Parse(lexed);
    assert b.segEnd == c.end + offset && b.segStart == c.start + offset;
  }
}

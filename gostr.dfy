// String helpers with the semantics of Go's `strings` and `bytes` packages,
// restricted to the forms the modelled code uses.
module GoStrings {

  predicate HasPrefix(s: string, p: string) {
    |p| <= |s| && s[..|p|] == p
  }

  predicate HasSuffix(s: string, p: string) {
    |p| <= |s| && s[|s| - |p|..] == p
  }

  /** strings.TrimPrefix: drops `p` once when `s` starts with it. */
  function TrimPrefix(s: string, p: string): (r: string)
    ensures HasPrefix(s, p) ==> p + r == s
    ensures !HasPrefix(s, p) ==> r == s
  {
    if HasPrefix(s, p) then s[|p|..] else s
  }

  /** strings.TrimSuffix: drops `p` once when `s` ends with it. */
  function TrimSuffix(s: string, p: string): (r: string)
    ensures HasSuffix(s, p) ==> r + p == s
    ensures !HasSuffix(s, p) ==> r == s
  {
    if HasSuffix(s, p) then s[..|s| - |p|] else s
  }

  /** `n` copies of `c` (strings.Repeat of a one-character string). */
  function Repeat(c: char, n: nat): (r: string)
    ensures |r| == n
    ensures forall i :: 0 <= i < n ==> r[i] == c
  {
    if n == 0 then "" else [c] + Repeat(c, n - 1)
  }

  /** The number of bytes in the UTF-8 encoding of one character (RFC 3629, section 3). */
  function Utf8Width(c: char): (r: nat)
    ensures 1 <= r <= 4
    ensures r == 1 <==> (c as int) < 0x80
  {
    if (c as int) < 0x80 then 1
    else if (c as int) < 0x800 then 2
    else if (c as int) < 0x10000 then 3
    else 4
  }

  /** Go's len of a string: the length of its UTF-8 encoding in bytes. */
  function Utf8Len(s: string): (r: nat)
    ensures |s| <= r <= 4 * |s|
  {
    if s == "" then 0 else Utf8Width(s[0]) + Utf8Len(s[1..])
  }

  /** Every character of `s` is ASCII, so each is one byte. */
  predicate IsAscii(s: string) {
    forall i :: 0 <= i < |s| ==> (s[i] as int) < 0x80
  }

  /** A string's byte length equals its character count exactly when it is ASCII. */
  lemma {:induction false} Utf8LenAscii(s: string)
    ensures Utf8Len(s) == |s| <==> IsAscii(s)
  {
    if s != "" {
      Utf8LenAscii(s[1..]);
      assert forall i :: 1 <= i < |s| ==> s[i] == s[1..][i - 1];
    }
  }

  /** Byte lengths add up over concatenation. */
  lemma {:induction false} Utf8LenAppend(a: string, b: string)
    ensures Utf8Len(a + b) == Utf8Len(a) + Utf8Len(b)
  {
    if a != "" {
      assert (a + b)[1..] == a[1..] + b;
      Utf8LenAppend(a[1..], b);
    } else {
      assert a + b == b;
    }
  }

  /** A run of an ASCII character has as many bytes as characters. */
  lemma {:induction false} Utf8LenRepeat(c: char, n: nat)
    requires (c as int) < 0x80
    ensures Utf8Len(Repeat(c, n)) == n
  {
    if n > 0 {
      Utf8LenRepeat(c, n - 1);
    }
  }

  /** strings.TrimLeft with a one-character cutset. */
  function TrimLeft(s: string, c: char): (r: string)
    ensures |r| <= |s| && r == s[|s| - |r|..]
    ensures forall i :: 0 <= i < |s| - |r| ==> s[i] == c
    ensures r == "" || r[0] != c
  {
    if s != [] && s[0] == c then TrimLeft(s[1..], c) else s
  }

  /** strings.TrimRight with a one-character cutset. */
  function TrimRight(s: string, c: char): (r: string)
    ensures |r| <= |s| && r == s[..|r|]
    ensures forall i :: |r| <= i < |s| ==> s[i] == c
    ensures r == "" || r[|r| - 1] != c
  {
    if s != [] && s[|s| - 1] == c then TrimRight(s[..|s| - 1], c) else s
  }

  /** strings.Trim with a one-character cutset: right-trim of the left-trim. */
  function Trim(s: string, c: char): (r: string) {
    TrimRight(TrimLeft(s, c), c)
  }

  /** Index of the first `c` in `s`, or -1 (strings.IndexByte). */
  function IndexOf(s: string, c: char): (r: int)
    ensures -1 <= r < |s|
    ensures r == -1 <==> c !in s
    ensures r >= 0 ==> s[r] == c && c !in s[..r]
  {
    if s == [] then -1
    else if s[0] == c then 0
    else
      var k := IndexOf(s[1..], c);
      if k == -1 then -1 else k + 1
  }

  /** Index of the last `c` in `s`, or -1 (strings.LastIndex with a one-character needle). */
  function LastIndexOf(s: string, c: char): (r: int)
    ensures -1 <= r < |s|
    ensures r == -1 <==> c !in s
    ensures r >= 0 ==> s[r] == c && c !in s[r + 1..]
  {
    if s == [] then -1
    else if s[|s| - 1] == c then |s| - 1
    else LastIndexOf(s[..|s| - 1], c)
  }

  /** The last `c` of `a + [c] + b` is the separator itself when `b` has none. */
  lemma {:induction false} LastIndexAfter(a: string, b: string, c: char)
    requires c !in b
    ensures LastIndexOf(a + [c] + b, c) == |a|
    decreases |b|
  {
    var s := a + [c] + b;
    if b != [] {
      var b' := b[..|b| - 1];
      assert s[|s| - 1] == b[|b| - 1];
      assert s[..|s| - 1] == a + [c] + b';
      assert c !in b' by { assert forall i :: 0 <= i < |b'| ==> b'[i] == b[i]; }
      LastIndexAfter(a, b', c);
    }
  }

  /** `sub` occurs in `s` starting at index `i`. */
  predicate OccursAt(s: string, sub: string, i: nat) {
    i + |sub| <= |s| && s[i..i + |sub|] == sub
  }

  /** Start of the first occurrence of `sub` in `s` at or after `from`, or -1 (strings.Index). */
  function IndexOfSub(s: string, sub: string, from: nat): (r: int)
    requires |sub| > 0
    ensures r == -1 || (from <= r && OccursAt(s, sub, r))
    ensures forall i: nat :: from <= i && (r == -1 || i < r) ==> !OccursAt(s, sub, i)
    decreases |s| - from
  {
    if from + |sub| > |s| then -1
    else if OccursAt(s, sub, from) then from
    else IndexOfSub(s, sub, from + 1)
  }

  /** Searching past a prefix is searching the rest, shifted by the prefix's length. */
  lemma {:induction false} IndexOfSubShift(p: string, s: string, sub: string, k: nat)
    requires |sub| > 0
    ensures IndexOfSub(p + s, sub, |p| + k) == (if IndexOfSub(s, sub, k) == -1 then -1 else |p| + IndexOfSub(s, sub, k))
    decreases |s| - k
  {
    var t := p + s;
    if k + |sub| <= |s| {
      assert t[|p| + k..|p| + k + |sub|] == s[k..k + |sub|];
      if !OccursAt(s, sub, k) {
        IndexOfSubShift(p, s, sub, k + 1);
      }
    }
  }

  /** An occurrence found in `x` is still the first one once more text follows `x`. */
  lemma {:induction false} IndexOfSubExtend(x: string, y: string, sub: string, k: nat)
    requires |sub| > 0 && IndexOfSub(x, sub, k) != -1
    ensures IndexOfSub(x + y, sub, k) == IndexOfSub(x, sub, k)
    decreases |x| - k
  {
    assert (x + y)[k..k + |sub|] == x[k..k + |sub|];
    if !OccursAt(x, sub, k) {
      IndexOfSubExtend(x, y, sub, k + 1);
    }
  }

  /** strings.Count of a non-empty needle: non-overlapping occurrences, scanning from the left. */
  function Count(s: string, sub: string, from: nat): (r: nat)
    requires |sub| > 0
    decreases |s| - from
  {
    var k := IndexOfSub(s, sub, from);
    if k == -1 then 0 else 1 + Count(s, sub, k + |sub|)
  }

  /** strings.Split with a one-character separator: always at least one piece. */
  function Split(s: string, c: char): (r: seq<string>)
    ensures |r| >= 1
  {
    if s == [] then [""]
    else
      var rest := Split(s[1..], c);
      if s[0] == c then [""] + rest else [[s[0]] + rest[0]] + rest[1..]
  }

  /** No piece of a split contains the separator. */
  lemma {:induction false} SplitPiecesFree(s: string, c: char)
    ensures forall i :: 0 <= i < |Split(s, c)| ==> c !in Split(s, c)[i]
  {
    if s != [] {
      SplitPiecesFree(s[1..], c);
    }
  }

  /** strings.Join with a one-character separator. */
  function JoinWith(parts: seq<string>, c: char): (r: string) {
    if parts == [] then ""
    else if |parts| == 1 then parts[0]
    else parts[0] + [c] + JoinWith(parts[1..], c)
  }

  /** Joining the pieces of a split gives back the string. */
  lemma {:induction false} JoinSplit(s: string, c: char)
    ensures JoinWith(Split(s, c), c) == s
  {
    if s != [] {
      var rest := Split(s[1..], c);
      JoinSplit(s[1..], c);
      if s[0] == c {
        JoinCons("", rest, c);
      } else {
        JoinExtend(s[0], rest, c);
      }
      assert s == [s[0]] + s[1..];
    }
  }

  lemma JoinCons(x: string, rest: seq<string>, c: char)
    requires rest != []
    ensures JoinWith([x] + rest, c) == x + [c] + JoinWith(rest, c)
  {
    assert ([x] + rest)[1..] == rest;
  }

  /** Extending the first piece by one character extends the join by it. */
  lemma JoinExtend(h: char, rest: seq<string>, c: char)
    requires rest != []
    ensures JoinWith([[h] + rest[0]] + rest[1..], c) == [h] + JoinWith(rest, c)
  {
    if |rest| > 1 {
      JoinCons([h] + rest[0], rest[1..], c);
      JoinCons(rest[0], rest[1..], c);
      assert rest == [rest[0]] + rest[1..];
    }
  }

  /** Splitting a join of separator-free pieces gives back the pieces. */
  lemma {:induction false} SplitJoin(parts: seq<string>, c: char)
    requires |parts| >= 1
    requires forall i :: 0 <= i < |parts| ==> c !in parts[i]
    ensures Split(JoinWith(parts, c), c) == parts
  {
    if |parts| == 1 {
      SplitFree(parts[0], c);
    } else {
      var tail := JoinWith(parts[1..], c);
      SplitJoin(parts[1..], c);
      SplitFree(parts[0], c);
      SplitAppend(parts[0], tail, c);
      assert parts == [parts[0]] + parts[1..];
    }
  }

  /** A string without the separator splits into itself. */
  lemma {:induction false} SplitFree(s: string, c: char)
    requires c !in s
    ensures Split(s, c) == [s]
  {
    if s != [] {
      assert c !in s[1..] by { assert forall i :: 0 <= i < |s[1..]| ==> s[1..][i] == s[i + 1]; }
      SplitFree(s[1..], c);
      assert s == [s[0]] + s[1..];
    }
  }

  /** One character in front of a string either starts a new piece or joins the first one. */
  lemma SplitCons(h: char, t: string, c: char)
    ensures h == c ==> Split([h] + t, c) == [""] + Split(t, c)
    ensures h != c ==> Split([h] + t, c) == [[h] + Split(t, c)[0]] + Split(t, c)[1..]
  {
    var s := [h] + t;
    assert s[0] == h && s[1..] == t;
  }

  lemma ConsAppend(a: string, b: string, c: char)
    requires a != []
    ensures a + [c] + b == [a[0]] + (a[1..] + [c] + b)
  {
    assert a == [a[0]] + a[1..];
  }

  lemma FirstPieceJoins(x: string, ra: seq<string>, rb: seq<string>)
    requires |ra| >= 1
    ensures [x + (ra + rb)[0]] + (ra + rb)[1..] == [x + ra[0]] + ra[1..] + rb
  {
    assert (ra + rb)[0] == ra[0];
    assert (ra + rb)[1..] == ra[1..] + rb;
  }

  /** Splitting `a + [c] + b` splits the two halves separately. */
  lemma {:induction false} SplitAppend(a: string, b: string, c: char)
    ensures Split(a + [c] + b, c) == Split(a, c) + Split(b, c)
  {
    if a == [] {
      assert a + [c] + b == [c] + b;
      SplitCons(c, b, c);
    } else {
      var t := a[1..];
      ConsAppend(a, b, c);
      assert a == [a[0]] + t;
      SplitAppend(t, b, c);
      SplitCons(a[0], t + [c] + b, c);
      SplitCons(a[0], t, c);
      if a[0] != c {
        FirstPieceJoins([a[0]], Split(t, c), Split(b, c));
      }
    }
  }
}

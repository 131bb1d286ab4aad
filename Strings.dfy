/**
 * The Python string builtins the converter relies on (`str.split`, `str.join`,
 * `str.strip`, `str.splitlines`, decimal formatting of an `int`), written out
 * as functions with the properties their callers need.
 */
module Strings {

  /** The whitespace of `str.strip` and of the regular-expression class `\s`,
      restricted to ASCII: space, tab, line feed, carriage return, vertical tab, form feed. */
  predicate IsSpace(c: char) {
    c == ' ' || c == '\t' || c == '\n' || c == '\r' || c == '\U{000B}' || c == '\U{000C}'
  }

  predicate AllSpace(s: string) {
    forall k :: 0 <= k < |s| ==> IsSpace(s[k])
  }

  /** `d` occurs in `s` starting at position `k`. */
  predicate OccursAt(s: string, d: string, k: int) {
    0 <= k && k + |d| <= |s| && s[k..k + |d|] == d
  }

  /** No occurrence of `d` in `s` starts below position `n`. */
  predicate FreeBelow(s: string, d: string, n: int) {
    forall k :: 0 <= k < n ==> !OccursAt(s, d, k)
  }

  /** `d` occurs nowhere in `s`. */
  predicate FreeOf(s: string, d: string) {
    FreeBelow(s, d, |s|)
  }

  predicate StartsWith(s: string, p: string) {
    |p| <= |s| && s[..|p|] == p
  }

  /** A slice cut in two. */
  lemma {:induction false} SliceJoin(s: string, a: nat, b: nat, c: nat)
    requires a <= b <= c <= |s|
    ensures s[a..c] == s[a..b] + s[b..c]
  {
  }

  /** Three cuts split a string into four consecutive slices. */
  lemma {:induction false} SliceCover(s: string, a: nat, b: nat, c: nat)
    requires a <= b <= c <= |s|
    ensures s == s[..a] + s[a..b] + s[b..c] + s[c..]
  {
  }

  // ---------------------------------------------------------------------------
  // str.join and str.split

  /** `d.join(ps)`. */
  function Join(ps: seq<string>, d: string): string
    decreases |ps|
  {
    if |ps| == 0 then [] else if |ps| == 1 then ps[0] else ps[0] + d + Join(ps[1..], d)
  }

  /** `"".join(ps)`. */
  function Concat(ps: seq<string>): string {
    Join(ps, [])
  }

  /** Concatenation distributes over appending lists of strings. */
  lemma {:induction false} ConcatAppend(a: seq<string>, b: seq<string>)
    ensures Concat(a + b) == Concat(a) + Concat(b)
    decreases |a|
  {
    if a == [] {
      assert a + b == b;
    } else if b == [] {
      assert a + b == a;
    } else {
      ConcatAppend(a[1..], b);
      assert (a + b)[1..] == a[1..] + b;
      if |a| == 1 {
        assert a + b == [a[0]] + b;
        JoinCons(a[0], b, []);
      } else {
        JoinCons(a[0], a[1..] + b, []);
        JoinCons(a[0], a[1..], []);
        assert [a[0]] + (a[1..] + b) == a + b;
        assert [a[0]] + a[1..] == a;
      }
    }
  }

  /** `s.split(d)` for a non-empty `d`: the pieces between the leftmost
      non-overlapping occurrences of `d`, scanning from the left. */
  function Split(s: string, d: string): (r: seq<string>)
    requires d != []
    ensures |r| >= 1
    decreases |s|
  {
    if |s| < |d| then [s]
    else if s[..|d|] == d then [[]] + Split(s[|d|..], d)
    else
      var rest := Split(s[1..], d);
      [[s[0]] + rest[0]] + rest[1..]
  }

  /** What a left-to-right split on `d` produces: at least one piece, no piece
      holds `d`, and no occurrence of `d` starts inside a piece and runs into the
      delimiter that follows it. */
  predicate LeftmostPieces(ps: seq<string>, d: string) {
    && |ps| >= 1
    && (forall i :: 0 <= i < |ps| - 1 ==> FreeBelow(ps[i] + d, d, |ps[i]|))
    && FreeOf(ps[|ps| - 1], d)
  }

  lemma {:induction false} JoinPrepend(a: string, ps: seq<string>, d: string)
    requires |ps| >= 1
    ensures Join([a + ps[0]] + ps[1..], d) == a + Join(ps, d)
  {
    var qs := [a + ps[0]] + ps[1..];
    if |ps| > 1 {
      assert qs[1..] == ps[1..];
    }
  }

  lemma {:induction false} JoinCons(p: string, ps: seq<string>, d: string)
    requires |ps| >= 1
    ensures Join([p] + ps, d) == p + d + Join(ps, d)
  {
    assert ([p] + ps)[1..] == ps;
  }

  lemma {:induction false} OccursAtCons(c: char, t: string, d: string, k: int)
    requires k >= 1
    ensures OccursAt([c] + t, d, k) <==> OccursAt(t, d, k - 1)
  {
    if k + |d| <= |t| + 1 {
      assert ([c] + t)[k..k + |d|] == t[k - 1..k - 1 + |d|];
    }
  }

  /** An occurrence inside a prefix is an occurrence in the whole string. */
  lemma {:induction false} OccursAtPrefix(s: string, t: string, d: string, k: int)
    requires |t| <= |s| && s[..|t|] == t && k + |d| <= |t|
    ensures OccursAt(t, d, k) <==> OccursAt(s, d, k)
  {
    if 0 <= k {
      assert s[..|t|][k..k + |d|] == s[k..k + |d|];
    }
  }

  /** A string free of `d` is its own only piece. */
  lemma {:induction false} SplitFree(s: string, d: string)
    requires d != [] && FreeOf(s, d)
    ensures Split(s, d) == [s]
    decreases |s|
  {
    if |s| >= |d| {
      assert !OccursAt(s, d, 0);
      forall k | 0 <= k < |s| - 1 ensures !OccursAt(s[1..], d, k) {
        assert [s[0]] + s[1..] == s;
        OccursAtCons(s[0], s[1..], d, k + 1);
      }
      SplitFree(s[1..], d);
      assert [s[0]] + s[1..] == s;
    }
  }

  /** A piece followed by the delimiter, when no occurrence starts inside the
      piece, is split off as the first piece. */
  lemma {:induction false} SplitCons(p: string, d: string, t: string)
    requires d != [] && FreeBelow(p + d, d, |p|)
    ensures Split(p + d + t, d) == [p] + Split(t, d)
    decreases |p|
  {
    var s := p + d + t;
    if p == [] {
      assert s == d + t && s[..|d|] == d && s[|d|..] == t;
    } else {
      assert !OccursAt(p + d, d, 0);
      OccursAtPrefix(s, p + d, d, 0);
      assert s[..|d|] != d;
      var p' := p[1..];
      assert [p[0]] + p' == p;
      forall k | 0 <= k < |p'| ensures !OccursAt(p' + d, d, k) {
        assert [p[0]] + (p' + d) == p + d;
        OccursAtCons(p[0], p' + d, d, k + 1);
      }
      SplitCons(p', d, t);
      assert s[1..] == p' + d + t;
    }
  }

  /** Splitting and joining are inverse, and the pieces are the leftmost ones. */
  lemma {:induction false} SplitJoin(s: string, d: string)
    requires d != []
    ensures Join(Split(s, d), d) == s
    ensures LeftmostPieces(Split(s, d), d)
    decreases |s|
  {
    if |s| < |d| {
      assert Split(s, d) == [s];
    } else if s[..|d|] == d {
      SplitJoin(s[|d|..], d);
      SplitJoinAtDelimiter(s, d);
    } else {
      SplitJoin(s[1..], d);
      SplitJoinAtChar(s, d);
    }
  }

  /** The step of `SplitJoin` where `s` starts with the delimiter. */
  lemma {:induction false} SplitJoinAtDelimiter(s: string, d: string)
    requires d != [] && |s| >= |d| && s[..|d|] == d
    requires Join(Split(s[|d|..], d), d) == s[|d|..] && LeftmostPieces(Split(s[|d|..], d), d)
    ensures Join(Split(s, d), d) == s
    ensures LeftmostPieces(Split(s, d), d)
  {
    var rest := Split(s[|d|..], d);
    assert Split(s, d) == [[]] + rest;
    JoinCons([], rest, d);
    assert s == d + s[|d|..];
    LeftmostEmptyFirst(rest, d);
  }

  /** An empty piece in front of leftmost pieces keeps them leftmost. */
  lemma {:induction false} LeftmostEmptyFirst(rest: seq<string>, d: string)
    requires LeftmostPieces(rest, d)
    ensures LeftmostPieces([[]] + rest, d)
  {
    var r := [[]] + rest;
    forall i | 0 <= i < |r| - 1 ensures FreeBelow(r[i] + d, d, |r[i]|) {
      if i > 0 { assert r[i] == rest[i - 1]; }
    }
  }

  /** The step of `SplitJoin` where `s` does not start with the delimiter: its
      first character joins the first piece of the rest. */
  lemma {:induction false} SplitJoinAtChar(s: string, d: string)
    requires d != [] && |s| >= |d| && s[..|d|] != d
    requires Join(Split(s[1..], d), d) == s[1..] && LeftmostPieces(Split(s[1..], d), d)
    ensures Join(Split(s, d), d) == s
    ensures LeftmostPieces(Split(s, d), d)
  {
    var r := Split(s, d);
    var rest := Split(s[1..], d);
    assert r == [[s[0]] + rest[0]] + rest[1..];
    JoinPrepend([s[0]], rest, d);
    assert [s[0]] + s[1..] == s;
    assert !OccursAt(s, d, 0);
    if |rest| == 1 {
      LastPieceFree(s, d, rest[0]);
    } else {
      FirstPieceFree(s, d, rest);
      forall i | 0 <= i < |r| - 1 ensures FreeBelow(r[i] + d, d, |r[i]|) {
        if i > 0 { assert r[i] == rest[i]; }
      }
    }
  }

  /** A string whose tail is free of the delimiter, and that does not itself
      open with it, is free of it. */
  lemma {:induction false} LastPieceFree(s: string, d: string, t: string)
    requires d != [] && s != [] && s[1..] == t && FreeOf(t, d) && !OccursAt(s, d, 0)
    ensures FreeOf(s, d)
  {
    assert [s[0]] + t == s;
    forall k | 0 <= k < |s| ensures !OccursAt(s, d, k) {
      if k > 0 { OccursAtCons(s[0], t, d, k); }
    }
  }

  /** Prepending a character that does not open the delimiter to the first
      piece keeps it free of the delimiter below its end. */
  lemma {:induction false} FirstPieceFree(s: string, d: string, rest: seq<string>)
    requires d != [] && s != [] && |rest| >= 2 && !OccursAt(s, d, 0)
    requires Join(rest, d) == s[1..] && FreeBelow(rest[0] + d, d, |rest[0]|)
    ensures FreeBelow([s[0]] + rest[0] + d, d, |rest[0]| + 1)
  {
    var p := [s[0]] + rest[0];
    JoinCons(rest[0], rest[1..], d);
    assert rest == [rest[0]] + rest[1..];
    assert [s[0]] + s[1..] == s;
    assert s == p + d + Join(rest[1..], d);
    forall k | 0 <= k < |p| ensures !OccursAt(p + d, d, k) {
      if k == 0 {
        OccursAtPrefix(s, p + d, d, 0);
      } else {
        assert [s[0]] + (rest[0] + d) == p + d;
        OccursAtCons(s[0], rest[0] + d, d, k);
      }
    }
  }

  /** Any leftmost decomposition of a string is the one `Split` computes. */
  lemma {:induction false} SplitUnique(ps: seq<string>, d: string)
    requires d != [] && LeftmostPieces(ps, d)
    ensures Split(Join(ps, d), d) == ps
    decreases |ps|
  {
    if |ps| == 1 {
      SplitFree(ps[0], d);
    } else {
      var rest := ps[1..];
      assert LeftmostPieces(rest, d) by {
        forall i | 0 <= i < |rest| - 1 ensures FreeBelow(rest[i] + d, d, |rest[i]|) {
          assert rest[i] == ps[i + 1];
        }
      }
      SplitUnique(rest, d);
      JoinCons(ps[0], rest, d);
      assert FreeBelow(ps[0] + d, d, |ps[0]|);
      SplitCons(ps[0], d, Join(rest, d));
      assert ps == [ps[0]] + rest;
    }
  }

  /** No piece of a split contains the delimiter. */
  lemma {:induction false} SplitPiecesFreeOf(s: string, d: string, i: int)
    requires d != [] && 0 <= i < |Split(s, d)|
    ensures FreeOf(Split(s, d)[i], d)
  {
    SplitJoin(s, d);
    var r := Split(s, d);
    if i < |r| - 1 {
      forall k | 0 <= k < |r[i]| ensures !OccursAt(r[i], d, k) {
        assert (r[i] + d)[..|r[i]|] == r[i];
        if k + |d| <= |r[i]| { OccursAtPrefix(r[i] + d, r[i], d, k); }
      }
    }
  }

  // ---------------------------------------------------------------------------
  // str.strip

  /** `s.lstrip()`. */
  function TrimStart(s: string): (r: string)
    ensures |r| <= |s| && r == s[|s| - |r|..]
    ensures AllSpace(s[..|s| - |r|])
    ensures r == [] || !IsSpace(r[0])
  {
    if s != [] && IsSpace(s[0]) then
      var r := TrimStart(s[1..]);
      assert s[..|s| - |r|] == [s[0]] + s[1..][..|s| - 1 - |r|];
      r
    else s
  }

  /** `s.rstrip()`. */
  function TrimEnd(s: string): (r: string)
    ensures |r| <= |s| && r == s[..|r|]
    ensures AllSpace(s[|r|..])
    ensures r == [] || !IsSpace(r[|r| - 1])
  {
    if s != [] && IsSpace(s[|s| - 1]) then
      var r := TrimEnd(s[..|s| - 1]);
      assert s[|r|..] == s[..|s| - 1][|r|..] + [s[|s| - 1]];
      r
    else s
  }

  /** `s.strip()`: `s` without its leading and trailing whitespace. */
  function Strip(s: string): (r: string)
    ensures |r| <= |s|
    ensures r == [] || (!IsSpace(r[0]) && !IsSpace(r[|r| - 1]))
  {
    var t := TrimStart(s);
    var r := TrimEnd(t);
    assert r != [] ==> r[0] == t[0];
    r
  }

  /** What stripping removes is whitespace on both sides of the result. */
  lemma {:induction false} StripIsMiddle(s: string)
    ensures exists i :: (0 <= i <= |s| - |Strip(s)| && s[i..i + |Strip(s)|] == Strip(s) &&
      AllSpace(s[..i]) && AllSpace(s[i + |Strip(s)|..]))
  {
    var t := TrimStart(s);
    var r := TrimEnd(t);
    assert Strip(s) == r;
    var i := |s| - |t|;
    MiddleOf(s, t, r, i);
    assert 0 <= i <= |s| - |r| && s[i..i + |r|] == r && AllSpace(s[..i]) && AllSpace(s[i + |r|..]);
  }

  /** A suffix `t` of `s` after whitespace, and a prefix `r` of `t` before
      whitespace: `r` lies in `s` with whitespace either side. */
  lemma {:induction false} MiddleOf(s: string, t: string, r: string, i: int)
    requires i == |s| - |t| && 0 <= i && t == s[i..] && AllSpace(s[..i])
    requires |r| <= |t| && r == t[..|r|] && AllSpace(t[|r|..])
    ensures 0 <= i <= |s| - |r| && s[i..i + |r|] == r
    ensures AllSpace(s[..i]) && AllSpace(s[i + |r|..])
  {
    assert s[i..i + |r|] == s[i..][..|r|];
    assert s[i + |r|..] == s[i..][|r|..];
  }

  /** Stripping twice strips nothing more. */
  lemma {:induction false} StripIdempotent(s: string)
    ensures Strip(Strip(s)) == Strip(s)
  {
    var r := Strip(s);
    if r != [] {
      assert TrimStart(r) == r;
      assert TrimEnd(r) == r;
    }
  }

  // ---------------------------------------------------------------------------
  // str.splitlines

  /** `s.splitlines()` with '\n' as the only line break: no lines for the empty
      string, and no empty last line after a final line break. */
  function Lines(s: string): (r: seq<string>)
    ensures forall i :: 0 <= i < |r| ==> '\n' !in r[i]
  {
    if s == [] then []
    else
      var ps := Split(s, "\n");
      SplitNewlineFree(s);
      if s[|s| - 1] == '\n' then ps[..|ps| - 1] else ps
  }

  lemma {:induction false} SplitNewlineFree(s: string)
    ensures forall i :: 0 <= i < |Split(s, "\n")| ==> '\n' !in Split(s, "\n")[i]
  {
    var ps := Split(s, "\n");
    forall i | 0 <= i < |ps| ensures '\n' !in ps[i] {
      SplitPiecesFreeOf(s, "\n", i);
      NewlineFree(ps[i]);
    }
  }

  lemma {:induction false} NewlineFree(s: string)
    requires FreeOf(s, "\n")
    ensures '\n' !in s
  {
    if '\n' in s {
      var k :| 0 <= k < |s| && s[k] == '\n';
      assert OccursAt(s, "\n", k);
    }
  }

  /** The lines joined by line breaks give back the text, without the final
      line break when there is one; a non-empty text has at least one line. */
  lemma {:induction false} LinesJoin(s: string)
    ensures s == [] ==> Lines(s) == []
    ensures s != [] ==> |Lines(s)| >= 1
    ensures s != [] ==> Join(Lines(s), "\n") == (if s[|s| - 1] == '\n' then s[..|s| - 1] else s)
  {
    if s != [] {
      var ps := Split(s, "\n");
      SplitJoin(s, "\n");
      SplitNewlineFree(s);
      if s[|s| - 1] == '\n' {
        assert |ps| >= 2 by { assert '\n' in s; }
        var init, last := ps[..|ps| - 1], ps[|ps| - 1];
        assert ps == init + [last];
        JoinSnoc(init, last, "\n");
        assert '\n' !in last;
        assert last == [] by { assert s == Join(init, "\n") + "\n" + last; }
        assert s == Join(init, "\n") + "\n";
      }
    }
  }

  /** Joining one more piece at the end. */
  lemma {:induction false} JoinSnoc(ps: seq<string>, p: string, d: string)
    requires |ps| >= 1
    ensures Join(ps + [p], d) == Join(ps, d) + d + p
    decreases |ps|
  {
    if |ps| == 1 {
      assert ps + [p] == [ps[0]] + [p];
      JoinCons(ps[0], [p], d);
    } else {
      JoinSnoc(ps[1..], p, d);
      assert ps + [p] == [ps[0]] + (ps[1..] + [p]);
      JoinCons(ps[0], ps[1..] + [p], d);
      JoinCons(ps[0], ps[1..], d);
      assert [ps[0]] + ps[1..] == ps;
    }
  }

  /** Lines without line breaks, joined by line breaks, are cut back into
      exactly those lines, when the last one is not empty. */
  lemma {:induction false} LinesOfJoin(ls: seq<string>)
    requires ls != [] && ls[|ls| - 1] != []
    requires forall i :: 0 <= i < |ls| ==> '\n' !in ls[i]
    ensures Lines(Join(ls, "\n")) == ls
  {
    forall i | 0 <= i < |ls| ensures FreeBelow(ls[i] + "\n", "\n", |ls[i]|) && FreeOf(ls[i], "\n") {
      NoNewlinePiece(ls[i]);
    }
    SplitUnique(ls, "\n");
    var s := Join(ls, "\n");
    JoinEndsWithLast(ls, "\n");
    assert s[|s| - 1] == ls[|ls| - 1][|ls[|ls| - 1]| - 1];
  }

  /** A joined text ends with its last piece. */
  lemma {:induction false} JoinEndsWithLast(ps: seq<string>, d: string)
    requires ps != []
    ensures |ps[|ps| - 1]| <= |Join(ps, d)|
    ensures Join(ps, d)[|Join(ps, d)| - |ps[|ps| - 1]|..] == ps[|ps| - 1]
  {
    if |ps| > 1 {
      var init := ps[..|ps| - 1];
      assert ps == init + [ps[|ps| - 1]];
      JoinSnoc(init, ps[|ps| - 1], d);
    }
  }

  /** A text without a line break holds no occurrence of "\n", even with one
      appended. */
  lemma {:induction false} NoNewlinePiece(p: string)
    requires '\n' !in p
    ensures FreeBelow(p + "\n", "\n", |p|) && FreeOf(p, "\n")
  {
    forall k | 0 <= k < |p| ensures !OccursAt(p + "\n", "\n", k) && !OccursAt(p, "\n", k) {
      assert (p + "\n")[k..k + 1] == [p[k]] == p[k..k + 1];
      assert [p[k]] != "\n";
    }
  }

  // ---------------------------------------------------------------------------
  // Decimal formatting, as in an f-string `{n}`

  function Digit(n: nat): char
    requires n < 10
  {
    ('0' as int + n) as char
  }

  function DigitValue(c: char): nat {
    if '0' <= c <= '9' then (c as int - '0' as int) as nat else 0
  }

  /** `str(n)`: the decimal digits of `n`, without leading zeros. */
  function Decimal(n: nat): (r: string)
    ensures 1 <= |r|
    ensures forall k :: 0 <= k < |r| ==> '0' <= r[k] <= '9'
    ensures r[0] == '0' ==> n == 0
    decreases n
  {
    if n < 10 then [Digit(n)] else Decimal(n / 10) + [Digit(n % 10)]
  }

  /** The number that a string of decimal digits stands for. */
  function DecimalValue(s: string): nat
    decreases |s|
  {
    if s == [] then 0 else 10 * DecimalValue(s[..|s| - 1]) + DigitValue(s[|s| - 1])
  }

  /** Reading back the digits gives the number, so distinct numbers have distinct digits. */
  lemma {:induction false} DecimalRoundTrip(n: nat)
    ensures DecimalValue(Decimal(n)) == n
    decreases n
  {
    if n >= 10 {
      var s := Decimal(n);
      DecimalRoundTrip(n / 10);
      assert s[..|s| - 1] == Decimal(n / 10);
      assert DigitValue(s[|s| - 1]) == n % 10;
      assert 10 * (n / 10) + n % 10 == n;
    }
  }
}

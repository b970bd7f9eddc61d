/**
 * The parts of Rust's `str` API that the parser and the acknowledgment
 * builders rely on: `starts_with`, `contains`, `split` on a character and on
 * the two-character pattern "\r\n", and the decimal `Display` of a `usize`.
 * Every split is defined by "first occurrence, then the rest", exactly as
 * Rust's left-to-right, non-overlapping search produces its pieces.
 */
module Text {
  import opened Wrappers

  predicate StartsWith(s: string, prefix: string) {
    |prefix| <= |s| && s[..|prefix|] == prefix
  }

  /** Position of the first `c` in `s`, or `|s|` when there is none. */
  function IndexOf(s: string, c: char): (r: nat)
    ensures r <= |s|
    ensures c !in s[..r]
    ensures r < |s| ==> s[r] == c
  {
    if |s| == 0 then 0
    else if s[0] == c then 0
    else
      var r' := IndexOf(s[1..], c);
      assert s[1..][..r'] == s[1..r' + 1];
      assert s[..r' + 1] == [s[0]] + s[1..r' + 1];
      1 + r'
  }

  /** Rust's `s.split(c)`: never empty, one piece more than there are `c`s. */
  function Split(s: string, c: char): (r: seq<string>)
    ensures |r| == multiset(s)[c] + 1
    ensures r[0] == s[..IndexOf(s, c)]
    ensures forall k :: 0 <= k < |r| ==> c !in r[k]
    decreases |s|
  {
    var i := IndexOf(s, c);
    if i == |s| then
      assert s[..i] == s;
      [s]
    else
      assert s == s[..i] + [c] + s[i + 1..];
      [s[..i]] + Split(s[i + 1..], c)
  }

  /** Concatenation of `pieces` with `sep` between neighbours (Rust's `join`). */
  function Join(pieces: seq<string>, sep: string): string {
    if |pieces| == 0 then ""
    else if |pieces| == 1 then pieces[0]
    else pieces[0] + sep + Join(pieces[1..], sep)
  }

  /** A piece free of the separator splits off as the first piece. */
  lemma SplitCons(a: string, c: char, b: string)
    requires c !in a
    ensures Split(a + [c] + b, c) == [a] + Split(b, c)
  {
    var s := a + [c] + b;
    var i := IndexOf(s, c);
    assert s[|a|] == c;
    assert s[..|a|] == a;
    assert forall k :: 0 <= k < |a| ==> s[k] == a[k];
    assert i == |a|;
    assert s[i + 1..] == b;
  }

  /** Text with a single separator splits into the two sides. */
  lemma SplitPair(a: string, c: char, b: string)
    requires c !in a && c !in b
    ensures Split(a + [c] + b, c) == [a, b]
  {
    SplitCons(a, c, b);
    assert IndexOf(b, c) == |b|;
  }

  /** Joining the pieces of a split gives back the text. */
  lemma {:induction false} JoinSplit(s: string, c: char)
    ensures Join(Split(s, c), [c]) == s
    decreases |s|
  {
    var i := IndexOf(s, c);
    if i < |s| {
      SplitPoint(s, i);
      JoinSplit(s[i + 1..], c);
      JoinCons(s[..i], Split(s[i + 1..], c), [c]);
    } else {
      assert Split(s, c) == [s];
    }
  }

  lemma SplitPoint(s: string, i: nat)
    requires i < |s|
    ensures s == s[..i] + [s[i]] + s[i + 1..]
  {
  }

  /** Splitting a join of separator-free pieces gives back the pieces. */
  lemma {:induction false} SplitJoin(pieces: seq<string>, c: char)
    requires |pieces| >= 1
    requires forall k :: 0 <= k < |pieces| ==> c !in pieces[k]
    ensures Split(Join(pieces, [c]), c) == pieces
  {
    if |pieces| > 1 {
      var rest := Join(pieces[1..], [c]);
      SplitJoin(pieces[1..], c);
      SplitCons(pieces[0], c, rest);
      assert Join(pieces, [c]) == pieces[0] + [c] + rest;
      assert [pieces[0]] + pieces[1..] == pieces;
    } else {
      assert Join(pieces, [c]) == pieces[0];
      assert IndexOf(pieces[0], c) == |pieces[0]|;
    }
  }

  /** A character that occurs in no piece and not in the separator is absent from the join. */
  lemma {:induction false} JoinAvoids(pieces: seq<string>, sep: string, x: char)
    requires x !in sep
    requires forall k :: 0 <= k < |pieces| ==> x !in pieces[k]
    ensures x !in Join(pieces, sep)
  {
    if |pieces| > 1 {
      JoinAvoids(pieces[1..], sep, x);
    }
  }

  // ---------------------------------------------------------------------
  // Splitting on the two-character pattern "\r\n"

  predicate CrlfAt(s: string, i: nat) {
    i + 1 < |s| && s[i] == '\r' && s[i + 1] == '\n'
  }

  /** Rust's `s.contains("\r\n")`. */
  predicate ContainsCrlf(s: string) {
    exists i: nat | i < |s| :: CrlfAt(s, i)
  }

  /** Position of the first "\r\n" in `s`. */
  function FindCrlf(s: string): (r: Option<nat>)
    ensures r.Some? ==> CrlfAt(s, r.value)
    ensures r.Some? ==> forall j: nat :: j < r.value ==> !CrlfAt(s, j)
    ensures r.None? <==> !ContainsCrlf(s)
    decreases |s|
  {
    if |s| < 2 then None
    else if s[0] == '\r' && s[1] == '\n' then
      assert CrlfAt(s, 0);
      Some(0)
    else
      var r' := FindCrlf(s[1..]);
      assert forall j: nat :: 0 < j ==> (CrlfAt(s, j) <==> CrlfAt(s[1..], j - 1));
      assert !CrlfAt(s, 0);
      match r'
      case None => None
      case Some(i) =>
        assert CrlfAt(s, i + 1);
        Some(i + 1)
  }

  /** Rust's `s.split("\r\n")`. */
  function SplitCrlf(s: string): (r: seq<string>)
    ensures |r| >= 1
    decreases |s|
  {
    match FindCrlf(s)
    case None => [s]
    case Some(i) => [s[..i]] + SplitCrlf(s[i + 2..])
  }

  /** No piece of a split on "\r\n" contains "\r\n". */
  lemma {:induction false} SplitCrlfPieces(s: string)
    ensures forall k :: 0 <= k < |SplitCrlf(s)| ==> !ContainsCrlf(SplitCrlf(s)[k])
    decreases |s|
  {
    match FindCrlf(s)
    case None =>
      assert SplitCrlf(s) == [s];
    case Some(i) =>
      var tail := SplitCrlf(s[i + 2..]);
      SplitCrlfPieces(s[i + 2..]);
      assert SplitCrlf(s) == [s[..i]] + tail;
      assert forall j: nat :: CrlfAt(s[..i], j) ==> CrlfAt(s, j);
      assert !ContainsCrlf(s[..i]);
  }

  lemma {:induction false} JoinSplitCrlf(s: string)
    ensures Join(SplitCrlf(s), "\r\n") == s
    decreases |s|
  {
    match FindCrlf(s)
    case None =>
    case Some(i) =>
      CrlfSplitPoint(s, i);
      JoinSplitCrlf(s[i + 2..]);
      JoinCons(s[..i], SplitCrlf(s[i + 2..]), "\r\n");
  }

  lemma CrlfSplitPoint(s: string, i: nat)
    requires CrlfAt(s, i)
    ensures s == s[..i] + "\r\n" + s[i + 2..]
  {
    assert s[i..i + 2] == "\r\n";
    assert s == s[..i] + s[i..i + 2] + s[i + 2..];
  }

  /** Joining a piece in front of at least one other puts the separator between them. */
  lemma JoinCons(a: string, pieces: seq<string>, sep: string)
    requires |pieces| >= 1
    ensures Join([a] + pieces, sep) == a + sep + Join(pieces, sep)
  {
    assert ([a] + pieces)[1..] == pieces;
  }

  /**
   * In `a + b`, where `a` holds no line feed and does not end in a carriage
   * return, the first "\r\n" lies in `b`.
   */
  lemma SplitCrlfHead(a: string, b: string)
    requires '\n' !in a
    requires |a| == 0 || a[|a| - 1] != '\r'
    ensures SplitCrlf(a + b)[0] == a + SplitCrlf(b)[0]
  {
    var s := a + b;
    assert forall j: nat :: j < |a| ==> !CrlfAt(s, j) by {
      forall j: nat | j < |a| ensures !CrlfAt(s, j) {
        if j + 1 < |a| {
          assert s[j + 1] == a[j + 1];
        } else if j + 1 == |a| {
          assert s[j] == a[|a| - 1];
        }
      }
    }
    assert forall j: nat :: j >= |a| ==> (CrlfAt(s, j) <==> CrlfAt(b, j - |a|));
    match FindCrlf(b)
    case None =>
      assert !ContainsCrlf(s);
    case Some(j) =>
      assert CrlfAt(s, j + |a|);
      var i := FindCrlf(s).value;
      assert i == j + |a|;
      assert s[..i] == a + b[..j];
  }

  /** The text before a "\r\n" that follows a line without a line feed is the first piece. */
  lemma SplitCrlfCons(a: string, b: string)
    requires '\n' !in a
    ensures SplitCrlf(a + "\r\n" + b) == [a] + SplitCrlf(b)
  {
    var s := a + "\r\n" + b;
    assert CrlfAt(s, |a|);
    assert forall j: nat :: j < |a| ==> !CrlfAt(s, j) by {
      forall j: nat | j < |a| ensures !CrlfAt(s, j) {
        if j + 1 < |a| {
          assert s[j + 1] == a[j + 1];
        }
      }
    }
    var i := FindCrlf(s).value;
    assert i == |a|;
    assert s[..|a|] == a;
    assert s[|a| + 2..] == b;
  }

  // ---------------------------------------------------------------------
  // Decimal numerals (Rust's `format!("{}", n)` for an unsigned integer)

  predicate IsDigits(s: string) {
    forall k :: 0 <= k < |s| ==> '0' <= s[k] <= '9'
  }

  function DigitChar(d: nat): (c: char)
    requires d < 10
    ensures '0' <= c <= '9' && c as int - '0' as int == d
  {
    ('0' as int + d) as char
  }

  /** Decimal text of `n`, without leading zeros. */
  function NatToString(n: nat): (s: string)
    ensures |s| >= 1 && IsDigits(s)
    ensures n > 0 ==> s[0] != '0'
    ensures n == 0 <==> s == "0"
  {
    if n < 10 then [DigitChar(n)]
    else NatToString(n / 10) + [DigitChar(n % 10)]
  }

  /** The number a string of decimal digits denotes. */
  function DecimalValue(s: string): nat
    requires IsDigits(s)
  {
    if |s| == 0 then 0
    else 10 * DecimalValue(s[..|s| - 1]) + (s[|s| - 1] as int - '0' as int)
  }

  lemma {:induction false} DecimalRoundTrip(n: nat)
    ensures DecimalValue(NatToString(n)) == n
  {
    if n >= 10 {
      DecimalRoundTrip(n / 10);
      var s := NatToString(n);
      assert s[..|s| - 1] == NatToString(n / 10);
    }
  }

  /** Different numbers print differently. */
  lemma NatToStringInjective(m: nat, n: nat)
    requires m != n
    ensures NatToString(m) != NatToString(n)
  {
    DecimalRoundTrip(m);
    DecimalRoundTrip(n);
  }
}

/** String and sequence helpers shared by the models: searching, splitting on
    a character, joining with a delimiter, counting occurrences and ordering,
    each with the properties the callers rely on. */
module Strings {

  /** `p` occurs in `s` at position `k`. */
  predicate MatchAt(s: string, p: string, k: int) {
    0 <= k && k + |p| <= |s| && s[k..k + |p|] == p
  }

  /** The first position at or after `from` where the non-empty `p` occurs,
      or -1 (`std::string::find`, `String.prototype.indexOf`). */
  function FindFrom(s: string, p: string, from: nat): (r: int)
    requires |p| > 0
    ensures r == -1 || (from <= r && MatchAt(s, p, r))
    ensures r == -1 ==> forall k :: from <= k ==> !MatchAt(s, p, k)
    ensures r != -1 ==> forall k :: from <= k < r ==> !MatchAt(s, p, k)
    decreases |s| - from
  {
    if from + |p| > |s| then -1
    else if s[from..from + |p|] == p then from
    else FindFrom(s, p, from + 1)
  }

  /** Searching for one character finds its first position at or after `from`. */
  lemma {:induction false} FindCharAt(s: string, c: char, from: nat, k: nat)
    requires from <= k < |s| && s[k] == c
    requires forall j :: from <= j < k ==> s[j] != c
    ensures FindFrom(s, [c], from) == k
    decreases k - from
  {
    if from < k {
      assert s[from..from + 1][0] == s[from];
      FindCharAt(s, c, from + 1, k);
    } else {
      assert s[k..k + 1] == [c];
    }
  }

  /** Searching for a character that does not occur after `from` fails. */
  lemma {:induction false} FindCharAbsent(s: string, c: char, from: nat)
    requires forall j :: from <= j < |s| ==> s[j] != c
    ensures FindFrom(s, [c], from) == -1
    decreases |s| - from
  {
    if from + 1 <= |s| {
      assert s[from..from + 1][0] == s[from];
      FindCharAbsent(s, c, from + 1);
    }
  }

  /** The last position of `c` in `s`, or -1 (`rfind`, `find_last_of`). */
  function LastIndexOf(s: string, c: char): (r: int)
    ensures -1 <= r < |s|
    ensures r >= 0 ==> s[r] == c
    ensures forall k :: r < k < |s| ==> s[k] != c
  {
    if |s| == 0 then -1
    else if s[|s| - 1] == c then |s| - 1
    else LastIndexOf(s[..|s| - 1], c)
  }

  /** The first position of `c` in `s`, or -1 (`find_first_of`). */
  function FirstIndexOf(s: string, c: char): (r: int)
    ensures -1 <= r < |s|
    ensures r >= 0 ==> s[r] == c
    ensures forall k :: 0 <= k < |s| && (r == -1 || k < r) ==> s[k] != c
  {
    if |s| == 0 then -1
    else if s[0] == c then 0
    else var r := FirstIndexOf(s[1..], c); if r == -1 then -1 else r + 1
  }

  /** A position holding `c` with no `c` before it is the first one. */
  lemma {:induction false} FirstIndexAt(s: string, c: char, k: nat)
    requires k < |s| && s[k] == c && forall j :: 0 <= j < k ==> s[j] != c
    ensures FirstIndexOf(s, c) == k
  {
    if k > 0 {
      FirstIndexAt(s[1..], c, k - 1);
    }
  }

  /** A position holding `c` with no `c` after it is the last one. */
  lemma LastIndexAt(s: string, c: char, k: nat)
    requires k < |s| && s[k] == c && forall j :: k < j < |s| ==> s[j] != c
    ensures LastIndexOf(s, c) == k
  {
  }

  /** Number of occurrences of `c` in `s`. */
  function Count(s: string, c: char): nat {
    if |s| == 0 then 0 else (if s[0] == c then 1 else 0) + Count(s[1..], c)
  }

  /** `s` with every occurrence of `c` removed (`replace(/c/g, "")`). */
  function RemoveAll(s: string, c: char): (r: string)
    ensures c !in r
    ensures |r| == |s| - Count(s, c)
  {
    if |s| == 0 then "" else (if s[0] == c then "" else [s[0]]) + RemoveAll(s[1..], c)
  }

  /** The elements of `parts` separated by `delimiter`, with no trailing
      delimiter; the empty list joins to "". */
  function Join(parts: seq<string>, delimiter: string): string {
    if |parts| == 0 then ""
    else if |parts| == 1 then parts[0]
    else parts[0] + delimiter + Join(parts[1..], delimiter)
  }

  /** The parts of `h`, a separator `c` and `t` written one after the other. */
  lemma SeparatedParts(h: string, c: char, t: string)
    ensures |(h + [c]) + t| == |h| + 1 + |t|
    ensures ((h + [c]) + t)[..|h|] == h
    ensures ((h + [c]) + t)[|h|] == c
    ensures ((h + [c]) + t)[|h| + 1..] == t
  {
    var x := (h + [c]) + t;
    assert x[..|h|] == h;
    assert x[|h| + 1..] == t;
  }

  /** The pieces written one after the other. */
  function Concat(pieces: seq<string>): string {
    if |pieces| == 0 then "" else pieces[0] + Concat(pieces[1..])
  }

  /** `buffer` after appending each of `pieces` in turn. */
  function AppendEach(buffer: string, pieces: seq<string>): string
    decreases |pieces|
  {
    if |pieces| == 0 then buffer else AppendEach(buffer + pieces[0], pieces[1..])
  }

  lemma ConcatCons(piece: string, pieces: seq<string>)
    ensures Concat([piece] + pieces) == piece + Concat(pieces)
  {
    assert ([piece] + pieces)[1..] == pieces;
  }

  lemma ConcatOne(piece: string)
    ensures Concat([piece]) == piece
  {
    assert Concat([piece]) == piece + "";
  }

  lemma AppendEachCons(buffer: string, piece: string, pieces: seq<string>)
    ensures AppendEach(buffer, [piece] + pieces) == AppendEach(buffer + piece, pieces)
  {
    assert ([piece] + pieces)[1..] == pieces;
  }

  /** Appending the pieces one by one appends their concatenation. */
  lemma {:induction false} AppendEachConcat(buffer: string, pieces: seq<string>)
    ensures AppendEach(buffer, pieces) == buffer + Concat(pieces)
    decreases |pieces|
  {
    if |pieces| == 0 {
      assert buffer + "" == buffer;
    } else {
      AppendEachConcat(buffer + pieces[0], pieces[1..]);
      assert (buffer + pieces[0]) + Concat(pieces[1..]) == buffer + (pieces[0] + Concat(pieces[1..]));
    }
  }

  /** `s` cut at every occurrence of `c` (`split`); never empty. */
  function Split(s: string, c: char): (r: seq<string>)
    ensures |r| >= 1
  {
    var k := FirstIndexOf(s, c);
    if k == -1 then [s] else [s[..k]] + Split(s[k + 1..], c)
  }

  lemma {:induction false} CountConcat(a: string, b: string, c: char)
    ensures Count(a + b, c) == Count(a, c) + Count(b, c)
  {
    if |a| == 0 {
      assert a + b == b;
    } else {
      assert (a + b)[1..] == a[1..] + b;
      CountConcat(a[1..], b, c);
    }
  }

  lemma {:induction false} CountAbsent(s: string, c: char)
    requires c !in s
    ensures Count(s, c) == 0
  {
    if |s| > 0 {
      assert s[0] in s;
      assert forall x :: x in s[1..] ==> x in s;
      CountAbsent(s[1..], c);
    }
  }

  /** Splitting at the first separator: the head is the text before it. */
  lemma SplitStep(s: string, c: char, k: int)
    requires k == FirstIndexOf(s, c) && k != -1
    ensures Split(s, c) == [s[..k]] + Split(s[k + 1..], c)
    ensures s == s[..k] + [c] + s[k + 1..]
    ensures c !in s[..k]
  {
  }

  /** Splitting yields one more part than there are separators. */
  lemma {:induction false} SplitCount(s: string, c: char)
    ensures |Split(s, c)| == Count(s, c) + 1
    decreases |s|
  {
    var k := FirstIndexOf(s, c);
    if k == -1 {
      CountAbsent(s, c);
    } else {
      SplitStep(s, c, k);
      SplitCount(s[k + 1..], c);
      CountConcat(s[..k] + [c], s[k + 1..], c);
      CountConcat(s[..k], [c], c);
      CountAbsent(s[..k], c);
      assert Count([c], c) == 1 by { assert [c][1..] == []; }
    }
  }

  /** No part of a split contains the separator. */
  lemma {:induction false} SplitParts(s: string, c: char)
    ensures forall i :: 0 <= i < |Split(s, c)| ==> c !in Split(s, c)[i]
    decreases |s|
  {
    var k := FirstIndexOf(s, c);
    if k != -1 {
      SplitStep(s, c, k);
      SplitParts(s[k + 1..], c);
    }
  }

  /** Joining the parts of a split with the separator gives `s` back. */
  lemma {:induction false} SplitJoin(s: string, c: char)
    ensures Join(Split(s, c), [c]) == s
    decreases |s|
  {
    var k := FirstIndexOf(s, c);
    if k != -1 {
      SplitStep(s, c, k);
      SplitJoin(s[k + 1..], c);
      var parts := Split(s, c);
      assert parts[1..] == Split(s[k + 1..], c);
    }
  }

  /** Splitting text whose first separator follows `h`. */
  lemma SplitAtFirst(h: string, c: char, t: string)
    requires c !in h
    ensures Split((h + [c]) + t, c) == [h] + Split(t, c)
  {
    SeparatedParts(h, c, t);
    var s := (h + [c]) + t;
    forall j | 0 <= j < |h|
      ensures s[j] != c
    {
      assert s[j] == s[..|h|][j];
      assert h[j] in h;
    }
    FirstIndexAt(s, c, |h|);
  }

  /** Joining parts that do not contain `c` with `c` and splitting again
      gives the parts back. */
  lemma {:induction false} JoinSplit(parts: seq<string>, c: char)
    requires |parts| >= 1
    requires forall i :: 0 <= i < |parts| ==> c !in parts[i]
    ensures Split(Join(parts, [c]), c) == parts
  {
    if |parts| == 1 {
      assert c !in parts[0];
      assert FirstIndexOf(parts[0], c) == -1;
    } else {
      var rest := Join(parts[1..], [c]);
      assert Join(parts, [c]) == (parts[0] + [c]) + rest;
      assert c !in parts[0];
      SplitAtFirst(parts[0], c, rest);
      JoinSplit(parts[1..], c);
      assert parts == [parts[0]] + parts[1..];
    }
  }

  // ----- Decimal numbers -----

  predicate IsDigit(c: char) { '0' <= c <= '9' }

  predicate IsLetter(c: char) { 'a' <= c <= 'z' || 'A' <= c <= 'Z' }

  predicate AllDigits(s: string) { forall i :: 0 <= i < |s| ==> IsDigit(s[i]) }

  predicate NoLetters(s: string) { forall i :: 0 <= i < |s| ==> !IsLetter(s[i]) }

  /** The value of a string of decimal digits; "" is 0. */
  function DigitsValue(s: string): nat
    requires AllDigits(s)
  {
    if |s| == 0 then 0 else 10 * DigitsValue(s[..|s| - 1]) + (s[|s| - 1] as int - '0' as int)
  }

  /** The decimal digits of `n`, without leading zeros (`std::to_string`,
      a template literal). */
  function NatToString(n: nat): (r: string)
    ensures |r| >= 1 && AllDigits(r)
    ensures DigitsValue(r) == n
    ensures r[0] != '0' || n == 0
  {
    var digit := [('0' as int + n % 10) as char];
    if n < 10 then digit
    else
      var prefix := NatToString(n / 10);
      assert (prefix + digit)[..|prefix + digit| - 1] == prefix;
      prefix + digit
  }

  // ----- Occurrences -----

  /** The number of occurrences of `x` in `s`. */
  function Occurrences(s: seq<string>, x: string): nat {
    if |s| == 0 then 0 else Occurrences(s[..|s| - 1], x) + (if s[|s| - 1] == x then 1 else 0)
  }

  /** More than one occurrence means two distinct positions hold `x`. */
  lemma {:induction false} OccurrencesAboveOne(s: seq<string>, x: string)
    ensures Occurrences(s, x) > 1 <==> exists i, j :: 0 <= i < j < |s| && s[i] == x && s[j] == x
  {
    if |s| > 0 {
      var init := s[..|s| - 1];
      OccurrencesAboveOne(init, x);
      OccurrencesPositive(init, x);
      if Occurrences(s, x) > 1 {
        if s[|s| - 1] == x && Occurrences(init, x) == 1 {
          var i :| 0 <= i < |init| && init[i] == x;
          assert s[i] == x && s[|s| - 1] == x;
        } else {
          var i, j :| 0 <= i < j < |init| && init[i] == x && init[j] == x;
          assert s[i] == x && s[j] == x;
        }
      }
      if exists i, j :: 0 <= i < j < |s| && s[i] == x && s[j] == x {
        var i, j :| 0 <= i < j < |s| && s[i] == x && s[j] == x;
        if j < |s| - 1 {
          assert init[i] == x && init[j] == x;
        } else {
          assert init[i] == x;
        }
      }
    }
  }

  lemma {:induction false} OccurrencesPositive(s: seq<string>, x: string)
    ensures Occurrences(s, x) > 0 <==> exists i :: 0 <= i < |s| && s[i] == x
  {
    if |s| > 0 {
      var init := s[..|s| - 1];
      OccurrencesPositive(init, x);
      if exists i :: 0 <= i < |s| && s[i] == x {
        var i :| 0 <= i < |s| && s[i] == x;
        if i < |s| - 1 {
          assert init[i] == x;
        }
      }
      if exists i :: 0 <= i < |init| && init[i] == x {
        var i :| 0 <= i < |init| && init[i] == x;
        assert s[i] == x;
      }
    }
  }

  // ----- Searching and ordering sequences -----

  /** The first position of `x` in `s`, or -1. */
  function IndexOf(s: seq<string>, x: string): (r: int)
    ensures -1 <= r < |s|
    ensures r >= 0 ==> s[r] == x
  {
    if |s| == 0 then -1
    else if s[0] == x then 0
    else
      var k := IndexOf(s[1..], x);
      if k == -1 then -1 else k + 1
  }

  /** `IndexOf` finds the first position holding `x`, and -1 exactly when
      `x` is absent. */
  lemma {:induction false} IndexOfFirst(s: seq<string>, x: string)
    ensures IndexOf(s, x) >= 0 ==> forall k :: 0 <= k < IndexOf(s, x) ==> s[k] != x
    ensures IndexOf(s, x) == -1 <==> x !in s
  {
    if |s| > 0 && s[0] != x {
      IndexOfFirst(s[1..], x);
      assert s == [s[0]] + s[1..];
    }
  }

  predicate NonDecreasing(xs: seq<int>) {
    forall j :: 0 < j < |xs| ==> xs[j - 1] <= xs[j]
  }

  /** No step down between neighbours means no pair out of order. */
  lemma {:induction false} NonDecreasingIsSorted(xs: seq<int>)
    ensures NonDecreasing(xs) <==> forall i, j :: 0 <= i < j < |xs| ==> xs[i] <= xs[j]
  {
    if |xs| > 1 && NonDecreasing(xs) {
      var init := xs[..|xs| - 1];
      assert NonDecreasing(init);
      NonDecreasingIsSorted(init);
      forall i, j | 0 <= i < j < |xs|
        ensures xs[i] <= xs[j]
      {
        if j < |xs| - 1 {
          assert init[i] <= init[j];
        } else if i < j - 1 {
          assert init[i] <= init[j - 1];
        }
      }
    }
  }

  lemma NonDecreasingSnoc(xs: seq<int>, k: nat)
    requires k < |xs| && NonDecreasing(xs[..k]) && (k == 0 || xs[k - 1] <= xs[k])
    ensures NonDecreasing(xs[..k + 1])
  {
    assert forall j :: 0 < j < k ==> xs[..k + 1][j] == xs[..k][j];
  }

  // ----- C++ size arithmetic -----

  function Min(x: nat, y: nat): nat { if x <= y then x else y }

  /** 2^64: `std::size_t` and `std::uint64_t` wrap around modulo this. */
  const Uint64Modulus: nat := 0x1_0000_0000_0000_0000

  /** An integer taken as a 64-bit unsigned value (`size_t` arithmetic). */
  function Wrap64(x: int): (r: int)
    ensures 0 <= r
    ensures r < Uint64Modulus
    ensures 0 <= x < Uint64Modulus ==> r == x
    ensures x < 0 && 0 <= x + Uint64Modulus ==> r == x + Uint64Modulus
    ensures Uint64Modulus <= x < 2 * Uint64Modulus ==> r == x - Uint64Modulus
  {
    x % 0x1_0000_0000_0000_0000
  }

  /** `std::string::substr(pos, count)` for `pos <= size()`: the count is
      cut at the end of the text. */
  function Substr(s: string, pos: nat, count: nat): string
    requires pos <= |s|
  {
    s[pos..pos + Min(count, |s| - pos)]
  }
}

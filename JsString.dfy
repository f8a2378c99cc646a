/** The few `String.prototype` operations the loader relies on, with JavaScript's
    semantics: `slice` with negative and out-of-range indices, `indexOf`,
    `lastIndexOf`, `split` followed by `pop`, and `toLowerCase` (on ASCII). */
module JsString {

  /** How `slice` reads one of its arguments: a negative index counts from the
      end, and the result is clamped to `[0, n]`. */
  function RelativeIndex(i: int, n: nat): (k: nat)
    ensures k <= n
    ensures 0 <= i <= n ==> k == i
    ensures -(n as int) <= i < 0 ==> k == n + i
  {
    if i < 0 then (if n + i < 0 then 0 else n + i)
    else if i > n then n
    else i
  }

  /** `s.slice(start, end)`: empty when the normalised end is not after the
      normalised start. */
  function Slice(s: string, start: int, end: int): (r: string)
    ensures |r| <= |s|
  {
    var from := RelativeIndex(start, |s|);
    var to := RelativeIndex(end, |s|);
    if from < to then s[from..to] else ""
  }

  /** `s.slice(start)`. */
  function SliceFrom(s: string, start: int): (r: string)
    ensures |r| <= |s|
  {
    Slice(s, start, |s|)
  }

  /** `s.slice(-n)` is the last `n` characters, or all of `s` when it is shorter;
      `s.slice(-0)` is all of `s`. */
  lemma SliceFromEnd(s: string, n: nat)
    ensures 0 < n <= |s| ==> SliceFrom(s, -(n as int)) == s[|s| - n..]
    ensures n == 0 || |s| < n ==> SliceFrom(s, -(n as int)) == s
  {
  }

  /** `s.slice(0, -n) + s.slice(-n)` gives back `s` for every `s`, including
      strings shorter than `n` (the head is then empty). */
  lemma SliceHeadTail(s: string, n: nat)
    ensures Slice(s, 0, -(n as int)) + SliceFrom(s, -(n as int)) == s
  {
    if n == 0 {
      assert Slice(s, 0, 0) == "";
      assert SliceFrom(s, 0) == s[0..|s|];
    } else if |s| > n {
      assert Slice(s, 0, -(n as int)) == s[..|s| - n];
      assert SliceFrom(s, -(n as int)) == s[|s| - n..];
      assert s[..|s| - n] + s[|s| - n..] == s;
    } else {
      assert Slice(s, 0, -(n as int)) == "";
      SliceFromEnd(s, n);
    }
  }

  /** For a string ending in `tail`, `slice(-|tail|)` is `tail` and
      `slice(0, -|tail|)` is what precedes it. */
  lemma SliceSuffix(head: string, tail: string)
    requires |tail| > 0
    ensures SliceFrom(head + tail, -(|tail| as int)) == tail
    ensures Slice(head + tail, 0, -(|tail| as int)) == head
  {
    var s := head + tail;
    SliceFromEnd(s, |tail|);
    assert s[|head|..] == tail && s[..|head|] == head;
  }

  predicate IsUpper(c: char) {
    'A' <= c <= 'Z'
  }

  function LowerChar(c: char): (d: char)
    ensures !IsUpper(d)
    ensures !IsUpper(c) ==> d == c
  {
    if IsUpper(c) then (c as int + 32) as char else c
  }

  /** `s.toLowerCase()`, restricted to the ASCII letters. */
  function ToLower(s: string): (r: string)
    ensures |r| == |s|
    ensures forall i :: 0 <= i < |s| ==> r[i] == LowerChar(s[i])
    ensures forall i :: 0 <= i < |r| ==> !IsUpper(r[i])
  {
    seq(|s|, i requires 0 <= i < |s| => LowerChar(s[i]))
  }

  lemma ToLowerIdempotent(s: string)
    ensures ToLower(ToLower(s)) == ToLower(s)
  {
    assert forall i :: 0 <= i < |s| ==> ToLower(ToLower(s))[i] == ToLower(s)[i];
  }

  lemma ToLowerConcat(a: string, b: string)
    ensures ToLower(a + b) == ToLower(a) + ToLower(b)
  {
    assert forall i :: 0 <= i < |a + b| ==> ToLower(a + b)[i] == (ToLower(a) + ToLower(b))[i];
  }

  /** `sub` occurs in `s` starting at index `i`. */
  predicate OccursAt(s: string, sub: string, i: nat) {
    i + |sub| <= |s| && s[i..i + |sub|] == sub
  }

  ghost predicate Contains(s: string, sub: string) {
    exists i: nat :: OccursAt(s, sub, i)
  }

  function IndexOfFrom(s: string, sub: string, from: nat): (r: int)
    requires from <= |s|
    ensures r == -1 || (from <= r && OccursAt(s, sub, r))
    ensures r == -1 ==> forall i: nat :: from <= i ==> !OccursAt(s, sub, i)
    ensures r >= 0 ==> forall i: nat :: from <= i < r ==> !OccursAt(s, sub, i)
    decreases |s| - from
  {
    if from + |sub| > |s| then -1
    else if s[from..from + |sub|] == sub then from
    else if from == |s| then -1
    else IndexOfFrom(s, sub, from + 1)
  }

  /** `s.indexOf(sub)`: the first position of `sub` in `s`, or -1 when there is none. */
  function IndexOf(s: string, sub: string): (r: int)
    ensures r == -1 <==> !Contains(s, sub)
    ensures r >= 0 ==> OccursAt(s, sub, r) && forall i: nat :: i < r ==> !OccursAt(s, sub, i)
  {
    IndexOfFrom(s, sub, 0)
  }

  /** `s.lastIndexOf(c)` for a one-character needle. */
  function LastIndexOf(s: string, c: char): (r: int)
    ensures -1 <= r < |s|
    ensures r >= 0 ==> s[r] == c
    ensures forall i :: r < i < |s| ==> s[i] != c
    decreases |s|
  {
    if |s| == 0 then -1
    else if s[|s| - 1] == c then |s| - 1
    else LastIndexOf(s[..|s| - 1], c)
  }

  /** `s.split(c)` for a one-character separator: `"".split(c)` is `[""]`, and a
      separator at either end yields an empty part there. */
  function Split(s: string, c: char): (parts: seq<string>)
    ensures |parts| >= 1
    ensures forall k, i :: 0 <= k < |parts| && 0 <= i < |parts[k]| ==> parts[k][i] != c
    decreases |s|
  {
    if |s| == 0 then [""]
    else if s[|s| - 1] == c then Split(s[..|s| - 1], c) + [""]
    else
      var p := Split(s[..|s| - 1], c);
      p[..|p| - 1] + [p[|p| - 1] + [s[|s| - 1]]]
  }

  /** `s.split(c).pop()` is what follows the last `c`: `s.slice(s.lastIndexOf(c) + 1)`. */
  lemma {:induction false} SplitLastPart(s: string, c: char)
    ensures Split(s, c)[|Split(s, c)| - 1] == s[LastIndexOf(s, c) + 1..]
    decreases |s|
  {
    if |s| == 0 {
    } else if s[|s| - 1] == c {
    } else {
      SplitLastPart(s[..|s| - 1], c);
      var t := s[..|s| - 1];
      assert s[LastIndexOf(s, c) + 1..] == t[LastIndexOf(t, c) + 1..] + [s[|s| - 1]];
    }
  }

  function DigitChar(d: nat): (c: char)
    requires d < 10
    ensures '0' <= c <= '9'
    ensures c as int - '0' as int == d
  {
    "0123456789"[d]
  }

  /** The decimal numeral of `n`, as JavaScript prints a non-negative integer. */
  function NatToString(n: nat): (r: string)
    ensures |r| >= 1
    ensures forall i :: 0 <= i < |r| ==> '0' <= r[i] <= '9'
    decreases n
  {
    if n < 10 then [DigitChar(n)] else NatToString(n / 10) + [DigitChar(n % 10)]
  }

  /** The value of a decimal numeral, most significant digit first. */
  function DecimalValue(r: string): nat
    requires forall i :: 0 <= i < |r| ==> '0' <= r[i] <= '9'
    decreases |r|
  {
    if |r| == 0 then 0 else 10 * DecimalValue(r[..|r| - 1]) + (r[|r| - 1] as int - '0' as int)
  }

  /** Printing a number and reading the numeral back gives the number. */
  lemma {:induction false} NatToStringValue(n: nat)
    ensures DecimalValue(NatToString(n)) == n
    decreases n
  {
    var r := NatToString(n);
    if n >= 10 {
      var q, d := n / 10, n % 10;
      NatToStringValue(q);
      assert r == NatToString(q) + [DigitChar(d)];
      assert r[..|r| - 1] == NatToString(q);
      assert DecimalValue(r) == 10 * DecimalValue(NatToString(q)) + d;
      assert n == 10 * q + d;
    } else {
      assert r == [DigitChar(n)];
      assert r[..0] == [];
    }
  }

  /** A numeral printed for a number starts with `0` only when it is `0`
      itself: printing never adds leading zeros. */
  lemma {:induction false} NatToStringLeadingDigit(n: nat)
    ensures NatToString(n)[0] == '0' <==> n == 0
    decreases n
  {
    if n >= 10 {
      NatToStringLeadingDigit(n / 10);
      assert NatToString(n)[0] == NatToString(n / 10)[0];
    }
  }

  /** Template interpolation `${n}` of an integer. */
  function IntToString(n: int): (r: string)
    ensures |r| >= 1
    ensures n >= 0 ==> (forall i :: 0 <= i < |r| ==> '0' <= r[i] <= '9') && DecimalValue(r) == n
    ensures n < 0 <==> r[0] == '-'
    ensures n >= 0 ==> (r[0] == '0' <==> r == "0")
  {
    NatToStringValue(if n < 0 then -n else n);
    NatToStringLeadingDigit(if n < 0 then -n else n);
    if n < 0 then "-" + NatToString(-n) else NatToString(n)
  }
}

/**
 * The three JavaScript built-ins the habit store is written with, at the
 * level of detail the store depends on: `String.prototype.trim`,
 * `Array.prototype.indexOf` and `Array.prototype.splice(start, 1)`.
 */
module JsBuiltins {

  /** The characters `trim` removes: ECMAScript's WhiteSpace (tab, vertical
      tab, form feed, the byte order mark and every space separator) and
      its LineTerminators (line feed, carriage return, U+2028, U+2029). */
  predicate IsWhitespace(c: char) {
    var n := c as int;
    n == 0x09 || n == 0x0A || n == 0x0B || n == 0x0C || n == 0x0D
    || n == 0x20 || n == 0xA0 || n == 0x1680 || (0x2000 <= n <= 0x200A)
    || n == 0x2028 || n == 0x2029 || n == 0x202F || n == 0x205F
    || n == 0x3000 || n == 0xFEFF
  }

  predicate AllWhitespace(s: string) {
    forall k :: 0 <= k < |s| ==> IsWhitespace(s[k])
  }

  /** `s` without its leading whitespace. */
  function TrimStart(s: string): (r: string)
    ensures |r| <= |s| && r == s[|s| - |r|..]
    ensures AllWhitespace(s[..|s| - |r|])
    ensures r != [] ==> !IsWhitespace(r[0])
    decreases |s|
  {
    if s != [] && IsWhitespace(s[0]) then
      var r := TrimStart(s[1..]);
      assert s[..|s| - |r|] == [s[0]] + s[1..][..|s[1..]| - |r|];
      r
    else s
  }

  /** `s` without its trailing whitespace. */
  function TrimEnd(s: string): (r: string)
    ensures |r| <= |s| && r == s[..|r|]
    ensures AllWhitespace(s[|r|..])
    ensures r != [] ==> !IsWhitespace(r[|r| - 1])
    decreases |s|
  {
    if s != [] && IsWhitespace(s[|s| - 1]) then
      var r := TrimEnd(s[..|s| - 1]);
      assert s[|r|..] == s[..|s| - 1][|r|..] + [s[|s| - 1]];
      r
    else s
  }

  /** `s.trim()`: the text between the leading and the trailing whitespace.
      It is empty exactly when `s` holds nothing but whitespace. */
  function Trim(s: string): (r: string)
    ensures |r| <= |s|
    ensures r == [] <==> AllWhitespace(s)
    ensures r != [] ==> !IsWhitespace(r[0]) && !IsWhitespace(r[|r| - 1])
    ensures exists a, b :: s == a + r + b && AllWhitespace(a) && AllWhitespace(b)
  {
    var front := TrimStart(s);
    var r := TrimEnd(front);
    assert r != [] ==> r[0] == front[0];
    assert r == [] ==> s == s[..|s| - |front|] + front;
    TrimSplits(s, front, r);
    r
  }

  /** `s` is `front` after its leading whitespace and `front` is `r` before
      its trailing whitespace, so `s` is `r` between two runs of whitespace. */
  lemma TrimSplits(s: string, front: string, r: string)
    requires |front| <= |s| && front == s[|s| - |front|..] && AllWhitespace(s[..|s| - |front|])
    requires |r| <= |front| && r == front[..|r|] && AllWhitespace(front[|r|..])
    ensures exists a, b :: s == a + r + b && AllWhitespace(a) && AllWhitespace(b)
  {
    var a, b := s[..|s| - |front|], front[|r|..];
    assert s == a + front && front == r + b;
    assert s == a + r + b;
  }

  /** Trimming twice is trimming once. */
  lemma TrimIdempotent(s: string)
    ensures Trim(Trim(s)) == Trim(s)
  {
    var t := Trim(s);
    if t != [] {
      assert TrimStart(t) == t;
      assert TrimEnd(t) == t;
    }
  }

  /** `s.indexOf(x)`: the position of the first occurrence of x, or -1. */
  function IndexOf<T(==)>(s: seq<T>, x: T): (i: int)
    ensures -1 <= i < |s|
    ensures i == -1 <==> x !in s
    ensures i >= 0 ==> s[i] == x && x !in s[..i]
  {
    if s == [] then -1
    else if s[0] == x then 0
    else
      var i := IndexOf(s[1..], x);
      if i == -1 then -1
      else
        assert s[..i + 1] == [s[0]] + s[1..][..i];
        i + 1
  }

  /** The position `splice(start, 1)` removes at: a negative start counts
      back from the end (and stops at 0), a start past the end is the end. */
  function SpliceStart(length: nat, start: int): (k: nat)
    ensures k <= length
  {
    if start < 0 then (if length + start < 0 then 0 else length + start)
    else if start < length then start
    else length
  }

  /** `r` is `s` with the element at position k taken out, the others kept
      in their order. */
  ghost predicate RemovedAt<T>(s: seq<T>, r: seq<T>, k: nat) {
    && k < |s|
    && |r| == |s| - 1
    && (forall j :: 0 <= j < k ==> r[j] == s[j])
    && (forall j :: k <= j < |r| ==> r[j] == s[j + 1])
  }

  /** The array that `s.splice(start, 1)` leaves behind. */
  function SpliceOne<T>(s: seq<T>, start: int): (r: seq<T>)
    ensures 0 <= start < |s| ==> RemovedAt(s, r, start)
    ensures -|s| <= start < 0 ==> RemovedAt(s, r, |s| + start)
    ensures start < -|s| && s != [] ==> RemovedAt(s, r, 0)
    ensures start >= |s| || s == [] ==> r == s
  {
    var k := SpliceStart(|s|, start);
    if k < |s| then s[..k] + s[k + 1..] else s
  }

  /** Removing one element keeps the rest of the multiset. */
  lemma RemovedAtMultiset<T>(s: seq<T>, r: seq<T>, k: nat)
    requires RemovedAt(s, r, k)
    ensures multiset(r) + multiset{s[k]} == multiset(s)
  {
    assert s == s[..k] + [s[k]] + s[k + 1..];
    assert r == s[..k] + s[k + 1..];
  }
}

/**
 * The few Python string operations the pixel-art tool relies on:
 * `str.strip()`, `str.split(sep)`, `sep.join(parts)`, `str.split(":", 1)`,
 * `str.startswith`, `str.lstrip("#")`, `str.upper()` / `str.lower()` and the
 * hex-digit test used by the colour code.
 */
module Text {

  /** Python's `str.isspace()` for one code point (the set `str.strip()` removes). */
  predicate IsSpace(c: char) {
    var n := c as int;
    (9 <= n <= 13) || (28 <= n <= 32) || n == 0x85 || n == 0xA0 || n == 0x1680
    || (0x2000 <= n <= 0x200A) || n == 0x2028 || n == 0x2029 || n == 0x202F
    || n == 0x205F || n == 0x3000
  }

  predicate AllSpace(s: string) {
    forall k :: 0 <= k < |s| ==> IsSpace(s[k])
  }

  /** Number of leading white-space characters. */
  function LeadingSpace(s: string): (n: nat)
    ensures n <= |s|
    ensures n < |s| ==> !IsSpace(s[n])
  {
    if |s| > 0 && IsSpace(s[0]) then 1 + LeadingSpace(s[1..]) else 0
  }

  /** Number of trailing white-space characters. */
  function TrailingSpace(s: string): (n: nat)
    ensures n <= |s|
    ensures n < |s| ==> !IsSpace(s[|s| - n - 1])
  {
    if |s| > 0 && IsSpace(s[|s| - 1]) then 1 + TrailingSpace(s[..|s| - 1]) else 0
  }

  /** The leading characters counted are all white space. */
  lemma {:induction false} LeadingSpaceIsSpace(s: string)
    ensures AllSpace(s[..LeadingSpace(s)])
  {
    if |s| > 0 && IsSpace(s[0]) {
      var m := LeadingSpace(s[1..]);
      LeadingSpaceIsSpace(s[1..]);
      assert s[1..][..m] == s[1..m + 1];
    }
  }

  /** The trailing characters counted are all white space. */
  lemma {:induction false} TrailingSpaceIsSpace(s: string)
    ensures AllSpace(s[|s| - TrailingSpace(s)..])
  {
    if |s| > 0 && IsSpace(s[|s| - 1]) {
      var init := s[..|s| - 1];
      var m := TrailingSpace(init);
      TrailingSpaceIsSpace(init);
      assert TrailingSpace(s) == m + 1;
      var tail := s[|s| - 1 - m..];
      forall k | 0 <= k < |tail|
        ensures IsSpace(tail[k])
      {
        if k < m {
          assert tail[k] == init[|init| - m..][k];
        }
      }
    }
  }

  /**
   * `s.strip()`: `s` with its leading and trailing white space removed.
   * The result is the middle of `s` between two all-white-space margins and
   * neither starts nor ends with white space.
   */
  function Strip(s: string): (r: string)
    ensures |r| <= |s|
    ensures r == [] || (!IsSpace(r[0]) && !IsSpace(r[|r| - 1]))
  {
    var i := LeadingSpace(s);
    var t := s[i..];
    t[..|t| - TrailingSpace(t)]
  }

  /** What `Strip` removes is white space, from the two ends only. */
  lemma StripMargins(s: string)
    ensures exists i :: 0 <= i <= |s| - |Strip(s)| && s[i..i + |Strip(s)|] == Strip(s)
                        && AllSpace(s[..i]) && AllSpace(s[i + |Strip(s)|..])
  {
    var i := LeadingSpace(s);
    var t := s[i..];
    var j := TrailingSpace(t);
    LeadingSpaceIsSpace(s);
    TrailingSpaceIsSpace(t);
    var r := Strip(s);
    assert r == t[..|t| - j];
    assert s[i..i + |r|] == r;
    assert s[i + |r|..] == t[|t| - j..];
  }

  /** Every character of `Strip(s)` is one of `s`. */
  lemma StripChars(s: string)
    ensures forall ch :: ch in Strip(s) ==> ch in s
  {
    var i := LeadingSpace(s);
    var t := s[i..];
    assert forall ch :: ch in t ==> ch in s;
  }

  lemma StripNoMargin(s: string)
    requires s == [] || (!IsSpace(s[0]) && !IsSpace(s[|s| - 1]))
    ensures Strip(s) == s
  {
  }

  /** Stripping twice is stripping once. */
  lemma StripIdempotent(s: string)
    ensures Strip(Strip(s)) == Strip(s)
  {
    StripNoMargin(Strip(s));
  }

  predicate StartsWith(s: string, prefix: string) {
    |prefix| <= |s| && s[..|prefix|] == prefix
  }

  /** `sep.join(parts)` */
  function Join(sep: string, parts: seq<string>): string {
    if parts == [] then ""
    else if |parts| == 1 then parts[0]
    else parts[0] + sep + Join(sep, parts[1..])
  }

  predicate OccursAt(s: string, sep: string, i: nat) {
    i + |sep| <= |s| && s[i..i + |sep|] == sep
  }

  /** `sep` occurs nowhere in `p`. */
  predicate NoOccurrence(p: string, sep: string) {
    forall i :: 0 <= i <= |p| ==> !OccursAt(p, sep, i)
  }

  /**
   * `s.split(sep)` for a non-empty separator: scanning left to right, every
   * occurrence of `sep` that does not overlap an earlier one cuts `s`
   * (`SplitJoin` and `SplitCutsLeftmost` together say what the pieces are).
   */
  function Split(s: string, sep: string): (r: seq<string>)
    requires |sep| > 0
    ensures |r| >= 1
    decreases |s|
  {
    if |s| < |sep| then [s]
    else if s[..|sep|] == sep then [""] + Split(s[|sep|..], sep)
    else
      var rest := Split(s[1..], sep);
      [[s[0]] + rest[0]] + rest[1..]
  }

  /** Joining the pieces of a split with the separator gives the text back, and no piece contains the separator. */
  lemma {:induction false} SplitJoin(s: string, sep: string)
    requires |sep| > 0
    ensures Join(sep, Split(s, sep)) == s
    ensures forall p :: p in Split(s, sep) ==> NoOccurrence(p, sep)
    decreases |s|
  {
    if |s| < |sep| {
      assert NoOccurrence(s, sep);
    } else if s[..|sep|] == sep {
      var rest := Split(s[|sep|..], sep);
      SplitJoin(s[|sep|..], sep);
      assert Split(s, sep) == [""] + rest;
      JoinPrepend(sep, rest, s[|sep|..]);
      assert s == s[..|sep|] + s[|sep|..];
      assert NoOccurrence("", sep);
      PiecesAfterNewHead(sep, "", [""] + rest, rest);
    } else {
      var rest := Split(s[1..], sep);
      SplitJoin(s[1..], sep);
      var first := [s[0]] + rest[0];
      assert Split(s, sep) == [first] + rest[1..];
      SplitFirstPiece(s, sep, rest);
      JoinExtendHead(sep, s[0], rest, s[1..]);
      assert s == [s[0]] + s[1..];
      PiecesAfterNewHead(sep, first, [first] + rest[1..], rest);
    }
  }

  /**
   * The first cut is at the leftmost occurrence of `sep`, and the other pieces
   * are the split of what follows it; without a cut, `sep` does not occur.
   */
  lemma SplitCutsLeftmost(s: string, sep: string)
    requires |sep| > 0
    ensures var r := Split(s, sep);
      && (|r| == 1 ==> NoOccurrence(s, sep))
      && (|r| > 1 ==>
            && OccursAt(s, sep, |r[0]|)
            && (forall i :: 0 <= i < |r[0]| ==> !OccursAt(s, sep, i))
            && r[1..] == Split(s[|r[0]| + |sep|..], sep))
  {
    SplitNoCut(s, sep);
    SplitFirstCut(s, sep);
    SplitRest(s, sep);
  }

  lemma {:induction false} SplitNoCut(s: string, sep: string)
    requires |sep| > 0
    ensures |Split(s, sep)| == 1 ==> NoOccurrence(s, sep)
    decreases |s|
  {
    if |s| >= |sep| && s[..|sep|] != sep {
      var rest := Split(s[1..], sep);
      SplitNoCut(s[1..], sep);
      if |rest| == 1 {
        forall i | 0 < i <= |s| ensures !OccursAt(s, sep, i) {
          ShiftOccurs(s, sep, i - 1);
        }
        assert !OccursAt(s, sep, 0);
      }
    }
  }

  lemma {:induction false} SplitFirstCut(s: string, sep: string)
    requires |sep| > 0
    ensures var r := Split(s, sep);
      |r| > 1 ==>
        && OccursAt(s, sep, |r[0]|)
        && (forall i :: 0 <= i < |r[0]| ==> !OccursAt(s, sep, i))
    decreases |s|
  {
    if |s| < |sep| {
    } else if s[..|sep|] == sep {
      assert OccursAt(s, sep, 0);
    } else {
      var r := Split(s, sep);
      var rest := Split(s[1..], sep);
      SplitFirstCut(s[1..], sep);
      assert r == [[s[0]] + rest[0]] + rest[1..];
      if |rest| > 1 {
        var n := |rest[0]|;
        ShiftOccurs(s, sep, n);
        forall i | 0 < i < n + 1 ensures !OccursAt(s, sep, i) {
          ShiftOccurs(s, sep, i - 1);
        }
        assert !OccursAt(s, sep, 0);
      }
    }
  }

  lemma {:induction false} SplitRest(s: string, sep: string)
    requires |sep| > 0
    ensures var r := Split(s, sep);
      |r| > 1 ==> |r[0]| + |sep| <= |s| && r[1..] == Split(s[|r[0]| + |sep|..], sep)
    decreases |s|
  {
    if |s| >= |sep| && s[..|sep|] != sep {
      var r := Split(s, sep);
      var rest := Split(s[1..], sep);
      SplitRest(s[1..], sep);
      assert r == [[s[0]] + rest[0]] + rest[1..];
      if |rest| > 1 {
        var n := |rest[0]|;
        assert |r[0]| == n + 1;
        ShiftTail(s, n + |sep|);
        assert r[1..] == rest[1..] == Split(s[1..][n + |sep|..], sep);
      }
    }
  }

  /** An occurrence in the text after its first character is one place further in the text. */
  lemma ShiftOccurs(s: string, sep: string, i: nat)
    requires |s| >= 1
    ensures OccursAt(s[1..], sep, i) == OccursAt(s, sep, i + 1)
  {
    if i + |sep| <= |s| - 1 {
      assert s[1..][i..i + |sep|] == s[i + 1..i + 1 + |sep|];
    }
  }

  lemma ShiftTail(s: string, k: nat)
    requires 1 <= |s| && k <= |s| - 1
    ensures s[1..][k..] == s[k + 1..]
  {
  }

  /** Splitting on one character gives one piece more than the character occurs. */
  lemma {:induction false} SplitCharCount(s: string, c: char)
    ensures |Split(s, [c])| == multiset(s)[c] + 1
    decreases |s|
  {
    if |s| >= 1 {
      assert s == [s[0]] + s[1..];
      assert multiset(s) == multiset([s[0]]) + multiset(s[1..]);
      SplitCharCount(s[1..], c);
      if s[..1] == [c] {
        assert s[0] == c;
      } else {
        assert s[0] != c;
      }
    }
  }

  /** Joining after an extra empty first piece puts one separator in front. */
  lemma JoinPrepend(sep: string, rest: seq<string>, t: string)
    requires |rest| >= 1 && Join(sep, rest) == t
    ensures Join(sep, [""] + rest) == sep + t
  {
    var r := [""] + rest;
    assert |r| > 1 && r[0] == "" && r[1..] == rest;
    assert Join(sep, r) == r[0] + sep + Join(sep, r[1..]);
    assert r[0] + sep == sep;
  }

  /** Joining after a character is put in front of the first piece puts it in front of the whole. */
  lemma JoinExtendHead(sep: string, c: char, rest: seq<string>, t: string)
    requires |rest| >= 1 && Join(sep, rest) == t
    ensures Join(sep, [[c] + rest[0]] + rest[1..]) == [c] + t
  {
    var r := [[c] + rest[0]] + rest[1..];
    if |rest| > 1 {
      assert r[1..] == rest[1..];
      assert Join(sep, rest) == rest[0] + sep + Join(sep, rest[1..]);
    }
  }

  /** A list whose pieces come from `rest`, bar a new first piece, is free of `sep` when they are. */
  lemma PiecesAfterNewHead(sep: string, head: string, r: seq<string>, rest: seq<string>)
    requires |rest| >= 1 && NoOccurrence(head, sep)
    requires r == [head] + rest || r == [head] + rest[1..]
    requires forall p :: p in rest ==> NoOccurrence(p, sep)
    ensures forall p :: p in r ==> NoOccurrence(p, sep)
  {
    forall p | p in r
      ensures NoOccurrence(p, sep)
    {
      if p != head {
        var k :| 0 <= k < |r| && r[k] == p;
        assert k > 0;
        if r == [head] + rest {
          assert p == rest[k - 1];
        } else {
          assert p == rest[k];
        }
      }
    }
  }

  /** The first piece of a split never holds the separator either (helper of `Split`). */
  lemma SplitFirstPiece(s: string, sep: string, rest: seq<string>)
    requires |sep| > 0 && |s| >= |sep| && s[..|sep|] != sep
    requires |rest| >= 1 && Join(sep, rest) == s[1..]
    requires NoOccurrence(rest[0], sep)
    ensures NoOccurrence([s[0]] + rest[0], sep)
  {
    JoinHeadPrefix(sep, rest);
    PrefixPieceClean(s, sep, rest[0]);
  }

  lemma PrefixPieceClean(s: string, sep: string, p: string)
    requires |sep| > 0 && |s| >= |sep| && s[..|sep|] != sep
    requires |p| < |s| && s[1..][..|p|] == p && NoOccurrence(p, sep)
    ensures NoOccurrence([s[0]] + p, sep)
  {
    var first := [s[0]] + p;
    assert first == s[..|first|];
    forall i | 0 <= i <= |first|
      ensures !OccursAt(first, sep, i)
    {
      if i == 0 {
        if |sep| <= |first| {
          assert first[..|sep|] == s[..|sep|];
        }
      } else if i + |sep| <= |first| {
        assert first[i..i + |sep|] == p[i - 1..i - 1 + |sep|];
        assert !OccursAt(p, sep, i - 1);
      }
    }
  }

  lemma JoinHeadPrefix(sep: string, parts: seq<string>)
    requires |parts| >= 1
    ensures |parts[0]| <= |Join(sep, parts)|
    ensures Join(sep, parts)[..|parts[0]|] == parts[0]
  {
    if |parts| > 1 {
      assert Join(sep, parts) == parts[0] + (sep + Join(sep, parts[1..]));
    }
  }

  /** Index of the first occurrence of `c` in `s`. */
  function IndexOf(s: string, c: char): (i: nat)
    requires c in s
    ensures i < |s| && s[i] == c
    ensures forall k :: 0 <= k < i ==> s[k] != c
  {
    if s[0] == c then 0 else 1 + IndexOf(s[1..], c)
  }

  /** `s.split(c, 1)` when `c` occurs in `s`: the text before the first `c` and the text after it. */
  function SplitOnce(s: string, c: char): (r: (string, string))
    requires c in s
    ensures s == r.0 + [c] + r.1
    ensures c !in r.0
  {
    var i := IndexOf(s, c);
    assert s == s[..i] + [c] + s[i + 1..];
    (s[..i], s[i + 1..])
  }

  /** Splitting at the first `c` recovers the parts around a `c` that has none before it. */
  lemma SplitOnceAt(p: string, c: char, rest: string)
    requires c !in p
    ensures c in p + [c] + rest
    ensures SplitOnce(p + [c] + rest, c) == (p, rest)
  {
    var s := p + [c] + rest;
    assert s[|p|] == c;
    var i := IndexOf(s, c);
    assert i == |p|;
    assert s[..i] == p && s[i + 1..] == rest;
  }

  /** A lower-cased token's first `:` sits where the original's did. */
  lemma LowerSplitOnce(s: string)
    requires ':' in s
    ensures ':' in Lower(s)
    ensures SplitOnce(Lower(s), ':') == (Lower(SplitOnce(s, ':').0), Lower(SplitOnce(s, ':').1))
  {
    var i := IndexOf(s, ':');
    assert Lower(s)[i] == ':';
    var j := IndexOf(Lower(s), ':');
    assert s[j] == ':';
    assert i == j;
    assert Lower(s)[..i] == Lower(s[..i]);
    assert Lower(s)[i + 1..] == Lower(s[i + 1..]);
  }

  /**
   * Two texts equal up to case, the first a `p:c` reference not starting with
   * `#`: so is the second, and its halves are equal to the first's up to case.
   */
  lemma LowerKeepsReference(a: string, b: string)
    requires Lower(a) == Lower(b)
    requires ':' in a && !StartsWith(a, "#")
    ensures ':' in b && !StartsWith(b, "#")
    ensures Lower(SplitOnce(a, ':').0) == Lower(SplitOnce(b, ':').0)
    ensures Lower(SplitOnce(a, ':').1) == Lower(SplitOnce(b, ':').1)
  {
    var i := IndexOf(a, ':');
    assert Lower(b)[i] == ':';
    assert b[i] == ':';
    assert !StartsWith(b, "#") by {
      assert Lower(a)[0] == Lower(b)[0];
      assert a[..1] == [a[0]];
      assert b[..1] == [b[0]];
    }
    LowerSplitOnce(a);
    LowerSplitOnce(b);
  }

  /** `s.lstrip(c)`: `s` without its run of leading `c`. */
  function LStripChar(s: string, c: char): (r: string)
    ensures r == [] || r[0] != c
  {
    if |s| > 0 && s[0] == c then LStripChar(s[1..], c) else s
  }

  /** What `lstrip` leaves is a suffix of `s`, and all it removes is copies of `c`. */
  lemma {:induction false} LStripCharSuffix(s: string, c: char)
    ensures var r := LStripChar(s, c);
      && |r| <= |s| && r == s[|s| - |r|..]
      && (forall k :: 0 <= k < |s| - |r| ==> s[k] == c)
  {
    if |s| > 0 && s[0] == c {
      LStripCharSuffix(s[1..], c);
      var r := LStripChar(s, c);
      forall k | 0 <= k < |s| - |r|
        ensures s[k] == c
      {
        if k > 0 {
          assert s[k] == s[1..][k - 1];
        }
      }
    }
  }

  function LowerChar(c: char): char {
    if 'A' <= c <= 'Z' then (c as int + 32) as char else c
  }

  function UpperChar(c: char): char {
    if 'a' <= c <= 'z' then (c as int - 32) as char else c
  }

  /**
   * `s.lower()` on ASCII letters: no upper-case letter is left, everything
   * else is kept, and each character is the same letter up to case.
   */
  function Lower(s: string): (r: string)
    ensures |r| == |s| && forall k :: 0 <= k < |s| ==> r[k] == LowerChar(s[k])
    ensures forall k :: 0 <= k < |r| ==> !('A' <= r[k] <= 'Z')
    ensures forall k :: 0 <= k < |s| && !('A' <= s[k] <= 'Z') ==> r[k] == s[k]
    ensures forall k :: 0 <= k < |s| ==> UpperChar(r[k]) == UpperChar(s[k])
  {
    seq(|s|, k requires 0 <= k < |s| => LowerChar(s[k]))
  }

  /** `s.upper()` on ASCII letters, the mirror of `Lower`. */
  function Upper(s: string): (r: string)
    ensures |r| == |s| && forall k :: 0 <= k < |s| ==> r[k] == UpperChar(s[k])
    ensures forall k :: 0 <= k < |r| ==> !('a' <= r[k] <= 'z')
    ensures forall k :: 0 <= k < |s| && !('a' <= s[k] <= 'z') ==> r[k] == s[k]
    ensures forall k :: 0 <= k < |s| ==> LowerChar(r[k]) == LowerChar(s[k])
  {
    seq(|s|, k requires 0 <= k < |s| => UpperChar(s[k]))
  }

  /** Lower-casing forgets an earlier upper-casing, and the other way round. */
  lemma CaseRoundTrip(s: string)
    ensures Lower(Upper(s)) == Lower(s)
    ensures Upper(Lower(s)) == Upper(s)
  {
  }

  lemma LowerConcat(a: string, b: string)
    ensures Lower(a + b) == Lower(a) + Lower(b)
  {
  }

  lemma UpperConcat(a: string, b: string)
    ensures Upper(a + b) == Upper(a) + Upper(b)
  {
  }

  /** One of the characters of "0123456789ABCDEFabcdef". */
  predicate IsHexDigit(c: char) {
    ('0' <= c <= '9') || ('A' <= c <= 'F') || ('a' <= c <= 'f')
  }

  predicate AllHex(s: string) {
    forall k :: 0 <= k < |s| ==> IsHexDigit(s[k])
  }

  /** Exactly 6 or 8 hex digits: the `RRGGBB` / `RRGGBBAA` body of a colour. */
  predicate IsHexBody(s: string) {
    (|s| == 6 || |s| == 8) && AllHex(s)
  }

  predicate IsUpperHexDigit(c: char) {
    ('0' <= c <= '9') || ('A' <= c <= 'F')
  }

  predicate AllUpperHex(s: string) {
    forall k :: 0 <= k < |s| ==> IsUpperHexDigit(s[k])
  }

  function HexValue(c: char): (v: nat)
    requires IsHexDigit(c)
    ensures v < 16
  {
    if '0' <= c <= '9' then c as int - '0' as int
    else if 'A' <= c <= 'F' then c as int - 'A' as int + 10
    else c as int - 'a' as int + 10
  }

  /** The upper-case hex digit of a value below 16. */
  function HexDigitOf(v: nat): (c: char)
    requires v < 16
    ensures IsUpperHexDigit(c) && HexValue(c) == v
  {
    if v < 10 then ('0' as int + v) as char else ('A' as int + v - 10) as char
  }

  /** A digit and its upper-case form have the same value. */
  lemma HexValueUpper(c: char)
    requires IsHexDigit(c)
    ensures IsUpperHexDigit(UpperChar(c)) && HexValue(UpperChar(c)) == HexValue(c)
    ensures HexDigitOf(HexValue(c)) == UpperChar(c)
  {
  }
  // ---------------------------------------------------------------------
  // Ordering: Python's `<=` on `str` and `sorted(...)` of a set of names
  // ---------------------------------------------------------------------

  /** `a <= b` on Python strings: lexicographic by code point, a prefix first. */
  predicate StrLeq(a: string, b: string) {
    if a == [] then true
    else if b == [] then false
    else if a[0] != b[0] then a[0] < b[0]
    else StrLeq(a[1..], b[1..])
  }

  lemma {:induction false} StrLeqRefl(a: string)
    ensures StrLeq(a, a)
  {
    if a != [] {
      StrLeqRefl(a[1..]);
    }
  }

  lemma {:induction false} StrLeqTotal(a: string, b: string)
    ensures StrLeq(a, b) || StrLeq(b, a)
  {
    if a != [] && b != [] && a[0] == b[0] {
      StrLeqTotal(a[1..], b[1..]);
    }
  }

  lemma {:induction false} StrLeqAntisym(a: string, b: string)
    requires StrLeq(a, b) && StrLeq(b, a)
    ensures a == b
  {
    if a != [] {
      StrLeqAntisym(a[1..], b[1..]);
      assert a == [a[0]] + a[1..] && b == [b[0]] + b[1..];
    }
  }

  lemma {:induction false} StrLeqTrans(a: string, b: string, c: string)
    requires StrLeq(a, b) && StrLeq(b, c)
    ensures StrLeq(a, c)
  {
    if a != [] && b != [] && c != [] && a[0] == b[0] && b[0] == c[0] {
      StrLeqTrans(a[1..], b[1..], c[1..]);
    }
  }

  predicate Sorted(s: seq<string>) {
    forall i, j :: 0 <= i < j < |s| ==> StrLeq(s[i], s[j])
  }

  predicate IsLeast(m: string, s: set<string>) {
    m in s && forall x :: x in s ==> StrLeq(m, x)
  }

  /** Every finite non-empty set of strings has a least element. */
  lemma {:induction false} LeastExists(s: set<string>)
    requires s != {}
    ensures exists m :: IsLeast(m, s)
    decreases |s|
  {
    var x :| x in s;
    if s == {x} {
      StrLeqRefl(x);
      assert IsLeast(x, s);
    } else {
      LeastExists(s - {x});
      var m :| IsLeast(m, s - {x});
      StrLeqTotal(x, m);
      if StrLeq(x, m) {
        StrLeqRefl(x);
        forall y | y in s
          ensures StrLeq(x, y)
        {
          if y != x {
            StrLeqTrans(x, m, y);
          }
        }
        assert IsLeast(x, s);
      } else {
        assert IsLeast(m, s);
      }
    }
  }

  /** A set has at most one least element. */
  lemma LeastUnique(s: set<string>)
    ensures forall a, b :: IsLeast(a, s) && IsLeast(b, s) ==> a == b
  {
    forall a, b | IsLeast(a, s) && IsLeast(b, s)
      ensures a == b
    {
      StrLeqAntisym(a, b);
    }
  }

  /** The least element followed by the rest, sorted, is the whole set, sorted. */
  lemma PrependLeast(m: string, s: set<string>, rest: seq<string>)
    requires IsLeast(m, s)
    requires |rest| == |s - {m}| && (forall x :: x in rest <==> x in s - {m}) && Sorted(rest)
    requires forall i, j :: 0 <= i < j < |rest| ==> rest[i] != rest[j]
    ensures var r := [m] + rest;
      && |r| == |s| && (forall x :: x in r <==> x in s) && Sorted(r)
      && (forall i, j :: 0 <= i < j < |r| ==> r[i] != r[j])
  {
    var r := [m] + rest;
    forall i, j | 0 <= i < j < |r|
      ensures StrLeq(r[i], r[j]) && r[i] != r[j]
    {
      if i == 0 {
        assert r[j] == rest[j - 1] && r[j] in s - {m};
      } else {
        assert r[i] == rest[i - 1] && r[j] == rest[j - 1];
      }
    }
  }

  /** `sorted(s)`: the members of `s`, each once, in ascending order. */
  function SortedSet(s: set<string>): (r: seq<string>)
    ensures |r| == |s|
    ensures forall x :: x in r <==> x in s
    ensures Sorted(r)
    ensures forall i, j :: 0 <= i < j < |r| ==> r[i] != r[j]
    decreases |s|
  {
    if s == {} then []
    else
      LeastExists(s);
      LeastUnique(s);
      var m :| IsLeast(m, s);
      var rest := SortedSet(s - {m});
      PrependLeast(m, s, rest);
      [m] + rest
  }
}

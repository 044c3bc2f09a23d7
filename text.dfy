/** Models of the Python string built-ins the core relies on: `str.split`, `str.join`,
    `str.find`, the `in` substring test, slicing with an end past the string, `int()`
    applied to a run of decimal digits, `str(n)`, `format(n, '08b')` and `str.lower`
    (on ASCII letters). Each comes with the property that pins it down. */
module Text {
  import opened Wrappers

  // ---------------------------------------------------------------------------
  // Slicing

  /** Python's `s[:n]` for `n >= 0`: an end past the string is clipped. */
  function Take(s: string, n: nat): (r: string)
    ensures |r| == if n <= |s| then n else |s|
    ensures r <= s
  {
    if n <= |s| then s[..n] else s
  }

  /** True when `s` begins with `p`. */
  predicate StartsWith(s: string, p: string)
  {
    |p| <= |s| && s[..|p|] == p
  }

  // ---------------------------------------------------------------------------
  // Splitting and joining

  /** Python's `s.split(sep)` for a non-empty separator: occurrences are found left to
      right and do not overlap; the result always has at least one part. */
  function Split(s: string, sep: string): (parts: seq<string>)
    requires |sep| > 0
    ensures |parts| >= 1
    decreases |s|
  {
    if |s| < |sep| then [s]
    else if s[..|sep|] == sep then [""] + Split(s[|sep|..], sep)
    else
      var rest := Split(s[1..], sep);
      [[s[0]] + rest[0]] + rest[1..]
  }

  /** Python's `sep.join(parts)`. */
  function Join(parts: seq<string>, sep: string): string
  {
    if |parts| == 0 then ""
    else if |parts| == 1 then parts[0]
    else parts[0] + sep + Join(parts[1..], sep)
  }

  lemma JoinCons(a: string, rest: seq<string>, sep: string)
    requires |rest| >= 1
    ensures Join([a] + rest, sep) == a + sep + Join(rest, sep)
  {
    assert ([a] + rest)[1..] == rest;
  }

  lemma JoinAppend(parts: seq<string>, last: string, sep: string)
    requires |parts| >= 1
    ensures Join(parts + [last], sep) == Join(parts, sep) + sep + last
    decreases |parts|
  {
    if |parts| == 1 {
      assert parts + [last] == [parts[0], last];
    } else {
      assert parts + [last] == [parts[0]] + (parts[1..] + [last]);
      JoinCons(parts[0], parts[1..] + [last], sep);
      JoinAppend(parts[1..], last, sep);
      JoinCons(parts[0], parts[1..], sep);
      assert [parts[0]] + parts[1..] == parts;
    }
  }

  /** Prepending a character to the first part prepends it to the join. */
  lemma JoinExtendFirst(c: char, rest: seq<string>, sep: string)
    requires |rest| >= 1
    ensures Join([[c] + rest[0]] + rest[1..], sep) == [c] + Join(rest, sep)
  {
    if |rest| > 1 {
      JoinCons([c] + rest[0], rest[1..], sep);
      JoinCons(rest[0], rest[1..], sep);
      assert [rest[0]] + rest[1..] == rest;
    }
  }

  /** Joining the parts of a split with the same separator gives back the text. */
  lemma {:induction false} JoinSplit(s: string, sep: string)
    requires |sep| > 0
    ensures Join(Split(s, sep), sep) == s
    decreases |s|
  {
    if |s| < |sep| {
      assert Split(s, sep) == [s];
    } else if s[..|sep|] == sep {
      var tail := s[|sep|..];
      assert Split(s, sep) == [""] + Split(tail, sep);
      JoinSplit(tail, sep);
      JoinCons("", Split(tail, sep), sep);
      assert s == s[..|sep|] + tail;
    } else {
      var rest := Split(s[1..], sep);
      assert Split(s, sep) == [[s[0]] + rest[0]] + rest[1..];
      JoinSplit(s[1..], sep);
      JoinExtendFirst(s[0], rest, sep);
      assert s == [s[0]] + s[1..];
    }
  }

  /** A text in which the separator's first character never appears is one part. */
  lemma {:induction false} SplitWithoutSep(s: string, sep: string)
    requires |sep| > 0 && sep[0] !in s
    ensures Split(s, sep) == [s]
    decreases |s|
  {
    if |s| >= |sep| {
      assert s[..|sep|][0] == s[0];
      SplitWithoutSep(s[1..], sep);
      assert [s[0]] + s[1..] == s;
    }
  }

  /** A part free of the separator's first character, followed by the separator, is
      split off exactly. */
  lemma {:induction false} SplitAfterPart(a: string, b: string, sep: string)
    requires |sep| > 0 && sep[0] !in a
    ensures Split(a + sep + b, sep) == [a] + Split(b, sep)
    decreases |a|
  {
    var s := a + sep + b;
    if |a| == 0 {
      assert s == sep + b;
      assert s[..|sep|] == sep;
      assert s[|sep|..] == b;
    } else {
      assert s[..|sep|][0] == a[0];
      assert s[1..] == a[1..] + sep + b;
      SplitAfterPart(a[1..], b, sep);
      assert [a[0]] + a[1..] == a;
    }
  }

  /** Splitting a join gives back the parts when no part holds the separator's first
      character. */
  lemma {:induction false} SplitJoin(parts: seq<string>, sep: string)
    requires |sep| > 0 && |parts| >= 1
    requires forall i :: 0 <= i < |parts| ==> sep[0] !in parts[i]
    ensures Split(Join(parts, sep), sep) == parts
    decreases |parts|
  {
    if |parts| == 1 {
      SplitWithoutSep(parts[0], sep);
    } else {
      SplitJoin(parts[1..], sep);
      SplitAfterPart(parts[0], Join(parts[1..], sep), sep);
      assert [parts[0]] + parts[1..] == parts;
    }
  }

  // ---------------------------------------------------------------------------
  // Searching

  /** Python's `s.find(c)` for one character: the first index of `c`, or -1. */
  function IndexOf(s: string, c: char): (r: int)
    ensures r == -1 <==> c !in s
    ensures 0 <= r ==> r < |s| && s[r] == c && c !in s[..r]
    ensures -1 <= r
  {
    if |s| == 0 then -1
    else if s[0] == c then 0
    else
      var k := IndexOf(s[1..], c);
      if k == -1 then -1
      else
        assert s[..k + 1] == [s[0]] + s[1..][..k];
        k + 1
  }

  /** `pat` occurs in `s` at index `i`. */
  predicate OccursAt(s: string, pat: string, i: nat)
  {
    i + |pat| <= |s| && s[i..i + |pat|] == pat
  }

  /** Python's substring test `pat in s`. */
  function Contains(s: string, pat: string): (r: bool)
    ensures r <==> exists i: nat :: OccursAt(s, pat, i)
    decreases |s|
  {
    if StartsWith(s, pat) then
      assert OccursAt(s, pat, 0);
      true
    else if |s| == 0 then
      assert forall i: nat :: !OccursAt(s, pat, i);
      false
    else
      var r := Contains(s[1..], pat);
      assert forall i: nat :: OccursAt(s[1..], pat, i) <==> OccursAt(s, pat, i + 1) by {
        forall i: nat ensures OccursAt(s[1..], pat, i) <==> OccursAt(s, pat, i + 1) {
          if i + |pat| <= |s[1..]| {
            assert s[1..][i..i + |pat|] == s[i + 1..i + 1 + |pat|];
          }
        }
      }
      assert !OccursAt(s, pat, 0);
      assert r ==> exists i: nat :: OccursAt(s, pat, i) by {
        if r {
          var i: nat :| OccursAt(s[1..], pat, i);
          assert OccursAt(s, pat, i + 1);
        }
      }
      assert (exists i: nat :: OccursAt(s, pat, i)) ==> r by {
        if exists i: nat :: OccursAt(s, pat, i) {
          var i: nat :| OccursAt(s, pat, i);
          assert i != 0;
          assert OccursAt(s[1..], pat, i - 1);
        }
      }
      r
  }

  /** Occurrences in the tail of a string are the occurrences past its first character. */
  lemma OccursInTail(s: string, pat: string)
    requires |s| > 0
    ensures forall i: nat :: OccursAt(s[1..], pat, i) <==> OccursAt(s, pat, i + 1)
  {
    forall i: nat ensures OccursAt(s[1..], pat, i) <==> OccursAt(s, pat, i + 1) {
      if i + |pat| <= |s[1..]| {
        assert s[1..][i..i + |pat|] == s[i + 1..i + 1 + |pat|];
      }
    }
  }

  /** Python's `s.find(pat)`: the first index at which `pat` occurs, or -1. */
  function Find(s: string, pat: string): (r: int)
    requires |pat| > 0
    ensures r == -1 <==> forall i: nat :: !OccursAt(s, pat, i)
    ensures r >= 0 ==> OccursAt(s, pat, r) && forall j: nat :: j < r ==> !OccursAt(s, pat, j)
    ensures r >= -1
    decreases |s|
  {
    if StartsWith(s, pat) then
      assert OccursAt(s, pat, 0);
      0
    else if |s| == 0 then
      -1
    else
      var k := Find(s[1..], pat);
      OccursInTail(s, pat);
      assert !OccursAt(s, pat, 0);
      if k == -1 then
        assert forall i: nat :: !OccursAt(s, pat, i) by {
          forall i: nat ensures !OccursAt(s, pat, i) {
            if i > 0 {
              assert !OccursAt(s[1..], pat, i - 1);
            }
          }
        }
        -1
      else
        assert forall j: nat :: j < k + 1 ==> !OccursAt(s, pat, j) by {
          forall j: nat | j < k + 1 ensures !OccursAt(s, pat, j) {
            if j > 0 {
              assert !OccursAt(s[1..], pat, j - 1);
            }
          }
        }
        k + 1
  }

  /** Python's `s.split(sep, 1)` unpacked into two names (and `s.partition(sep)`): the
      text before the first occurrence of `sep` and the text after it; `None` when `sep`
      does not occur. */
  function SplitOnce(s: string, sep: string): (r: Option<(string, string)>)
    requires |sep| > 0
    ensures r.None? <==> forall i: nat :: !OccursAt(s, sep, i)
    ensures r.Some? ==> s == r.value.0 + sep + r.value.1
    ensures r.Some? ==> forall i: nat :: i < |r.value.0| ==> !OccursAt(s, sep, i)
  {
    var k := Find(s, sep);
    if k == -1 then None
    else
      assert s == s[..k] + sep + s[k + |sep|..] by {
        assert s[k..k + |sep|] == sep;
        assert s == s[..k] + s[k..k + |sep|] + s[k + |sep|..];
      }
      Some((s[..k], s[k + |sep|..]))
  }

  /** The split happens at the first occurrence, wherever that is. */
  lemma SplitOnceAt(s: string, sep: string, i: nat)
    requires |sep| > 0 && OccursAt(s, sep, i)
    requires forall j: nat :: j < i ==> !OccursAt(s, sep, j)
    ensures SplitOnce(s, sep) == Some((s[..i], s[i + |sep|..]))
  {
    var r := SplitOnce(s, sep);
    var a := r.value.0;
    assert s[|a|..|a| + |sep|] == sep by {
      assert s == a + sep + r.value.1;
    }
    assert OccursAt(s, sep, |a|);
    assert |a| == i;
    assert s[..i] == a && s[i + |sep|..] == r.value.1 by {
      assert s == a + sep + r.value.1;
    }
  }

  // ---------------------------------------------------------------------------
  // Decimal numbers

  predicate IsDigit(c: char) { '0' <= c <= '9' }

  predicate AllDigits(s: string) { forall i :: 0 <= i < |s| ==> IsDigit(s[i]) }

  function DigitValue(c: char): nat
    requires IsDigit(c)
  {
    (c as int) - ('0' as int)
  }

  function DigitChar(d: nat): (c: char)
    requires d < 10
    ensures IsDigit(c) && DigitValue(c) == d
  {
    (('0' as int) + d) as char
  }

  /** The number a run of decimal digits denotes (most significant first). */
  function DecimalValue(s: string): nat
    requires AllDigits(s)
  {
    if |s| == 0 then 0 else DecimalValue(s[..|s| - 1]) * 10 + DigitValue(s[|s| - 1])
  }

  /** Python's `int(s)` restricted to the decimal forms the model accepts: a non-empty
      run of ASCII digits (leading zeros allowed); anything else is the `ValueError`,
      here `None`. */
  function ParseDecimal(s: string): (r: Option<nat>)
    ensures r.Some? <==> |s| > 0 && AllDigits(s)
    ensures r.Some? ==> r.value == DecimalValue(s)
  {
    if |s| > 0 && AllDigits(s) then Some(DecimalValue(s)) else None
  }

  /** Python's `str(n)` for a natural number: canonical decimal digits. */
  function NatToDecimal(n: nat): (s: string)
    ensures |s| > 0 && AllDigits(s)
    ensures DecimalValue(s) == n
    ensures |s| == 1 || s[0] != '0'
  {
    if n < 10 then [DigitChar(n)]
    else
      var prefix := NatToDecimal(n / 10);
      var s := prefix + [DigitChar(n % 10)];
      assert s[..|s| - 1] == prefix;
      s
  }

  /** `str` then `int` is the identity on natural numbers. */
  lemma ParseDecimalOfNatToDecimal(n: nat)
    ensures ParseDecimal(NatToDecimal(n)) == Some(n)
  {
  }

  // ---------------------------------------------------------------------------
  // Binary numbers

  predicate IsBit(c: char) { c == '0' || c == '1' }

  predicate AllBits(s: string) { forall i :: 0 <= i < |s| ==> IsBit(s[i]) }

  function Pow2(k: nat): (r: nat)
    ensures r >= 1
  {
    if k == 0 then 1 else 2 * Pow2(k - 1)
  }

  lemma {:induction false} Pow2Monotone(j: nat, k: nat)
    requires j <= k
    ensures Pow2(j) <= Pow2(k)
    decreases k
  {
    if j < k { Pow2Monotone(j, k - 1); }
  }

  /** The number a bit string denotes, most significant bit first (a character other
      than '1' counts as a zero bit). */
  function BinaryValue(s: string): nat
  {
    if |s| == 0 then 0 else BinaryValue(s[..|s| - 1]) * 2 + (if s[|s| - 1] == '1' then 1 else 0)
  }

  /** `bin(n)` without the `0b` prefix: the shortest bit string denoting `n`. */
  function ToBinary(n: nat): (s: string)
    ensures |s| > 0 && AllBits(s)
    ensures BinaryValue(s) == n
    ensures n < Pow2(|s|)
    ensures n >= 1 ==> Pow2(|s| - 1) <= n
  {
    var bit := if n % 2 == 1 then '1' else '0';
    if n < 2 then [bit]
    else
      var prefix := ToBinary(n / 2);
      var s := prefix + [bit];
      assert s[..|s| - 1] == prefix;
      s
  }

  /** `width` copies of '0', or none when `s` is already that wide. */
  function ZeroPad(s: string, width: nat): (r: string)
    ensures |r| == if |s| < width then width else |s|
    ensures r[|r| - |s|..] == s
    ensures forall i :: 0 <= i < |r| - |s| ==> r[i] == '0'
  {
    if |s| < width then seq(width - |s|, _ => '0') + s else s
  }

  /** Leading zeros do not change the value of a bit string. */
  lemma {:induction false} BinaryValueZeroPad(z: string, s: string)
    requires AllBits(s) && forall i :: 0 <= i < |z| ==> z[i] == '0'
    ensures AllBits(z + s) && BinaryValue(z + s) == BinaryValue(s)
    decreases |s|
  {
    if |s| == 0 {
      assert z + s == z;
      BinaryValueZeros(z);
    } else {
      assert (z + s)[..|z + s| - 1] == z + s[..|s| - 1];
      BinaryValueZeroPad(z, s[..|s| - 1]);
    }
  }

  lemma {:induction false} BinaryValueZeros(z: string)
    requires forall i :: 0 <= i < |z| ==> z[i] == '0'
    ensures AllBits(z) && BinaryValue(z) == 0
    decreases |z|
  {
    if |z| > 0 { BinaryValueZeros(z[..|z| - 1]); }
  }

  /** Python's `format(n, '08b')` for `n >= 0`: the binary digits of `n`, left-padded
      with zeros to at least eight characters. */
  function Format08b(n: nat): (s: string)
    ensures AllBits(s) && |s| >= 8
    ensures BinaryValue(s) == n
    ensures |s| == 8 <==> n < 256
  {
    var b := ToBinary(n);
    ZeroPadValue(b, 8);
    ToBinaryWidth(n, 8);
    ZeroPad(b, 8)
  }

  /** Padding keeps a bit string's bits and its value. */
  lemma ZeroPadValue(b: string, width: nat)
    requires AllBits(b)
    ensures AllBits(ZeroPad(b, width)) && BinaryValue(ZeroPad(b, width)) == BinaryValue(b)
  {
    var s := ZeroPad(b, width);
    assert s == s[..|s| - |b|] + b;
    BinaryValueZeroPad(s[..|s| - |b|], b);
  }

  /** The low `k` bits of `v`, most significant first. */
  function BitsOf(v: nat, k: nat): (s: string)
    ensures |s| == k
  {
    if k == 0 then [] else BitsOf(v / 2, k - 1) + [if v % 2 == 1 then '1' else '0']
  }

  /** A bit string is the fixed-width binary form of the number it denotes. */
  lemma {:induction false} BitsOfValue(s: string)
    requires AllBits(s)
    ensures s == BitsOf(BinaryValue(s), |s|)
    decreases |s|
  {
    if |s| > 0 {
      var p := s[..|s| - 1];
      BitsOfValue(p);
      var v := BinaryValue(p);
      var c := if s[|s| - 1] == '1' then 1 else 0;
      assert BinaryValue(s) == 2 * v + c;
      assert (2 * v + c) / 2 == v && (2 * v + c) % 2 == c;
      assert s == p + [s[|s| - 1]];
    }
  }

  /** For an octet, `format(n, '08b')` is exactly its eight bits, most significant
      first. */
  lemma Format08bOfOctet(n: nat)
    requires n < 256
    ensures Format08b(n) == BitsOf(n, 8)
  {
    BitsOfValue(Format08b(n));
  }

  /** `format(n, '08b')` of a given octet, with the bits worked out by `BitsOf`. */
  lemma Format08bIs(n: nat, bits: string)
    requires n < 256 && BitsOf(n, 8) == bits
    ensures Format08b(n) == bits
  {
    Format08bOfOctet(n);
  }

  /** `n` needs at most `k` bits exactly when it is below 2^k. */
  lemma ToBinaryWidth(n: nat, k: nat)
    requires k >= 1
    ensures |ToBinary(n)| <= k <==> n < Pow2(k)
  {
    var b := ToBinary(n);
    if |b| > k {
      Pow2Monotone(k, |b| - 1);
    } else {
      Pow2Monotone(|b|, k);
    }
  }

  // ---------------------------------------------------------------------------
  // Case

  predicate IsUpper(c: char) { 'A' <= c <= 'Z' }

  function LowerChar(c: char): (r: char)
    ensures !IsUpper(r)
    ensures !IsUpper(c) ==> r == c
  {
    if IsUpper(c) then ((c as int) + 32) as char else c
  }

  /** Python's `s.lower()` restricted to ASCII letters. */
  function Lower(s: string): (r: string)
    ensures |r| == |s|
    ensures forall i :: 0 <= i < |s| ==> r[i] == LowerChar(s[i])
  {
    seq(|s|, i requires 0 <= i < |s| => LowerChar(s[i]))
  }

  predicate IsLowerCase(s: string) { forall i :: 0 <= i < |s| ==> !IsUpper(s[i]) }

  /** The result of `lower()` has no upper-case letter, and lower-casing it again
      changes nothing. */
  lemma LowerIsLowerCase(s: string)
    ensures IsLowerCase(Lower(s))
    ensures Lower(Lower(s)) == Lower(s)
  {
  }
}

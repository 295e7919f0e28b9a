/** Strings as the generator builds them: decimal and hexadecimal literals
    (Python's `str(n)` and `f'{i:#0{w}x}'`), ASCII case and letter tests,
    and the `find`, `replace`, `split`, `join` and `rstrip` operations of
    Python's `str`, all on `seq<char>`. */
module Text {
  import opened Bytes

  function Repeat(c: char, n: nat): (r: string)
    ensures |r| == n
    ensures forall i :: 0 <= i < n ==> r[i] == c
  {
    if n == 0 then "" else [c] + Repeat(c, n - 1)
  }

  function Concat(ss: seq<string>): string
  {
    if |ss| == 0 then "" else Concat(ss[..|ss| - 1]) + ss[|ss| - 1]
  }

  lemma ConcatAppend(ss: seq<string>, t: string)
    ensures Concat(ss + [t]) == Concat(ss) + t
  {
    assert (ss + [t])[..|ss|] == ss;
  }

  // ---------------------------------------------------------------------
  // Numerals

  /** `c` is a digit of `base` in Python's lower-case spelling. */
  predicate IsDigitIn(c: char, base: nat)
  {
    ('0' <= c <= '9' || 'a' <= c <= 'f') && DigitValue(c) < base
  }

  function DigitValue(c: char): nat
  {
    if '0' <= c <= '9' then (c as int - '0' as int)
    else if 'a' <= c <= 'f' then (c as int - 'a' as int) + 10
    else 0
  }

  function DigitChar(d: nat): (c: char)
    requires d < 16
    ensures '0' <= c <= '9' || 'a' <= c <= 'f'
    ensures DigitValue(c) == d
    ensures c == '0' <==> d == 0
  {
    if d < 10 then ('0' as int + d) as char else ('a' as int + d - 10) as char
  }

  /** The value of the digit string `s` in `base`, most significant digit first. */
  function DigitsValue(s: string, base: nat): nat
  {
    if |s| == 0 then 0 else DigitsValue(s[..|s| - 1], base) * base + DigitValue(s[|s| - 1])
  }

  lemma DivFacts(n: nat, base: nat)
    requires 2 <= base <= n
    ensures 1 <= n / base < n
    ensures n == (n / base) * base + n % base && n % base < base
  {
    var q := n / base;
    var m := n % base;
    assert n == q * base + m && 0 <= m < base;
    assert q * base == q * (base - 2) + 2 * q;
    assert q * (base - 2) >= 0;
  }

  /** The shortest digit string of `n` in `base`, lower-case, without sign
      or prefix: Python's `str(n)` for base 10 and `format(n, 'x')` for 16. */
  function Digits(n: nat, base: nat): (r: string)
    requires 2 <= base <= 16
    ensures |r| >= 1
    ensures forall i :: 0 <= i < |r| ==> IsDigitIn(r[i], base)
    ensures DigitsValue(r, base) == n
    ensures r[0] == '0' ==> n == 0 && |r| == 1
    ensures |r| == 1 <==> n < base
    decreases n
  {
    if n < base then
      var r := [DigitChar(n)];
      assert r[..0] == [];
      r
    else
      DivFacts(n, base);
      var hi := Digits(n / base, base);
      var r := hi + [DigitChar(n % base)];
      assert r[..|r| - 1] == hi;
      r
  }

  function Dec(n: nat): string
  {
    Digits(n, 10)
  }

  /** Python's `str(i)` for any integer, with a leading '-' for negatives. */
  function IntToString(i: int): string
  {
    if i < 0 then "-" + Dec(-i) else Dec(i)
  }

  /** A digit string has at most `k` digits exactly when the number is below base^k. */
  lemma {:induction false} DigitsLength(n: nat, base: nat, k: nat)
    requires 2 <= base <= 16
    requires k >= 1
    ensures |Digits(n, base)| <= k <==> n < Pow(base, k)
    decreases k
  {
    if n < base {
      assert Pow(base, k) >= base by { PowAtLeastBase(base, k); }
    } else if k == 1 {
      assert Pow(base, 1) == base;
    } else {
      DigitsLength(n / base, base, k - 1);
      assert Pow(base, k) == base * Pow(base, k - 1);
      DivBelowPow(n, base, Pow(base, k - 1));
    }
  }

  lemma PowAtLeastBase(base: nat, k: nat)
    requires base >= 1 && k >= 1
    ensures Pow(base, k) >= base
  {
    if k > 1 {
      PowAtLeastBase(base, k - 1);
    }
  }

  lemma DivBelowPow(n: nat, base: nat, p: nat)
    requires base >= 2
    ensures n / base < p <==> n < base * p
  {
    var q := n / base;
    assert n == q * base + n % base && n % base < base;
    if q < p {
      assert q + 1 <= p;
      assert (q + 1) * base <= p * base;
    } else {
      assert q * base >= p * base;
    }
  }

  /** Leading zeros do not change the value of a digit string. */
  lemma {:induction false} LeadingZeros(z: nat, s: string, base: nat)
    ensures DigitsValue(Repeat('0', z) + s, base) == DigitsValue(s, base)
    decreases |s|, z
  {
    var t := Repeat('0', z) + s;
    if |s| == 0 {
      assert t == Repeat('0', z);
      if z > 0 {
        assert t[..|t| - 1] == Repeat('0', z - 1) + "";
        LeadingZeros(z - 1, "", base);
      }
    } else {
      assert t[..|t| - 1] == Repeat('0', z) + s[..|s| - 1];
      LeadingZeros(z, s[..|s| - 1], base);
    }
  }

  /** `_hex_fill(i, size)` (mipi.py), and `f'{i:#04x}'` when `size` is 1:
      "0x" followed by the lower-case hex digits of `i`, zero-padded on the
      left to `2 * size` digits. */
  function HexFill(i: nat, size: nat): (r: string)
    ensures |r| >= 3 && r[..2] == "0x"
    ensures |r| == 2 + (if |Digits(i, 16)| > 2 * size then |Digits(i, 16)| else 2 * size)
  {
    var h := Digits(i, 16);
    var pad := if |h| < 2 * size then 2 * size - |h| else 0;
    "0x" + (Repeat('0', pad) + h)
  }

  /** The digits after "0x" are hex digits that read back as `i`. */
  lemma HexFillValue(i: nat, size: nat)
    ensures var r := HexFill(i, size);
      (forall k :: 2 <= k < |r| ==> IsDigitIn(r[k], 16)) && DigitsValue(r[2..], 16) == i
  {
    var h := Digits(i, 16);
    var pad := if |h| < 2 * size then 2 * size - |h| else 0;
    var t := Repeat('0', pad) + h;
    LeadingZeros(pad, h, 16);
    PaddedDigits(pad, h);
    var r := HexFill(i, size);
    assert r == "0x" + t;
    AfterPrefix("0x", t);
  }

  /** Zero padding keeps every character a hex digit. */
  lemma PaddedDigits(pad: nat, h: string)
    requires forall k :: 0 <= k < |h| ==> IsDigitIn(h[k], 16)
    ensures forall k :: 0 <= k < |Repeat('0', pad) + h| ==> IsDigitIn((Repeat('0', pad) + h)[k], 16)
  {
    var t := Repeat('0', pad) + h;
    forall k | 0 <= k < |t|
      ensures IsDigitIn(t[k], 16)
    {
      if k >= pad {
        assert t[k] == h[k - pad];
      }
    }
  }

  lemma AfterPrefix(p: string, t: string)
    ensures (p + t)[|p|..] == t
    ensures forall k :: |p| <= k < |p + t| ==> (p + t)[k] == t[k - |p|]
  {
  }

  /** A value that fits in `size` bytes renders with exactly `2 * size` hex digits. */
  lemma HexFillWidth(i: nat, size: nat)
    requires size >= 1
    requires i < Pow(256, size)
    ensures |HexFill(i, size)| == 2 + 2 * size
  {
    PowSquare(size);
    DigitsLength(i, 16, 2 * size);
  }

  lemma {:induction false} PowSquare(k: nat)
    ensures Pow(256, k) == Pow(16, 2 * k)
  {
    if k > 0 {
      PowSquare(k - 1);
      assert Pow(16, 2 * k) == 16 * (16 * Pow(16, 2 * k - 2));
    }
  }

  // ---------------------------------------------------------------------
  // Characters

  predicate IsAsciiLetter(c: char)
  {
    'a' <= c <= 'z' || 'A' <= c <= 'Z'
  }

  /** `str.isalpha()`: non-empty and made of letters only. */
  predicate IsAlpha(s: string)
  {
    |s| > 0 && forall i :: 0 <= i < |s| ==> IsAsciiLetter(s[i])
  }

  function LowerChar(c: char): char
  {
    if 'A' <= c <= 'Z' then (c as int - 'A' as int + 'a' as int) as char else c
  }

  /** `str.lower()`. */
  function Lower(s: string): (r: string)
    ensures |r| == |s|
    ensures forall i :: 0 <= i < |s| ==> r[i] == LowerChar(s[i])
  {
    if |s| == 0 then "" else [LowerChar(s[0])] + Lower(s[1..])
  }

  // ---------------------------------------------------------------------
  // Searching

  predicate StartsWith(s: string, p: string)
  {
    |p| <= |s| && s[..|p|] == p
  }

  /** `sub` occurs in `s` at index `i`. */
  predicate Occurs(s: string, sub: string, i: int)
  {
    0 <= i && i + |sub| <= |s| && s[i..i + |sub|] == sub
  }

  function FindFrom(s: string, sub: string, i: nat): (r: int)
    ensures r == -1 || (i <= r && Occurs(s, sub, r))
    ensures r == -1 ==> forall j :: i <= j ==> !Occurs(s, sub, j)
    ensures r >= 0 ==> forall j :: i <= j < r ==> !Occurs(s, sub, j)
    decreases |s| - i
  {
    if i + |sub| > |s| then -1
    else if s[i..i + |sub|] == sub then i
    else FindFrom(s, sub, i + 1)
  }

  /** `s.find(sub)`: the first index where `sub` occurs in `s`, or -1. */
  function Find(s: string, sub: string): (r: int)
    ensures r == -1 <==> forall j :: !Occurs(s, sub, j)
    ensures r >= 0 ==> Occurs(s, sub, r) && forall j :: 0 <= j < r ==> !Occurs(s, sub, j)
  {
    FindFrom(s, sub, 0)
  }

  /** A character's first occurrence is where `find` stops. */
  lemma FindChar(s: string, c: char, i: nat)
    requires i < |s| && s[i] == c
    requires forall j :: 0 <= j < i ==> s[j] != c
    ensures Find(s, [c]) == i
  {
    assert s[i..i + 1] == [c];
    assert Occurs(s, [c], i);
    forall j | 0 <= j < i
      ensures !Occurs(s, [c], j)
    {
      assert s[j..j + 1] == [s[j]];
    }
    var r := Find(s, [c]);
    assert r >= 0;
    assert r >= i;
  }

  /** An occurrence survives text added on either side. */
  lemma OccursShift(a: string, s: string, b: string, sub: string, k: int)
    requires Occurs(s, sub, k)
    ensures Occurs(a + s + b, sub, |a| + k)
  {
    assert (a + s + b)[|a| + k..|a| + k + |sub|] == s[k..k + |sub|];
  }

  lemma OccursContains(s: string, sub: string, k: int)
    requires Occurs(s, sub, k)
    ensures Contains(s, sub)
  {
  }

  /** What a string contains, any string around it contains too. */
  lemma ContainsShift(a: string, s: string, b: string, sub: string)
    requires Contains(s, sub)
    ensures Contains(a + s + b, sub)
  {
    OccursShift(a, s, b, sub, Find(s, sub));
    OccursContains(a + s + b, sub, |a| + Find(s, sub));
  }

  /** A concatenation contains each of its pieces. */
  lemma ConcatContains(ss: seq<string>, i: nat)
    requires i < |ss|
    ensures Contains(Concat(ss), ss[i])
  {
    ConcatOccurs(ss, i);
    OccursContains(Concat(ss), ss[i], |Concat(ss[..i])|);
  }

  /** Each piece of a concatenation occurs where the earlier pieces end. */
  lemma {:induction false} ConcatOccurs(ss: seq<string>, i: nat)
    requires i < |ss|
    ensures Occurs(Concat(ss), ss[i], |Concat(ss[..i])|)
    decreases |ss|
  {
    var n := |ss|;
    if i == n - 1 {
      assert ss[..n - 1] == ss[..i];
      var c := Concat(ss);
      assert c[|Concat(ss[..i])|..] == ss[i];
    } else {
      ConcatOccurs(ss[..n - 1], i);
      assert ss[..n - 1][..i] == ss[..i];
      OccursShift("", Concat(ss[..n - 1]), ss[n - 1], ss[i], |Concat(ss[..i])|);
      assert "" + Concat(ss[..n - 1]) + ss[n - 1] == Concat(ss);
    }
  }

  /** Inside a frame, each piece of a concatenation is directly followed
      by the next piece, and the last one by the frame's tail. */
  lemma ConcatAdjacent(r: string, head: string, ss: seq<string>, tail: string, i: nat)
    requires i < |ss|
    requires r == head + Concat(ss) + tail
    ensures var k := |head| + |Concat(ss[..i])|;
      Occurs(r, ss[i], k)
      && (i + 1 < |ss| ==> Occurs(r, ss[i + 1], k + |ss[i]|))
      && (i + 1 == |ss| ==> Occurs(r, tail, k + |ss[i]|))
  {
    ConcatOccurs(ss, i);
    OccursShift(head, Concat(ss), tail, ss[i], |Concat(ss[..i])|);
    assert Concat(ss[..i + 1]) == Concat(ss[..i]) + ss[i] by {
      assert ss[..i + 1][..i] == ss[..i];
    }
    if i + 1 < |ss| {
      ConcatOccurs(ss, i + 1);
      OccursShift(head, Concat(ss), tail, ss[i + 1], |Concat(ss[..i + 1])|);
    } else {
      assert ss[..i + 1] == ss;
      assert r[|head| + |Concat(ss)|..] == tail;
    }
  }

  /** `sub in s`. */
  predicate Contains(s: string, sub: string)
  {
    Find(s, sub) >= 0
  }

  /** A first occurrence stays the first occurrence in any prefix that holds it. */
  lemma FindInPrefix(s: string, sub: string, n: nat)
    requires Find(s, sub) >= 0
    requires Find(s, sub) + |sub| <= n <= |s|
    ensures Find(s[..n], sub) == Find(s, sub)
  {
    var i := Find(s, sub);
    var t := s[..n];
    assert t[i..i + |sub|] == s[i..i + |sub|];
    assert Occurs(t, sub, i);
    forall j | 0 <= j < i
      ensures !Occurs(t, sub, j)
    {
      if Occurs(t, sub, j) {
        assert t[j..j + |sub|] == s[j..j + |sub|];
        assert Occurs(s, sub, j);
      }
    }
  }

  // ---------------------------------------------------------------------
  // Splitting, joining, replacing

  /** `sep.join(parts)`. */
  function Join(parts: seq<string>, sep: string): string
  {
    if |parts| == 0 then ""
    else if |parts| == 1 then parts[0]
    else parts[0] + sep + Join(parts[1..], sep)
  }

  /** `s.split(sep)` for a non-empty separator: the pieces between the
      leftmost non-overlapping occurrences of `sep`. */
  function Split(s: string, sep: string): (r: seq<string>)
    requires |sep| > 0
    ensures |r| >= 1
    ensures Join(r, sep) == s
    decreases |s|
  {
    var i := Find(s, sep);
    if i < 0 then [s]
    else
      var rest := Split(s[i + |sep|..], sep);
      var r := [s[..i]] + rest;
      assert r[1..] == rest;
      assert s == s[..i] + sep + s[i + |sep|..];
      r
  }

  /** The pieces of `Split` are cut at leftmost occurrences: each piece but
      the last is followed by the first occurrence of `sep`, and the last
      piece holds none. */
  lemma {:induction false} SplitLeftmost(s: string, sep: string)
    requires |sep| > 0
    ensures var r := Split(s, sep);
      && !Contains(r[|r| - 1], sep)
      && forall k :: 0 <= k < |r| - 1 ==> Find(r[k] + sep, sep) == |r[k]|
    decreases |s|
  {
    var i := Find(s, sep);
    if i >= 0 {
      var tail := s[i + |sep|..];
      SplitLeftmost(tail, sep);
      var r := Split(s, sep);
      assert r == [s[..i]] + Split(tail, sep);
      FindInPrefix(s, sep, i + |sep|);
      assert s[..i + |sep|] == s[..i] + sep;
      assert Find(r[0] + sep, sep) == |r[0]|;
      forall k | 1 <= k < |r| - 1
        ensures Find(r[k] + sep, sep) == |r[k]|
      {
        assert r[k] == Split(tail, sep)[k - 1];
      }
    }
  }

  /** `s.replace(pat, rep)` for a non-empty `pat`: every leftmost
      non-overlapping occurrence of `pat` becomes `rep`. */
  function ReplaceAll(s: string, pat: string, rep: string): string
    requires |pat| > 0
  {
    Join(Split(s, pat), rep)
  }

  /** Replacing a string that does not occur changes nothing. */
  lemma ReplaceAbsent(s: string, pat: string, rep: string)
    requires |pat| > 0
    requires !Contains(s, pat)
    ensures ReplaceAll(s, pat, rep) == s
  {
  }

  lemma JoinCons(x: string, rest: seq<string>, sep: string)
    requires |rest| >= 1
    ensures Join([x] + rest, sep) == x + sep + Join(rest, sep)
  {
    assert ([x] + rest)[1..] == rest;
  }

  /** Replacing one character by another is a character-wise map. */
  lemma {:induction false} ReplaceChar(s: string, a: char, b: char)
    ensures ReplaceAll(s, [a], [b]) == MapChar(s, a, b)
    decreases |s|
  {
    var i := Find(s, [a]);
    assert forall k :: 0 <= k < |s| && s[k] == a ==> Occurs(s, [a], k) by {
      forall k | 0 <= k < |s| && s[k] == a
        ensures Occurs(s, [a], k)
      {
        assert s[k..k + 1] == [a];
      }
    }
    if i < 0 {
      assert MapChar(s, a, b) == s;
    } else {
      var rest := s[i + 1..];
      ReplaceChar(rest, a, b);
      var tail := Split(rest, [a]);
      assert Split(s, [a]) == [s[..i]] + tail;
      JoinCons(s[..i], tail, [b]);
      assert s[i..i + 1] == [a];
      MapCharSplit(s, i, a, b);
    }
  }

  lemma MapCharSplit(s: string, i: nat, a: char, b: char)
    requires i < |s| && s[i] == a
    requires forall k :: 0 <= k < i ==> s[k] != a
    ensures MapChar(s, a, b) == s[..i] + [b] + MapChar(s[i + 1..], a, b)
  {
    var l := MapChar(s, a, b);
    var t := MapChar(s[i + 1..], a, b);
    var r := s[..i] + [b] + t;
    forall k | 0 <= k < |l|
      ensures l[k] == r[k]
    {
      if k > i {
        assert r[k] == t[k - i - 1];
      }
    }
  }

  function MapChar(s: string, a: char, b: char): (r: string)
    ensures |r| == |s|
    ensures forall k :: 0 <= k < |s| ==> r[k] == (if s[k] == a then b else s[k])
  {
    if |s| == 0 then "" else [if s[0] == a then b else s[0]] + MapChar(s[1..], a, b)
  }

  /** `s.split(c, 1)`: at most two pieces, cut at the first `c`. */
  function SplitOnce(s: string, c: char): (r: seq<string>)
    ensures 1 <= |r| <= 2
  {
    var i := Find(s, [c]);
    if i < 0 then [s] else [s[..i], s[i + 1..]]
  }

  /** The pieces of `split(c, 1)` joined by `c` give the text back; the
      first holds no `c`, and there is a second exactly when `c` occurs. */
  lemma SplitOnceJoins(s: string, c: char)
    ensures var r := SplitOnce(s, c);
      && Join(r, [c]) == s
      && (forall k :: 0 <= k < |r[0]| ==> r[0][k] != c)
      && (|r| == 1 <==> forall k :: 0 <= k < |s| ==> s[k] != c)
  {
    var i := Find(s, [c]);
    FindCharIndex(s, c);
    if i >= 0 {
      JoinAtChar(s, i, c);
    }
  }

  /** `find` of a single character: -1 exactly when it is absent, else its
      first position. */
  lemma FindCharIndex(s: string, c: char)
    ensures Find(s, [c]) < 0 <==> forall k :: 0 <= k < |s| ==> s[k] != c
    ensures Find(s, [c]) >= 0 ==>
      Find(s, [c]) < |s| && s[Find(s, [c])] == c && forall k :: 0 <= k < Find(s, [c]) ==> s[k] != c
  {
    var i := Find(s, [c]);
    forall k | 0 <= k < |s| && s[k] == c
      ensures Occurs(s, [c], k)
    {
      assert s[k..k + 1] == [c];
    }
    if i >= 0 {
      assert s[i..i + 1] == [c];
      assert s[i] == s[i..i + 1][0];
    }
  }

  lemma JoinAtChar(s: string, i: nat, c: char)
    requires i < |s| && s[i] == c
    ensures Join([s[..i], s[i + 1..]], [c]) == s
  {
    var r := [s[..i], s[i + 1..]];
    assert r[1..] == [s[i + 1..]];
    assert s == s[..i] + [c] + s[i + 1..];
  }

  /** `s.rstrip(c)` for one character: drop every trailing `c`. */
  function RStrip(s: string, c: char): (r: string)
    ensures |r| <= |s|
    ensures s == r + Repeat(c, |s| - |r|)
    ensures |r| == 0 || r[|r| - 1] != c
  {
    if |s| == 0 || s[|s| - 1] != c then s
    else
      var r := RStrip(s[..|s| - 1], c);
      assert Repeat(c, |s| - |r|) == Repeat(c, |s| - 1 - |r|) + [c];
      r
  }
}

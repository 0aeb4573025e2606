/** String operations of Python's `str` that the viewer relies on, on
    strings as sequences of characters. */
module Text {

  /** Python's `str.isspace` for one character (the Unicode white-space set). */
  predicate IsSpace(c: char) {
    var n := c as int;
    n == 0x20 || 0x09 <= n <= 0x0D || 0x1C <= n <= 0x1F || n == 0x85 || n == 0xA0
    || n == 0x1680 || 0x2000 <= n <= 0x200A || n == 0x2028 || n == 0x2029
    || n == 0x202F || n == 0x205F || n == 0x3000
  }

  predicate IsUpper(c: char) { 'A' <= c <= 'Z' }

  function LowerChar(c: char): (d: char)
    ensures !IsUpper(d)
  {
    if IsUpper(c) then (c as int + 32) as char else c
  }

  /** `s.lower()`, restricted to the ASCII letters. */
  function Lower(s: string): (r: string)
    ensures |r| == |s|
    ensures forall i :: 0 <= i < |s| ==> r[i] == LowerChar(s[i])
  {
    seq(|s|, i requires 0 <= i < |s| => LowerChar(s[i]))
  }

  /** Lower-casing twice is lower-casing once. */
  lemma LowerIdempotent(s: string)
    ensures Lower(Lower(s)) == Lower(s)
  {
  }

  /** A string without upper-case letters is its own lower-case form. */
  lemma LowerOfLowerCase(s: string)
    requires forall i :: 0 <= i < |s| ==> !IsUpper(s[i])
    ensures Lower(s) == s
  {
  }

  lemma LowerAppend(a: string, b: string)
    ensures Lower(a + b) == Lower(a) + Lower(b)
  {
  }

  /** Lower-casing the end of a string is taking the end of its lower-case
      form. */
  lemma LowerSuffix(s: string, n: nat)
    requires n <= |s|
    ensures Lower(s[n..]) == Lower(s)[n..]
  {
    assert forall i :: 0 <= i < |s| - n ==> Lower(s[n..])[i] == Lower(s)[n + i];
  }

  predicate StartsWith(s: string, prefix: string) {
    |prefix| <= |s| && s[..|prefix|] == prefix
  }

  predicate EndsWith(s: string, suffix: string) {
    |suffix| <= |s| && s[|s| - |suffix|..] == suffix
  }

  // ---------------------------------------------------------------------------
  //  s.split(d) and d.join(parts) for a one-character separator
  // ---------------------------------------------------------------------------

  /** `s.split(d)`: the pieces between separators; never empty (`"".split(d)`
      is `[""]`), and no piece contains the separator. */
  function Split(s: string, d: char): (r: seq<string>)
    ensures |r| >= 1
    ensures forall i :: 0 <= i < |r| ==> d !in r[i]
    ensures |r| == Count(s, d) + 1
  {
    if |s| == 0 then [""]
    else
      var rest := Split(s[1..], d);
      if s[0] == d then [""] + rest
      else [[s[0]] + rest[0]] + rest[1..]
  }

  /** Occurrences of the character `d` in `s`. */
  function Count(s: string, d: char): nat {
    if |s| == 0 then 0 else (if s[0] == d then 1 else 0) + Count(s[1..], d)
  }

  /** `d.join(parts)`. */
  function Join(parts: seq<string>, d: char): string
    requires |parts| >= 1
  {
    if |parts| == 1 then parts[0] else parts[0] + [d] + Join(parts[1..], d)
  }

  /** Joining the pieces of a split gives back the original string. */
  lemma {:induction false} JoinSplit(s: string, d: char)
    ensures Join(Split(s, d), d) == s
  {
    if |s| > 0 {
      var rest := Split(s[1..], d);
      JoinSplit(s[1..], d);
      if s[0] == d {
        assert Split(s, d)[1..] == rest;
      } else {
        var parts := [[s[0]] + rest[0]] + rest[1..];
        if |rest| == 1 {
          assert Join(parts, d) == [s[0]] + rest[0];
        } else {
          assert parts[1..] == rest[1..];
          assert Join(parts, d) == [s[0]] + rest[0] + [d] + Join(rest[1..], d);
        }
      }
    } else {
      assert Split(s, d) == [""];
    }
  }

  /** Splitting a join of separator-free pieces gives back the pieces. */
  lemma {:induction false} SplitJoin(parts: seq<string>, d: char)
    requires |parts| >= 1
    requires forall i :: 0 <= i < |parts| ==> d !in parts[i]
    ensures Split(Join(parts, d), d) == parts
    decreases |parts|, |parts[0]|
  {
    if |parts| == 1 {
      SplitNoSeparator(parts[0], d);
    } else if |parts[0]| == 0 {
      SplitJoin(parts[1..], d);
      var j := Join(parts, d);
      assert j == [d] + Join(parts[1..], d);
      assert j[1..] == Join(parts[1..], d);
      assert parts == [""] + parts[1..];
    } else {
      var head := parts[0];
      var shorter := [head[1..]] + parts[1..];
      assert shorter[1..] == parts[1..];
      assert forall i :: 0 <= i < |shorter| ==> d !in shorter[i] by {
        forall i | 0 <= i < |shorter| ensures d !in shorter[i] {
          if i == 0 {
            assert forall k :: 0 <= k < |head[1..]| ==> head[1..][k] == head[k + 1];
          }
        }
      }
      SplitJoin(shorter, d);
      var j := Join(parts, d);
      assert j == head + [d] + Join(parts[1..], d);
      assert Join(shorter, d) == head[1..] + [d] + Join(parts[1..], d);
      assert j[0] == head[0] && j[1..] == Join(shorter, d);
      assert head[0] != d;
      assert [head[0]] + head[1..] == head;
      assert parts == [head] + parts[1..];
    }
  }

  /** Splitting `head + [d] + rest` for a `d`-free head gives the head, then
      the pieces of the rest. */
  lemma {:induction false} SplitAtSeparator(head: string, d: char, rest: string)
    requires d !in head
    ensures Split(head + [d] + rest, d) == [head] + Split(rest, d)
    decreases |head|
  {
    var s := head + [d] + rest;
    if head == [] {
      assert s[0] == d && s[1..] == rest;
    } else {
      assert s[0] == head[0] && s[1..] == head[1..] + [d] + rest;
      assert d !in head[1..] by {
        assert forall k :: 0 <= k < |head[1..]| ==> head[1..][k] == head[k + 1];
      }
      SplitAtSeparator(head[1..], d, rest);
      assert [head[0]] + head[1..] == head;
    }
  }

  lemma {:induction false} SplitNoSeparator(s: string, d: char)
    requires d !in s
    ensures Split(s, d) == [s]
  {
    if |s| > 0 {
      assert d !in s[1..] by {
        assert forall k :: 0 <= k < |s[1..]| ==> s[1..][k] == s[k + 1];
      }
      SplitNoSeparator(s[1..], d);
      assert [s[0]] + s[1..] == s;
    }
  }

  // ---------------------------------------------------------------------------
  //  s.strip()
  // ---------------------------------------------------------------------------

  /** The index of the first character at or after `i` that is not white
      space, or `|s|` when there is none. */
  function SkipSpaces(s: string, i: nat): (j: nat)
    requires i <= |s|
    ensures i <= j <= |s|
    ensures forall k :: i <= k < j ==> IsSpace(s[k])
    ensures j < |s| ==> !IsSpace(s[j])
    decreases |s| - i
  {
    if i < |s| && IsSpace(s[i]) then SkipSpaces(s, i + 1) else i
  }

  /** The index just after the last character before `j` (and at or after
      `i`) that is not white space, or `i` when there is none. */
  function SkipSpacesBack(s: string, i: nat, j: nat): (e: nat)
    requires i <= j <= |s|
    ensures i <= e <= j
    ensures forall k :: e <= k < j ==> IsSpace(s[k])
    ensures e > i ==> !IsSpace(s[e - 1])
    decreases j
  {
    if j > i && IsSpace(s[j - 1]) then SkipSpacesBack(s, i, j - 1) else j
  }

  /** Number of white-space characters `s` starts with. */
  function LeadingSpaces(s: string): nat {
    SkipSpaces(s, 0)
  }

  /** `s[i..j]`, listed character by character (its results are related to
      `s` by index rather than as a slice of it). */
  function Slice(s: string, i: nat, j: nat): (r: string)
    requires i <= j <= |s|
    ensures |r| == j - i
    ensures forall k :: 0 <= k < |r| ==> r[k] == s[i + k]
  {
    seq(j - i, k requires 0 <= k < j - i => s[i + k])
  }

  /** `s.strip()`: the longest infix of `s` that neither starts nor ends with
      white space; it is empty exactly when `s` is all white space, and it is
      `s` itself when nothing is cut off. */
  function Strip(s: string): (r: string)
    ensures r != [] ==> !IsSpace(r[0]) && !IsSpace(r[|r| - 1])
    ensures r == [] <==> forall k :: 0 <= k < |s| ==> IsSpace(s[k])
    ensures var i := LeadingSpaces(s);
      i + |r| <= |s|
      && (forall k :: 0 <= k < i ==> IsSpace(s[k]))
      && (forall k :: i + |r| <= k < |s| ==> IsSpace(s[k]))
      && (|r| < |s| ==> forall k :: 0 <= k < |r| ==> r[k] == s[i + k])
    ensures |r| == |s| ==> r == s
  {
    var i := SkipSpaces(s, 0);
    var e := SkipSpacesBack(s, i, |s|);
    if i == 0 && e == |s| then s else Slice(s, i, e)
  }

  /** A string that neither starts nor ends with white space is unchanged by
      `strip()`. */
  lemma StripTrimmed(s: string)
    requires s != [] ==> !IsSpace(s[0]) && !IsSpace(s[|s| - 1])
    ensures Strip(s) == s
  {
  }

  // ---------------------------------------------------------------------------
  //  Decimal rendering of a natural number, str(n)
  // ---------------------------------------------------------------------------

  function Digit(d: nat): char
    requires d < 10
  {
    ('0' as int + d) as char
  }

  /** `str(n)` for a non-negative integer: its decimal digits, no leading zero. */
  function NatToString(n: nat): (r: string)
    ensures |r| >= 1
    ensures n >= 10 ==> |r| >= 2
    ensures forall i :: 0 <= i < |r| ==> '0' <= r[i] <= '9'
    ensures r[0] != '0' || n == 0
  {
    if n < 10 then [Digit(n)] else NatToString(n / 10) + [Digit(n % 10)]
  }

  /** The number a string of decimal digits denotes. */
  function DecimalValue(s: string): nat
    requires forall i :: 0 <= i < |s| ==> '0' <= s[i] <= '9'
  {
    if s == [] then 0
    else DecimalValue(s[..|s| - 1]) * 10 + (s[|s| - 1] as int - '0' as int)
  }

  /** `str(n)` denotes `n`. */
  lemma {:induction false} NatToStringValue(n: nat)
    ensures DecimalValue(NatToString(n)) == n
  {
    if n >= 10 {
      var s := NatToString(n);
      assert s[..|s| - 1] == NatToString(n / 10);
      NatToStringValue(n / 10);
    }
  }

  /** Distinct numbers have distinct decimal renderings. */
  lemma {:induction false} NatToStringInjective(a: nat, b: nat)
    requires NatToString(a) == NatToString(b)
    ensures a == b
  {
    if a >= 10 && b >= 10 {
      var sa, sb := NatToString(a), NatToString(b);
      assert sa[|sa| - 1] == Digit(a % 10) && sb[|sb| - 1] == Digit(b % 10);
      assert sa[..|sa| - 1] == NatToString(a / 10);
      assert sb[..|sb| - 1] == NatToString(b / 10);
      NatToStringInjective(a / 10, b / 10);
    }
  }

  // ---------------------------------------------------------------------------
  //  Splitting at the first / last occurrence of a character
  // ---------------------------------------------------------------------------

  /** The end of the run of non-`c` characters that starts at `i`. */
  function FirstRunEnd(s: string, c: char, i: nat): (k: nat)
    requires i <= |s|
    ensures i <= k <= |s|
    ensures forall j :: i <= j < k ==> s[j] != c
    ensures k < |s| ==> s[k] == c
    decreases |s| - i
  {
    if i < |s| && s[i] != c then FirstRunEnd(s, c, i + 1) else i
  }

  /** `s.split(c)[-1]`: the text after the last `c`, or all of `s`. */
  function AfterLast(s: string, c: char): (r: string)
    ensures c !in r
    ensures forall x :: x in r ==> x in s
    ensures |r| <= |s|
    ensures |r| < |s| ==> s[|s| - |r| - 1] == c
    ensures c !in s ==> r == s
    ensures c in s ==> |r| < |s|
    decreases |s|
  {
    if s == [] then s
    else if s[|s| - 1] == c then []
    else
      var init := s[..|s| - 1];
      assert s == init + [s[|s| - 1]];
      var r := AfterLast(init, c) + [s[|s| - 1]];
      assert r == s ==> r[..|r| - 1] == init;
      r
  }

  /** The text after the last `c` is a suffix of `s`. */
  lemma {:induction false} AfterLastIsSuffix(s: string, c: char)
    ensures s[|s| - |AfterLast(s, c)|..] == AfterLast(s, c)
    decreases |s|
  {
    if s != [] && s[|s| - 1] != c {
      var init := s[..|s| - 1];
      AfterLastIsSuffix(init, c);
      var r0 := AfterLast(init, c);
      assert s[|s| - |r0| - 1..] == init[|init| - |r0|..] + [s[|s| - 1]];
    }
  }

  /** The text after the last `c` of `s + [c] + tail`, for a `c`-free tail. */
  lemma {:induction false} AfterLastOfAppend(s: string, c: char, tail: string)
    requires c !in tail
    ensures AfterLast(s + [c] + tail, c) == tail
    decreases |tail|
  {
    var t := s + [c] + tail;
    if tail == [] {
      assert t[|t| - 1] == c;
    } else {
      var init := tail[..|tail| - 1];
      assert t[..|t| - 1] == s + [c] + init;
      assert t[|t| - 1] == tail[|tail| - 1];
      AfterLastOfAppend(s, c, init);
      assert tail == init + [tail[|tail| - 1]];
    }
  }

  /** The text after the last dot of `pre.ext`, for a dot-free `ext`. */
  lemma AfterLastOfDotted(pre: string, ext: string)
    requires '.' !in ext
    ensures AfterLast(pre + "." + ext, '.') == ext
  {
    assert pre + "." + ext == pre + ['.'] + ext;
    AfterLastOfAppend(pre, '.', ext);
  }

  /** `s.split(c)[0]`: the text before the first `c`, or all of `s`. */
  function BeforeFirst(s: string, c: char): (r: string)
    ensures c !in r
    ensures |r| <= |s| && r == s[..|r|]
    ensures |r| < |s| ==> s[|r|] == c
    ensures c !in s ==> r == s
  {
    var k := FirstRunEnd(s, c, 0);
    assert k < |s| ==> c in s;
    s[..k]
  }
}

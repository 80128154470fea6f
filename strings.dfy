/**
 * String helpers the source takes from Rust's standard library: substring
 * search and `split(..).next()`, decimal rendering of an unsigned integer,
 * ASCII case folding and splitting a path string at '/'.
 */
module Strings {

  // ---------------------------------------------------------------------------
  // Substring occurrence and the text before the first occurrence
  // ---------------------------------------------------------------------------

  /** `pat` occurs in `s` starting at index `k`. */
  predicate OccursAt(s: string, pat: string, k: nat)
  {
    k + |pat| <= |s| && s[k..k + |pat|] == pat
  }

  /** `pat` occurs somewhere in `s`. */
  predicate Occurs(s: string, pat: string)
  {
    exists k: nat | k <= |s| :: OccursAt(s, pat, k)
  }

  /**
   * The first piece of `s.split(pat)`: everything before the first
   * occurrence of `pat`, or all of `s` when there is none.
   */
  function BeforeFirst(s: string, pat: string): (r: string)
    requires pat != []
    ensures r <= s
    decreases |s|
  {
    if |s| < |pat| then s
    else if pat <= s then ""
    else [s[0]] + BeforeFirst(s[1..], pat)
  }

  /** An occurrence of `pat` in `s[1..]` is one in `s`, one place further on. */
  lemma OccursShift(s: string, pat: string, k: nat)
    requires |s| > 0
    ensures OccursAt(s[1..], pat, k) <==> OccursAt(s, pat, k + 1)
  {
    if k + |pat| <= |s[1..]| {
      assert s[1..][k..k + |pat|] == s[k + 1..k + 1 + |pat|];
    }
  }

  /** The text before the first occurrence never contains `pat` itself. */
  lemma {:induction false} BeforeFirstHasNoOccurrence(s: string, pat: string)
    requires pat != []
    ensures !Occurs(BeforeFirst(s, pat), pat)
    decreases |s|
  {
    var r := BeforeFirst(s, pat);
    if |s| < |pat| || pat <= s {
      assert |r| < |pat|;
    } else {
      var r' := BeforeFirst(s[1..], pat);
      assert r == [s[0]] + r';
      BeforeFirstHasNoOccurrence(s[1..], pat);
      forall k: nat | k <= |r| ensures !OccursAt(r, pat, k) {
        if k == 0 {
          if |pat| <= |r| {
            assert r[..|pat|] == s[..|pat|];
          }
        } else {
          assert r[1..] == r';
          OccursShift(r, pat, k - 1);
        }
      }
    }
  }

  /**
   * The text before the first occurrence stops exactly at that occurrence,
   * and is all of `s` when `pat` does not occur.
   */
  lemma {:induction false} BeforeFirstStopsAtMatch(s: string, pat: string)
    requires pat != []
    ensures Occurs(s, pat) ==> pat <= s[|BeforeFirst(s, pat)|..]
    ensures !Occurs(s, pat) ==> BeforeFirst(s, pat) == s
    decreases |s|
  {
    var r := BeforeFirst(s, pat);
    if |s| < |pat| {
      assert !Occurs(s, pat);
    } else if pat <= s {
      assert OccursAt(s, pat, 0);
      assert s[|r|..] == s;
    } else {
      var r' := BeforeFirst(s[1..], pat);
      BeforeFirstStopsAtMatch(s[1..], pat);
      if Occurs(s, pat) {
        var k: nat :| OccursAt(s, pat, k);
        assert k != 0;
        OccursShift(s, pat, k - 1);
        assert Occurs(s[1..], pat);
        assert s[1..][|r'|..] == s[|r|..];
      } else {
        if Occurs(s[1..], pat) {
          var k: nat :| OccursAt(s[1..], pat, k);
          OccursShift(s, pat, k);
          assert false;
        }
        assert r == [s[0]] + s[1..] == s;
      }
    }
  }

  // ---------------------------------------------------------------------------
  // Decimal rendering of an unsigned integer (Rust's `{}` on u64)
  // ---------------------------------------------------------------------------

  predicate IsDigit(c: char)
  {
    '0' <= c <= '9'
  }

  function DigitValue(c: char): nat
    requires IsDigit(c)
  {
    c as int - '0' as int
  }

  function DigitChar(d: nat): (c: char)
    requires d < 10
    ensures IsDigit(c) && DigitValue(c) == d
  {
    ('0' as int + d) as char
  }

  /** The decimal digits of `n`, most significant first, with no leading zero. */
  function DecimalDigits(n: nat): (s: string)
    ensures |s| >= 1
    ensures forall i | 0 <= i < |s| :: IsDigit(s[i])
    ensures s[0] == '0' ==> n == 0 && |s| == 1
    decreases n
  {
    if n < 10 then [DigitChar(n)] else DecimalDigits(n / 10) + [DigitChar(n % 10)]
  }

  /** The number a string of decimal digits denotes. */
  function DecimalValue(s: string): nat
    requires forall i | 0 <= i < |s| :: IsDigit(s[i])
  {
    if s == [] then 0 else DecimalValue(s[..|s| - 1]) * 10 + DigitValue(s[|s| - 1])
  }

  /** Reading the rendered digits back gives the number that was rendered. */
  lemma {:induction false} DecimalRoundTrip(n: nat)
    ensures DecimalValue(DecimalDigits(n)) == n
    decreases n
  {
    var s := DecimalDigits(n);
    if n >= 10 {
      DecimalRoundTrip(n / 10);
      assert s[..|s| - 1] == DecimalDigits(n / 10);
    }
  }

  // ---------------------------------------------------------------------------
  // ASCII case folding
  // ---------------------------------------------------------------------------

  function AsciiLower(c: char): char
  {
    if 'A' <= c <= 'Z' then (c as int - 'A' as int + 'a' as int) as char else c
  }

  /** `s` with every ASCII capital letter replaced by its small letter. */
  function Lowercase(s: string): (r: string)
    ensures |r| == |s|
    ensures forall i | 0 <= i < |s| :: r[i] == AsciiLower(s[i])
  {
    seq(|s|, i requires 0 <= i < |s| => AsciiLower(s[i]))
  }

  // ---------------------------------------------------------------------------
  // Splitting a path string into components
  // ---------------------------------------------------------------------------

  /** The pieces of `s` between '/' separators, empty pieces included. */
  function SplitSlash(s: string): (parts: seq<string>)
    ensures |parts| >= 1
    ensures forall i | 0 <= i < |parts| :: '/' !in parts[i]
    decreases |s|
  {
    if s == [] then [""]
    else if s[0] == '/' then [""] + SplitSlash(s[1..])
    else
      var rest := SplitSlash(s[1..]);
      [[s[0]] + rest[0]] + rest[1..]
  }

  /** A string without '/' is a single piece. */
  lemma {:induction false} SplitSlashSingle(s: string)
    requires '/' !in s
    ensures SplitSlash(s) == [s]
    decreases |s|
  {
    if s != [] {
      assert '/' !in s[1..] by {
        forall c | c in s[1..] ensures c in s { }
      }
      SplitSlashSingle(s[1..]);
      assert [s[0]] + s[1..] == s;
    }
  }

  /**
   * The components a path string names, as `Path::components` yields them
   * for a relative path: empty pieces (from "//" or a trailing '/') and "."
   * pieces are dropped.
   */
  function Components(s: string): (cs: seq<string>)
    ensures forall i | 0 <= i < |cs| :: cs[i] != "" && cs[i] != "." && '/' !in cs[i]
  {
    Meaningful(SplitSlash(s))
  }

  function Meaningful(parts: seq<string>): (cs: seq<string>)
    ensures forall i | 0 <= i < |cs| :: cs[i] != "" && cs[i] != "." && cs[i] in parts
  {
    if parts == [] then []
    else
      var rest := Meaningful(parts[1..]);
      assert forall i | 0 <= i < |rest| :: rest[i] in parts by {
        forall i | 0 <= i < |rest| ensures rest[i] in parts {
          assert rest[i] in parts[1..];
        }
      }
      if parts[0] == "" || parts[0] == "." then rest else [parts[0]] + rest
  }
}

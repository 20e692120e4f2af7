/** String primitives shared by the TypeScript and the Rust side: searching, replacing,
    joining, ordering and decimal rendering. Strings are sequences of characters. */
module Strings {

  predicate StartsWith(s: string, prefix: string)
  {
    |prefix| <= |s| && s[..|prefix|] == prefix
  }

  /** `String.prototype.includes` / `str::contains`: `sub` occurs contiguously in `s`. */
  predicate Contains(s: string, sub: string)
    decreases |s|
  {
    StartsWith(s, sub) || (s != [] && Contains(s[1..], sub))
  }

  /** `sub` occurs in `s` starting at position `i`. */
  predicate OccursAt(s: string, sub: string, i: int)
  {
    0 <= i && i + |sub| <= |s| && s[i..i + |sub|] == sub
  }

  /** `Contains` is the contiguous-occurrence test. */
  lemma {:induction false} ContainsIffOccurrence(s: string, sub: string)
    ensures Contains(s, sub) <==> exists i :: OccursAt(s, sub, i)
    decreases |s|
  {
    if StartsWith(s, sub) {
      assert OccursAt(s, sub, 0);
    } else if s == [] {
      assert forall i :: !OccursAt(s, sub, i);
    } else {
      ContainsIffOccurrence(s[1..], sub);
      forall i | OccursAt(s, sub, i)
        ensures OccursAt(s[1..], sub, i - 1)
      {
        assert i != 0;
        assert s[1..][i - 1..i - 1 + |sub|] == s[i..i + |sub|];
      }
      forall j | OccursAt(s[1..], sub, j)
        ensures OccursAt(s, sub, j + 1)
      {
        assert s[1..][j..j + |sub|] == s[j + 1..j + 1 + |sub|];
      }
    }
  }

  /** Only a string at least as long as `sub` can contain it. */
  lemma {:induction false} ContainsNeedsLength(s: string, sub: string)
    requires Contains(s, sub)
    ensures |sub| <= |s|
    decreases |s|
  {
    if !StartsWith(s, sub) {
      ContainsNeedsLength(s[1..], sub);
    }
  }

  /** Every string contains the empty string. */
  lemma ContainsEmpty(s: string)
    ensures Contains(s, "")
  {
    assert StartsWith(s, "");
  }

  /** `String.prototype.replaceAll` / `str::replace` with a non-empty pattern: every
      non-overlapping occurrence, scanned left to right, is replaced by `rep`. */
  function ReplaceAll(s: string, pat: string, rep: string): (r: string)
    requires pat != ""
    ensures !Contains(s, pat) ==> r == s
    decreases |s|
  {
    if |s| < |pat| then s
    else if s[..|pat|] == pat then rep + ReplaceAll(s[|pat|..], pat, rep)
    else [s[0]] + ReplaceAll(s[1..], pat, rep)
  }

  /** A leading stretch without the pattern's first character is copied unchanged. */
  lemma {:induction false} ReplaceAllSkips(u: string, t: string, pat: string, rep: string)
    requires pat != "" && pat[0] !in u
    ensures ReplaceAll(u + t, pat, rep) == u + ReplaceAll(t, pat, rep)
    decreases |u|
  {
    if u != [] {
      assert (u + t)[1..] == u[1..] + t;
      assert u == [u[0]] + u[1..];
      ReplaceAllSkips(u[1..], t, pat, rep);
      if |u + t| >= |pat| {
        assert (u + t)[..|pat|][0] == u[0];
        calc {
          ReplaceAll(u + t, pat, rep);
          [u[0]] + ReplaceAll(u[1..] + t, pat, rep);
          [u[0]] + (u[1..] + ReplaceAll(t, pat, rep));
          ([u[0]] + u[1..]) + ReplaceAll(t, pat, rep);
        }
      } else {
        assert ReplaceAll(t, pat, rep) == t;
      }
    } else {
      assert u + t == t;
    }
  }

  /** An occurrence at the front is replaced and scanning resumes after it. */
  lemma ReplaceAllAtFront(t: string, pat: string, rep: string)
    requires pat != ""
    ensures ReplaceAll(pat + t, pat, rep) == rep + ReplaceAll(t, pat, rep)
  {
    assert (pat + t)[..|pat|] == pat;
    assert (pat + t)[|pat|..] == t;
  }

  /** A character that cannot start an occurrence there is copied and scanning moves on. */
  lemma ReplaceAllNoMatchAtFront(s: string, pat: string, rep: string)
    requires pat != "" && s != [] && !StartsWith(s, pat)
    ensures ReplaceAll(s, pat, rep) == [s[0]] + ReplaceAll(s[1..], pat, rep)
  {
    if |s| < |pat| {
      assert !Contains(s[1..], pat) by {
        if Contains(s[1..], pat) {
          ContainsNeedsLength(s[1..], pat);
        }
      }
    }
  }

  /** Replacing a single character distributes over concatenation. */
  lemma {:induction false} ReplaceCharAppend(a: string, b: string, c: char, rep: string)
    ensures ReplaceAll(a + b, [c], rep) == ReplaceAll(a, [c], rep) + ReplaceAll(b, [c], rep)
    decreases |a|
  {
    if a == [] {
      assert a + b == b;
    } else {
      assert (a + b)[1..] == a[1..] + b;
      assert (a + b)[..1] == a[..1] == [a[0]];
      ReplaceCharAppend(a[1..], b, c, rep);
    }
  }

  /** The last position of `c` in `s`, or -1 (`String.prototype.lastIndexOf`). */
  function LastIndexOf(s: string, c: char): (r: int)
    ensures -1 <= r < |s|
    ensures r >= 0 ==> s[r] == c
    ensures forall k :: r < k < |s| ==> s[k] != c
  {
    if s == [] then -1
    else if s[|s| - 1] == c then |s| - 1
    else LastIndexOf(s[..|s| - 1], c)
  }

  /** `LastIndexOf` is determined by where the character occurs. */
  lemma LastIndexOfAt(s: string, c: char, i: int)
    requires -1 <= i < |s|
    requires i >= 0 ==> s[i] == c
    requires c !in s[i + 1..]
    ensures LastIndexOf(s, c) == i
  {
    assert forall m :: i < m < |s| ==> s[m] == s[i + 1..][m - i - 1];
  }

  /** `Array.prototype.join`. */
  function Join(parts: seq<string>, sep: string): string
  {
    if |parts| == 0 then ""
    else if |parts| == 1 then parts[0]
    else parts[0] + sep + Join(parts[1..], sep)
  }

  /** Joining one more part appends the separator and that part. */
  lemma {:induction false} JoinSnoc(parts: seq<string>, p: string, sep: string)
    requires parts != []
    ensures Join(parts + [p], sep) == Join(parts, sep) + sep + p
    decreases |parts|
  {
    var all := parts + [p];
    if |parts| > 1 {
      assert all[1..] == parts[1..] + [p];
      JoinSnoc(parts[1..], p, sep);
    } else {
      assert all == [parts[0], p];
    }
  }

  /** The joined text is as long as its parts and the separators between them. */
  lemma {:induction false} JoinLength(parts: seq<string>, sep: string)
    ensures |Join(parts, sep)| == TotalLength(parts) + (if parts == [] then 0 else (|parts| - 1) * |sep|)
    decreases |parts|
  {
    if |parts| > 1 {
      JoinLength(parts[1..], sep);
    } else if |parts| == 1 {
      assert parts[1..] == [];
    }
  }

  /** The summed lengths of the parts. */
  function TotalLength(parts: seq<string>): nat
  {
    if parts == [] then 0 else |parts[0]| + TotalLength(parts[1..])
  }

  /** Strict lexicographic order on character codes (a proper prefix comes first). */
  predicate Less(a: string, b: string)
  {
    b != [] && (a == [] || (if a[0] != b[0] then a[0] < b[0] else Less(a[1..], b[1..])))
  }

  lemma {:induction false} LessIrreflexive(a: string)
    ensures !Less(a, a)
  {
    if a != [] {
      LessIrreflexive(a[1..]);
    }
  }

  lemma {:induction false} LessTransitive(a: string, b: string, c: string)
    requires Less(a, b) && Less(b, c)
    ensures Less(a, c)
  {
    if a != [] && a[0] == b[0] && b[0] == c[0] {
      LessTransitive(a[1..], b[1..], c[1..]);
    }
  }

  lemma {:induction false} LessTotal(a: string, b: string)
    ensures a == b || Less(a, b) || Less(b, a)
  {
    if a != [] && b != [] && a[0] == b[0] {
      LessTotal(a[1..], b[1..]);
      if a[1..] == b[1..] {
        assert a == [a[0]] + a[1..] && b == [b[0]] + b[1..];
      }
    }
  }

  // ---- decimal rendering ----

  predicate IsDigit(c: char)
  {
    '0' <= c <= '9'
  }

  predicate AllDigits(s: string)
  {
    forall i :: 0 <= i < |s| ==> IsDigit(s[i])
  }

  function DigitChar(d: nat): (c: char)
    requires d < 10
    ensures IsDigit(c)
  {
    ('0' as int + d) as char
  }

  /** The number a string of decimal digits denotes. */
  function DecimalValue(s: string): nat
    requires AllDigits(s)
  {
    if s == [] then 0
    else DecimalValue(s[..|s| - 1]) * 10 + (s[|s| - 1] as int - '0' as int)
  }

  function Pow10(n: nat): (r: nat)
    ensures r >= 1
  {
    if n == 0 then 1 else 10 * Pow10(n - 1)
  }

  /** The last `width` decimal digits of `n`, with leading zeros (`format!("{:0w}")` for `n < 10^w`). */
  function PadDigits(n: nat, width: nat): (r: string)
    ensures |r| == width && AllDigits(r)
  {
    if width == 0 then "" else PadDigits(n / 10, width - 1) + [DigitChar(n % 10)]
  }

  /** Zero-padded rendering reads back as the number when the number fits the width. */
  lemma {:induction false} PadDigitsValue(n: nat, width: nat)
    requires n < Pow10(width)
    ensures DecimalValue(PadDigits(n, width)) == n
  {
    if width > 0 {
      var r := PadDigits(n, width);
      assert n / 10 < Pow10(width - 1);
      PadDigitsValue(n / 10, width - 1);
      assert r[..|r| - 1] == PadDigits(n / 10, width - 1);
    }
  }

  /** The shortest decimal rendering (JavaScript's `${n}` for a non-negative integer). */
  function NatToString(n: nat): (r: string)
    ensures |r| >= 1 && AllDigits(r)
    ensures r[0] == '0' ==> n == 0 && r == "0"
  {
    if n < 10 then [DigitChar(n)] else NatToString(n / 10) + [DigitChar(n % 10)]
  }

  lemma {:induction false} NatToStringValue(n: nat)
    ensures DecimalValue(NatToString(n)) == n
  {
    if n >= 10 {
      var r := NatToString(n);
      NatToStringValue(n / 10);
      assert r[..|r| - 1] == NatToString(n / 10);
    } else {
      assert NatToString(n)[..0] == "";
    }
  }
}

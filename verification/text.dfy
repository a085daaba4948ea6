/** The JavaScript string operations the client relies on, over `seq<char>`:
    `split` by a non-empty separator, `trim`, `startsWith`, `includes`,
    `toLowerCase` (ASCII letters only) and decimal formatting of a natural. */
module Text {

  // ---------------------------------------------------------------------------
  // Occurrences and `split`

  /** `sep` occurs in `s` starting at index `i`. */
  predicate Occurs(s: string, sep: string, i: int)
  {
    0 <= i && i + |sep| <= |s| && s[i..i + |sep|] == sep
  }

  /** `s` contains no occurrence of `sep`. */
  ghost predicate Free(s: string, sep: string)
  {
    forall i :: !Occurs(s, sep, i)
  }

  /** `String.prototype.split` with a non-empty string separator: a leftmost,
      non-overlapping scan; the text before each occurrence is one part and
      the text after the last occurrence is the final part. */
  function Split(s: string, sep: string): (parts: seq<string>)
    requires |sep| > 0
    ensures |parts| >= 1
    ensures parts[0] <= s
    decreases |s|
  {
    if |s| < |sep| then [s]
    else if s[..|sep|] == sep then [""] + Split(s[|sep|..], sep)
    else
      var rest := Split(s[1..], sep);
      [[s[0]] + rest[0]] + rest[1..]
  }

  /** The parts glued back together with the separator between them. */
  function Join(parts: seq<string>, sep: string): string
    requires |parts| >= 1
  {
    if |parts| == 1 then parts[0] else parts[0] + sep + Join(parts[1..], sep)
  }

  function Init<T>(xs: seq<T>): seq<T>
    requires |xs| >= 1
  {
    xs[..|xs| - 1]
  }

  function Last<T>(xs: seq<T>): T
    requires |xs| >= 1
  {
    xs[|xs| - 1]
  }

  /** A non-empty sequence is its initial part followed by its last element. */
  lemma InitThenLast<T>(xs: seq<T>)
    requires |xs| >= 1
    ensures xs == Init(xs) + [Last(xs)]
  {
    assert xs == xs[..|xs| - 1] + [xs[|xs| - 1]];
  }

  /** `split` loses nothing: joining the parts with the separator gives back
      the input. */
  lemma {:induction false} SplitJoin(s: string, sep: string)
    requires |sep| > 0
    ensures Join(Split(s, sep), sep) == s
    decreases |s|
  {
    if |s| < |sep| {
    } else if s[..|sep|] == sep {
      SplitAtSeparator(s, sep);
      SplitJoin(s[|sep|..], sep);
      JoinEmptyFirst(Split(s[|sep|..], sep), sep);
      assert s == sep + s[|sep|..];
    } else {
      SplitAtChar(s, sep);
      SplitJoin(s[1..], sep);
      JoinGlue(s[0], Split(s[1..], sep), sep);
      assert s == [s[0]] + s[1..];
    }
  }

  /** An empty first part contributes only the separator. */
  lemma JoinEmptyFirst(parts: seq<string>, sep: string)
    requires |parts| >= 1
    ensures Join([""] + parts, sep) == sep + Join(parts, sep)
  {
    assert ([""] + parts)[1..] == parts;
  }

  /** A character glued onto the first part comes first in the joined text. */
  lemma JoinGlue(c: char, parts: seq<string>, sep: string)
    requires |parts| >= 1
    ensures Join([[c] + parts[0]] + parts[1..], sep) == [c] + Join(parts, sep)
  {
    var glued := [[c] + parts[0]] + parts[1..];
    assert glued[1..] == parts[1..];
    if |parts| > 1 {
      assert ([c] + parts[0]) + sep + Join(parts[1..], sep) == [c] + (parts[0] + sep + Join(parts[1..], sep));
    }
  }

  /** Occurrence of the separator shifts with a one-character prefix. */
  lemma OccursShift(c: char, s: string, sep: string, i: int)
    requires Occurs(s, sep, i)
    ensures Occurs([c] + s, sep, i + 1)
  {
    assert ([c] + s)[i + 1..i + 1 + |sep|] == s[i..i + |sep|];
  }

  /** `split` cuts at every occurrence: no part contains the separator. */
  lemma {:induction false} SplitPartsFree(s: string, sep: string)
    requires |sep| > 0
    ensures forall k :: 0 <= k < |Split(s, sep)| ==> Free(Split(s, sep)[k], sep)
    decreases |s|
  {
    if |s| < |sep| {
      forall i ensures !Occurs(s, sep, i) {
      }
    } else if s[..|sep|] == sep {
      SplitPartsFree(s[|sep|..], sep);
      var rest := Split(s[|sep|..], sep);
      assert Split(s, sep) == [""] + rest;
      forall k | 0 <= k < |Split(s, sep)| ensures Free(Split(s, sep)[k], sep) {
        if k == 0 {
          assert Split(s, sep)[0] == "";
        } else {
          assert Split(s, sep)[k] == rest[k - 1];
        }
      }
    } else {
      SplitPartsFree(s[1..], sep);
      var rest := Split(s[1..], sep);
      var head := [s[0]] + rest[0];
      assert Split(s, sep) == [head] + rest[1..];
      assert head <= s by {
        assert rest[0] <= s[1..];
        assert s == [s[0]] + s[1..];
      }
      forall i ensures !Occurs(head, sep, i) {
        if i == 0 && |sep| <= |head| {
          assert head[..|sep|] == s[..|sep|];
        } else if 0 < i && i + |sep| <= |head| {
          assert head[i..i + |sep|] == rest[0][i - 1..i - 1 + |sep|];
          assert !Occurs(rest[0], sep, i - 1);
        }
      }
      forall k | 0 <= k < |Split(s, sep)| ensures Free(Split(s, sep)[k], sep) {
        if k > 0 {
          assert Split(s, sep)[k] == rest[k];
        }
      }
    }
  }

  /** A text without the separator is its own single part. */
  lemma {:induction false} SplitOfFree(s: string, sep: string)
    requires |sep| > 0
    requires Free(s, sep)
    ensures Split(s, sep) == [s]
    decreases |s|
  {
    if |s| < |sep| {
    } else if s[..|sep|] == sep {
      assert Occurs(s, sep, 0);
    } else {
      forall i ensures !Occurs(s[1..], sep, i) {
        if 0 <= i && i + |sep| <= |s| - 1 {
          assert s[1..][i..i + |sep|] == s[i + 1..i + 1 + |sep|];
          assert !Occurs(s, sep, i + 1);
        }
      }
      SplitOfFree(s[1..], sep);
      assert [s[0]] + s[1..] == s;
    }
  }

  /** Splitting yields a single part exactly when the separator is absent. */
  lemma SplitSingleIff(s: string, sep: string)
    requires |sep| > 0
    ensures |Split(s, sep)| == 1 <==> Free(s, sep)
  {
    if Free(s, sep) {
      SplitOfFree(s, sep);
    }
    if |Split(s, sep)| == 1 {
      SplitPartsFree(s, sep);
      SplitJoin(s, sep);
    }
  }

  /** One unfolding of `split` when the text starts with the separator. */
  lemma SplitAtSeparator(s: string, sep: string)
    requires |sep| > 0 && |s| >= |sep| && s[..|sep|] == sep
    ensures Split(s, sep) == [""] + Split(s[|sep|..], sep)
  {
  }

  /** One unfolding of `split` when the text does not start with the
      separator: the first character joins the first part of the rest. */
  lemma SplitAtChar(s: string, sep: string)
    requires |sep| > 0 && |s| >= |sep| && s[..|sep|] != sep
    ensures Split(s, sep) == [[s[0]] + Split(s[1..], sep)[0]] + Split(s[1..], sep)[1..]
  {
  }

  lemma InitLastCons<T>(x: T, xs: seq<T>)
    requires |xs| >= 1
    ensures Init([x] + xs) == [x] + Init(xs)
    ensures Last([x] + xs) == Last(xs)
  {
  }

  /** Shape of `SplitAppend`: the parts of `t + c` are the complete parts
      of `t` followed by the parts of its last part extended by `c`. */
  ghost predicate AppendLaw(t: string, c: string, sep: string)
    requires |sep| > 0
  {
    Split(t + c, sep) == Init(Split(t, sep)) + Split(Last(Split(t, sep)) + c, sep)
  }

  /** Inductive step of `SplitAppend` when `t` starts with the separator. */
  lemma SplitAppendSepStep(t: string, c: string, sep: string)
    requires |sep| > 0 && |t| >= |sep| && t[..|sep|] == sep
    requires AppendLaw(t[|sep|..], c, sep)
    ensures AppendLaw(t, c, sep)
  {
    var u := t + c;
    assert u[..|sep|] == sep;
    assert u[|sep|..] == t[|sep|..] + c;
    SplitAtSeparator(t, sep);
    SplitAtSeparator(u, sep);
    InitLastCons("", Split(t[|sep|..], sep));
  }

  /** Sequence bookkeeping for the character case of `SplitAppend`: a
      character glued onto the first part commutes with dropping the last
      part. */
  lemma GlueFirst(h: string, r: seq<string>, r2: seq<string>, x: seq<string>)
    requires |r| >= 2 && r2 == Init(r) + x
    ensures [h + r2[0]] + r2[1..] == Init([h + r[0]] + r[1..]) + x
    ensures Last([h + r[0]] + r[1..]) == Last(r)
  {
    assert r2[0] == r[0];
    assert r2[1..] == Init(r)[1..] + x;
    assert Init([h + r[0]] + r[1..]) == [h + r[0]] + Init(r)[1..];
  }

  /** Inductive step of `SplitAppend` when `t` does not start with the
      separator. */
  lemma SplitAppendCharStep(t: string, c: string, sep: string)
    requires |sep| > 0 && |t| >= |sep| && t[..|sep|] != sep
    requires AppendLaw(t[1..], c, sep)
    ensures AppendLaw(t, c, sep)
  {
    var u := t + c;
    assert u[..|sep|] == t[..|sep|];
    assert u[1..] == t[1..] + c;
    assert u[0] == t[0];
    SplitAtChar(t, sep);
    SplitAtChar(u, sep);
    var r := Split(t[1..], sep);
    if |r| == 1 {
      SplitJoin(t[1..], sep);
      assert [t[0]] + t[1..] == t;
      assert Split(t, sep) == [t];
    } else {
      GlueFirst([t[0]], r, Split(u[1..], sep), Split(Last(r) + c, sep));
    }
  }

  /** Appending text to the input can only change the last part and what
      follows it: the complete parts before the last one stay as they are.
      This is what lets a buffered reader keep its trailing fragment and
      re-split it together with the next chunk. */
  lemma {:induction false} SplitAppend(t: string, c: string, sep: string)
    requires |sep| > 0
    ensures Split(t + c, sep)
         == Init(Split(t, sep)) + Split(Last(Split(t, sep)) + c, sep)
    decreases |t|
  {
    if |t| < |sep| {
      assert Split(t, sep) == [t];
    } else if t[..|sep|] == sep {
      SplitAppend(t[|sep|..], c, sep);
      SplitAppendSepStep(t, c, sep);
    } else {
      SplitAppend(t[1..], c, sep);
      SplitAppendCharStep(t, c, sep);
    }
  }

  // ---------------------------------------------------------------------------
  // `trim`

  /** ECMAScript white space and line terminators: the characters `trim`
      removes. */
  predicate IsJsSpace(c: char)
  {
    var n := c as int;
    n == 0x09 || n == 0x0A || n == 0x0B || n == 0x0C || n == 0x0D
    || n == 0x20 || n == 0xA0 || n == 0x1680 || (0x2000 <= n <= 0x200A)
    || n == 0x2028 || n == 0x2029 || n == 0x202F || n == 0x205F
    || n == 0x3000 || n == 0xFEFF
  }

  /** Every character of `s` from `lo` up to, not including, `hi` is white
      space. */
  ghost predicate SpaceBetween(s: string, lo: int, hi: int)
    requires 0 <= lo && hi <= |s|
  {
    forall i :: lo <= i < hi ==> IsJsSpace(s[i])
  }

  ghost predicate AllSpace(s: string)
  {
    SpaceBetween(s, 0, |s|)
  }

  /** Drops leading white space: the result is a suffix of `s`, everything
      dropped was white space, and the result does not start with any. */
  function TrimStart(s: string): (r: string)
    ensures |r| <= |s| && r == s[|s| - |r|..]
    ensures SpaceBetween(s, 0, |s| - |r|)
    ensures r == [] || !IsJsSpace(r[0])
    decreases |s|
  {
    if s == [] || !IsJsSpace(s[0]) then s else TrimStart(s[1..])
  }

  /** Drops trailing white space: the result is a prefix of `s`, everything
      dropped was white space, and the result does not end with any. */
  function TrimEnd(s: string): (r: string)
    ensures r <= s
    ensures SpaceBetween(s, |r|, |s|)
    ensures r == [] || !IsJsSpace(r[|r| - 1])
    decreases |s|
  {
    if s == [] || !IsJsSpace(s[|s| - 1]) then s else TrimEnd(s[..|s| - 1])
  }

  /** Gluing the two halves of `trim` together: `s` is white space up to `k`,
      then `a`, and `r` is `a` with white space cut from its end. */
  lemma TrimHalves(s: string, k: nat, a: string, r: string)
    requires k <= |s| && a == s[k..] && SpaceBetween(s, 0, k)
    requires a == [] || !IsJsSpace(a[0])
    requires r <= a && SpaceBetween(a, |r|, |a|)
    requires r == [] || !IsJsSpace(r[|r| - 1])
    ensures r == [] <==> AllSpace(s)
    ensures r != [] ==> !IsJsSpace(r[0]) && !IsJsSpace(r[|r| - 1])
  {
    if r != [] {
      assert r[0] == a[0];
      assert a[0] == s[k];
    }
  }

  /** `r` is a stretch of `s` with only white space before and after it. */
  ghost predicate TrimmedFrom(s: string, r: string)
  {
    exists i :: 0 <= i && i + |r| <= |s| && s[i..i + |r|] == r &&
      SpaceBetween(s, 0, i) && SpaceBetween(s, i + |r|, |s|)
  }

  /** The two halves of `trim` cut white space only. */
  lemma TrimHalvesSlice(s: string, k: nat, a: string, r: string)
    requires k <= |s| && a == s[k..] && SpaceBetween(s, 0, k)
    requires r <= a && SpaceBetween(a, |r|, |a|)
    ensures TrimmedFrom(s, r)
  {
    assert s[k..k + |r|] == r;
    forall i | k + |r| <= i < |s| ensures IsJsSpace(s[i]) {
      assert s[i] == a[i - k];
    }
  }

  /** `String.prototype.trim`: the result is blank exactly when the input is
      all white space, and otherwise neither starts nor ends with any. */
  function Trim(s: string): (r: string)
    ensures r == [] <==> AllSpace(s)
    ensures r != [] ==> !IsJsSpace(r[0]) && !IsJsSpace(r[|r| - 1])
    ensures |r| <= |s|
  {
    var a := TrimStart(s);
    var r := TrimEnd(a);
    TrimHalves(s, |s| - |a|, a, r);
    r
  }

  /** `trim` cuts white space from both ends and nothing else. */
  lemma TrimSlice(s: string)
    ensures TrimmedFrom(s, Trim(s))
  {
    var a := TrimStart(s);
    TrimHalvesSlice(s, |s| - |a|, a, TrimEnd(a));
  }

  // ---------------------------------------------------------------------------
  // `startsWith`, `includes`, `toLowerCase`

  /** `String.prototype.startsWith`. */
  predicate StartsWith(s: string, prefix: string)
  {
    prefix <= s
  }

  /** `String.prototype.includes`, as a left-to-right scan. */
  predicate Includes(s: string, sub: string)
    decreases |s|
  {
    StartsWith(s, sub) || (|s| > 0 && Includes(s[1..], sub))
  }

  /** The scan finds `sub` exactly when it occurs somewhere in `s`. */
  lemma {:induction false} IncludesIff(s: string, sub: string)
    ensures Includes(s, sub) <==> exists i :: Occurs(s, sub, i)
    decreases |s|
  {
    if StartsWith(s, sub) {
      assert Occurs(s, sub, 0);
    } else if |s| > 0 {
      IncludesIff(s[1..], sub);
      if Includes(s[1..], sub) {
        var i :| Occurs(s[1..], sub, i);
        OccursShift(s[0], s[1..], sub, i);
        assert [s[0]] + s[1..] == s;
      }
      if exists i :: Occurs(s, sub, i) {
        var i :| Occurs(s, sub, i);
        assert !Occurs(s, sub, 0);
        assert s[1..][i - 1..i - 1 + |sub|] == s[i..i + |sub|];
        assert Occurs(s[1..], sub, i - 1);
      }
    }
  }

  /** Lower-cases one character; only ASCII letters have a case here. */
  function LowerChar(c: char): (d: char)
    ensures 'A' <= c <= 'Z' ==> 'a' <= d <= 'z'
    ensures !('A' <= c <= 'Z') ==> d == c
  {
    if 'A' <= c <= 'Z' then (c as int + 32) as char else c
  }

  /** `String.prototype.toLowerCase` restricted to ASCII letters. */
  function ToLower(s: string): (r: string)
    ensures |r| == |s|
    ensures forall i :: 0 <= i < |s| ==> r[i] == LowerChar(s[i])
  {
    seq(|s|, i requires 0 <= i < |s| => LowerChar(s[i]))
  }

  /** Lower-casing twice is lower-casing once. */
  lemma ToLowerIdempotent(s: string)
    ensures ToLower(ToLower(s)) == ToLower(s)
  {
  }

  // ---------------------------------------------------------------------------
  // Decimal formatting (template literals `${n}`)

  function Digit(d: nat): (c: char)
    requires d < 10
    ensures '0' <= c <= '9'
  {
    ('0' as int + d) as char
  }

  /** The decimal spelling of `n`, as a template literal prints it. */
  function Decimal(n: nat): (s: string)
    ensures |s| >= 1
    ensures '0' <= s[|s| - 1] <= '9'
    ensures n < 10 <==> |s| == 1
    decreases n
  {
    if n < 10 then [Digit(n)] else Decimal(n / 10) + [Digit(n % 10)]
  }

  /** Distinct numbers have distinct spellings. */
  lemma {:induction false} DecimalInjective(a: nat, b: nat)
    ensures Decimal(a) == Decimal(b) ==> a == b
    decreases a
  {
    if Decimal(a) == Decimal(b) {
      if a < 10 {
        assert [Digit(a)] == Decimal(b);
      } else {
        var sa := Decimal(a);
        var sb := Decimal(b);
        assert b >= 10;
        assert sa[|sa| - 1] == Digit(a % 10);
        assert sb[|sb| - 1] == Digit(b % 10);
        assert a % 10 == b % 10;
        assert sa[..|sa| - 1] == Decimal(a / 10);
        assert sb[..|sb| - 1] == Decimal(b / 10);
        DecimalInjective(a / 10, b / 10);
      }
    }
  }
}

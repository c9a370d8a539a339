/** The string operations the localization view relies on: `int.ToString`
    with the invariant culture, the dotted position label, and the ordinal
    `LastIndexOf("//")` / `Replace("//", "")` pair that derives a page's path. */
module Text {
  import opened Sequences

  predicate IsDigit(c: char)
  {
    '0' <= c <= '9'
  }

  predicate AllDigits(s: string)
  {
    forall i :: 0 <= i < |s| ==> IsDigit(s[i])
  }

  /** The decimal digit for `d`. */
  function Digit(d: nat): (c: char)
    requires d < 10
    ensures IsDigit(c) && c as int - '0' as int == d
  {
    ('0' as int + d) as char
  }

  /** `n.ToString(CultureInfo.InvariantCulture)` for a non-negative `n`. */
  function NatToString(n: nat): (s: string)
    ensures |s| >= 1 && AllDigits(s)
    ensures '.' !in s
    ensures |s| == 1 <==> n < 10
    ensures s[0] == '0' <==> n == 0
    ensures |s| > 1 ==> s[0] != '0'
  {
    if n < 10 then [Digit(n)] else NatToString(n / 10) + [Digit(n % 10)]
  }

  /** The number a string of decimal digits denotes. */
  function DigitsValue(s: string): (r: nat)
    requires AllDigits(s)
  {
    if s == [] then 0
    else 10 * DigitsValue(s[..|s| - 1]) + (s[|s| - 1] as int - '0' as int)
  }

  /** Reading back the printed number gives the number. */
  lemma {:induction false} NatToStringRoundTrip(n: nat)
    ensures DigitsValue(NatToString(n)) == n
  {
    if n >= 10 {
      NatToStringRoundTrip(n / 10);
      var s := NatToString(n);
      assert s[..|s| - 1] == NatToString(n / 10);
    }
  }

  /** Different numbers print differently. */
  lemma NatToStringInjective(m: nat, n: nat)
    requires NatToString(m) == NatToString(n)
    ensures m == n
  {
    NatToStringRoundTrip(m);
    NatToStringRoundTrip(n);
  }

  /** `string.Join(".", parts)` for a non-empty list of parts. */
  function JoinDots(parts: seq<string>): (r: string)
    requires |parts| >= 1
  {
    if |parts| == 1 then parts[0] else parts[0] + "." + JoinDots(parts[1..])
  }

  /** `s.Split('.')`. */
  function SplitDots(s: string): (parts: seq<string>)
    ensures |parts| >= 1
    decreases |s|
  {
    var i := IndexOf(s, '.');
    if i < 0 then [s] else [s[..i]] + SplitDots(s[i + 1..])
  }

  lemma {:induction false} IndexOfFirstDot(p: string, rest: string)
    requires '.' !in p
    ensures IndexOf(p + "." + rest, '.') == |p|
  {
    if p != [] {
      assert (p + "." + rest)[1..] == p[1..] + "." + rest;
      IndexOfFirstDot(p[1..], rest);
    }
  }

  lemma SplitDotsCons(p: string, rest: string)
    requires '.' !in p
    ensures SplitDots(p + "." + rest) == [p] + SplitDots(rest)
  {
    var s := p + "." + rest;
    IndexOfFirstDot(p, rest);
    assert s[..|p|] == p;
    assert s[|p| + 1..] == rest;
  }

  /** A dotted label splits back into the parts it was joined from, as long as
      no part holds a dot. */
  lemma {:induction false} SplitJoinDots(parts: seq<string>)
    requires |parts| >= 1
    requires forall i :: 0 <= i < |parts| ==> '.' !in parts[i]
    ensures SplitDots(JoinDots(parts)) == parts
  {
    if |parts| > 1 {
      var tail := parts[1..];
      assert '.' !in parts[0];
      SplitDotsCons(parts[0], JoinDots(tail));
      assert forall i :: 0 <= i < |tail| ==> '.' !in tail[i] by {
        forall i | 0 <= i < |tail| ensures '.' !in tail[i] {
          assert tail[i] == parts[i + 1];
        }
      }
      SplitJoinDots(tail);
      assert parts == [parts[0]] + tail;
    } else {
      assert '.' !in parts[0];
    }
  }

  /** Ordinal "//" starts at position `i` of `s`. */
  predicate DoubleSlashAt(s: string, i: int)
  {
    0 <= i && i + 1 < |s| && s[i] == '/' && s[i + 1] == '/'
  }

  predicate HasDoubleSlash(s: string)
  {
    exists i :: 0 <= i < |s| && DoubleSlashAt(s, i)
  }

  /** `s.LastIndexOf("//", StringComparison.Ordinal)`: the greatest position
      where "//" starts, or -1 when there is none. */
  function LastIndexOfDoubleSlash(s: string): (i: int)
    ensures -1 <= i < |s|
    ensures i >= 0 ==> DoubleSlashAt(s, i)
    ensures forall j :: i < j < |s| ==> !DoubleSlashAt(s, j)
    ensures i == -1 <==> !HasDoubleSlash(s)
  {
    if |s| < 2 then -1
    else if s[|s| - 2] == '/' && s[|s| - 1] == '/' then
      assert DoubleSlashAt(s, |s| - 2);
      |s| - 2
    else
      var r := LastIndexOfDoubleSlash(s[..|s| - 1]);
      assert forall j :: 0 <= j < |s| - 2 ==> (DoubleSlashAt(s[..|s| - 1], j) <==> DoubleSlashAt(s, j));
      r
  }

  /** `s.Replace("//", "")`: scans left to right and drops each "//" it meets. */
  function RemoveDoubleSlashes(s: string): (r: string)
    ensures |r| <= |s|
  {
    if |s| >= 2 && s[0] == '/' && s[1] == '/' then RemoveDoubleSlashes(s[2..])
    else if s == [] then []
    else [s[0]] + RemoveDoubleSlashes(s[1..])
  }

  /** Replace leaves no "//" behind: a single slash is kept only when the next
      character is not a slash, and that character is kept too. */
  lemma {:induction false} RemoveDoubleSlashesLeavesNone(s: string)
    ensures !HasDoubleSlash(RemoveDoubleSlashes(s))
  {
    if |s| >= 2 && s[0] == '/' && s[1] == '/' {
      RemoveDoubleSlashesLeavesNone(s[2..]);
    } else if s != [] {
      var tail := RemoveDoubleSlashes(s[1..]);
      RemoveDoubleSlashesLeavesNone(s[1..]);
      var r := [s[0]] + tail;
      if s[0] == '/' && tail != [] {
        assert |s| >= 2 && s[1] != '/';
        assert tail == [s[1]] + RemoveDoubleSlashes(s[2..]);
        assert r[1] != '/';
      }
      forall i | 0 <= i < |r| ensures !DoubleSlashAt(r, i) {
        if i > 0 {
          assert DoubleSlashAt(r, i) ==> DoubleSlashAt(tail, i - 1);
        }
      }
    }
  }

  predicate NotSlash(c: char)
  {
    c != '/'
  }

  /** Replace drops slashes only: every other character is kept, in order. */
  lemma {:induction false} RemoveDoubleSlashesKeepsOthers(s: string)
    ensures Filter(RemoveDoubleSlashes(s), NotSlash) == Filter(s, NotSlash)
  {
    if |s| >= 2 && s[0] == '/' && s[1] == '/' {
      RemoveDoubleSlashesKeepsOthers(s[2..]);
      assert s == [s[0], s[1]] + s[2..];
      FilterAppend([s[0], s[1]], s[2..], NotSlash);
      assert [s[0], s[1]][1..] == [s[1]];
    } else if s != [] {
      RemoveDoubleSlashesKeepsOthers(s[1..]);
      FilterAppend([s[0]], RemoveDoubleSlashes(s[1..]), NotSlash);
      assert s == [s[0]] + s[1..];
      FilterAppend([s[0]], s[1..], NotSlash);
    }
  }

  /** On a string with no "//", Replace changes nothing. */
  lemma {:induction false} RemoveDoubleSlashesIdentity(s: string)
    requires !HasDoubleSlash(s)
    ensures RemoveDoubleSlashes(s) == s
  {
    if s != [] {
      assert !DoubleSlashAt(s, 0);
      assert !HasDoubleSlash(s[1..]) by {
        forall i | 0 <= i < |s[1..]| ensures !DoubleSlashAt(s[1..], i) {
          assert !DoubleSlashAt(s, i + 1);
        }
      }
      RemoveDoubleSlashesIdentity(s[1..]);
    }
  }

  /** So Replace is idempotent. */
  lemma RemoveDoubleSlashesIdempotent(s: string)
    ensures RemoveDoubleSlashes(RemoveDoubleSlashes(s)) == RemoveDoubleSlashes(s)
  {
    RemoveDoubleSlashesLeavesNone(s);
    RemoveDoubleSlashesIdentity(RemoveDoubleSlashes(s));
  }
}

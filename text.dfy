/**
 * String operations the application relies on, as Python performs them:
 * `str.strip()`, `str.join`, splitting a rendered table back into lines,
 * and the code-point order used both by Python's `sorted` on names and by
 * SQLite's default (binary, UTF-8) collation on dates and timestamps.
 */
module Text {

  /** The characters Python's `str.isspace()` accepts, hence those `strip()` removes. */
  predicate IsSpace(c: char)
  {
    var n := c as int;
    (9 <= n <= 13) || (28 <= n <= 32) || n == 0x85 || n == 0xA0 || n == 0x1680
    || (0x2000 <= n <= 0x200A) || n == 0x2028 || n == 0x2029 || n == 0x202F
    || n == 0x205F || n == 0x3000
  }

  predicate AllSpace(s: string)
  {
    forall i | 0 <= i < |s| :: IsSpace(s[i])
  }

  lemma AllSpaceCons(c: char, s: string)
    ensures AllSpace([c] + s) <==> IsSpace(c) && AllSpace(s)
  {
    if IsSpace(c) && AllSpace(s) {
      forall i | 0 <= i < |s| + 1 ensures IsSpace(([c] + s)[i]) {
        if i > 0 {
          assert ([c] + s)[i] == s[i - 1];
        }
      }
    }
    if AllSpace([c] + s) {
      forall i | 0 <= i < |s| ensures IsSpace(s[i]) {
        assert ([c] + s)[i + 1] == s[i];
      }
      assert ([c] + s)[0] == c;
    }
  }

  lemma AllSpaceSnoc(s: string, c: char)
    ensures AllSpace(s + [c]) <==> AllSpace(s) && IsSpace(c)
  {
    if AllSpace(s + [c]) {
      forall i | 0 <= i < |s| ensures IsSpace(s[i]) {
        assert (s + [c])[i] == s[i];
      }
      assert (s + [c])[|s|] == c;
    }
  }

  /** Trimming `s` when it starts with whitespace gives what trimming `s[1..]` gives. */
  lemma TrimStartStep(s: string, r: string)
    requires s != [] && IsSpace(s[0])
    requires |r| <= |s| - 1 && r == s[1..][|s| - 1 - |r|..] && AllSpace(s[1..][..|s| - 1 - |r|])
    requires r == [] <==> AllSpace(s[1..])
    ensures r == s[|s| - |r|..] && AllSpace(s[..|s| - |r|]) && (r == [] <==> AllSpace(s))
  {
    var u := s[1..];
    assert s == [s[0]] + u;
    assert s[|s| - |r|..] == u[|u| - |r|..];
    assert s[..|s| - |r|] == [s[0]] + u[..|u| - |r|];
    AllSpaceCons(s[0], u[..|u| - |r|]);
    AllSpaceCons(s[0], u);
  }

  /** Trimming `u + [c]` for a whitespace `c` at the end gives what trimming `u` gives. */
  lemma TrimEndStep(u: string, c: char, r: string)
    requires IsSpace(c)
    requires |r| <= |u| && r == u[..|r|] && AllSpace(u[|r|..]) && (r == [] <==> AllSpace(u))
    ensures var s := u + [c]; r == s[..|r|] && AllSpace(s[|r|..]) && (r == [] <==> AllSpace(s))
  {
    var s := u + [c];
    assert s[..|r|] == u[..|r|];
    assert s[|r|..] == u[|r|..] + [c];
    AllSpaceSnoc(u[|r|..], c);
    AllSpaceSnoc(u, c);
  }

  /** A string that is empty or starts or ends visibly is all whitespace only when empty. */
  lemma TrimStop(s: string)
    requires s == [] || !IsSpace(s[0]) || !IsSpace(s[|s| - 1])
    ensures AllSpace(s[..0]) && AllSpace(s[|s|..])
    ensures s == [] <==> AllSpace(s)
  {
    assert s[..0] == [] && s[|s|..] == [];
  }

  /** `s.lstrip()`: the longest suffix of `s` that does not start with whitespace. */
  function TrimStart(s: string): (r: string)
    ensures |r| <= |s| && r == s[|s| - |r|..]
    ensures AllSpace(s[..|s| - |r|])
    ensures r != [] ==> !IsSpace(r[0])
    ensures r == [] <==> AllSpace(s)
  {
    if s != [] && IsSpace(s[0]) then
      var r := TrimStart(s[1..]);
      TrimStartStep(s, r);
      r
    else
      TrimStop(s);
      s
  }

  /** `s.rstrip()`: the longest prefix of `s` that does not end with whitespace. */
  function TrimEnd(s: string): (r: string)
    ensures |r| <= |s| && r == s[..|r|]
    ensures AllSpace(s[|r|..])
    ensures r != [] ==> !IsSpace(r[|r| - 1])
    ensures r == [] <==> AllSpace(s)
  {
    if s != [] && IsSpace(s[|s| - 1]) then
      var r := TrimEnd(s[..|s| - 1]);
      assert s == s[..|s| - 1] + [s[|s| - 1]];
      TrimEndStep(s[..|s| - 1], s[|s| - 1], r);
      r
    else
      TrimStop(s);
      s
  }

  /**
   * Cutting a whitespace prefix off `s`, giving `t`, and then a whitespace
   * suffix off `t`, giving `r`, leaves a slice of `s` between a whitespace
   * prefix and a whitespace suffix.
   */
  lemma CutBothEnds(s: string, t: string, r: string)
    requires |t| <= |s| && t == s[|s| - |t|..] && AllSpace(s[..|s| - |t|])
    requires |r| <= |t| && r == t[..|r|] && AllSpace(t[|r|..])
    ensures exists i, j | 0 <= i <= j <= |s| :: r == s[i..j] && AllSpace(s[..i]) && AllSpace(s[j..])
  {
    var i := |s| - |t|;
    var j := i + |r|;
    assert r == s[i..j];
    assert s[j..] == t[|r|..];
  }

  /**
   * `s.strip()`: the input with its leading and trailing whitespace cut off;
   * empty exactly for all-whitespace input, otherwise starting and ending visibly.
   */
  function Strip(s: string): (r: string)
    ensures exists i, j | 0 <= i <= j <= |s| :: r == s[i..j] && AllSpace(s[..i]) && AllSpace(s[j..])
    ensures r == [] <==> AllSpace(s)
    ensures r != [] ==> !IsSpace(r[0]) && !IsSpace(r[|r| - 1])
  {
    var t := TrimStart(s);
    var r := TrimEnd(t);
    assert r != [] ==> r[0] == t[0];
    assert t != [] ==> !AllSpace(t);
    CutBothEnds(s, t, r);
    r
  }

  /** A string with no whitespace at either end is left as it is by `strip()`. */
  lemma StripUnchanged(s: string)
    requires s != [] ==> !IsSpace(s[0]) && !IsSpace(s[|s| - 1])
    ensures Strip(s) == s
  {
    assert TrimStart(s) == s;
  }

  /** Stripping twice is stripping once. */
  lemma StripIdempotent(s: string)
    ensures Strip(Strip(s)) == Strip(s)
  {
    StripUnchanged(Strip(s));
  }

  /** `sep.join(parts)`. */
  function Join(sep: string, parts: seq<string>): string
  {
    if |parts| == 0 then ""
    else if |parts| == 1 then parts[0]
    else parts[0] + sep + Join(sep, parts[1..])
  }

  /** Joining never creates a character that neither the separator nor a part holds. */
  lemma {:induction false} JoinAvoids(sep: string, parts: seq<string>, c: char)
    requires c !in sep
    requires forall k | 0 <= k < |parts| :: c !in parts[k]
    ensures c !in Join(sep, parts)
  {
    if |parts| > 1 {
      JoinAvoids(sep, parts[1..], c);
    }
  }

  /** `s.split(c)` for a one-character separator. */
  function Split(s: string, c: char): (r: seq<string>)
    ensures |r| >= 1
  {
    if s == [] then [""]
    else
      var rest := Split(s[1..], c);
      if s[0] == c then [""] + rest else [[s[0]] + rest[0]] + rest[1..]
  }

  lemma {:induction false} SplitWithout(p: string, c: char)
    requires c !in p
    ensures Split(p, c) == [p]
  {
    if p != [] {
      SplitWithout(p[1..], c);
      assert [p[0]] + p[1..] == p;
    }
  }

  lemma {:induction false} SplitAfterPart(p: string, rest: string, c: char)
    requires c !in p
    ensures Split(p + [c] + rest, c) == [p] + Split(rest, c)
  {
    var s := p + [c] + rest;
    if p == [] {
      assert s[1..] == rest;
    } else {
      assert s[1..] == p[1..] + [c] + rest;
      SplitAfterPart(p[1..], rest, c);
      assert [p[0]] + p[1..] == p;
    }
  }

  /** Splitting a newline-joined text gives back its lines, provided no line holds the separator. */
  lemma {:induction false} SplitJoin(parts: seq<string>, c: char)
    requires |parts| >= 1
    requires forall k | 0 <= k < |parts| :: c !in parts[k]
    ensures Split(Join([c], parts), c) == parts
  {
    if |parts| == 1 {
      SplitWithout(parts[0], c);
    } else {
      SplitJoin(parts[1..], c);
      SplitAfterPart(parts[0], Join([c], parts[1..]), c);
      assert parts == [parts[0]] + parts[1..];
    }
  }

  /**
   * Strict lexicographic order on code points. Python compares `str` this
   * way, and SQLite's binary collation on UTF-8 text gives the same order.
   */
  predicate Less(a: string, b: string)
  {
    if |b| == 0 then false
    else if |a| == 0 then true
    else if a[0] != b[0] then a[0] < b[0]
    else Less(a[1..], b[1..])
  }

  lemma {:induction false} LessIrreflexive(a: string)
    ensures !Less(a, a)
  {
    if |a| > 0 {
      LessIrreflexive(a[1..]);
    }
  }

  lemma {:induction false} LessTransitive(a: string, b: string, c: string)
    requires Less(a, b) && Less(b, c)
    ensures Less(a, c)
  {
    if |a| > 0 && a[0] == b[0] && b[0] == c[0] {
      LessTransitive(a[1..], b[1..], c[1..]);
    }
  }

  lemma {:induction false} LessTotal(a: string, b: string)
    ensures a == b || Less(a, b) || Less(b, a)
  {
    if |a| > 0 && |b| > 0 && a[0] == b[0] {
      LessTotal(a[1..], b[1..]);
      if a[1..] == b[1..] {
        assert a == [a[0]] + a[1..] && b == [b[0]] + b[1..];
      }
    }
  }

  lemma {:induction false} LessAsymmetric(a: string, b: string)
    requires Less(a, b)
    ensures !Less(b, a)
  {
    if |a| > 0 && a[0] == b[0] {
      LessAsymmetric(a[1..], b[1..]);
    }
  }

  /** "Not older than": the non-strict converse of `Less`, and it is transitive. */
  lemma AtLeastTransitive(a: string, b: string, c: string)
    requires !Less(a, b) && !Less(b, c)
    ensures !Less(a, c)
  {
    LessTotal(a, b);
    LessTotal(b, c);
    if Less(c, a) {
      LessAsymmetric(c, a);
    } else if a != c {
      if a == b {
      } else if b == c {
      } else {
        LessTransitive(c, b, a);
        LessAsymmetric(c, a);
      }
    }
  }

  /** Strictly increasing in code-point order, hence free of repeats. */
  predicate Ascending(s: seq<string>)
  {
    forall i, j | 0 <= i < j < |s| :: Less(s[i], s[j])
  }
}

/** The three Python `str` operations the reviewer parser relies on, as pure
    functions on `seq<char>`: `strip()` with no argument, `split(sep)` and
    `split(sep, 1)`, together with `join`, which is their inverse. */
module PyStr {

  /** Python's `str.isspace()` for a single character: the control characters
      U+0009..U+000D and U+001C..U+001F, the space, U+0085, U+00A0 and the
      Unicode space separators, line and paragraph separators. */
  predicate IsWs(c: char) {
    var n := c as int;
    (9 <= n <= 13) || (28 <= n <= 32) || n == 0x85 || n == 0xA0 || n == 0x1680
    || (0x2000 <= n <= 0x200A) || n == 0x2028 || n == 0x2029 || n == 0x202F
    || n == 0x205F || n == 0x3000
  }

  predicate AllWs(s: string) {
    forall i :: 0 <= i < |s| ==> IsWs(s[i])
  }

  /** No whitespace at either end: what `strip()` returns. */
  predicate IsStripped(s: string) {
    s == [] || (!IsWs(s[0]) && !IsWs(s[|s| - 1]))
  }

  /** `s` with its leading whitespace removed (Python `lstrip()`). */
  function TrimStart(s: string): string
    decreases |s|
  {
    if s != [] && IsWs(s[0]) then TrimStart(s[1..]) else s
  }

  /** `lstrip()` removes a whitespace prefix and leaves nothing or a
      non-whitespace character in front. */
  lemma {:induction false} TrimStartSpec(s: string)
    ensures var r := TrimStart(s);
            |r| <= |s| && r == s[|s| - |r|..] && AllWs(s[..|s| - |r|]) && (r == [] || !IsWs(r[0]))
    decreases |s|
  {
    if s != [] && IsWs(s[0]) {
      TrimStartSpec(s[1..]);
      var r := TrimStart(s[1..]);
      assert s[..|s| - |r|] == [s[0]] + s[1..][..|s| - 1 - |r|];
    }
  }

  /** `s` with its trailing whitespace removed (Python `rstrip()`). */
  function TrimEnd(s: string): string
    decreases |s|
  {
    if s != [] && IsWs(s[|s| - 1]) then TrimEnd(s[..|s| - 1]) else s
  }

  /** `rstrip()` removes a whitespace suffix and leaves nothing or a
      non-whitespace character at the end. */
  lemma {:induction false} TrimEndSpec(s: string)
    ensures var r := TrimEnd(s);
            |r| <= |s| && r == s[..|r|] && AllWs(s[|r|..]) && (r == [] || !IsWs(r[|r| - 1]))
    decreases |s|
  {
    if s != [] && IsWs(s[|s| - 1]) {
      TrimEndSpec(s[..|s| - 1]);
      var r := TrimEnd(s[..|s| - 1]);
      assert s[|r|..] == s[..|s| - 1][|r|..] + [s[|s| - 1]];
    }
  }

  /** Python `str.strip()`. */
  function Strip(s: string): (r: string)
    ensures IsStripped(r)
  {
    TrimStartSpec(s);
    TrimEndSpec(TrimStart(s));
    TrimEnd(TrimStart(s))
  }

  /** What `strip()` returns is an infix of `s` whose surroundings in `s` are
      all whitespace. */
  lemma StripInfix(s: string)
    ensures exists i :: 0 <= i <= |s| - |Strip(s)| && Strip(s) == s[i..i + |Strip(s)|]
                        && AllWs(s[..i]) && AllWs(s[i + |Strip(s)|..])
  {
    var u := TrimStart(s);
    var r := TrimEnd(u);
    TrimStartSpec(s);
    TrimEndSpec(u);
    var i := |s| - |u|;
    assert r == s[i..i + |r|];
    assert s[i + |r|..] == u[|r|..];
  }

  /** Leading whitespace in front of a string that starts with a
      non-whitespace character is exactly what `lstrip()` removes. */
  lemma {:induction false} TrimStartOf(a: string, u: string)
    requires AllWs(a)
    requires u == [] || !IsWs(u[0])
    ensures TrimStart(a + u) == u
    decreases |a|
  {
    if a != [] {
      assert (a + u)[1..] == a[1..] + u;
      TrimStartOf(a[1..], u);
    }
  }

  /** Trailing whitespace behind a string that ends with a non-whitespace
      character is exactly what `rstrip()` removes. */
  lemma {:induction false} TrimEndOf(t: string, b: string)
    requires AllWs(b)
    requires t == [] || !IsWs(t[|t| - 1])
    ensures TrimEnd(t + b) == t
    decreases |b|
  {
    if b == [] {
      assert t + b == t;
    } else {
      var s := t + b;
      assert s[..|s| - 1] == t + b[..|b| - 1];
      TrimEndOf(t, b[..|b| - 1]);
    }
  }

  /** `strip()` is determined by its result: a stripped string surrounded by
      whitespace strips to itself. */
  lemma StripOf(a: string, t: string, b: string)
    requires AllWs(a) && AllWs(b) && IsStripped(t)
    ensures Strip(a + t + b) == t
  {
    assert a + t + b == a + (t + b);
    if t == [] {
      assert a + (t + b) == (a + b) + [];
      assert AllWs(a + b);
      TrimStartOf(a + b, []);
    } else {
      TrimStartOf(a, t + b);
      TrimEndOf(t, b);
    }
  }

  lemma StripStripped(t: string)
    requires IsStripped(t)
    ensures Strip(t) == t
  {
    assert [] + t + [] == t;
    StripOf([], t, []);
  }

  /** `lstrip()` removes only whitespace. */
  lemma {:induction false} TrimStartKeeps(s: string, c: char)
    requires !IsWs(c)
    ensures c in TrimStart(s) <==> c in s
    decreases |s|
  {
    if s != [] && IsWs(s[0]) {
      TrimStartKeeps(s[1..], c);
      assert s == [s[0]] + s[1..];
    }
  }

  /** `rstrip()` removes only whitespace. */
  lemma {:induction false} TrimEndKeeps(s: string, c: char)
    requires !IsWs(c)
    ensures c in TrimEnd(s) <==> c in s
    decreases |s|
  {
    if s != [] && IsWs(s[|s| - 1]) {
      TrimEndKeeps(s[..|s| - 1], c);
      assert s == s[..|s| - 1] + [s[|s| - 1]];
    }
  }

  /** `strip()` removes only whitespace, so a non-whitespace character occurs
      in the stripped string exactly when it occurs in the original. */
  lemma StripKeeps(s: string, c: char)
    requires !IsWs(c)
    ensures c in Strip(s) <==> c in s
  {
    TrimStartKeeps(s, c);
    TrimEndKeeps(TrimStart(s), c);
  }

  /** A character absent from `s` is absent from `Strip(s)`. */
  lemma StripAvoids(s: string, c: char)
    requires c !in s
    ensures c !in Strip(s)
  {
    StripInfix(s);
  }

  /** A string strips to nothing exactly when it is all whitespace. */
  lemma StripEmpty(s: string)
    ensures Strip(s) == [] <==> AllWs(s)
  {
    var r := Strip(s);
    StripInfix(s);
    var i :| 0 <= i <= |s| - |r| && r == s[i..i + |r|] && AllWs(s[..i]) && AllWs(s[i + |r|..]);
    if r == [] {
      forall k | 0 <= k < |s| ensures IsWs(s[k]) {
        if k < i { assert s[..i][k] == s[k]; } else { assert s[i..][k - i] == s[k]; }
      }
    }
  }

  /** The position of the first `c` in `s`. */
  function IndexOf(s: string, c: char): (k: nat)
    requires c in s
    ensures k < |s| && s[k] == c && c !in s[..k]
  {
    if s[0] == c then 0
    else
      var k := IndexOf(s[1..], c);
      assert s[..k + 1] == [s[0]] + s[1..][..k];
      k + 1
  }

  /** Python `s.split(sep, 1)`: `[s]` when `sep` does not occur, otherwise the
      text before the first `sep` and the text after it. */
  function SplitFirst(s: string, sep: char): seq<string>
    decreases |s|
  {
    if s == [] then [s]
    else if s[0] == sep then [[], s[1..]]
    else
      var rest := SplitFirst(s[1..], sep);
      if |rest| == 2 then [[s[0]] + rest[0], rest[1]] else [s]
  }

  /** `split(sep, 1)` gives `[s]` exactly when `sep` does not occur, and
      otherwise two parts, the first free of `sep`, around one `sep`. */
  lemma {:induction false} SplitFirstSpec(s: string, sep: char)
    ensures var r := SplitFirst(s, sep);
            1 <= |r| <= 2 && (|r| == 1 <==> sep !in s) && (|r| == 1 ==> r[0] == s)
            && (|r| == 2 ==> sep !in r[0] && r[0] + [sep] + r[1] == s)
    decreases |s|
  {
    if s == [] {
    } else if s[0] == sep {
      assert [] + [sep] + s[1..] == s;
    } else {
      SplitFirstSpec(s[1..], sep);
      var rest := SplitFirst(s[1..], sep);
      if |rest| == 2 {
        assert [s[0]] + rest[0] + [sep] + rest[1] == s;
      } else {
        assert s == [s[0]] + s[1..];
      }
    }
  }

  /** The two parts of `split(sep, 1)` sit on either side of the first `sep`. */
  lemma {:induction false} SplitFirstAt(s: string, sep: char)
    requires sep in s
    ensures SplitFirst(s, sep) == [s[..IndexOf(s, sep)], s[IndexOf(s, sep) + 1..]]
    decreases |s|
  {
    if s[0] != sep {
      var k := IndexOf(s[1..], sep);
      SplitFirstAt(s[1..], sep);
      assert [s[0]] + s[1..][..k] == s[..k + 1];
      assert s[1..][k + 1..] == s[k + 2..];
    }
  }

  /** Python `s.split(sep)`: the maximal `sep`-free pieces between the
      occurrences of `sep`, always at least one (`"".split(sep) == [""]`). */
  function Split(s: string, sep: char): (r: seq<string>)
    ensures |r| >= 1
    ensures forall i :: 0 <= i < |r| ==> sep !in r[i]
    decreases |s|
  {
    if s == [] then [[]]
    else if s[0] == sep then [[]] + Split(s[1..], sep)
    else
      var rest := Split(s[1..], sep);
      [[s[0]] + rest[0]] + rest[1..]
  }

  /** Python `sep.join(parts)`. */
  function Join(parts: seq<string>, sep: char): string {
    if parts == [] then []
    else if |parts| == 1 then parts[0]
    else parts[0] + [sep] + Join(parts[1..], sep)
  }

  /** Joining the pieces of a split restores the string. */
  lemma {:induction false} JoinSplit(s: string, sep: char)
    ensures Join(Split(s, sep), sep) == s
    decreases |s|
  {
    if s == [] {
    } else if s[0] == sep {
      JoinSplit(s[1..], sep);
      assert Split(s, sep)[1..] == Split(s[1..], sep);
    } else {
      JoinSplit(s[1..], sep);
      var rest := Split(s[1..], sep);
      if |rest| == 1 {
        assert s == [s[0]] + s[1..];
      } else {
        assert Split(s, sep)[1..] == rest[1..];
        assert Join(rest, sep) == rest[0] + [sep] + Join(rest[1..], sep);
      }
    }
  }

  /** Splitting distributes over a separator: the pieces of `x + sep + y` are
      the pieces of `x` followed by the pieces of `y`. */
  lemma {:induction false} SplitAround(x: string, sep: char, y: string)
    ensures Split(x + [sep] + y, sep) == Split(x, sep) + Split(y, sep)
    decreases |x|
  {
    var s := x + [sep] + y;
    if x == [] {
      assert s[1..] == y;
    } else {
      assert s[1..] == x[1..] + [sep] + y;
      SplitAround(x[1..], sep, y);
      if x[0] == sep {
        assert Split(s, sep) == [[]] + Split(s[1..], sep);
      } else {
        var rest := Split(x[1..], sep);
        assert Split(s[1..], sep)[0] == rest[0];
        assert Split(s[1..], sep)[1..] == rest[1..] + Split(y, sep);
      }
    }
  }

  /** A string without `sep` splits into itself. */
  lemma {:induction false} SplitNoSep(s: string, sep: char)
    requires sep !in s
    ensures Split(s, sep) == [s]
    decreases |s|
  {
    if s != [] {
      SplitNoSep(s[1..], sep);
      assert s == [s[0]] + s[1..];
    }
  }

  /** Splitting undoes joining, for at least one part and parts free of `sep`. */
  lemma {:induction false} SplitJoin(parts: seq<string>, sep: char)
    requires |parts| >= 1
    requires forall i :: 0 <= i < |parts| ==> sep !in parts[i]
    ensures Split(Join(parts, sep), sep) == parts
    decreases |parts|
  {
    if |parts| == 1 {
      SplitNoSep(parts[0], sep);
    } else {
      SplitJoin(parts[1..], sep);
      SplitAround(parts[0], sep, Join(parts[1..], sep));
      SplitNoSep(parts[0], sep);
    }
  }

  /** `split(sep)` yields one piece more than there are separators. */
  lemma {:induction false} SplitCount(s: string, sep: char)
    ensures |Split(s, sep)| == multiset(s)[sep] + 1
    decreases |s|
  {
    if s != [] {
      SplitCount(s[1..], sep);
      assert s == [s[0]] + s[1..];
      assert multiset(s) == multiset([s[0]]) + multiset(s[1..]);
    }
  }
}

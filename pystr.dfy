/** The Python `str` operations the fake shell relies on, over Dafny strings
    (`seq<char>`): `isspace`, `startswith`, `strip`, `split`, `split(sep, 1)`,
    `replace(old, "")` and `sep.join`. */
module PyStr {

  /** Python's `str.isspace` for one character: the characters that `str.split()`
      and `str.strip()` (both without an argument) treat as whitespace. */
  predicate IsSpace(c: char)
  {
    var n := c as int;
    (9 <= n <= 13) || (28 <= n <= 32) || n == 0x85 || n == 0xA0 || n == 0x1680
    || (0x2000 <= n <= 0x200A) || n == 0x2028 || n == 0x2029 || n == 0x202F
    || n == 0x205F || n == 0x3000
  }

  /** The character class of `strip('"')`. */
  predicate IsQuote(c: char)
  {
    c == '"'
  }

  /** `s.startswith(prefix)`. */
  predicate StartsWith(s: string, prefix: string)
  {
    |prefix| <= |s| && s[..|prefix|] == prefix
  }

  /** `pat` occurs somewhere in `s` (Python's `pat in s`). */
  predicate Occurs(s: string, pat: string)
  {
    exists i :: 0 <= i <= |s| && StartsWith(s[i..], pat)
  }

  /** A whitespace-free, non-empty string: what `str.split()` can produce. */
  predicate IsWord(w: string)
  {
    w != [] && forall k :: 0 <= k < |w| ==> !IsSpace(w[k])
  }

  // ---------------------------------------------------------------------------
  // strip

  /** Drops the longest prefix of `s` whose characters satisfy `drop`. */
  function TrimStart(s: string, drop: char -> bool): (r: string)
    ensures |r| <= |s| && r == s[|s| - |r|..]
    ensures forall k :: 0 <= k < |s| - |r| ==> drop(s[k])
    ensures r == [] || !drop(r[0])
  {
    if s != [] && drop(s[0]) then TrimStart(s[1..], drop) else s
  }

  /** Drops the longest suffix of `s` whose characters satisfy `drop`. */
  function TrimEnd(s: string, drop: char -> bool): (r: string)
    ensures |r| <= |s| && r == s[..|r|]
    ensures forall k :: |r| <= k < |s| ==> drop(s[k])
    ensures r == [] || !drop(r[|r| - 1])
  {
    if s != [] && drop(s[|s| - 1]) then TrimEnd(s[..|s| - 1], drop) else s
  }

  /** `s.strip(chars)` where `drop` says which characters are in `chars`. */
  function StripBy(s: string, drop: char -> bool): string
  {
    TrimEnd(TrimStart(s, drop), drop)
  }

  /** `s.strip()`. */
  function Strip(s: string): string
  {
    StripBy(s, IsSpace)
  }

  /** `s.strip('"')`. */
  function StripQuotes(s: string): string
  {
    StripBy(s, IsQuote)
  }

  /** Stripping removes exactly the padding: whatever `drop`-only text surrounds
      a core that neither starts nor ends with a dropped character. */
  lemma StripPadded(a: string, x: string, b: string, drop: char -> bool)
    requires forall k :: 0 <= k < |a| ==> drop(a[k])
    requires forall k :: 0 <= k < |b| ==> drop(b[k])
    requires x == [] || (!drop(x[0]) && !drop(x[|x| - 1]))
    ensures StripBy(a + x + b, drop) == x
  {
    if x == [] {
      var s := a + x + b;
      assert forall k | 0 <= k < |s| :: s[k] == if k < |a| then a[k] else b[k - |a|];
      assert s + [] == s;
      TrimStartPadded(s, [], drop);
    } else {
      assert a + x + b == a + (x + b);
      TrimStartPadded(a, x + b, drop);
      TrimEndPadded(x, b, drop);
    }
  }

  /** Trimming the start removes exactly a `drop`-only prefix before a kept character. */
  lemma TrimStartPadded(a: string, y: string, drop: char -> bool)
    requires forall k :: 0 <= k < |a| ==> drop(a[k])
    requires y == [] || !drop(y[0])
    ensures y == [] ==> TrimStart(a + y, drop) == []
    ensures y != [] ==> TrimStart(a + y, drop) == y
  {
    var s := a + y;
    assert forall k | 0 <= k < |a| :: s[k] == a[k];
    var t := TrimStart(s, drop);
    if y != [] {
      assert s[|a|] == y[0];
      assert t != [] ==> t[0] == s[|s| - |t|];
    }
  }

  /** Trimming the end removes exactly a `drop`-only suffix after a kept character. */
  lemma TrimEndPadded(x: string, b: string, drop: char -> bool)
    requires forall k :: 0 <= k < |b| ==> drop(b[k])
    requires x != [] && !drop(x[|x| - 1])
    ensures TrimEnd(x + b, drop) == x
  {
    var t := x + b;
    assert forall k | |x| <= k < |t| :: t[k] == b[k - |x|];
    assert t[|x| - 1] == x[|x| - 1];
    var u := TrimEnd(t, drop);
    assert u != [] ==> u[|u| - 1] == t[|u| - 1];
  }

  /** Stripping twice changes nothing more. */
  lemma StripIdempotent(s: string, drop: char -> bool)
    ensures StripBy(StripBy(s, drop), drop) == StripBy(s, drop)
  {
    var x := StripBy(s, drop);
    StripPadded([], x, [], drop);
    assert [] + x + [] == x;
  }

  // ---------------------------------------------------------------------------
  // split() on whitespace

  /** Length of the longest whitespace-free prefix of `s`. */
  function WordLength(s: string): (n: nat)
    ensures n <= |s|
    ensures forall k :: 0 <= k < n ==> !IsSpace(s[k])
    ensures n == |s| || IsSpace(s[n])
  {
    if s == [] || IsSpace(s[0]) then 0 else 1 + WordLength(s[1..])
  }

  /** `s.split()`: the maximal runs of non-whitespace characters, in order. */
  function Split(s: string): (r: seq<string>)
    ensures forall i :: 0 <= i < |r| ==> IsWord(r[i])
    decreases |s|
  {
    if s == [] then []
    else if IsSpace(s[0]) then Split(s[1..])
    else
      var n := WordLength(s);
      [s[..n]] + Split(s[n..])
  }

  /** `split()` finds no token exactly when the text is all whitespace. */
  lemma {:induction false} SplitEmptyIff(s: string)
    ensures Split(s) == [] <==> forall k :: 0 <= k < |s| ==> IsSpace(s[k])
    decreases |s|
  {
    if s != [] && IsSpace(s[0]) {
      SplitEmptyIff(s[1..]);
      assert forall k :: 1 <= k < |s| ==> s[k] == s[1..][k - 1];
    }
  }

  /** Leading whitespace does not change the tokens. */
  lemma {:induction false} SplitSkipsSpace(a: string, s: string)
    requires forall k :: 0 <= k < |a| ==> IsSpace(a[k])
    ensures Split(a + s) == Split(s)
    decreases |a|
  {
    if a != [] {
      assert (a + s)[1..] == a[1..] + s;
      SplitSkipsSpace(a[1..], s);
    } else {
      assert a + s == s;
    }
  }

  /** A word followed by whitespace (or by nothing) is the first token. */
  lemma SplitWord(w: string, rest: string)
    requires IsWord(w)
    requires rest == [] || IsSpace(rest[0])
    ensures Split(w + rest) == [w] + Split(rest)
  {
    var s := w + rest;
    var n := WordLength(s);
    assert forall k | 0 <= k < |w| :: s[k] == w[k];
    assert |w| < |s| ==> s[|w|] == rest[0];
    assert n == |w|;
    assert s[..n] == w && s[n..] == rest;
  }

  /** `" ".join` of words splits back into the same words: `split()` inverts `join`. */
  lemma {:induction false} SplitJoin(ws: seq<string>)
    requires forall i :: 0 <= i < |ws| ==> IsWord(ws[i])
    ensures Split(Join(ws, ' ')) == ws
  {
    if |ws| == 1 {
      SplitWord(ws[0], []);
      assert ws[0] + [] == ws[0];
    } else if |ws| > 1 {
      var tail := Join(ws[1..], ' ');
      SplitWord(ws[0], [' '] + tail);
      assert ws[0] + [' '] + tail == ws[0] + ([' '] + tail);
      SplitSkipsSpace([' '], tail);
      SplitJoin(ws[1..]);
      assert ws == [ws[0]] + ws[1..];
    }
  }

  // ---------------------------------------------------------------------------
  // split(sep, 1), split(sep) and join

  /** Index of the first occurrence of `c` in `s`. */
  function IndexOf(s: string, c: char): (i: nat)
    requires c in s
    ensures i < |s| && s[i] == c && c !in s[..i]
  {
    if s[0] == c then 0 else 1 + IndexOf(s[1..], c)
  }

  /** `s.split(c, 1)` when `c` occurs in `s`: the text before and after its
      first occurrence. */
  function SplitOnce(s: string, c: char): (parts: (string, string))
    requires c in s
    ensures s == parts.0 + [c] + parts.1 && c !in parts.0
  {
    var i := IndexOf(s, c);
    assert s == s[..i] + [c] + s[i + 1..];
    (s[..i], s[i + 1..])
  }

  /** The split at the first occurrence is the only one with no `c` on the left. */
  lemma SplitOnceUnique(s: string, c: char, left: string, right: string)
    requires s == left + [c] + right && c !in left
    ensures SplitOnce(s, c) == (left, right)
  {
    var parts := SplitOnce(s, c);
    assert forall k | 0 <= k < |left| :: s[k] == left[k];
    assert forall k | 0 <= k < |parts.0| :: s[k] == parts.0[k];
    assert s[|left|] == c && s[|parts.0|] == c;
    assert |parts.0| == |left|;
    assert parts.0 == s[..|left|] == left;
    assert parts.1 == s[|left| + 1..] == right;
  }

  /** `sep.join(xs)`. */
  function Join(xs: seq<string>, sep: char): string
  {
    if xs == [] then []
    else if |xs| == 1 then xs[0]
    else xs[0] + [sep] + Join(xs[1..], sep)
  }

  /** `s.split(sep)`: the pieces between the occurrences of `sep`. */
  function SplitOn(s: string, sep: char): (r: seq<string>)
    ensures |r| >= 1
    ensures forall i :: 0 <= i < |r| ==> sep !in r[i]
    decreases |s|
  {
    if sep in s then
      var parts := SplitOnce(s, sep);
      [parts.0] + SplitOn(parts.1, sep)
    else [s]
  }

  /** Joining the pieces of a split gives back the text. */
  lemma {:induction false} JoinSplitOn(s: string, sep: char)
    ensures Join(SplitOn(s, sep), sep) == s
    decreases |s|
  {
    if sep in s {
      var parts := SplitOnce(s, sep);
      JoinSplitOn(parts.1, sep);
      var r := SplitOn(s, sep);
      assert r == [parts.0] + SplitOn(parts.1, sep);
      assert r[1..] == SplitOn(parts.1, sep);
    }
  }

  /** Splitting a join gives back the pieces, when no piece holds the separator. */
  lemma {:induction false} SplitOnJoin(xs: seq<string>, sep: char)
    requires |xs| >= 1
    requires forall i :: 0 <= i < |xs| ==> sep !in xs[i]
    ensures SplitOn(Join(xs, sep), sep) == xs
  {
    if |xs| == 1 {
      assert Join(xs, sep) == xs[0];
      assert xs == [xs[0]];
    } else {
      var tail := Join(xs[1..], sep);
      assert Join(xs, sep) == xs[0] + [sep] + tail;
      SplitOnCons(xs[0], tail, sep);
      forall i | 0 <= i < |xs[1..]|
        ensures sep !in xs[1..][i]
      {
        assert xs[1..][i] == xs[i + 1];
      }
      SplitOnJoin(xs[1..], sep);
      assert xs == [xs[0]] + xs[1..];
    }
  }

  /** A separator-free piece followed by the separator splits off first. */
  lemma SplitOnCons(left: string, right: string, sep: char)
    requires sep !in left
    ensures SplitOn(left + [sep] + right, sep) == [left] + SplitOn(right, sep)
  {
    var j := left + [sep] + right;
    assert sep in j by {
      assert j[|left|] == sep;
    }
    SplitOnceUnique(j, sep, left, right);
  }

  // ---------------------------------------------------------------------------
  // replace(pat, "")

  /** `s.replace(pat, "")`: deletes the occurrences of `pat` found scanning left to
      right, without overlap. */
  function RemoveAll(s: string, pat: string): (r: string)
    requires pat != []
    ensures |r| <= |s|
    decreases |s|
  {
    if |s| < |pat| then s
    else if s[..|pat|] == pat then RemoveAll(s[|pat|..], pat)
    else [s[0]] + RemoveAll(s[1..], pat)
  }

  /** Text in which `pat` does not occur is left as it is. */
  lemma {:induction false} RemoveAllAbsent(s: string, pat: string)
    requires pat != [] && !Occurs(s, pat)
    ensures RemoveAll(s, pat) == s
    decreases |s|
  {
    if |s| >= |pat| {
      assert s[0..] == s;
      assert !StartsWith(s[0..], pat);
      assert !Occurs(s[1..], pat) by {
        forall i | 0 <= i <= |s[1..]|
          ensures !StartsWith(s[1..][i..], pat)
        {
          assert s[1..][i..] == s[i + 1..];
        }
      }
      RemoveAllAbsent(s[1..], pat);
    }
  }

  /** No proper prefix of `pat` is also a suffix of it, so two occurrences of
      `pat` can never overlap. */
  predicate Unbordered(pat: string)
  {
    forall k :: 0 < k < |pat| ==> pat[..k] != pat[|pat| - k..]
  }

  /** For a pattern that cannot overlap itself, the first occurrence after
      pattern-free text is deleted, and the text before it is kept as it is. */
  lemma {:induction false} RemoveAllAfterFree(x: string, pat: string, y: string)
    requires pat != [] && Unbordered(pat) && !Occurs(x, pat)
    ensures RemoveAll(x + pat + y, pat) == x + RemoveAll(y, pat)
    decreases |x|
  {
    var s := x + pat + y;
    if x == [] {
      assert s == pat + y;
      RemoveAllLeading(pat, y);
    } else {
      NoMatchBefore(x, pat, y);
      OccursTail(x, pat);
      RemoveAllAfterFree(x[1..], pat, y);
      assert s[1..] == x[1..] + pat + y;
      assert RemoveAll(s, pat) == [s[0]] + RemoveAll(s[1..], pat);
      assert x == [x[0]] + x[1..];
    }
  }

  /** Dropping the first character creates no occurrence. */
  lemma OccursTail(x: string, pat: string)
    requires x != [] && !Occurs(x, pat)
    ensures !Occurs(x[1..], pat)
  {
    forall i | 0 <= i <= |x[1..]|
      ensures !StartsWith(x[1..][i..], pat)
    {
      assert x[1..][i..] == x[i + 1..];
    }
  }

  /** After non-empty pattern-free text, the pattern does not start at the
      first character, since it cannot overlap its own copy. */
  lemma NoMatchBefore(x: string, pat: string, y: string)
    requires x != [] && pat != [] && Unbordered(pat) && !Occurs(x, pat)
    ensures (x + pat + y)[..|pat|] != pat
  {
    var s := x + pat + y;
    if |x| >= |pat| {
      assert x[0..] == x;
      assert s[..|pat|] == x[..|pat|];
    } else {
      OverlapIsBorder(x, pat, y);
      var k := |pat| - |x|;
      assert pat[..k] != pat[|pat| - k..];
    }
  }

  /** A copy of `pat` found straddling `x` and the following `pat` gives a
      prefix of `pat` that is also a suffix. */
  lemma OverlapIsBorder(x: string, pat: string, y: string)
    requires 0 < |x| < |pat|
    ensures (x + pat + y)[..|pat|] == pat ==> pat[..|pat| - |x|] == pat[|x|..]
  {
    var s := x + pat + y;
    var k := |pat| - |x|;
    assert s[|x|..|pat|] == pat[..k] by {
      forall i | 0 <= i < k ensures s[|x|..|pat|][i] == pat[..k][i] {
        assert s[|x| + i] == pat[i];
      }
    }
    assert s[..|pat|][|x|..] == s[|x|..|pat|];
  }

  /** A leading occurrence is deleted and scanning resumes after it. */
  lemma RemoveAllLeading(pat: string, s: string)
    requires pat != []
    ensures RemoveAll(pat + s, pat) == RemoveAll(s, pat)
  {
    assert (pat + s)[..|pat|] == pat;
    assert (pat + s)[|pat|..] == s;
  }
}

/** The JavaScript built-ins the extension applies to strings and string
    arrays (`String.prototype.trim`, `split`, `indexOf`, `Array.prototype.join`),
    over Dafny strings. */
module Text {

  /** Whitespace as both the regular-expression class `\s` and `trim` see it:
      the ECMAScript WhiteSpace and LineTerminator characters. */
  predicate IsSpace(c: char) {
    || c == ' ' || c == '\t' || c == '\n' || c == '\r'
    || c == '\U{000B}' || c == '\U{000C}' || c == '\U{00A0}' || c == '\U{1680}'
    || ('\U{2000}' <= c <= '\U{200A}')
    || c == '\U{2028}' || c == '\U{2029}' || c == '\U{202F}' || c == '\U{205F}'
    || c == '\U{3000}' || c == '\U{FEFF}'
  }

  /** `s` with its leading whitespace removed. */
  function TrimStart(s: string): (r: string)
    ensures |r| <= |s| && r == s[|s| - |r|..]
    ensures forall k | 0 <= k < |s| - |r| :: IsSpace(s[k])
    ensures r == [] || !IsSpace(r[0])
    ensures forall c | c in r :: c in s
    decreases |s|
  {
    if |s| > 0 && IsSpace(s[0]) then TrimStart(s[1..]) else s
  }

  /** `s` with its trailing whitespace removed. */
  function TrimEnd(s: string): (r: string)
    ensures |r| <= |s| && r == s[..|r|]
    ensures forall k | |r| <= k < |s| :: IsSpace(s[k])
    ensures r == [] || !IsSpace(r[|r| - 1])
    ensures forall c | c in r :: c in s
    decreases |s|
  {
    if |s| > 0 && IsSpace(s[|s| - 1]) then TrimEnd(s[..|s| - 1]) else s
  }

  /** `String.prototype.trim`: the longest run of `s` that neither starts nor
      ends with whitespace, once only whitespace has been cut at both ends. */
  function Trim(s: string): (r: string)
    ensures r == [] || (!IsSpace(r[0]) && !IsSpace(r[|r| - 1]))
    ensures forall c | c in r :: c in s
  {
    TrimEnd(TrimStart(s))
  }

  /** `xs.map(x => x.trim())`. */
  function TrimAll(xs: seq<string>): (r: seq<string>)
    ensures |r| == |xs|
    ensures forall k | 0 <= k < |xs| :: r[k] == Trim(xs[k])
  {
    if xs == [] then []
    else
      var rest := TrimAll(xs[1..]);
      assert forall k | 1 <= k < |xs| :: rest[k - 1] == Trim(xs[k]);
      [Trim(xs[0])] + rest
  }

  /** `s.split(sep)` for a one-character separator: the pieces between
      separators, always at least one. */
  function Split(s: string, sep: char): (r: seq<string>)
    ensures |r| >= 1
    ensures forall k | 0 <= k < |r| :: sep !in r[k]
    ensures forall k, c | 0 <= k < |r| && c in r[k] :: c in s
    decreases |s|
  {
    if s == [] then [""]
    else
      var rest := Split(s[1..], sep);
      assert forall c | c in s[1..] :: c in s;
      if s[0] == sep then [""] + rest else [[s[0]] + rest[0]] + rest[1..]
  }

  /** `xs.join(sep)`. */
  function Join(xs: seq<string>, sep: string): (r: string)
    ensures |xs| == 1 ==> r == xs[0]
    decreases |xs|
  {
    if |xs| == 0 then "" else if |xs| == 1 then xs[0] else xs[0] + sep + Join(xs[1..], sep)
  }

  /** `p` occurs in `s` at offset `k`. */
  predicate OccursAt(s: string, p: string, k: nat) {
    k + |p| <= |s| && s[k..k + |p|] == p
  }

  /** `s.indexOf(p, k)`: the first offset from `k` on where `p` occurs, or -1. */
  function IndexOfFrom(s: string, p: string, k: nat): (r: int)
    ensures r == -1 || (k <= r && OccursAt(s, p, r))
    ensures r == -1 ==> forall j | k <= j :: !OccursAt(s, p, j)
    ensures r >= 0 ==> forall j | k <= j < r :: !OccursAt(s, p, j)
    decreases |s| - k
  {
    if k + |p| > |s| then -1
    else if s[k..k + |p|] == p then k
    else IndexOfFrom(s, p, k + 1)
  }

  /** `s.indexOf(p)`. */
  function IndexOf(s: string, p: string): (r: int)
    ensures r == -1 || (r >= 0 && OccursAt(s, p, r))
    ensures r == -1 ==> forall j: nat :: !OccursAt(s, p, j)
    ensures r >= 0 ==> forall j: nat | j < r :: !OccursAt(s, p, j)
  {
    IndexOfFrom(s, p, 0)
  }

  /** A slice of `s` occurs in `s` where it was cut. */
  lemma OccursAtSlice(s: string, a: nat, b: nat)
    requires a <= b <= |s|
    ensures OccursAt(s, s[a..b], a)
  {
  }

  /** `indexOf` finds an occurrence with none before it. */
  lemma IndexOfFirst(s: string, p: string, i: nat)
    requires OccursAt(s, p, i)
    requires forall j: nat | j < i :: !OccursAt(s, p, j)
    ensures IndexOf(s, p) == i
  {
  }

  /** `p` occurs somewhere in `s`. */
  predicate Contains(s: string, p: string) {
    exists k | 0 <= k <= |s| :: OccursAt(s, p, k)
  }

  /** `s.startsWith(p)`: `p` is a prefix of `s` (case-sensitive). */
  predicate StartsWith(s: string, p: string) {
    p <= s
  }

  /** `trim()` cuts out one contiguous piece of `s`: everything before it
      and everything after it is white space, which it removes. */
  lemma TrimCut(s: string) returns (i: nat)
    ensures i + |Trim(s)| <= |s| && Trim(s) == s[i..i + |Trim(s)|]
    ensures forall k | 0 <= k < i :: IsSpace(s[k])
    ensures forall k | i + |Trim(s)| <= k < |s| :: IsSpace(s[k])
  {
    var f := TrimStart(s);
    i := |s| - |f|;
    forall k | i + |Trim(s)| <= k < |s|
      ensures IsSpace(s[k])
    {
      assert s[k] == f[k - i];
    }
  }

  /** Trimming a second time changes nothing. */
  lemma TrimIdempotent(s: string)
    ensures Trim(Trim(s)) == Trim(s)
  {
    var r := Trim(s);
    assert TrimStart(r) == r;
    assert TrimEnd(r) == r;
  }

  /** Whitespace in front of a string does not survive trimming. */
  lemma TrimSpaceBefore(s: string, c: char)
    requires IsSpace(c)
    ensures Trim([c] + s) == Trim(s)
  {
    assert ([c] + s)[1..] == s;
  }

  /** Trimming the front of `x + y`: the front of `x` decides unless `x` is all
      whitespace. */
  lemma {:induction false} TrimStartAppend(x: string, y: string)
    ensures TrimStart(x + y) == if TrimStart(x) == [] then TrimStart(y) else TrimStart(x) + y
    decreases |x|
  {
    if |x| > 0 && IsSpace(x[0]) {
      assert (x + y)[1..] == x[1..] + y;
      TrimStartAppend(x[1..], y);
    } else if |x| == 0 {
      assert x + y == y;
    }
  }

  /** Whitespace after a string does not survive trimming. */
  lemma TrimSpaceAfter(s: string, c: char)
    requires IsSpace(c)
    ensures Trim(s + [c]) == Trim(s)
  {
    TrimStartAppend(s, [c]);
    var f := TrimStart(s);
    if f != [] {
      assert (f + [c])[..|f + [c]| - 1] == f;
    }
  }

  /** Splitting at a separator splits the two sides independently. */
  lemma {:induction false} SplitAround(p: string, sep: char, q: string)
    ensures Split(p + [sep] + q, sep) == Split(p, sep) + Split(q, sep)
    decreases |p|
  {
    if p == [] {
      assert p + [sep] + q == [sep] + q;
      assert ([sep] + q)[1..] == q;
    } else {
      assert (p + [sep] + q)[1..] == p[1..] + [sep] + q;
      SplitAround(p[1..], sep, q);
    }
  }

  /** A string without the separator is its own single piece. */
  lemma {:induction false} SplitWithoutSeparator(s: string, sep: char)
    requires sep !in s
    ensures Split(s, sep) == [s]
    decreases |s|
  {
    if s != [] {
      SplitWithoutSeparator(s[1..], sep);
      assert [s[0]] + s[1..] == s;
    }
  }

  /** Joining the pieces of a split with the separator gives back the string. */
  lemma {:induction false} JoinSplit(s: string, sep: char)
    ensures Join(Split(s, sep), [sep]) == s
    decreases |s|
  {
    if s != [] {
      var rest := Split(s[1..], sep);
      JoinSplit(s[1..], sep);
      if s[0] == sep {
        assert Split(s, sep) == [""] + rest;
        assert ([""] + rest)[1..] == rest;
        assert s == [sep] + s[1..];
      } else {
        var xs := Split(s, sep);
        assert xs == [[s[0]] + rest[0]] + rest[1..];
        if |rest| == 1 {
          assert s == [s[0]] + s[1..];
        } else {
          assert xs[1..] == rest[1..];
          assert Join(rest, [sep]) == rest[0] + [sep] + Join(rest[1..], [sep]);
          assert s == [s[0]] + s[1..];
        }
      }
    }
  }

  /** Splitting a join of separator-free pieces gives back the pieces. */
  lemma {:induction false} SplitJoin(xs: seq<string>, sep: char)
    requires |xs| >= 1
    requires forall k | 0 <= k < |xs| :: sep !in xs[k]
    ensures Split(Join(xs, [sep]), sep) == xs
    decreases |xs|
  {
    if |xs| == 1 {
      SplitWithoutSeparator(xs[0], sep);
    } else {
      SplitWithoutSeparator(xs[0], sep);
      SplitJoin(xs[1..], sep);
      SplitAround(xs[0], sep, Join(xs[1..], [sep]));
      assert [xs[0]] + xs[1..] == xs;
    }
  }
}

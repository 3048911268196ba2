/** The regular expression `checkAndAddImport` looks for
    (src/extension.ts:22-24),
        import\s*{([^}]+)}\s*from\s*['"]react['"]
    as a hand-written recogniser, the leftmost match in a text, and the facts
    about matches that the merger relies on. */
module ImportMatch {
  import opened Options
  import opened Text

  /** A match of the import expression: where it starts, how long it is, and
      the captured group (the text between the braces). */
  datatype Match = Match(start: nat, len: nat, capture: string)

  predicate IsQuote(c: char) {
    c == '\'' || c == '"'
  }

  /** `import` at `k`. */
  predicate ImportAt(t: string, k: nat) {
    && k + 6 <= |t|
    && t[k] == 'i' && t[k + 1] == 'm' && t[k + 2] == 'p'
    && t[k + 3] == 'o' && t[k + 4] == 'r' && t[k + 5] == 't'
  }

  /** `from` at `k`. */
  predicate FromAt(t: string, k: nat) {
    k + 4 <= |t| && t[k] == 'f' && t[k + 1] == 'r' && t[k + 2] == 'o' && t[k + 3] == 'm'
  }

  /** `'react'` or `"react"` (quotes of either kind, not necessarily alike) at `k`. */
  predicate QuotedReactAt(t: string, k: nat) {
    && k + 7 <= |t|
    && IsQuote(t[k])
    && t[k + 1] == 'r' && t[k + 2] == 'e' && t[k + 3] == 'a' && t[k + 4] == 'c' && t[k + 5] == 't'
    && IsQuote(t[k + 6])
  }

  /** The end of the run of whitespace that starts at `k` (`\s*`). */
  function SkipSpaces(t: string, k: nat): (r: nat)
    requires k <= |t|
    ensures k <= r <= |t|
    decreases |t| - k
  {
    if k < |t| && IsSpace(t[k]) then SkipSpaces(t, k + 1) else k
  }

  /** `SkipSpaces` passes over whitespace only and stops at the first other
      character. */
  lemma {:induction false} SkipSpacesStops(t: string, k: nat)
    requires k <= |t|
    ensures forall x | k <= x < SkipSpaces(t, k) :: IsSpace(t[x])
    ensures SkipSpaces(t, k) < |t| ==> !IsSpace(t[SkipSpaces(t, k)])
    decreases |t| - k
  {
    if k < |t| && IsSpace(t[k]) {
      SkipSpacesStops(t, k + 1);
    }
  }

  /** `SkipSpaces` is determined by where the whitespace ends. */
  lemma SkipSpacesAt(t: string, k: nat, r: nat)
    requires k <= r <= |t|
    requires forall x | k <= x < r :: IsSpace(t[x])
    requires r < |t| ==> !IsSpace(t[r])
    ensures SkipSpaces(t, k) == r
  {
    SkipSpacesStops(t, k);
  }

  /** The first `}` at or after `k`, or `|t|` if there is none: where `[^}]+`
      stops. */
  function FindClose(t: string, k: nat): (r: nat)
    requires k <= |t|
    ensures k <= r <= |t|
    decreases |t| - k
  {
    if k < |t| && t[k] != '}' then FindClose(t, k + 1) else k
  }

  /** `FindClose` passes over characters other than `}` only and stops at the
      first `}`. */
  lemma {:induction false} FindCloseStops(t: string, k: nat)
    requires k <= |t|
    ensures forall x | k <= x < FindClose(t, k) :: t[x] != '}'
    ensures FindClose(t, k) < |t| ==> t[FindClose(t, k)] == '}'
    decreases |t| - k
  {
    if k < |t| && t[k] != '}' {
      FindCloseStops(t, k + 1);
    }
  }

  /** `FindClose` is determined by where the first `}` is. */
  lemma FindCloseAt(t: string, k: nat, r: nat)
    requires k <= r <= |t|
    requires forall x | k <= x < r :: t[x] != '}'
    requires r < |t| ==> t[r] == '}'
    ensures FindClose(t, k) == r
  {
    FindCloseStops(t, k);
  }

  /** `import\s*{` at `i`: the position of the opening brace. */
  function OpenBrace(t: string, i: nat): (r: Option<nat>)
    ensures r.Some? ==> ImportAt(t, i) && i + 6 <= r.value < |t| && t[r.value] == '{'
  {
    if ImportAt(t, i) then
      var a := SkipSpaces(t, i + 6);
      if a < |t| && t[a] == '{' then Some(a) else None
    else None
  }

  /** `\s*from\s*['"]react['"]` from `k` on: where the match ends. */
  function TailEnd(t: string, k: nat): (r: Option<nat>)
    requires k <= |t|
    ensures r.Some? ==> k + 11 <= r.value <= |t|
  {
    var c := SkipSpaces(t, k);
    if FromAt(t, c) then
      var d := SkipSpaces(t, c + 4);
      if QuotedReactAt(t, d) then Some(d + 7) else None
    else None
  }

  /** The match of the import expression that starts at `i`, if any. The
      expression never needs to backtrack: `\s*` cannot give up a space to the
      `{` or `f` after it, and `[^}]+` cannot give up a character to the `}`. */
  function MatchAt(t: string, i: nat): (r: Option<Match>)
    ensures r.Some? ==> r.value.start == i && i + r.value.len <= |t| && ImportAt(t, i)
  {
    match OpenBrace(t, i)
    case None => None
    case Some(a) =>
      var b := FindClose(t, a + 1);
      if a + 1 < b < |t| then
        match TailEnd(t, b + 1)
        case None => None
        case Some(e) => Some(Match(i, e - i, t[a + 1..b]))
      else None
  }

  /** The shape the expression accepts, written out with the positions of its
      parts: `import` at `i`, whitespace, `{` at `a`, a non-empty run without
      `}`, `}` at `b`, whitespace, `from` at `c`, whitespace, a quote at `d`,
      `react`, a quote. */
  predicate ShapeAt(t: string, i: nat, a: nat, b: nat, c: nat, d: nat) {
    && i + 6 <= a && a + 1 < b && b < c && c + 4 <= d && d + 7 <= |t|
    && ImportAt(t, i)
    && (forall x | i + 6 <= x < a :: IsSpace(t[x]))
    && t[a] == '{'
    && (forall x | a < x < b :: t[x] != '}')
    && t[b] == '}'
    && (forall x | b < x < c :: IsSpace(t[x]))
    && FromAt(t, c)
    && (forall x | c + 4 <= x < d :: IsSpace(t[x]))
    && QuotedReactAt(t, d)
  }

  /** `import\s*{` with the brace at `a` is recognised as such. */
  lemma OpenBraceAt(t: string, i: nat, a: nat)
    requires i + 6 <= a < |t| && ImportAt(t, i) && t[a] == '{'
    requires forall x | i + 6 <= x < a :: IsSpace(t[x])
    ensures OpenBrace(t, i) == Some(a)
  {
    SkipSpacesAt(t, i + 6, a);
  }

  /** `\s*from\s*['"]react['"]` with `from` at `c` and the first quote at `d`
      is recognised as such. */
  lemma TailEndAt(t: string, k: nat, c: nat, d: nat)
    requires k <= c && c + 4 <= d && d + 7 <= |t|
    requires forall x | k <= x < c :: IsSpace(t[x])
    requires FromAt(t, c)
    requires forall x | c + 4 <= x < d :: IsSpace(t[x])
    requires QuotedReactAt(t, d)
    ensures TailEnd(t, k) == Some(d + 7)
  {
    SkipSpacesAt(t, k, c);
    SkipSpacesAt(t, c + 4, d);
  }

  /** Completeness of the recogniser: text of the accepted shape at `i` is
      matched at `i`, with the whole shape as the match and the text between
      the braces as the capture. */
  lemma ShapeMatches(t: string, i: nat, a: nat, b: nat, c: nat, d: nat)
    requires ShapeAt(t, i, a, b, c, d)
    ensures MatchAt(t, i) == Some(Match(i, d + 7 - i, t[a + 1..b]))
  {
    OpenBraceAt(t, i, a);
    FindCloseAt(t, a + 1, b);
    TailEndAt(t, b + 1, c, d);
  }

  /** `ShapeMatches` for every text and position at once, for proofs whose
      context makes checking the shape conjunct by conjunct expensive. */
  lemma AllShapesMatch()
    ensures forall t: string, i: nat, a: nat, b: nat, c: nat, d: nat | ShapeAt(t, i, a, b, c, d) ::
      MatchAt(t, i) == Some(Match(i, d + 7 - i, t[a + 1..b]))
  {
    forall t: string, i: nat, a: nat, b: nat, c: nat, d: nat | ShapeAt(t, i, a, b, c, d)
      ensures MatchAt(t, i) == Some(Match(i, d + 7 - i, t[a + 1..b]))
    {
      ShapeMatches(t, i, a, b, c, d);
    }
  }

  /** Where the parts of the match at `i` are: the `{`, the `}`, `from` and
      the first quote. */
  function Parts(t: string, i: nat): (p: (nat, nat, nat, nat))
    requires MatchAt(t, i).Some?
  {
    var a := OpenBrace(t, i).value;
    var b := FindClose(t, a + 1);
    var c := SkipSpaces(t, b + 1);
    (a, b, c, SkipSpaces(t, c + 4))
  }

  /** The match at `i` spans its parts and captures the text between its
      braces. */
  lemma MatchSpansParts(t: string, i: nat)
    requires MatchAt(t, i).Some?
    ensures MatchAt(t, i).value == Match(i, Parts(t, i).3 + 7 - i, t[Parts(t, i).0 + 1..Parts(t, i).1])
  {
  }

  /** The head of a match: `import`, whitespace and `{`. */
  lemma MatchHead(t: string, i: nat)
    requires MatchAt(t, i).Some?
    ensures var a := Parts(t, i).0;
      && i + 6 <= a && ImportAt(t, i) && t[a] == '{'
      && forall x | i + 6 <= x < a :: IsSpace(t[x])
  {
    SkipSpacesStops(t, i + 6);
  }

  /** The captured run of a match and the `}` that ends it. */
  lemma MatchCapture(t: string, i: nat)
    requires MatchAt(t, i).Some?
    ensures var (a, b) := (Parts(t, i).0, Parts(t, i).1);
      && a + 1 < b < |t| && t[b] == '}'
      && forall x | a < x < b :: t[x] != '}'
  {
    FindCloseStops(t, Parts(t, i).0 + 1);
  }

  /** The tail of a match: whitespace, `from`, whitespace and the quoted
      `react`. */
  lemma MatchTail(t: string, i: nat)
    requires MatchAt(t, i).Some?
    ensures var (b, c, d) := (Parts(t, i).1, Parts(t, i).2, Parts(t, i).3);
      && b < c && c + 4 <= d && d + 7 <= |t|
      && FromAt(t, c) && QuotedReactAt(t, d)
      && (forall x | b < x < c :: IsSpace(t[x]))
      && forall x | c + 4 <= x < d :: IsSpace(t[x])
  {
    var b, c := Parts(t, i).1, Parts(t, i).2;
    SkipSpacesStops(t, b + 1);
    SkipSpacesStops(t, c + 4);
  }

  /** Soundness of the recogniser: whatever is matched has the accepted shape,
      with its parts where `Parts` puts them. */
  lemma MatchHasShape(t: string, i: nat)
    requires MatchAt(t, i).Some?
    ensures ShapeAt(t, i, Parts(t, i).0, Parts(t, i).1, Parts(t, i).2, Parts(t, i).3)
  {
    MatchHead(t, i);
    MatchCapture(t, i);
    MatchTail(t, i);
  }

  /** The `n` characters of `t` from `i` on are those of `u` from `j` on. */
  predicate Agree(t: string, i: nat, u: string, j: nat, n: nat) {
    i + n <= |t| && j + n <= |u| && forall y | j <= y < j + n :: u[y] == t[y - j + i]
  }

  /** A run of whitespace inside an agreeing span is whitespace in the copy. */
  lemma SpacesMove(t: string, i: nat, u: string, j: nat, n: nat, lo: nat, hi: nat)
    requires Agree(t, i, u, j, n) && i <= lo && hi <= i + n
    requires forall x | lo <= x < hi :: IsSpace(t[x])
    ensures forall y | lo - i + j <= y < hi - i + j :: IsSpace(u[y])
  {
  }

  /** A run without `}` inside an agreeing span has none in the copy. */
  lemma NoCloseMoves(t: string, i: nat, u: string, j: nat, n: nat, lo: nat, hi: nat)
    requires Agree(t, i, u, j, n) && i <= lo && hi <= i + n
    requires forall x | lo <= x < hi :: t[x] != '}'
    ensures forall y | lo - i + j <= y < hi - i + j :: u[y] != '}'
  {
  }

  /** The fixed words of the expression survive copying. */
  lemma WordsMove(t: string, i: nat, u: string, j: nat, n: nat, a: nat, b: nat, c: nat, d: nat)
    requires Agree(t, i, u, j, n) && ShapeAt(t, i, a, b, c, d) && d + 7 <= i + n
    ensures ImportAt(u, j) && u[a - i + j] == '{' && u[b - i + j] == '}'
    ensures FromAt(u, c - i + j) && QuotedReactAt(u, d - i + j)
  {
  }

  /** The accepted shape only looks at the text it spans: a copy of that span,
      anywhere in any text, has the same shape. */
  lemma ShapeMoves(t: string, i: nat, u: string, j: nat, a: nat, b: nat, c: nat, d: nat)
    requires ShapeAt(t, i, a, b, c, d) && Agree(t, i, u, j, d + 7 - i)
    ensures ShapeAt(u, j, a - i + j, b - i + j, c - i + j, d - i + j)
  {
    var n := d + 7 - i;
    WordsMove(t, i, u, j, n, a, b, c, d);
    SpacesMove(t, i, u, j, n, i + 6, a);
    NoCloseMoves(t, i, u, j, n, a + 1, b);
    SpacesMove(t, i, u, j, n, b + 1, c);
    SpacesMove(t, i, u, j, n, c + 4, d);
  }

  /** A copy of a span of the accepted shape has that shape, moved. */
  lemma CopyHasShape(t: string, i: nat, u: string, j: nat, a: nat, b: nat, c: nat, d: nat)
    requires ShapeAt(t, i, a, b, c, d)
    requires j + (d + 7 - i) <= |u| && u[j..j + (d + 7 - i)] == t[i..d + 7]
    ensures ShapeAt(u, j, a - i + j, b - i + j, c - i + j, d - i + j)
  {
    var n := d + 7 - i;
    assert Agree(t, i, u, j, n) by {
      forall y | j <= y < j + n ensures u[y] == t[y - j + i] {
        assert u[j..j + n][y - j] == t[i..d + 7][y - j];
      }
    }
    ShapeMoves(t, i, u, j, a, b, c, d);
  }

  /** A copy of a span of the accepted shape is matched, as far as the copy. */
  lemma CopyMatches(t: string, i: nat, u: string, j: nat, a: nat, b: nat, c: nat, d: nat)
    requires ShapeAt(t, i, a, b, c, d)
    requires j + (d + 7 - i) <= |u| && u[j..j + (d + 7 - i)] == t[i..d + 7]
    ensures MatchAt(u, j).Some? && MatchAt(u, j).value.len == d + 7 - i
  {
    CopyHasShape(t, i, u, j, a, b, c, d);
    ShapeMatches(u, j, a - i + j, b - i + j, c - i + j, d - i + j);
  }

  /** A match only looks at the text it spans: the same span elsewhere, in
      any text, is matched as well, and as far. */
  lemma MatchMoves(t: string, i: nat, u: string, j: nat)
    requires MatchAt(t, i).Some?
    requires j + MatchAt(t, i).value.len <= |u|
    requires u[j..j + MatchAt(t, i).value.len] == t[i..i + MatchAt(t, i).value.len]
    ensures MatchAt(u, j).Some? && MatchAt(u, j).value.len == MatchAt(t, i).value.len
  {
    MatchHasShape(t, i);
    MatchSpansParts(t, i);
    var a, b, c, d := Parts(t, i).0, Parts(t, i).1, Parts(t, i).2, Parts(t, i).3;
    CopyMatches(t, i, u, j, a, b, c, d);
  }

  /** The leftmost match at or after `k`: where it starts. */
  function FindImportFrom(t: string, k: nat): (r: Option<nat>)
    ensures r.Some? ==> k <= r.value && MatchAt(t, r.value).Some?
    decreases |t| + 1 - k
  {
    if |t| < k then None
    else if MatchAt(t, k).Some? then Some(k)
    else FindImportFrom(t, k + 1)
  }

  /** No match starts between `k` and the one `FindImportFrom` finds, nor
      anywhere from `k` on when it finds none. */
  lemma {:induction false} FindImportFromIsLeftmost(t: string, k: nat)
    ensures forall j | k <= j && (FindImportFrom(t, k).None? || j < FindImportFrom(t, k).value) ::
      MatchAt(t, j).None?
    decreases |t| + 1 - k
  {
    if |t| < k {
    } else if MatchAt(t, k).None? {
      FindImportFromIsLeftmost(t, k + 1);
    }
  }

  /** `fullText.match(/import\s*{([^}]+)}\s*from\s*['"]react['"]/)`: the
      leftmost match in the whole text, or none. */
  function FindImport(t: string): (r: Option<Match>)
    ensures r.Some? ==> MatchAt(t, r.value.start) == r
  {
    match FindImportFrom(t, 0)
    case Some(i) => MatchAt(t, i)
    case None => None
  }

  /** `FindImport` finds a match whenever there is one, and the one it finds
      is the leftmost. */
  lemma FindImportIsLeftmost(t: string)
    ensures FindImport(t).None? ==> forall j: nat :: MatchAt(t, j).None?
    ensures FindImport(t).Some? ==> forall j: nat | j < FindImport(t).value.start :: MatchAt(t, j).None?
  {
    FindImportFromIsLeftmost(t, 0);
  }

  /** Searching from `k` with no match in between finds the match at `i`. */
  lemma {:induction false} FindImportFromReaches(t: string, k: nat, i: nat)
    requires k <= i && MatchAt(t, i).Some?
    requires forall j | k <= j < i :: MatchAt(t, j).None?
    ensures FindImportFrom(t, k) == Some(i)
    decreases i - k
  {
    if k < i {
      FindImportFromReaches(t, k + 1, i);
    }
  }

  /** A match with no match before it is the one `FindImport` returns. */
  lemma FindImportIsFirst(t: string, i: nat)
    requires MatchAt(t, i).Some?
    requires forall j: nat | j < i :: MatchAt(t, j).None?
    ensures FindImport(t) == MatchAt(t, i)
  {
    FindImportFromReaches(t, 0, i);
  }

  /** An earlier copy of a matched text is a match itself. */
  lemma EarlierCopyMatches(t: string, m: Match, text: string, k: nat)
    requires MatchAt(t, m.start) == Some(m)
    requires m.start + m.len <= |t| && text == t[m.start..m.start + m.len]
    requires OccursAt(t, text, k)
    ensures MatchAt(t, k).Some?
  {
    assert |text| == m.len;
    MatchMoves(t, m.start, t, k);
  }

  /** The matched text, `importMatch[0]`, is `len` characters long. */
  lemma MatchedTextLength(t: string, m: Match)
    requires FindImport(t) == Some(m)
    ensures m.start + m.len <= |t| && |t[m.start..m.start + m.len]| == m.len
  {
  }

  /** `fullText.indexOf(importMatch[0])` finds the matched text exactly where
      the leftmost match starts: an earlier copy of that text would itself be
      an earlier match. */
  lemma IndexOfFindsMatch(t: string, m: Match)
    requires FindImport(t) == Some(m)
    ensures m.start + m.len <= |t|
    ensures IndexOf(t, t[m.start..m.start + m.len]) == m.start
  {
    MatchedTextLength(t, m);
    OccursAtSlice(t, m.start, m.start + m.len);
    NoEarlierCopy(t, m, t[m.start..m.start + m.len]);
    IndexOfFirst(t, t[m.start..m.start + m.len], m.start);
  }

  /** No copy of the matched text starts before the leftmost match. */
  lemma NoEarlierCopy(t: string, m: Match, text: string)
    requires FindImport(t) == Some(m)
    requires m.start + m.len <= |t| && text == t[m.start..m.start + m.len]
    ensures forall j: nat | j < m.start :: !OccursAt(t, text, j)
  {
    assert MatchAt(t, m.start) == Some(m);
    FindImportIsLeftmost(t);
    forall j: nat | j < m.start ensures !OccursAt(t, text, j) {
      if OccursAt(t, text, j) {
        EarlierCopyMatches(t, m, text, j);
      }
    }
  }

  /** Inside a match, outside the braces, there is no `i` but the first
      character. */
  lemma NoLetterIOutsideCapture(t: string, i: nat, a: nat, b: nat, c: nat, d: nat, s: nat)
    requires ShapeAt(t, i, a, b, c, d) && i < s < d + 7 && !(a < s < b)
    ensures t[s] != 'i'
  {
    if s < i + 6 {
    } else if s < a {
      assert IsSpace(t[s]);
    } else if s < c {
      assert s == a || s == b || IsSpace(t[s]);
    } else if s < c + 4 {
    } else if s < d {
      assert IsSpace(t[s]);
    }
  }

  /** A match whose `{` and `}` fall on both sides of another match's start
      runs, in the text of that other match, to its `}`: the other match's
      `import` and leading whitespace hold no `}`. */
  lemma CrossingShape(t: string, j: nat, a: nat, s: nat, at: nat, bt: nat, ct: nat, dt: nat)
    requires ShapeAt(t, s, at, bt, ct, dt)
    requires j + 6 <= a < s && ImportAt(t, j) && t[a] == '{'
    requires forall x | j + 6 <= x < a :: IsSpace(t[x])
    requires forall x | a < x < s :: t[x] != '}'
    ensures ShapeAt(t, j, a, bt, ct, dt)
  {
    forall x | a < x < bt ensures t[x] != '}' {
      if s <= x < s + 6 {
        assert t[x] in "import";
      } else if s + 6 <= x < at {
        assert IsSpace(t[x]);
      }
    }
  }

  /** A match in the new text that ends before the rewritten part is a match
      of the old text too. */
  lemma MatchBeforeSplice(t: string, u: string, s: nat, j: nat)
    requires s <= |t| && s <= |u|
    requires forall x | 0 <= x < s :: u[x] == t[x]
    requires MatchAt(u, j).Some? && j + MatchAt(u, j).value.len <= s
    ensures MatchAt(t, j).Some?
  {
    var n := MatchAt(u, j).value.len;
    assert t[j..j + n] == u[j..j + n];
    MatchMoves(u, j, t, j);
  }

  /** A match in the new text that runs from before `s` into the captured run
      gives, in the old text, a match that runs on to the old match's `}`. */
  lemma MatchAcrossSplice(t: string, u: string, s: nat, j: nat)
    requires s <= |t| && s <= |u|
    requires forall x | 0 <= x < s :: u[x] == t[x]
    requires MatchAt(t, s).Some?
    requires MatchAt(u, j).Some? && Parts(u, j).0 < s < Parts(u, j).1
    ensures MatchAt(t, j).Some?
  {
    MatchHead(u, j);
    MatchCapture(u, j);
    var a := Parts(u, j).0;
    MatchHasShape(t, s);
    var at, bt, ct, dt := Parts(t, s).0, Parts(t, s).1, Parts(t, s).2, Parts(t, s).3;
    assert ImportAt(t, j) && t[a] == '{';
    CrossingShape(t, j, a, s, at, bt, ct, dt);
    ShapeMatches(t, j, a, bt, ct, dt);
  }

  /** After the text from `s` on is rewritten so that `import` still starts at
      `s`, no match can start before `s` that did not already: a match there
      in the new text either lies wholly before `s`, where nothing changed, or
      runs through `s` into its captured run and, in the old text, on to the
      old match's `}`. */
  lemma NoMatchBeforeSplice(t: string, u: string, s: nat, j: nat)
    requires s <= |t| && s <= |u| && j < s
    requires forall x | 0 <= x < s :: u[x] == t[x]
    requires ImportAt(u, s)
    requires MatchAt(t, s).Some?
    requires MatchAt(t, j).None?
    ensures MatchAt(u, j).None?
  {
    if MatchAt(u, j).Some? {
      MatchHasShape(u, j);
      MatchSpansParts(u, j);
      var a, b, c, d := Parts(u, j).0, Parts(u, j).1, Parts(u, j).2, Parts(u, j).3;
      if d + 7 <= s {
        MatchBeforeSplice(t, u, s, j);
      } else if a < s < b {
        MatchAcrossSplice(t, u, s, j);
      } else {
        NoLetterIOutsideCapture(u, j, a, b, c, d, s);
      }
    }
  }

  /** A text that agrees with `t` up to the leftmost match of `t`, and has a
      match of its own there, has no earlier match either. */
  lemma NoMatchBeforeSplices(t: string, u: string, s: nat)
    requires s <= |t| && s <= |u| && t[..s] == u[..s]
    requires MatchAt(u, s).Some? && MatchAt(t, s).Some?
    requires forall j: nat | j < s :: MatchAt(t, j).None?
    ensures forall j: nat | j < s :: MatchAt(u, j).None?
  {
    forall x | 0 <= x < s ensures u[x] == t[x] {
      assert u[x] == u[..s][x];
    }
    forall j: nat | j < s ensures MatchAt(u, j).None? {
      NoMatchBeforeSplice(t, u, s, j);
    }
  }

  /** Equal spans have equal sub-spans. */
  lemma SubSpan(t: string, u: string, i: nat, n: nat, x: nat, y: nat)
    requires i <= x <= y <= i + n <= |t| && i + n <= |u| && u[i..i + n] == t[i..i + n]
    ensures u[x..y] == t[x..y]
  {
    forall k | x <= k < y ensures u[k] == t[k] {
      assert u[k] == u[i..i + n][k - i] && t[k] == t[i..i + n][k - i];
    }
    assert forall k | 0 <= k < y - x :: u[x..y][k] == u[x + k] && t[x..y][k] == t[x + k];
  }

  /** A span of the accepted shape, copied to the same place of another text,
      is matched there the same way. */
  lemma SameShapeSameMatch(t: string, u: string, i: nat, a: nat, b: nat, c: nat, d: nat)
    requires ShapeAt(t, i, a, b, c, d)
    requires d + 7 <= |u| && u[i..d + 7] == t[i..d + 7]
    ensures MatchAt(u, i) == MatchAt(t, i)
  {
    ShapeMatches(t, i, a, b, c, d);
    CopyHasShape(t, i, u, i, a, b, c, d);
    ShapeMatches(u, i, a, b, c, d);
    SubSpan(t, u, i, d + 7 - i, a + 1, b);
  }

  /** The same span at the same place is matched the same way, capture
      included. */
  lemma SameSpanSameMatch(t: string, u: string, m: Match)
    requires MatchAt(t, m.start) == Some(m)
    requires m.start + m.len <= |u| && u[m.start..m.start + m.len] == t[m.start..m.start + m.len]
    ensures MatchAt(u, m.start) == Some(m)
  {
    var i := m.start;
    MatchHasShape(t, i);
    MatchSpansParts(t, i);
    var p := Parts(t, i);
    SameShapeSameMatch(t, u, i, p.0, p.1, p.2, p.3);
  }

  /** Whatever follows the leftmost match can change without moving it: a text
      that agrees with `t` up to the end of its match has the same match. */
  lemma FindImportKeptByPrefix(t: string, u: string, m: Match)
    requires FindImport(t) == Some(m)
    requires m.start + m.len <= |u| && u[..m.start + m.len] == t[..m.start + m.len]
    ensures FindImport(u) == Some(m)
  {
    var i, n := m.start, m.len;
    assert MatchAt(t, i) == Some(m);
    assert u[i..i + n] == u[..i + n][i..] == t[..i + n][i..] == t[i..i + n];
    SameSpanSameMatch(t, u, m);
    assert t[..i] == t[..i + n][..i] == u[..i + n][..i] == u[..i];
    FindImportIsLeftmost(t);
    NoMatchBeforeSplices(t, u, i);
    FindImportIsFirst(u, i);
  }
}

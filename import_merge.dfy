/** The import merger `checkAndAddImport` (src/extension.ts:17-52) as a pure
    function of the document text: which names the existing import lists,
    which requested hooks are missing, and the text the merger leaves behind. */
module ImportMerge {
  import opened Options
  import opened Text
  import opened ImportMatch

  /** `importMatch[1].split(",").map((hook) => hook.trim())`: the names the
      import lists, empty pieces included. */
  function ImportedNames(capture: string): (r: seq<string>)
    ensures |r| >= 1
  {
    TrimAll(Split(capture, ','))
  }

  /** Every imported name is trimmed and has no comma. */
  lemma ImportedNamesTrimmed(capture: string)
    ensures forall k | 0 <= k < |ImportedNames(capture)| ::
      ',' !in ImportedNames(capture)[k] && Trim(ImportedNames(capture)[k]) == ImportedNames(capture)[k]
  {
    var pieces := Split(capture, ',');
    var r := TrimAll(pieces);
    assert r == ImportedNames(capture);
    forall k | 0 <= k < |r| ensures ',' !in r[k] && Trim(r[k]) == r[k] {
      assert r[k] == Trim(pieces[k]);
      assert ',' !in pieces[k];
      TrimIdempotent(pieces[k]);
    }
  }

  /** Every imported name is made of characters of the capture. */
  lemma ImportedNamesFromCapture(capture: string)
    ensures forall k, c | 0 <= k < |ImportedNames(capture)| && c in ImportedNames(capture)[k] :: c in capture
  {
    var pieces := Split(capture, ',');
    var r := TrimAll(pieces);
    assert r == ImportedNames(capture);
    forall k, c | 0 <= k < |r| && c in r[k] ensures c in capture {
      assert r[k] == Trim(pieces[k]);
      assert c in pieces[k];
    }
  }

  /** `hooks.filter((hook) => !existingImports.includes(hook))`: the requested
      hooks not yet imported, in request order. */
  function Missing(hooks: seq<string>, existing: seq<string>): (r: seq<string>)
    ensures forall h :: h in r <==> h in hooks && h !in existing
    ensures |r| <= |hooks|
  {
    if hooks == [] then []
    else (if hooks[0] in existing then [] else [hooks[0]]) + Missing(hooks[1..], existing)
  }

  /** `filter` keeps request order: the missing hooks of two runs of requests
      are those of the first run followed by those of the second. */
  lemma {:induction false} MissingAppend(xs: seq<string>, ys: seq<string>, existing: seq<string>)
    ensures Missing(xs + ys, existing) == Missing(xs, existing) + Missing(ys, existing)
    decreases |xs|
  {
    if xs == [] {
      assert xs + ys == ys;
    } else {
      assert (xs + ys)[0] == xs[0] && (xs + ys)[1..] == xs[1..] + ys;
      MissingAppend(xs[1..], ys, existing);
    }
  }

  /** A single requested hook is missing exactly when it is not listed. */
  lemma MissingSingle(h: string, existing: seq<string>)
    ensures Missing([h], existing) == if h in existing then [] else [h]
  {
    assert [h][1..] == [];
  }

  /** The text between the braces of a written import: the names joined with
      `", "`, one space on each side. */
  function Padded(names: seq<string>): string {
    " " + Join(names, ", ") + " "
  }

  /** The import the merger writes, `import { <names> } from 'react'`. */
  function ImportLine(names: seq<string>): string {
    "import {" + Padded(names) + "} from 'react'"
  }

  /** A name the merger can write and read back unchanged: no `,` (which would
      split it), no `}` (which would end the capture) and no surrounding
      whitespace (which `trim` would drop). */
  predicate WellFormedName(h: string) {
    ',' !in h && '}' !in h && Trim(h) == h
  }

  /** Every name of `names` can be written into an import and read back. */
  predicate AllWellFormed(names: seq<string>) {
    forall k | 0 <= k < |names| :: WellFormedName(names[k])
  }

  /** `text` with the `len` characters from `start` on replaced by `line`. */
  function Splice(text: string, start: nat, len: nat, line: string): (r: string)
    requires start + len <= |text|
    ensures |r| == |text| - len + |line|
    ensures r[..start] == text[..start]
    ensures r[start..start + |line|] == line
    ensures r[start + |line|..] == text[start + len..]
  {
    var r := text[..start] + line + text[start + len..];
    assert r[..start] == text[..start];
    assert r[start..start + |line|] == line;
    assert r[start + |line|..] == text[start + len..];
    r
  }

  /** What `checkAndAddImport(editor, hooks)` leaves as the document text: the
      text unchanged when the import found lists every hook; the found import
      rewritten in place with the missing hooks appended; or, without an
      import, a new one and a blank line in front of the text. */
  function EnsureImport(text: string, hooks: seq<string>): string {
    match FindImport(text)
    case Some(m) =>
      var existing := ImportedNames(m.capture);
      var missing := Missing(hooks, existing);
      if missing == [] then text
      else Splice(text, m.start, m.len, ImportLine(existing + missing))
    case None =>
      ImportLine(hooks) + ";\n\n" + text
  }

  /** Joined names without `}` contain no `}`. */
  lemma {:induction false} JoinWithoutClose(names: seq<string>)
    requires forall k | 0 <= k < |names| :: '}' !in names[k]
    ensures '}' !in Join(names, ", ")
    decreases |names|
  {
    if |names| > 1 {
      JoinWithoutClose(names[1..]);
    }
  }

  /** The start of a written import: `import`, a space and `{`. */
  lemma HeadChars(q: string)
    ensures ImportAt("import {" + q, 0)
    ensures ("import {" + q)[6] == ' ' && ("import {" + q)[7] == '{'
  {
  }

  /** The end of a written import: `}`, a space, `from`, a space, `'react'`. */
  lemma TailChars(p: string)
    ensures var t := p + "} from 'react'";
      && |t| == |p| + 14 && t[|p|] == '}' && t[|p| + 1] == ' '
      && FromAt(t, |p| + 2) && t[|p| + 6] == ' ' && QuotedReactAt(t, |p| + 7)
  {
  }

  /** A written import line on its own has the accepted shape, with the
      padded names between its braces. */
  lemma ImportLineShape(names: seq<string>)
    requires forall k | 0 <= k < |names| :: '}' !in names[k]
    ensures var b := 8 + |Padded(names)|;
      && |ImportLine(names)| == b + 14
      && ShapeAt(ImportLine(names), 0, 7, b, b + 2, b + 7)
  {
    var cap := Padded(names);
    var line := ImportLine(names);
    JoinWithoutClose(names);
    HeadChars(cap + "} from 'react'");
    TailChars("import {" + cap);
    assert line == "import {" + (cap + "} from 'react'");
    assert line == ("import {" + cap) + "} from 'react'";
    assert forall x | 7 < x < 8 + |cap| :: line[x] == cap[x - 8];
  }

  /** A written import line is matched where it is written, whatever text
      surrounds it, and its capture is the padded name list. */
  lemma ImportLineMatches(pre: string, names: seq<string>, post: string)
    requires forall k | 0 <= k < |names| :: '}' !in names[k]
    ensures var t := pre + ImportLine(names) + post;
      MatchAt(t, |pre|) == Some(Match(|pre|, |ImportLine(names)|, Padded(names)))
  {
    WrittenLineShape(pre, names, post);
    AllShapesMatch();
    WrittenCapture(pre, names, post);
  }

  /** A written import line has the accepted shape where it is written. */
  lemma WrittenLineShape(pre: string, names: seq<string>, post: string)
    requires forall k | 0 <= k < |names| :: '}' !in names[k]
    ensures var t := pre + ImportLine(names) + post;
      && |ImportLine(names)| == 8 + |Padded(names)| + 14
      && ShapeAt(t, |pre|, |pre| + 7, |pre| + (8 + |Padded(names)|),
           |pre| + (8 + |Padded(names)|) + 2, |pre| + (8 + |Padded(names)|) + 7)
  {
    var line := ImportLine(names);
    var t := pre + line + post;
    var i, b := |pre|, 8 + |Padded(names)|;
    ImportLineShape(names);
    assert t[i..i + |line|] == line[0..b + 14];
    CopyHasShape(line, 0, t, i, 7, b, b + 2, b + 7);
  }

  /** The characters between the braces of a written import are the padded
      names written there. */
  lemma WrittenCapture(pre: string, names: seq<string>, post: string)
    ensures var t := pre + ImportLine(names) + post;
      t[|pre| + 7 + 1..|pre| + (8 + |Padded(names)|)] == Padded(names)
  {
    var cap := Padded(names);
    var t := pre + ImportLine(names) + post;
    assert t == pre + ("import {" + cap + "} from 'react'") + post;
    forall x | 0 <= x < |cap| ensures t[|pre| + 8 + x] == cap[x] {
    }
    assert t[|pre| + 8..|pre| + 8 + |cap|] == cap;
  }

  /** Reading back a written name list: splitting the padded list on `,` and
      trimming gives the names, trimmed. */
  lemma {:induction false} PaddedNamesReadBack(names: seq<string>)
    requires |names| >= 1
    requires forall k | 0 <= k < |names| :: ',' !in names[k]
    ensures TrimAll(Split(Padded(names), ',')) == TrimAll(names)
    decreases |names|
  {
    var x := names[0];
    if |names| == 1 {
      SingleNameReadBack(x);
    } else {
      var rest := names[1..];
      assert Padded(names) == (" " + x) + [','] + Padded(rest) by {
        assert Join(names, ", ") == x + ", " + Join(rest, ", ");
      }
      SplitAround(" " + x, ',', Padded(rest));
      SplitWithoutSeparator(" " + x, ',');
      PaddedNamesReadBack(rest);
      TrimSpaceBefore(x, ' ');
      assert [' '] + x == " " + x;
      assert names == [x] + rest;
    }
  }

  /** A single name, padded, reads back as the name, trimmed. */
  lemma SingleNameReadBack(x: string)
    requires ',' !in x
    ensures TrimAll(Split(Padded([x]), ',')) == TrimAll([x])
  {
    assert Padded([x]) == " " + x + " ";
    SplitWithoutSeparator(" " + x + " ", ',');
    TrimSpaceBefore(x + " ", ' ');
    assert [' '] + (x + " ") == " " + x + " ";
    TrimSpaceAfter(x, ' ');
  }

  /** Trimmed names are left alone by trimming. */
  lemma {:induction false} TrimAllTrimmed(names: seq<string>)
    requires forall k | 0 <= k < |names| :: Trim(names[k]) == names[k]
    ensures TrimAll(names) == names
    decreases |names|
  {
    if names != [] {
      TrimAllTrimmed(names[1..]);
    }
  }

  /** The names the merger writes come back, in order, when the written line is
      read again. */
  lemma WrittenNamesReadBack(names: seq<string>)
    requires |names| >= 1
    requires forall k | 0 <= k < |names| :: WellFormedName(names[k])
    ensures ImportedNames(Padded(names)) == names
  {
    PaddedNamesReadBack(names);
    TrimAllTrimmed(names);
  }

  /** The captured run of a match holds no `}`. */
  lemma CaptureHasNoClose(t: string, i: nat)
    requires MatchAt(t, i).Some?
    ensures '}' !in MatchAt(t, i).value.capture
  {
    MatchSpansParts(t, i);
    MatchCapture(t, i);
    var a, b := Parts(t, i).0, Parts(t, i).1;
    var cap := t[a + 1..b];
    forall x | 0 <= x < |cap| ensures cap[x] != '}' {
      assert cap[x] == t[a + 1 + x];
    }
  }

  /** The names read from a capture without `}` are well-formed. */
  lemma CapturedNamesWellFormed(capture: string)
    requires '}' !in capture
    ensures AllWellFormed(ImportedNames(capture))
  {
    ImportedNamesTrimmed(capture);
    ImportedNamesFromCapture(capture);
  }

  /** The missing hooks are some of the requested ones. */
  lemma MissingWellFormed(hooks: seq<string>, existing: seq<string>)
    requires AllWellFormed(hooks)
    ensures AllWellFormed(Missing(hooks, existing))
  {
    var missing := Missing(hooks, existing);
    forall k | 0 <= k < |missing| ensures WellFormedName(missing[k]) {
      assert missing[k] in hooks;
    }
  }

  /** Two well-formed name lists, one after the other, are well-formed. */
  lemma ConcatWellFormed(xs: seq<string>, ys: seq<string>)
    requires AllWellFormed(xs) && AllWellFormed(ys)
    ensures AllWellFormed(xs + ys)
  {
    forall k | 0 <= k < |xs + ys| ensures WellFormedName((xs + ys)[k]) {
      if k >= |xs| {
        assert (xs + ys)[k] == ys[k - |xs|];
      }
    }
  }

  /** The names an import lists, followed by well-formed requested hooks, are
      all well-formed. */
  lemma MergedNamesWellFormed(capture: string, hooks: seq<string>)
    requires '}' !in capture
    requires AllWellFormed(hooks)
    ensures AllWellFormed(ImportedNames(capture) + Missing(hooks, ImportedNames(capture)))
  {
    CapturedNamesWellFormed(capture);
    MissingWellFormed(hooks, ImportedNames(capture));
    ConcatWellFormed(ImportedNames(capture), Missing(hooks, ImportedNames(capture)));
  }

  /** The import found by the merger is the leftmost one in the rewritten text
      too: rewriting it in place leaves it first. */
  lemma RewrittenImportIsFound(text: string, names: seq<string>)
    requires FindImport(text).Some?
    requires forall k | 0 <= k < |names| :: '}' !in names[k]
    ensures var m := FindImport(text).value;
      var r := Splice(text, m.start, m.len, ImportLine(names));
      FindImport(r) == Some(Match(m.start, |ImportLine(names)|, Padded(names)))
  {
    var m := FindImport(text).value;
    var r := Splice(text, m.start, m.len, ImportLine(names));
    assert r == text[..m.start] + ImportLine(names) + text[m.start + m.len..];
    ImportLineMatches(text[..m.start], names, text[m.start + m.len..]);
    FindImportIsLeftmost(text);
    NoMatchBeforeSplices(text, r, m.start);
    FindImportIsFirst(r, m.start);
  }

  /** A new import in front of the text is the one found first. */
  lemma PrependedImportIsFound(text: string, hooks: seq<string>)
    requires forall k | 0 <= k < |hooks| :: '}' !in hooks[k]
    ensures FindImport(ImportLine(hooks) + ";\n\n" + text)
      == Some(Match(0, |ImportLine(hooks)|, Padded(hooks)))
  {
    ImportLineMatches([], hooks, ";\n\n" + text);
    assert [] + ImportLine(hooks) + (";\n\n" + text) == ImportLine(hooks) + ";\n\n" + text;
    FindImportIsFirst(ImportLine(hooks) + ";\n\n" + text, 0);
  }

  /** The first import of `r` lists every one of `hooks`. */
  predicate ImportsAll(r: string, hooks: seq<string>) {
    FindImport(r).Some? && forall h | h in hooks :: h in ImportedNames(FindImport(r).value.capture)
  }

  /** An import that already lists every hook is left as it is. */
  lemma ImportsAllWhenListed(text: string, hooks: seq<string>)
    requires FindImport(text).Some?
    requires Missing(hooks, ImportedNames(FindImport(text).value.capture)) == []
    ensures EnsureImport(text, hooks) == text && ImportsAll(text, hooks)
  {
    var existing := ImportedNames(FindImport(text).value.capture);
    forall h | h in hooks ensures h in existing {
    }
  }

  /** Well-formed names cannot close the braces of the import they are
      written into. */
  lemma WellFormedHaveNoClose(names: seq<string>)
    requires AllWellFormed(names)
    ensures forall k | 0 <= k < |names| :: '}' !in names[k]
  {
    forall k | 0 <= k < |names| ensures '}' !in names[k] {
      assert WellFormedName(names[k]);
    }
  }

  /** The merged list of names is written so that it reads back as itself. */
  lemma MergedNamesReadBack(text: string, hooks: seq<string>)
    requires AllWellFormed(hooks)
    requires FindImport(text).Some?
    requires Missing(hooks, ImportedNames(FindImport(text).value.capture)) != []
    ensures var existing := ImportedNames(FindImport(text).value.capture);
      var names := existing + Missing(hooks, existing);
      && (forall k | 0 <= k < |names| :: '}' !in names[k])
      && ImportedNames(Padded(names)) == names
  {
    var m := FindImport(text).value;
    var names := ImportedNames(m.capture) + Missing(hooks, ImportedNames(m.capture));
    CaptureHasNoClose(text, m.start);
    MergedNamesWellFormed(m.capture, hooks);
    WrittenNamesReadBack(names);
    WellFormedHaveNoClose(names);
  }

  /** An import that lacks some hooks is rewritten in place; the rewritten
      import is found first and lists the old names followed by the missing
      ones. */
  lemma ImportsAllWhenMerged(text: string, hooks: seq<string>)
    requires AllWellFormed(hooks)
    requires FindImport(text).Some?
    requires Missing(hooks, ImportedNames(FindImport(text).value.capture)) != []
    ensures var m := FindImport(text).value;
      var existing := ImportedNames(m.capture);
      var r := EnsureImport(text, hooks);
      && FindImport(r).Some?
      && FindImport(r).value.start == m.start
      && ImportedNames(FindImport(r).value.capture) == existing + Missing(hooks, existing)
  {
    var m := FindImport(text).value;
    var existing := ImportedNames(m.capture);
    var names := existing + Missing(hooks, existing);
    MergedNamesReadBack(text, hooks);
    RewrittenImportIsFound(text, names);
  }

  /** With no import in the text, the one put in front is found first and
      lists exactly the hooks. */
  lemma ImportsAllWhenPrepended(text: string, hooks: seq<string>)
    requires AllWellFormed(hooks)
    requires FindImport(text).None?
    ensures ImportsAll(EnsureImport(text, hooks), hooks)
  {
    PrependedImportIsFound(text, hooks);
    if hooks != [] {
      WrittenNamesReadBack(hooks);
    }
  }

  /** After the merger, the text holds an import that lists every requested
      hook, at the same place as the old import if there was one, and that
      still lists every name the old import listed, in the old order. */
  lemma EnsureImportImportsAll(text: string, hooks: seq<string>)
    requires AllWellFormed(hooks)
    ensures var r := EnsureImport(text, hooks);
      && ImportsAll(r, hooks)
      && (FindImport(text).Some? ==>
            && FindImport(r).value.start == FindImport(text).value.start
            && ImportedNames(FindImport(text).value.capture)
               <= ImportedNames(FindImport(r).value.capture))
  {
    if FindImport(text).Some? {
      var existing := ImportedNames(FindImport(text).value.capture);
      var missing := Missing(hooks, existing);
      if missing == [] {
        ImportsAllWhenListed(text, hooks);
      } else {
        ImportsAllWhenMerged(text, hooks);
        assert existing <= existing + missing;
      }
    } else {
      ImportsAllWhenPrepended(text, hooks);
    }
  }

  /** Nothing is missing when every hook is already listed. */
  lemma NoneMissing(hooks: seq<string>, existing: seq<string>)
    requires forall h | h in hooks :: h in existing
    ensures Missing(hooks, existing) == []
  {
    if Missing(hooks, existing) != [] {
      assert Missing(hooks, existing)[0] in Missing(hooks, existing);
    }
  }

  /** A text whose first import lists every requested hook is left alone. */
  lemma ImportsAllUnchanged(text: string, hooks: seq<string>)
    requires ImportsAll(text, hooks)
    ensures EnsureImport(text, hooks) == text
  {
    NoneMissing(hooks, ImportedNames(FindImport(text).value.capture));
  }

  /** Calling the merger a second time with the same well-formed hooks changes
      nothing. */
  lemma EnsureImportIdempotent(text: string, hooks: seq<string>)
    requires AllWellFormed(hooks)
    ensures EnsureImport(EnsureImport(text, hooks), hooks) == EnsureImport(text, hooks)
  {
    EnsureImportImportsAll(text, hooks);
    ImportsAllUnchanged(EnsureImport(text, hooks), hooks);
  }

  /** The merger leaves the text alone exactly when an import is found and it
      already lists every requested hook. */
  lemma EnsureImportUnchangedIff(text: string, hooks: seq<string>)
    requires AllWellFormed(hooks)
    ensures EnsureImport(text, hooks) == text <==> ImportsAll(text, hooks)
  {
    if ImportsAll(text, hooks) {
      ImportsAllUnchanged(text, hooks);
    } else {
      EnsureImportImportsAll(text, hooks);
    }
  }

  /** `s` is what `r` ends with. */
  predicate EndsWith(r: string, s: string) {
    |s| <= |r| && r[|r| - |s|..] == s
  }

  /** A splice keeps what comes before and after the replaced span and writes
      the new text in its place. */
  lemma SpliceKeepsSurroundings(text: string, start: nat, len: nat, line: string)
    requires start + len <= |text|
    ensures var r := Splice(text, start, len, line);
      text[..start] <= r && EndsWith(r, text[start + len..]) && OccursAt(r, line, start)
  {
    var r := Splice(text, start, len, line);
    assert |r| - |text[start + len..]| == start + |line|;
  }

  /** The merged import is spliced over the found one, between the text
      before it and the text after it. */
  lemma KeepsAroundMergedImport(text: string, hooks: seq<string>, m: Match)
    requires FindImport(text) == Some(m)
    requires Missing(hooks, ImportedNames(m.capture)) != []
    ensures text[..m.start] <= EnsureImport(text, hooks)
    ensures EndsWith(EnsureImport(text, hooks), text[m.start + m.len..])
    ensures OccursAt(EnsureImport(text, hooks),
      ImportLine(ImportedNames(m.capture) + Missing(hooks, ImportedNames(m.capture))), m.start)
  {
    var line := ImportLine(ImportedNames(m.capture) + Missing(hooks, ImportedNames(m.capture)));
    assert EnsureImport(text, hooks) == Splice(text, m.start, m.len, line);
    SpliceKeepsSurroundings(text, m.start, m.len, line);
  }

  /** With no import found, the new import and a blank line go in front of
      the unchanged text. */
  lemma KeepsBehindNewImport(text: string, hooks: seq<string>)
    requires FindImport(text).None?
    ensures var r := EnsureImport(text, hooks);
      && ImportLine(hooks) + ";\n\n" <= r && EndsWith(r, text)
      && |r| == |ImportLine(hooks)| + 3 + |text|
  {
    var front := ImportLine(hooks) + ";\n\n";
    assert |front + text| - |text| == |front|;
  }
}

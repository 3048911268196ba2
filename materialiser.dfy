/** The editor side of the extension: the document buffer and the two commands
    that edit it, `checkAndAddImport` (src/extension.ts:17-52) and
    `insertHookSnippet` (src/extension.ts:54-115). Host positions are document
    offsets. */
module Materialiser {
  import opened Options
  import opened Text
  import opened ImportMatch
  import opened ImportMerge
  import opened Hooks

  /** A position validated against a document of length `n`: past the end
      means the end. */
  function Clamp(p: nat, n: nat): (r: nat)
    ensures r <= n && (r == p || (r == n && n < p))
  {
    if p <= n then p else n
  }

  /** `new Range(a, b)` in a document of length `n`: both ends validated and
      put in order, start first. */
  function RangeOf(a: nat, b: nat, n: nat): (r: (nat, nat))
    ensures r.0 <= r.1 <= n
    ensures {r.0, r.1} == {Clamp(a, n), Clamp(b, n)}
  {
    var x, y := Clamp(a, n), Clamp(b, n);
    if x <= y then (x, y) else (y, x)
  }

  /** The text once the range between `a` and `b` is deleted. */
  function DeleteRange(text: string, a: nat, b: nat): (r: string)
    ensures var (lo, hi) := RangeOf(a, b, |text|);
      |r| == |text| - (hi - lo) && text[..lo] <= r && EndsWith(r, text[hi..])
  {
    var (lo, hi) := RangeOf(a, b, |text|);
    var r := text[..lo] + text[hi..];
    assert r[..lo] == text[..lo];
    assert r[|r| - |text[hi..]|..] == text[hi..];
    r
  }

  /** The text with `s` inserted at the validated position `p`. */
  function InsertAt(text: string, p: nat, s: string): (r: string)
    ensures var q := Clamp(p, |text|);
      |r| == |text| + |s| && text[..q] <= r && OccursAt(r, s, q) && EndsWith(r, text[q..])
  {
    var q := Clamp(p, |text|);
    var r := text[..q] + s + text[q..];
    assert r[..q] == text[..q];
    assert r[q..q + |s|] == s;
    assert r[|r| - |text[q..]|..] == text[q..];
    r
  }

  /** What `insertHookSnippet(editor, hook, triggerStart)` leaves as the
      document: the trigger (from its start to the cursor) deleted, the import
      ensured, then the hook's template inserted where the cursor ends up, if
      the hook has one. */
  function MaterialisedText(text: string, hook: string, triggerStart: nat, cursor: nat, snippetAt: nat): string {
    var imported := EnsureImport(DeleteRange(text, triggerStart, cursor), [hook]);
    match Template(hook)
    case Some(t) => InsertAt(imported, snippetAt, t)
    case None => imported
  }

  /** The merger's own spelling of an import line is the one `ImportLine`
      describes. */
  lemma WrittenImportText(names: seq<string>)
    ensures "import { " + Join(names, ", ") + " } from 'react'" == ImportLine(names)
  {
    var j := Join(names, ", ");
    assert "import { " == "import {" + " ";
    assert " } from 'react'" == " " + "} from 'react'";
    calc {
      "import { " + j + " } from 'react'";
      ("import {" + " ") + j + (" " + "} from 'react'");
      "import {" + (" " + j + " ") + "} from 'react'";
    }
  }

  /** The edit `checkAndAddImport` makes when some hooks are missing: the
      span from `startPos` to `endPos`, which is the matched span, becomes
      the merged import `newImport`. */
  lemma MergeEdit(t: string, hooks: seq<string>, m: Match, newImport: string, startPos: int, endPos: int)
    requires FindImport(t) == Some(m) && m.start + m.len <= |t|
    requires |Missing(hooks, ImportedNames(m.capture))| != 0
    requires newImport == "import { "
      + Join(ImportedNames(m.capture) + Missing(hooks, ImportedNames(m.capture)), ", ") + " } from 'react'"
    requires startPos == m.start && endPos == m.start + m.len
    ensures t[..startPos] + newImport + t[endPos..] == EnsureImport(t, hooks)
  {
    WrittenImportText(ImportedNames(m.capture) + Missing(hooks, ImportedNames(m.capture)));
  }

  /** When the found import already lists every hook, `checkAndAddImport`
      leaves the text alone. */
  lemma NoEdit(t: string, hooks: seq<string>, m: Match, newHooks: seq<string>)
    requires FindImport(t) == Some(m)
    requires newHooks == Missing(hooks, ImportedNames(m.capture)) && |newHooks| == 0
    ensures t == EnsureImport(t, hooks)
  {
  }

  /** The edit `checkAndAddImport` makes when no import is found: the new
      import and a blank line in front of the text. */
  lemma PrependEdit(t: string, hooks: seq<string>)
    requires FindImport(t).None?
    ensures ("import { " + Join(hooks, ", ") + " } from 'react';\n\n") + t == EnsureImport(t, hooks)
  {
    WrittenImportText(hooks);
    assert "import { " + Join(hooks, ", ") + " } from 'react';\n\n"
      == ("import { " + Join(hooks, ", ") + " } from 'react'") + ";\n\n";
  }

  /** The document buffer of one editor and the edits the extension makes to
      it. */
  class Editor {
    var text: string

    constructor(initial: string)
      ensures text == initial
    {
      text := initial;
    }

    /** `editBuilder.replace`: the characters from `start` to `end` become `s`. */
    method Replace(start: nat, end: nat, s: string)
      requires start <= end <= |text|
      modifies this
      ensures text == old(text)[..start] + s + old(text)[end..]
    {
      text := text[..start] + s + text[end..];
    }

    /** `editBuilder.insert`: `s` goes in at `at`. */
    method Insert(at: nat, s: string)
      requires at <= |text|
      modifies this
      ensures text == old(text)[..at] + s + old(text)[at..]
    {
      Replace(at, at, s);
    }

    /** `editBuilder.delete(new Range(a, b))`. */
    method Delete(a: nat, b: nat)
      modifies this
      ensures text == DeleteRange(old(text), a, b)
    {
      var (lo, hi) := RangeOf(a, b, |text|);
      Replace(lo, hi, "");
      assert text == old(text)[..lo] + old(text)[hi..];
    }

    /** `checkAndAddImport(editor, hooks)`: merge the missing hooks into the
        first `react` import, or put a new import in front. */
    method CheckAndAddImport(hooks: seq<string>)
      modifies this
      ensures text == EnsureImport(old(text), hooks)
    {
      var fullText := text;
      var importMatch := FindImport(fullText);
      if importMatch.Some? {
        var m := importMatch.value;
        var existingImports := ImportedNames(m.capture);
        var newHooks := Missing(hooks, existingImports);
        if |newHooks| == 0 {
          NoEdit(fullText, hooks, m, newHooks);
          return;
        }
        var oldImport := fullText[m.start..m.start + m.len];
        var allHooks := Join(existingImports + newHooks, ", ");
        var newImport := "import { " + allHooks + " } from 'react'";
        IndexOfFindsMatch(fullText, m);
        MatchedTextLength(fullText, m);
        var startPos := IndexOf(fullText, oldImport);
        var endPos := startPos + |oldImport|;
        MergeEdit(fullText, hooks, m, newImport, startPos, endPos);
        Replace(startPos, endPos, newImport);
      } else {
        var importText := "import { " + Join(hooks, ", ") + " } from 'react';\n\n";
        PrependEdit(fullText, hooks);
        Insert(0, importText);
      }
    }

    /** `insertHookSnippet(editor, hookType, triggerStart)`: delete the trigger
        up to the cursor, ensure the import, then insert the hook's template
        at `snippetAt`, where the host has moved the cursor; an unknown hook
        gets no template but keeps the first two edits. */
    method InsertHookSnippet(hookType: string, triggerStart: nat, cursor: nat, snippetAt: nat)
      returns (inserted: bool)
      modifies this
      ensures inserted <==> Template(hookType).Some?
      ensures text == MaterialisedText(old(text), hookType, triggerStart, cursor, snippetAt)
    {
      var position := cursor;
      Delete(triggerStart, position);
      CheckAndAddImport([hookType]);
      var snippet := Template(hookType);
      if snippet.None? {
        return false;
      }
      Insert(Clamp(snippetAt, |text|), snippet.value);
      inserted := true;
    }
  }

  /** A range given in either order deletes the same text. */
  lemma DeleteRangeEitherOrder(text: string, a: nat, b: nat)
    ensures DeleteRange(text, a, b) == DeleteRange(text, b, a)
  {
  }

  /** Deleting what was just inserted gives the text back. */
  lemma DeleteUndoesInsert(text: string, p: nat, s: string)
    ensures var q := Clamp(p, |text|);
      DeleteRange(InsertAt(text, p, s), q, q + |s|) == text
  {
    var q := Clamp(p, |text|);
    var r := InsertAt(text, p, s);
    assert RangeOf(q, q + |s|, |r|) == (q, q + |s|);
    assert r[..q] + r[q + |s|..] == text[..q] + text[q..];
    assert text[..q] + text[q..] == text;
  }

  /** Every hook of the table is a name the merger writes and reads back
      unchanged. */
  lemma TableHooksWellFormed()
    ensures forall k | 0 <= k < |HOOK_ABBREVIATIONS| :: WellFormedName(HOOK_ABBREVIATIONS[k].1)
  {
    forall k | 0 <= k < |HOOK_ABBREVIATIONS| ensures WellFormedName(HOOK_ABBREVIATIONS[k].1) {
      var h := HOOK_ABBREVIATIONS[k].1;
      assert |h| > 0 && !IsSpace(h[0]) && !IsSpace(h[|h| - 1]);
    }
  }

  /** For a table hook, the document ends up with an import listing the hook,
      and then the hook's template, which calls the hook and carries the final
      tab stop, inserted at the validated snippet position with the text
      around it kept. */
  lemma MaterialiseTableHook(text: string, hook: string, triggerStart: nat, cursor: nat, snippetAt: nat)
    requires IsTableHook(hook)
    ensures var imported := EnsureImport(DeleteRange(text, triggerStart, cursor), [hook]);
      var q := Clamp(snippetAt, |imported|);
      var r := MaterialisedText(text, hook, triggerStart, cursor, snippetAt);
      && ImportsAll(imported, [hook])
      && Template(hook).Some?
      && imported[..q] <= r
      && OccursAt(r, Template(hook).value, q)
      && EndsWith(r, imported[q..])
      && Contains(Template(hook).value, hook + "(")
      && Contains(Template(hook).value, "${0}")
      && (q >= FindImport(imported).value.start + FindImport(imported).value.len ==> ImportsAll(r, [hook]))
  {
    var imported := EnsureImport(DeleteRange(text, triggerStart, cursor), [hook]);
    TableHookImported(DeleteRange(text, triggerStart, cursor), hook);
    TemplatesCallHookWithFinalStop(hook);
    InsertBehindImportKeepsIt(imported, snippetAt, Template(hook).value, [hook]);
  }

  /** Text inserted at or after the end of the import leaves the import, and
      so the hooks it lists, where they were. */
  lemma InsertBehindImportKeepsIt(imported: string, p: nat, s: string, hooks: seq<string>)
    requires ImportsAll(imported, hooks)
    ensures Clamp(p, |imported|) >= FindImport(imported).value.start + FindImport(imported).value.len ==>
      FindImport(InsertAt(imported, p, s)) == FindImport(imported) && ImportsAll(InsertAt(imported, p, s), hooks)
  {
    var m := FindImport(imported).value;
    var q := Clamp(p, |imported|);
    var e := m.start + m.len;
    if q >= e {
      var r := InsertAt(imported, p, s);
      assert r[..e] == r[..q][..e] == imported[..q][..e] == imported[..e];
      FindImportKeptByPrefix(imported, r, m);
    }
  }

  /** Ensuring the import of a table hook always leaves an import listing it. */
  lemma TableHookImported(text: string, hook: string)
    requires IsTableHook(hook)
    ensures ImportsAll(EnsureImport(text, [hook]), [hook])
  {
    var k :| 0 <= k < |HOOK_ABBREVIATIONS| && HOOK_ABBREVIATIONS[k].1 == hook;
    TableHooksWellFormed();
    assert AllWellFormed([hook]);
    EnsureImportImportsAll(text, [hook]);
  }

  /** For a hook without a template, the trigger is still deleted and the
      import still ensured: the document gets an import of the unknown name
      when it is well-formed. */
  lemma MaterialiseUnknownHook(text: string, hook: string, triggerStart: nat, cursor: nat, snippetAt: nat)
    requires Template(hook).None?
    ensures var r := MaterialisedText(text, hook, triggerStart, cursor, snippetAt);
      && r == EnsureImport(DeleteRange(text, triggerStart, cursor), [hook])
      && (WellFormedName(hook) ==> ImportsAll(r, [hook]))
  {
    if WellFormedName(hook) {
      assert AllWellFormed([hook]);
      EnsureImportImportsAll(DeleteRange(text, triggerStart, cursor), [hook]);
    }
  }
}

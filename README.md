# React Ninja Snippets — a verified model of the hook inserter

React Ninja Snippets is an editor extension for React code. It adds the
suggestions `useState`, `useEffect` and `useCallback`, plus nine short
abbreviations (`ust`, `uef`, `ucb`, `urf`, `urd`, `uct`, `umo`, `uid`,
`uts`). Accepting a suggestion runs one command, which does three things:
- it deletes the typed trigger;
- it makes sure the hook is imported from `react`, extending an existing
  `import { … } from 'react'` line or prepending a new one;
- it inserts the hook's snippet template.

The model covers all of `src/extension.ts` except what "## Left out" lists:

| file | module | what it holds |
|---|---|---|
| `options.dfy` | `Options` | The `Option` datatype for "found or not": a regular-expression match, an `indexOf` hit, a `switch` case with a template. |
| `text.dfy` | `Text` | The JavaScript string operations the source uses: `trim`, `split`, `join`, `indexOf`, `startsWith`. Strings are sequences of characters. |
| `hooks.dfy` | `Hooks` | The abbreviation table and the snippet template of every `switch` case. |
| `match.dfy` | `ImportMatch` | The regular expression `/import\s*{([^}]+)}\s*from\s*['"]react['"]/`, written out as a recogniser at a position plus a leftmost search. |
| `import_merge.dfy` | `ImportMerge` | `checkAndAddImport` as a pure function `EnsureImport` of the document text, plus everything proved about it. |
| `completion.dfy` | `Completion` | The completion provider and `createCompletionItem`. The provider's push loop is a method proved against the function `Suggestions`. |
| `materialiser.dfy` | `Materialiser` | The document as a class `Editor` with a mutable `text` field. Its methods are `Replace`, `Insert`, `Delete`, `CheckAndAddImport` and `InsertHookSnippet`, each proved against a function of the old text. |

Host positions (`vscode.Position`, `vscode.Range`) are character offsets
into the document text. A range's ends are validated against the document
length and put in order, as the host does.

Four behaviours of the code are worth knowing:
- **Full-name suggestions.** A full name is suggested only for `useState`,
  `useEffect` and `useCallback` (src/extension.ts:131-160). The other six
  hooks are reached only through their abbreviation.
- **Imports for unknown hooks.** `insertHookSnippet` ensures the import for
  any hook name before its `switch`, so a name with no template is still
  imported. The `default` branch returns only after the import has been
  written (`MaterialiseUnknownHook`).
- **Quote kinds.** An existing import is recognised with either quote kind
  around `react`. A rewritten or prepended import always uses single quotes.
- **Empty pieces.** Names are read with `split(",")` and `trim()`, so a
  trailing comma in an existing import (`{ useState, }`) yields an empty
  last name. The merger keeps it, and merging `useRef` then writes
  `{ useState, , useRef }`. Requested hooks are compared against the
  trimmed pieces exactly.

## Model

| member | source | states |
|---|---|---|
| Hooks.SnippetFor | src/extension.ts:70-112 | The snippet of each `switch` case, split around the call of its hook and the final tab stop; `None` for `default`. Its properties are Hooks.Template, Hooks.TemplateExactlyForTableHooks and the per-hook template lemmas. |
| Hooks.UseStateTemplate | src/extension.ts:71-75 | The `useState` template is letter for letter the source's snippet text. |
| Hooks.UseRefTemplate | src/extension.ts:86-88 | The `useRef` template is letter for letter the source's snippet text. |
| Hooks.UseContextTemplate | src/extension.ts:94-96 | The `useContext` template is letter for letter the source's snippet text. |
| Hooks.UseIdTemplate | src/extension.ts:102-104 | The `useId` template is letter for letter the source's snippet text. |
| Hooks.UseTransitionTemplate | src/extension.ts:105-109 | The `useTransition` template is letter for letter the source's snippet text. |
| Hooks.UseEffectTemplate | src/extension.ts:76-80 | The multi-line `useEffect` template is letter for letter the source's snippet text. |
| Hooks.UseCallbackTemplate | src/extension.ts:81-85 | The multi-line `useCallback` template is letter for letter the source's snippet text. |
| Hooks.UseReducerTemplate | src/extension.ts:89-93 | The `useReducer` template is letter for letter the source's snippet text. |
| Hooks.UseMemoTemplate | src/extension.ts:97-101 | The multi-line `useMemo` template is letter for letter the source's snippet text. |
| Hooks.AbbreviationsUnique | src/extension.ts:4-15 | No two entries of the abbreviation table share an abbreviation. |
| Hooks.Template | src/extension.ts:70-112 | Its own contract only ties it to Hooks.SnippetFor (a template exactly when the `switch` has a case). What the templates are is carried by Hooks.TemplateExactlyForTableHooks (exactly the table's hooks have one), Hooks.TemplatesCallHookWithFinalStop and the nine per-hook template lemmas (letter for letter the source's text). |
| Hooks.TemplateExactlyForTableHooks | src/extension.ts:4-15 | A hook has a snippet template if and only if it is one of the nine hooks of the abbreviation table. |
| Hooks.RenderCallsHook | src/extension.ts:70-109 | Every snippet text calls its hook: `hook(` occurs right after the text before the call. |
| Hooks.RenderHasFinalStop | src/extension.ts:70-109 | Every snippet text carries the final tab stop `${0}` inside the call's parentheses. |
| Hooks.TemplatesCallHookWithFinalStop | src/extension.ts:70-109 | For every table hook the inserted template exists, contains `hook(` and contains `${0}`. |
| ImportMatch.MatchAt | src/extension.ts:22-24 | A match found at position i starts at i, ends within the text and begins with `import`. |
| ImportMatch.ShapeMatches | src/extension.ts:22-24 | Any text of the regular expression's shape at i is matched there, spanning through the closing quote of `react` and capturing exactly the text between the braces. |
| ImportMatch.MatchHasShape | src/extension.ts:22-24 | Conversely, every match has that shape: `import`, optional spaces, `{`, a capture free of `}`, `}`, spaces, `from`, spaces, a quoted `react`. |
| ImportMatch.FindImport | src/extension.ts:22-24 | `fullText.match(...)`: a found match is the match at its own start. That it is the leftmost one is ImportMatch.FindImportIsLeftmost. |
| ImportMatch.SameSpanSameMatch | src/extension.ts:22-24 | The same matched text at the same position is matched the same way there, capture included, whatever follows it. |
| ImportMatch.FindImportKeptByPrefix | src/extension.ts:22-24 | A text that agrees with another up to the end of its leftmost match has that same leftmost match. |
| ImportMatch.FindImportIsLeftmost | src/extension.ts:22-24 | `fullText.match` finds the leftmost match. If it finds none, no position matches. |
| ImportMatch.FindImportIsFirst | src/extension.ts:22-24 | A match with no match before it is the one the search finds. |
| ImportMatch.MatchMoves | src/extension.ts:22-24 | Whether the regular expression matches depends only on the matched characters: a copy of a matched text matches wherever it occurs. |
| ImportMatch.IndexOfFindsMatch | src/extension.ts:32-36 | `fullText.indexOf(importMatch[0])` is exactly the start of the match, so the replaced range is the matched import. |
| ImportMatch.NoMatchBeforeSplices | src/extension.ts:38-44 | Rewriting the text from a match onward, so that it still matches there, creates no earlier match. |
| ImportMerge.ImportedNames | src/extension.ts:26 | `importMatch[1].split(",").map(trim)`: at least one name, empty pieces kept. Its properties are ImportMerge.ImportedNamesTrimmed and ImportMerge.WrittenNamesReadBack. |
| ImportMerge.ImportedNamesTrimmed | src/extension.ts:26 | Every name read from an import has no comma and is already trimmed. |
| ImportMerge.Missing | src/extension.ts:28 | A hook is missing exactly when it is requested and not among the existing names; there are no more missing hooks than requested. |
| ImportMerge.MissingAppend | src/extension.ts:28 | The missing hooks keep request order: the missing hooks of two request lists, one after the other, are those of the first list followed by those of the second. |
| ImportMerge.MissingSingle | src/extension.ts:28 | A single requested hook is missing exactly when it is not listed. |
| ImportMerge.Splice | src/extension.ts:38-44 | Replacing a range keeps the text before it and the text after it, with the new line in between. |
| ImportMerge.WrittenNamesReadBack | src/extension.ts:26-34 | Names without `,` or `}` and without surrounding white space, once joined with `", "` into `import { … }`, split and trim back to the same names. |
| ImportMerge.RewrittenImportIsFound | src/extension.ts:22-44 | After the rewrite, the first import match is still at the same start and captures the newly written names. |
| ImportMerge.PrependedImportIsFound | src/extension.ts:46-50 | A prepended import is the first match of the new text, at position 0. |
| ImportMerge.ImportsAllWhenListed | src/extension.ts:28-29 | When every requested hook is already listed, the text is left unchanged and already imports them all. |
| ImportMerge.ImportsAllWhenMerged | src/extension.ts:31-45 | After a merge, the import found lists exactly the old names followed by the missing hooks. |
| ImportMerge.ImportsAllWhenPrepended | src/extension.ts:46-50 | With no import in the text, the result imports every requested hook. |
| ImportMerge.EnsureImport | src/extension.ts:17-52 | The document text `checkAndAddImport` leaves. Its properties are the ImportMerge lemmas in this table, and Materialiser.Editor.CheckAndAddImport is proved to produce it. |
| ImportMerge.EnsureImportImportsAll | src/extension.ts:17-52 | Whatever the text, the result's first import lists every requested well-formed hook. When an import already existed, it stays at the same start and its old names remain a prefix of the new list, so no name is dropped. |
| ImportMerge.ImportsAllUnchanged | src/extension.ts:25-29 | A text that already imports every hook is returned unchanged. |
| ImportMerge.EnsureImportUnchangedIff | src/extension.ts:25-29 | The merger leaves the text unchanged if and only if its import already lists every requested hook. |
| ImportMerge.EnsureImportIdempotent | src/extension.ts:17-52 | Ensuring the import twice is the same as ensuring it once. |
| ImportMerge.KeepsAroundMergedImport | src/extension.ts:31-45 | A merge keeps all text before and after the matched import and writes the merged import line where the old one started. |
| ImportMerge.KeepsBehindNewImport | src/extension.ts:46-50 | Without an import, the result is the new import line, `;` and a blank line, followed by the whole original text. |
| Completion.CreateCompletionItem | src/extension.ts:181-195 | Its own contract lists the item's fields as built. What the items achieve is carried by Completion.SuggestionsInsertKnownHooks: every suggested item runs the insert command on a hook that has a template, at the trigger position. |
| Completion.FullNameCandidates | src/extension.ts:131-160 | One full-name candidate per checked name, in checking order. |
| Completion.AbbreviationCandidates | src/extension.ts:163-174 | One abbreviation candidate per table entry, in table order. |
| Completion.ProvideCompletionItems | src/extension.ts:123-177 | The loop that pushes items returns exactly `Suggestions` for the word and the trigger position. |
| Completion.Select | src/extension.ts:131-174 | The items of the candidates whose key starts with the word, in candidate order. Its properties are Completion.SelectMembership, Completion.SelectAppend and Completion.SelectBounded. |
| Completion.Suggestions | src/extension.ts:123-177 | What the provider returns. Its properties are Completion.SuggestedIff, Completion.FullNamesFirst, Completion.SuggestionsForEmptyWord and Completion.SuggestionsInsertKnownHooks, and Completion.ProvideCompletionItems is proved to return it. |
| Completion.SelectMembership | src/extension.ts:131-174 | An item is offered if and only if it is the item of a candidate whose key starts with the word. |
| Completion.SelectAppend | src/extension.ts:131-174 | Selection keeps candidate order: selecting from two runs of candidates gives their selections one after the other. |
| Completion.SelectBounded | src/extension.ts:131-174 | No more items are offered than there are candidates. |
| Completion.SuggestionsForEmptyWord | src/extension.ts:125-174 | With no word, all twelve items are offered: the three full names, then the nine abbreviations in table order. |
| Completion.FullNamesFirst | src/extension.ts:131-174 | The full-name items (at most three, no filter text) come before the abbreviation items (at most nine, each with filter text). |
| Completion.SuggestedIff | src/extension.ts:131-174 | A table entry is offered if and only if its abbreviation starts with the word; a full name if and only if the name does. |
| Completion.SuggestionsInsertKnownHooks | src/extension.ts:163-193 | Every offered item runs the insert command for its own label at the trigger position, has a filter key starting with the word, and names a hook that has a template. |
| Materialiser.Clamp | src/extension.ts:62 | A validated position lies within the document and is the given position unless that lies past the end. |
| Materialiser.RangeOf | src/extension.ts:62 | A range is the two validated ends, put in order. |
| Materialiser.DeleteRange | src/extension.ts:61-63 | Deleting a range keeps the text before and after it and shortens the text by the range's length. |
| Materialiser.InsertAt | src/extension.ts:114 | Inserting keeps the text before and after the validated position and places the inserted text there. |
| Materialiser.DeleteRangeEitherOrder | src/extension.ts:62 | A range deletes the same text whichever end is given first. |
| Materialiser.DeleteUndoesInsert | src/extension.ts:61-114 | Deleting what was just inserted gives back the original text. |
| Materialiser.MergeEdit | src/extension.ts:31-45 | The replacement built from `oldImport`, `newImport`, `startPos` and `endPos` gives exactly the merged text. |
| Materialiser.PrependEdit | src/extension.ts:46-50 | Inserting `importText` at the start gives exactly the text with a prepended import. |
| Materialiser.Editor.Replace | src/extension.ts:38-44 | The document text becomes the text before the range, the new text, and the text after the range. |
| Materialiser.Editor.Insert | src/extension.ts:49 | The inserted text is placed at the position, with all text around it kept. |
| Materialiser.Editor.Delete | src/extension.ts:61-63 | The document text becomes the old text with the validated range removed. |
| Materialiser.Editor.CheckAndAddImport | src/extension.ts:17-52 | The method's edits leave exactly `EnsureImport` of the old text, so every property of `EnsureImport` above holds of the document. |
| Materialiser.Editor.InsertHookSnippet | src/extension.ts:54-115 | The method reports an insertion exactly for hooks with a template. It leaves the old text with the trigger deleted, the import ensured and the template inserted. |
| Materialiser.TableHooksWellFormed | src/extension.ts:4-15 | Every table hook is a name the merger writes and reads back unchanged. |
| Materialiser.TableHookImported | src/extension.ts:66 | After the import step for a table hook, the document's import lists that hook. |
| Materialiser.MaterialisedText | src/extension.ts:54-115 | The document `insertHookSnippet` leaves. Its properties are Materialiser.MaterialiseTableHook and Materialiser.MaterialiseUnknownHook, and Materialiser.Editor.InsertHookSnippet is proved to produce it. |
| Materialiser.MaterialiseTableHook | src/extension.ts:54-115 | For a table hook, the import step leaves an import listing the hook, and the template is inserted at the snippet position with the text around it kept. The template calls the hook and has a final tab stop. When the snippet goes at or after the end of the import, which is the case when the trigger was typed after the import line (the usual case), the final document still imports the hook. |
| Materialiser.InsertBehindImportKeepsIt | src/extension.ts:114 | Text inserted at or after the end of the leftmost import leaves that import, and the hooks it lists, unchanged. |
| Materialiser.MaterialiseUnknownHook | src/extension.ts:110-111 | For a hook without a template, the trigger is still deleted and the import still ensured, and nothing else changes. A well-formed unknown name is then imported. |
| Text.Trim | src/extension.ts:26 | `trim()`: the result neither starts nor ends with white space, and holds only characters of the input. That it is the input with only leading and trailing white space removed is Text.TrimCut. |
| Text.TrimCut | src/extension.ts:26 | `trim()` returns one contiguous piece of its input, and everything before and after that piece is white space. |
| Text.TrimAll | src/extension.ts:26 | `map((hook) => hook.trim())`: one trimmed name per piece, in order. |
| Text.Split | src/extension.ts:26 | `split(",")`: at least one piece, no piece holds the separator, and pieces hold only characters of the input. For a one-character separator such as `","`, splitting is undone by joining (Text.JoinSplit) and recovers joined pieces (Text.SplitJoin). |
| Text.Join | src/extension.ts:33 | `join(", ")`: a single name is joined to itself. Its inverse for the two-character separator `", "` is ImportMerge.WrittenNamesReadBack: names joined into the import line split and trim back to the same names. |
| Text.TrimIdempotent | src/extension.ts:26 | Trimming twice is trimming once. |
| Text.IndexOf | src/extension.ts:35 | `indexOf` returns -1 exactly when the pattern occurs nowhere; otherwise it returns the first position where the pattern occurs. |
| Text.JoinSplit | src/extension.ts:26 | Splitting at a separator and joining with it gives the text back. |
| Text.SplitJoin | src/extension.ts:26 | A property of `split(",")`: pieces without `,` that are joined with a one-character separator split back into the same pieces. |

## Left out

- `activate` and `deactivate` (src/extension.ts:117-121, 197-214) are not modelled. They are host registration and carry no logic beyond what `ProvideCompletionItems`, `CreateCompletionItem` and `InsertHookSnippet` model.
- The host's snippet engine is not modelled: placeholders, tab stops and the `capitalize` transform at src/extension.ts:73. Templates are inserted as their literal text.
- Host geometry comes in as parameters. The word range and cursor come from `getWordRangeAtPosition` and `editor.selection.active`. `snippetAt` is where the host has moved the cursor once the earlier edits are applied. `document.positionAt` is the identity on offsets, and line/column pairs are not modelled.
- Awaiting of edits is not modelled: the asynchronous calls, the chance that an edit is refused, and concurrent edits. The edits are applied in program order and always succeed.
- Completion item kinds (icons) and command titles are not modelled; they have no effect on the text.
- Strings are sequences of Unicode scalar values, not of UTF-16 code units. Offsets therefore differ from the host's for characters outside the Basic Multilingual Plane.
- ImportMatch.MatchMoves: states that a copy of a match elsewhere matches with the same length, not that it captures the same text. ImportMatch.SameSpanSameMatch states the capture for a copy at the same position, which is the case the merger needs.
- ImportMerge.EnsureImportImportsAll: requires every requested hook to be well-formed: no `,` or `}` and no surrounding white space. A name containing a comma would be split when the import is read back, so the property does not hold for such names. Every name the extension passes is a table hook (Materialiser.TableHooksWellFormed).
- ImportMerge.EnsureImportIdempotent: requires well-formed hooks, for the same reason.
- ImportMerge.EnsureImportUnchangedIff: requires well-formed hooks, for the same reason.
- ImportMerge.ImportsAllWhenMerged: requires well-formed hooks, for the same reason.
- ImportMerge.ImportsAllWhenPrepended: requires well-formed hooks, for the same reason.
- Materialiser.MaterialiseUnknownHook: proves the import of an unknown hook only for well-formed names, for the same reason.
- Materialiser.MaterialiseTableHook: the final document is proved to import the hook only when the snippet goes at or after the end of the import, that is, when the trigger was typed after the import line (the usual case). When the trigger was typed before the first `react` import, the cursor stays in front of it (the replace at src/extension.ts:38-44 edits text after the cursor), so the template goes in front of the import. The import then still lists the hook, because no template contains `import`, but the model does not prove this. `snippetAt` is a parameter, and a position inside the import line would break the import.
- Duplicate hooks within one request are not removed by the source and the model keeps them. Only one-element requests are ever made.

/** The completion provider registered in `activate` (src/extension.ts:123-195):
    which suggestions it offers for the word being typed, in which order, and
    which command each of them runs. */
module Completion {
  import opened Options
  import opened Text
  import opened Hooks

  /** The identifier of the command every suggestion runs. */
  const INSERT_HOOK := "react-ninja-snippets.insertHook"

  /** `item.command`: the command and its arguments `[hook, triggerPosition]`,
      the position being a document offset. */
  datatype HookCommand = HookCommand(command: string, hook: string, trigger: nat)

  /** A completion item: its label (`name`), detail text, optional filter text and the
      command it runs when accepted. */
  datatype Item = Item(name: string, detail: string, filterText: Option<string>, command: HookCommand)

  /** The word range the host finds at the cursor: where it starts and the
      word it holds. */
  datatype WordRange = WordRange(start: nat, word: string)

  /** `createCompletionItem`: an item labelled with the hook whose command
      inserts that hook at the trigger position. */
  function CreateCompletionItem(hook: string, detail: string, trigger: nat): (r: Item)
    ensures r.name == hook && r.detail == detail && r.filterText == None
    ensures r.command == HookCommand(INSERT_HOOK, hook, trigger)
  {
    Item(hook, detail, None, HookCommand(INSERT_HOOK, hook, trigger))
  }

  /** The word being completed: the text of the word range, or nothing. */
  function Word(range: Option<WordRange>): string {
    if range.Some? then range.value.word else ""
  }

  /** Where the hook will be inserted: the start of the word range, or the
      cursor when there is no word. */
  function Trigger(range: Option<WordRange>, position: nat): nat {
    if range.Some? then range.value.start else position
  }

  /** One possible suggestion: the string the typed word must be a prefix of,
      the hook it inserts, its detail text and its filter text. */
  datatype Candidate = Candidate(key: string, hook: string, detail: string, filterText: Option<string>)

  /** The suggestion for typing a full hook name: (name, detail). */
  function FullNameCandidate(entry: (string, string)): Candidate {
    Candidate(entry.0, entry.0, entry.1, None)
  }

  /** The suggestion for typing an abbreviation of the table. */
  function AbbreviationCandidate(entry: (string, string)): Candidate {
    Candidate(entry.0, entry.1, "React " + entry.1 + " hook (" + entry.0 + ")", Some(entry.0))
  }

  /** The full names the provider checks, in the order it checks them, with
      the detail text of each. */
  const FULL_NAMES: seq<(string, string)> := [
    ("useState", "React useState hook"),
    ("useEffect", "React useEffect hook"),
    ("useCallback", "React useCallback hook")
  ]

  /** The suggestions for a list of full names, in order. */
  function FullNameCandidates(names: seq<(string, string)>): (r: seq<Candidate>)
    ensures |r| == |names|
    ensures forall k | 0 <= k < |names| :: r[k] == FullNameCandidate(names[k])
    decreases |names|
  {
    if names == [] then []
    else FullNameCandidates(names[..|names| - 1]) + [FullNameCandidate(names[|names| - 1])]
  }

  /** The suggestions for the entries of an abbreviation table, in order. */
  function AbbreviationCandidates(entries: seq<(string, string)>): (r: seq<Candidate>)
    ensures |r| == |entries|
    ensures forall k | 0 <= k < |entries| :: r[k] == AbbreviationCandidate(entries[k])
    decreases |entries|
  {
    if entries == [] then []
    else AbbreviationCandidates(entries[..|entries| - 1]) + [AbbreviationCandidate(entries[|entries| - 1])]
  }

  /** Every possible suggestion in the order the provider tries them: the
      full names, then the table in declaration order. */
  function Candidates(names: seq<(string, string)>, entries: seq<(string, string)>): seq<Candidate> {
    FullNameCandidates(names) + AbbreviationCandidates(entries)
  }

  /** The string the typed word is matched against for an item: its filter
      text when it has one, its label otherwise. */
  function FilterKey(it: Item): string {
    if it.filterText.Some? then it.filterText.value else it.name
  }

  /** The item offered for a candidate. */
  function Offer(c: Candidate, trigger: nat): Item {
    CreateCompletionItem(c.hook, c.detail, trigger).(filterText := c.filterText)
  }

  /** The items offered for the candidates whose key starts with `word`, in
      candidate order. */
  function Select(cands: seq<Candidate>, word: string, trigger: nat): seq<Item>
    decreases |cands|
  {
    if cands == [] then []
    else
      var c := cands[|cands| - 1];
      Select(cands[..|cands| - 1], word, trigger)
        + (if StartsWith(c.key, word) then [Offer(c, trigger)] else [])
  }

  /** What `provideCompletionItems` returns for a word and trigger position. */
  function Suggestions(word: string, trigger: nat): seq<Item> {
    Select(Candidates(FULL_NAMES, HOOK_ABBREVIATIONS), word, trigger)
  }

  /** Selecting from one more candidate adds its item when its key starts
      with the word. */
  lemma SelectSnoc(cands: seq<Candidate>, c: Candidate, word: string, trigger: nat)
    ensures Select(cands + [c], word, trigger)
      == Select(cands, word, trigger) + (if StartsWith(c.key, word) then [Offer(c, trigger)] else [])
  {
    assert (cands + [c])[..|cands|] == cands;
  }

  /** What the three full-name checks push. */
  lemma FullNamesSelected(word: string, trigger: nat)
    ensures Select(FullNameCandidates(FULL_NAMES), word, trigger)
      == (if StartsWith("useState", word) then [CreateCompletionItem("useState", "React useState hook", trigger)] else [])
       + (if StartsWith("useEffect", word) then [CreateCompletionItem("useEffect", "React useEffect hook", trigger)] else [])
       + (if StartsWith("useCallback", word) then [CreateCompletionItem("useCallback", "React useCallback hook", trigger)] else [])
  {
    var c0, c1, c2 := FullNameCandidate(FULL_NAMES[0]), FullNameCandidate(FULL_NAMES[1]), FullNameCandidate(FULL_NAMES[2]);
    assert FullNameCandidates(FULL_NAMES) == [c0, c1, c2];
    SelectSnoc([], c0, word, trigger);
    SelectSnoc([c0], c1, word, trigger);
    SelectSnoc([c0, c1], c2, word, trigger);
    assert [c0] + [c1] == [c0, c1] && [c0, c1] + [c2] == [c0, c1, c2] && [] + [c0] == [c0];
  }

  /** One more table entry, checked after the ones before it. */
  lemma AbbreviationStep(full: seq<Candidate>, entries: seq<(string, string)>, k: nat, word: string, trigger: nat)
    requires k < |entries|
    ensures Select(full + AbbreviationCandidates(entries[..k + 1]), word, trigger)
      == Select(full + AbbreviationCandidates(entries[..k]), word, trigger)
       + (if StartsWith(entries[k].0, word) then [Offer(AbbreviationCandidate(entries[k]), trigger)] else [])
  {
    assert entries[..k + 1][..k] == entries[..k];
    assert full + AbbreviationCandidates(entries[..k + 1])
      == (full + AbbreviationCandidates(entries[..k])) + [AbbreviationCandidate(entries[k])];
    SelectSnoc(full + AbbreviationCandidates(entries[..k]), AbbreviationCandidate(entries[k]), word, trigger);
  }

  /** `provideCompletionItems`: the three full-name checks, then the loop over
      the abbreviation table, each pushing an item when the typed word is a
      prefix. */
  method ProvideCompletionItems(range: Option<WordRange>, position: nat) returns (items: seq<Item>)
    ensures items == Suggestions(Word(range), Trigger(range, position))
  {
    var word := if range.Some? then range.value.word else "";
    var trigger := if range.Some? then range.value.start else position;
    ghost var s0 := if StartsWith("useState", word)
      then [CreateCompletionItem("useState", "React useState hook", trigger)] else [];
    ghost var s1 := if StartsWith("useEffect", word)
      then [CreateCompletionItem("useEffect", "React useEffect hook", trigger)] else [];
    ghost var s2 := if StartsWith("useCallback", word)
      then [CreateCompletionItem("useCallback", "React useCallback hook", trigger)] else [];
    items := [];
    if StartsWith("useState", word) {
      items := items + [CreateCompletionItem("useState", "React useState hook", trigger)];
    }
    assert items == s0;
    if StartsWith("useEffect", word) {
      items := items + [CreateCompletionItem("useEffect", "React useEffect hook", trigger)];
    }
    assert items == s0 + s1;
    if StartsWith("useCallback", word) {
      items := items + [CreateCompletionItem("useCallback", "React useCallback hook", trigger)];
    }
    assert items == s0 + s1 + s2;
    FullNamesSelected(word, trigger);
    ghost var full := FullNameCandidates(FULL_NAMES);
    assert full + AbbreviationCandidates(HOOK_ABBREVIATIONS[..0]) == full;
    assert items == Select(full, word, trigger);
    for k := 0 to |HOOK_ABBREVIATIONS|
      invariant items == Select(full + AbbreviationCandidates(HOOK_ABBREVIATIONS[..k]), word, trigger)
    {
      var (abbr, hook) := HOOK_ABBREVIATIONS[k];
      AbbreviationStep(full, HOOK_ABBREVIATIONS, k, word, trigger);
      if StartsWith(abbr, word) {
        var item := CreateCompletionItem(hook, "React " + hook + " hook (" + abbr + ")", trigger);
        item := item.(filterText := Some(abbr));
        items := items + [item];
      }
    }
    assert HOOK_ABBREVIATIONS[..|HOOK_ABBREVIATIONS|] == HOOK_ABBREVIATIONS;
  }

  /** Every offered item is the offer of a candidate whose key starts with
      the word. */
  lemma {:induction false} SelectSound(cands: seq<Candidate>, word: string, trigger: nat, it: Item)
    requires it in Select(cands, word, trigger)
    ensures exists k | 0 <= k < |cands| :: StartsWith(cands[k].key, word) && it == Offer(cands[k], trigger)
    decreases |cands|
  {
    var n := |cands| - 1;
    var init := cands[..n];
    if it in Select(init, word, trigger) {
      SelectSound(init, word, trigger, it);
      var k :| 0 <= k < |init| && StartsWith(init[k].key, word) && it == Offer(init[k], trigger);
      assert cands[k] == init[k];
    } else {
      assert StartsWith(cands[n].key, word) && it == Offer(cands[n], trigger);
    }
  }

  /** Every candidate whose key starts with the word is offered. */
  lemma {:induction false} SelectComplete(cands: seq<Candidate>, word: string, trigger: nat, k: nat)
    requires k < |cands| && StartsWith(cands[k].key, word)
    ensures Offer(cands[k], trigger) in Select(cands, word, trigger)
    decreases |cands|
  {
    var n := |cands| - 1;
    if k < n {
      SelectComplete(cands[..n], word, trigger, k);
      assert cands[..n][k] == cands[k];
    }
  }

  /** An item is offered exactly when it is the offer of a candidate whose key
      starts with the word. */
  lemma SelectMembership(cands: seq<Candidate>, word: string, trigger: nat, it: Item)
    ensures it in Select(cands, word, trigger) <==>
      exists k | 0 <= k < |cands| :: StartsWith(cands[k].key, word) && it == Offer(cands[k], trigger)
  {
    if it in Select(cands, word, trigger) {
      SelectSound(cands, word, trigger, it);
    }
    if exists k | 0 <= k < |cands| :: StartsWith(cands[k].key, word) && it == Offer(cands[k], trigger) {
      var k :| 0 <= k < |cands| && StartsWith(cands[k].key, word) && it == Offer(cands[k], trigger);
      SelectComplete(cands, word, trigger, k);
    }
  }

  /** Selection keeps candidate order: selecting from two runs of candidates
      one after the other gives the selections one after the other. */
  lemma {:induction false} SelectAppend(xs: seq<Candidate>, ys: seq<Candidate>, word: string, trigger: nat)
    ensures Select(xs + ys, word, trigger) == Select(xs, word, trigger) + Select(ys, word, trigger)
    decreases |ys|
  {
    if ys == [] {
      assert xs + ys == xs;
    } else {
      var n := |ys| - 1;
      SelectAppend(xs, ys[..n], word, trigger);
      assert (xs + ys)[..|xs + ys| - 1] == xs + ys[..n];
      assert (xs + ys)[|xs + ys| - 1] == ys[n];
    }
  }

  /** No more items than candidates. */
  lemma {:induction false} SelectBounded(cands: seq<Candidate>, word: string, trigger: nat)
    ensures |Select(cands, word, trigger)| <= |cands|
    decreases |cands|
  {
    if cands != [] {
      SelectBounded(cands[..|cands| - 1], word, trigger);
    }
  }

  /** Every string starts with the empty word, so every candidate is offered,
      in order. */
  lemma {:induction false} SelectEmptyWord(cands: seq<Candidate>, trigger: nat)
    ensures |Select(cands, "", trigger)| == |cands|
    ensures forall k | 0 <= k < |cands| :: Select(cands, "", trigger)[k] == Offer(cands[k], trigger)
    decreases |cands|
  {
    if cands != [] {
      var n := |cands| - 1;
      SelectEmptyWord(cands[..n], trigger);
      assert StartsWith(cands[n].key, "");
    }
  }

  /** A candidate whose key is what its item is filtered by. */
  predicate Keyed(c: Candidate) {
    c.key == if c.filterText.Some? then c.filterText.value else c.hook
  }

  /** Every offered item's filter key starts with the word. */
  lemma OfferedMatchWord(cands: seq<Candidate>, word: string, trigger: nat)
    requires forall k | 0 <= k < |cands| :: Keyed(cands[k])
    ensures forall it | it in Select(cands, word, trigger) :: StartsWith(FilterKey(it), word)
  {
    forall it | it in Select(cands, word, trigger) ensures StartsWith(FilterKey(it), word) {
      SelectMembership(cands, word, trigger, it);
    }
  }

  /** A candidate that is listed is offered exactly when its key starts with
      the word. */
  lemma OfferedIff(cands: seq<Candidate>, word: string, trigger: nat, k: nat)
    requires forall j | 0 <= j < |cands| :: Keyed(cands[j])
    requires k < |cands|
    ensures Offer(cands[k], trigger) in Select(cands, word, trigger) <==> StartsWith(cands[k].key, word)
  {
    SelectMembership(cands, word, trigger, Offer(cands[k], trigger));
  }

  /** The full-name and abbreviation candidates are keyed by what their items
      are filtered by. */
  lemma CandidatesKeyed(names: seq<(string, string)>, entries: seq<(string, string)>)
    ensures forall k | 0 <= k < |Candidates(names, entries)| :: Keyed(Candidates(names, entries)[k])
  {
    var cands := Candidates(names, entries);
    forall k | 0 <= k < |cands| ensures Keyed(cands[k]) {
      if k < |names| {
        assert cands[k] == FullNameCandidate(names[k]);
      } else {
        assert cands[k] == AbbreviationCandidate(entries[k - |names|]);
      }
    }
  }

  /** With nothing typed, the provider offers all twelve suggestions: the
      three full names, then the nine abbreviations in table order. */
  lemma SuggestionsForEmptyWord(trigger: nat)
    ensures |Suggestions("", trigger)| == 12
    ensures forall k | 0 <= k < 3 :: Suggestions("", trigger)[k] == Offer(FullNameCandidate(FULL_NAMES[k]), trigger)
    ensures forall k | 0 <= k < 9 ::
      Suggestions("", trigger)[3 + k] == Offer(AbbreviationCandidate(HOOK_ABBREVIATIONS[k]), trigger)
  {
    SelectEmptyWord(Candidates(FULL_NAMES, HOOK_ABBREVIATIONS), trigger);
  }

  /** The full-name suggestions come first, at most three and each without
      filter text; the abbreviation suggestions follow, each filtered by its
      abbreviation. */
  lemma FullNamesFirst(word: string, trigger: nat)
    ensures var full := Select(FullNameCandidates(FULL_NAMES), word, trigger);
      var abbrs := Select(AbbreviationCandidates(HOOK_ABBREVIATIONS), word, trigger);
      && Suggestions(word, trigger) == full + abbrs
      && |full| <= 3 && |abbrs| <= 9
      && (forall it | it in full :: it.filterText == None)
      && (forall it | it in abbrs :: it.filterText.Some?)
  {
    var fc := FullNameCandidates(FULL_NAMES);
    var ac := AbbreviationCandidates(HOOK_ABBREVIATIONS);
    SelectAppend(fc, ac, word, trigger);
    SelectBounded(fc, word, trigger);
    SelectBounded(ac, word, trigger);
    forall it | it in Select(fc, word, trigger) ensures it.filterText == None {
      SelectMembership(fc, word, trigger, it);
    }
    forall it | it in Select(ac, word, trigger) ensures it.filterText.Some? {
      SelectMembership(ac, word, trigger, it);
    }
  }

  /** A table entry is suggested exactly when its abbreviation starts with the
      word; a full name exactly when the name does. */
  lemma SuggestedIff(word: string, trigger: nat)
    ensures forall k | 0 <= k < |HOOK_ABBREVIATIONS| ::
      (Offer(AbbreviationCandidate(HOOK_ABBREVIATIONS[k]), trigger) in Suggestions(word, trigger))
        <==> StartsWith(HOOK_ABBREVIATIONS[k].0, word)
    ensures forall k | 0 <= k < |FULL_NAMES| ::
      (Offer(FullNameCandidate(FULL_NAMES[k]), trigger) in Suggestions(word, trigger))
        <==> StartsWith(FULL_NAMES[k].0, word)
  {
    var cands := Candidates(FULL_NAMES, HOOK_ABBREVIATIONS);
    CandidatesKeyed(FULL_NAMES, HOOK_ABBREVIATIONS);
    forall k | 0 <= k < |HOOK_ABBREVIATIONS|
      ensures (Offer(AbbreviationCandidate(HOOK_ABBREVIATIONS[k]), trigger) in Suggestions(word, trigger))
        <==> StartsWith(HOOK_ABBREVIATIONS[k].0, word)
    {
      OfferedIff(cands, word, trigger, 3 + k);
    }
    forall k | 0 <= k < |FULL_NAMES|
      ensures (Offer(FullNameCandidate(FULL_NAMES[k]), trigger) in Suggestions(word, trigger))
        <==> StartsWith(FULL_NAMES[k].0, word)
    {
      OfferedIff(cands, word, trigger, k);
    }
  }

  /** Every suggestion runs the insert command for its own label, at the
      trigger position; its filter key starts with the word; and its hook has
      a template to insert. */
  lemma SuggestionsInsertKnownHooks(word: string, trigger: nat)
    ensures forall it | it in Suggestions(word, trigger) ::
      && it.command == HookCommand(INSERT_HOOK, it.name, trigger)
      && StartsWith(FilterKey(it), word)
      && Template(it.name).Some?
  {
    CandidatesKeyed(FULL_NAMES, HOOK_ABBREVIATIONS);
    OfferedMatchWord(Candidates(FULL_NAMES, HOOK_ABBREVIATIONS), word, trigger);
    forall it | it in Suggestions(word, trigger)
      ensures it.command == HookCommand(INSERT_HOOK, it.name, trigger) && Template(it.name).Some?
    {
      SuggestionInsertsKnownHook(word, trigger, it);
    }
  }

  /** One suggestion runs the insert command for a hook of the table. */
  lemma SuggestionInsertsKnownHook(word: string, trigger: nat, it: Item)
    requires it in Suggestions(word, trigger)
    ensures it.command == HookCommand(INSERT_HOOK, it.name, trigger) && Template(it.name).Some?
  {
    var cands := Candidates(FULL_NAMES, HOOK_ABBREVIATIONS);
    SelectSound(cands, word, trigger, it);
    var j :| 0 <= j < |cands| && StartsWith(cands[j].key, word) && it == Offer(cands[j], trigger);
    CandidateHook(FULL_NAMES, HOOK_ABBREVIATIONS, j);
    if j < |FULL_NAMES| {
      FullNamesInTable(j);
    } else {
      assert HOOK_ABBREVIATIONS[j - |FULL_NAMES|].1 == it.name;
    }
    TemplateExactlyForTableHooks(it.name);
  }

  /** The hook of the `j`-th candidate: a full name, or the hook of a table
      entry. */
  lemma CandidateHook(names: seq<(string, string)>, entries: seq<(string, string)>, j: nat)
    requires j < |names| + |entries|
    ensures Candidates(names, entries)[j].hook
      == if j < |names| then names[j].0 else entries[j - |names|].1
  {
    if j < |names| {
      assert Candidates(names, entries)[j] == FullNameCandidates(names)[j];
    } else {
      assert Candidates(names, entries)[j] == AbbreviationCandidates(entries)[j - |names|];
    }
  }

  /** The three full names are the first three hooks of the table. */
  lemma FullNamesInTable(k: nat)
    requires k < |FULL_NAMES|
    ensures FULL_NAMES[k].0 == HOOK_ABBREVIATIONS[k].1 && IsTableHook(FULL_NAMES[k].0)
  {
  }
}

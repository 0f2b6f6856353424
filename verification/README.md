# boltons IndexedSet, string helpers and format helpers, in Dafny

This project models three pieces of the boltons utility library and proves properties of them.

- **`IndexedSet`** (`boltons/setutils.py`) is an insertion-ordered set that also allows
  positional indexing.
  - It keeps a list of slots and a map from each item to its slot. A removed item leaves a
    tombstone (`_MISSING`) behind.
  - A sorted ledger of half-open dead intervals (`dead_indices`) turns a logical position into
    a slot number (`_get_real_index`).
  - `_cull` and `_compact` trim the trailing tombstones. They rebuild the list when there are
    more than 384 dead intervals, or more than one dead slot in eight.
- **String helpers** (`boltons/strutils.py`):
  - `split_punct_ws`, `slugify`, `camel2under`, `under2camel`;
  - `a10n`, `ordinalize`, `cardinalize`, `unit_len`;
  - `pluralize`, `singularize`, `_match_case` with the irregular-noun table;
  - `strip_ansi`.
- **Format helpers** (`boltons/formatutils.py`):
  - `construct_format_field_str` builds a `{name!conv:spec}` field.
  - `infer_positional_format_args` numbers the anonymous fields of a format string.

## How the model is organised

| module | file | contents |
|---|---|---|
| `Wrappers` | wrappers.dfy | `Option`, `Result` and the three Python errors (`KeyError`, `IndexError`, `ValueError`) |
| `Seqs` | seqs.dfy | reversal, distinctness, order-keeping filter, first-occurrence de-duplication, insertion sort on `int` |
| `Text` | text.dfy | ASCII case mapping, Python 2 `string.whitespace`, strip, Python slices with negative bounds, decimal rendering and parsing, `Join` and `Concat` |
| `Slots` | slots.dfy | the item list as a sequence of `Live(e)` and `Tombstone` slots |
| `Ledger` | ledger.dfy | the dead-interval ledger: `_add_dead` as written and a merging variant, and the real-index walk of `_get_real_index` |
| `IndexedSets` | indexed_set.dfy | the set's state, its validity invariant and every operation |
| `SetAlgebra` | set_algebra.dfy | comparisons, union, intersection, difference and the `*_update` operations |
| `IndexedSetFindings` | indexed_set_findings.dfy | the source's remove path with the as-written ledger, and the counterexamples |
| `Inflection` | inflection.dfy | `_match_case`, `pluralize`, `singularize`, `cardinalize`, `unit_len` |
| `ShortForms` | short_forms.dfy | `a10n`, `ordinalize` |
| `Words` | words.dfy | `split_punct_ws`, `slugify`, `camel2under`, `under2camel` |
| `Ansi` | ansi.dfy | `strip_ansi` |
| `FormatUtils` | format_utils.dfy | `construct_format_field_str`, a field parser that inverts it, `infer_positional_format_args` |

### Modelling choices

**Immutable state.**
- An `IndexedSet<T>` is an immutable value with three parts: `items` (slots), `index` (a map
  from item to slot) and `dead` (a list of intervals).
- Each mutating method of the source becomes a function from the old value to the new one.
- Operations that can raise return a `Result`.

**Validity invariant.** `Valid` states all of the following:
- the map and the live slots agree in both directions;
- the ledger is ordered;
- no two ledger intervals touch;
- a slot is a tombstone exactly when the ledger covers it;
- the last slot is live.

**`_add_dead`.** The main model registers a dead slot with `Ledger.AddDeadMerged`, which also
joins two runs that the new slot bridges. Without that join, removals can leave a ledger
interval past the end of the list and break indexing (finding 1 below). The source's version
is `Ledger.AddDead`, and `IndexedSetFindings.RemoveAsWritten` uses it. `RemoveAsWrittenSound`
shows that the source's `remove` still deletes the right element, whatever the ledger holds.

**`_cull` threshold.** The test `dead > len(items) / 8` is modelled with integer division. For
an integer left-hand side this agrees with true division, so the result is the same under
Python 2 and Python 3.

**Indexing.**
- `__getitem__` adds `len(self)` to a negative index twice: once in `_get_real_index` and
  once when the item list is indexed. The model keeps this.
- `GetSound` states what happens for indices in `[-2·len, -len)` and below `-2·len`. Below
  `-2·len` the real index is still negative, so Python indexes the slot list from its end and
  can return the `_MISSING` sentinel (finding 10 below). `Get` returns the slot,
  so a leaked sentinel shows as `Tombstone`.

**`index()` and slicing.** These go through slot numbers, not logical positions (findings 2
and 3). `IndexOf` and `IterSlice` model them as written. `LogicalIndexOf` and
`GetSliceLogical` are the corrected versions.

**Text.**
- Strings are `seq<char>`. Case mapping covers ASCII letters only.
- In the punctuation class of `_punct_re`, the backslash escapes the following `]`. The
  regular expression therefore splits on `]` but not on a backslash, and `Words.Punctuation`
  leaves the backslash out.
- `camel2under`'s regular expression is modelled by `Words.Boundary`. An upper-case letter
  gets an underscore before it when it is not the first character and either follows a
  lower-case letter or digit, or precedes a lower-case letter.
- `strip_ansi` is modelled twice:
  - `Ansi.StripAnsi` follows the source's loop exactly;
  - `Ansi.StripAnsiFixed` removes every escape sequence and keeps the text around them.

**Format strings.** The regular expression scan of `infer_positional_format_args` becomes
`FormatUtils.Infer`, a reference scanner. `FormatUtils.InferLoop` follows the source's loop
(`prev_end`, `max_anon`) and is proved equal to it.

## Model

| member | source | states |
|---|---|---|
| IndexedSets.Empty | boltons/setutils.py:58-65 | a new set with no argument is valid, has no elements and has length 0 |
| IndexedSets.ConsistentFacts | boltons/setutils.py:139-146 | when the map and the slots agree, `len` is the number of live slots, iteration yields distinct items, and `in` holds exactly for the iterated items |
| IndexedSets.AddSound | boltons/setutils.py:165-168 | `add` appends a new item at the end and points the map at its slot; adding a present item changes nothing; membership grows by exactly that item; validity is kept |
| IndexedSets.AddAllSound | boltons/setutils.py:257-265 | adding a sequence one item at a time leaves the first occurrences of old and new items, in order |
| IndexedSets.FromSeqSound | boltons/setutils.py:58-65 | building from an iterable keeps the first occurrence of each item in input order; an item is a member exactly when it occurs in the input |
| IndexedSets.CountMatchesIteration | boltons/setutils.py:346-349 | `count(x)` equals the number of times iteration yields `x`, so it is 0 or 1 |
| IndexedSets.CompactSound | boltons/setutils.py:72-83 | compaction keeps the items and their order, leaves no tombstones and an empty ledger, and compacting again changes nothing |
| IndexedSets.CullSound | boltons/setutils.py:85-103 | culling a consistent state yields a valid state (last slot live) with the same items in the same order and the same keys |
| IndexedSets.CullShape | boltons/setutils.py:85-103 | an emptied set loses all slots; more than 384 intervals, or more than one dead slot in eight, compacts; otherwise only the trailing tombstones go |
| IndexedSets.RemoveSound | boltons/setutils.py:170-177 | removing a non-member raises KeyError; removing a member deletes exactly that item, keeps the order of the rest, decrements the length and, with the merging ledger, keeps validity |
| IndexedSets.DiscardSound | boltons/setutils.py:179-183 | `discard` removes the item if present and never fails; the others keep their order |
| IndexedSets.Clear | boltons/setutils.py:185-188 | after `clear` the set is valid and empty |
| IndexedSets.RealIndexSound | boltons/setutils.py:105-115 | a logical position in range maps to the slot holding the element at that position; positions at or past the length map beyond the last slot |
| IndexedSets.GetSound | boltons/setutils.py:314-329 | `x[i]` is the i-th element for `0 <= i < len` and counts from the end for `-len <= i < 0`; `i >= len` raises IndexError; `[-2len, -len)` wraps a second time; below `-2len` the raw slot list is indexed at `i + 2len`, counted from its end |
| IndexedSets.GetCheckedSound | boltons/setutils.py:314-329 | the corrected lookup succeeds exactly for `-len <= i < len`, with the element at that position, and raises IndexError otherwise |
| IndexedSets.IndexOfSound | boltons/setutils.py:367-370 | `index(x)` succeeds exactly for members and returns the slot holding `x`, otherwise ValueError |
| IndexedSets.PopSound | boltons/setutils.py:331-344 | `pop()` and `pop(i)` return the element at the logical target and remove exactly it, keeping the rest in order; an empty set or an index past the end raises IndexError |
| IndexedSets.ReverseSound | boltons/setutils.py:351-356 | `reverse` leaves a valid, tombstone-free set whose elements are the old ones in reverse order |
| IndexedSets.SortSound | boltons/setutils.py:358-365 | `sort` leaves a valid, tombstone-free set whose elements are an ascending permutation of the old ones |
| IndexedSets.EqualIsOrderedEquality | boltons/setutils.py:155-159 | two indexed sets are equal exactly when they hold the same elements in the same order, and equal sets are equal as plain sets |
| IndexedSets.ISliceContiguous | boltons/setutils.py:302-311 | a step-less slice `[a:b]` of a sequence is the elements from `a` up to `b` clamped to the length |
| IndexedSets.GetSliceFromSlot | boltons/setutils.py:302-329 | `x[i:]` starts at slot `i` plus the tombstones before it, counted as a position in the live elements |
| IndexedSets.GetSliceLogicalSound | boltons/setutils.py:314-329 | the corrected slice `x[i:j]` holds exactly the elements at logical positions `i` to `j` |
| IndexedSets.LogicalIndexRoundTrip | boltons/setutils.py:367-370 | the corrected `index(x)` succeeds exactly for members, and indexing with its result gives `x` back |
| Slots.BackwardIsRev | boltons/setutils.py:145-150 | iterating in reverse over the slots yields the forward iteration reversed |
| Ledger.AddDeadSound | boltons/setutils.py:117-136 | `_add_dead` as written keeps the ledger ordered, grows its total width by one, and afterwards covers exactly the old slots plus the new one |
| Ledger.AddDeadMergedSound | boltons/setutils.py:117-136 | the merging registration also keeps runs from touching, with the same width and coverage facts |
| Ledger.InsertionPoint | boltons/setutils.py:125-127 | `bisect_left` on the ledger finds the gap around an uncovered slot: every earlier run ends at or before it and every later run starts after it |
| Ledger.TranslateSound | boltons/setutils.py:105-115 | the ledger walk of `_get_real_index` sends logical position `i` to the slot of the i-th live item; past the end it adds the full dead count; negative positions are unchanged |
| Ledger.WidthIsDeadCount | boltons/setutils.py:69-70 | the total width of an exact ledger equals the number of tombstones, which is `_dead_index_count` |
| SetAlgebra.IsDisjoint | boltons/setutils.py:190-195 | the result is true exactly when no element of the other iterable is a member |
| SetAlgebra.IsSubset | boltons/setutils.py:197-203 | the result is true exactly when the other is at least as long and contains every member |
| SetAlgebra.IsSuperset | boltons/setutils.py:205-212 | the result is true exactly when the other is at most as long and each of its items is a member |
| SetAlgebra.SubsetSupersetDual | boltons/setutils.py:197-212 | between two indexed sets, both the length-and-membership test of `issubset` and that of `issuperset` coincide with set inclusion |
| SetAlgebra.UnionSound | boltons/setutils.py:214-215 | the union keeps this set's elements first, in order, and contains exactly what is here or in some other |
| SetAlgebra.IntersectionSound | boltons/setutils.py:217-230 | the intersection keeps this set's order and holds exactly the members found in every other |
| SetAlgebra.DifferenceSound | boltons/setutils.py:232-245 | the difference keeps this set's order and holds exactly the members found in no other |
| SetAlgebra.SymmetricDifferenceSound | boltons/setutils.py:247-249 | the result holds what is in the union but not in the intersection; with one other, exactly what is in one side but not both |
| SetAlgebra.UpdateAsWritten | boltons/setutils.py:257-265 | with one other, `update` adds its items; with two or more, it adds the other containers themselves as elements |
| SetAlgebra.UpdateFlatIsUnion | boltons/setutils.py:257-265 | the corrected `update` leaves exactly the elements of the union, in the union's order |
| SetAlgebra.UpdateAddsOperands | boltons/setutils.py:257-265 | `update([a], [b])` as written does not add `a`; the corrected version does |
| SetAlgebra.IntersectionUpdateAsWritten | boltons/setutils.py:267-269 | `intersection_update` as written keeps the members that lie in ANY other |
| SetAlgebra.IntersectionUpdateFixedSound | boltons/setutils.py:267-269 | the corrected `intersection_update` leaves exactly the intersection |
| SetAlgebra.IntersectionUpdateKeepsEither | boltons/setutils.py:267-269 | with others `[a]` and `[b]`, the as-written update keeps `a`; the corrected one removes it |
| SetAlgebra.DifferenceUpdateAsWritten | boltons/setutils.py:271-275 | `difference_update` as written empties the set when it is among the others (an IndexedSet operand compared in order, any other as a set); otherwise it removes only what lies in EVERY other |
| SetAlgebra.EqualsSelfMeans | boltons/setutils.py:155-159 | for `self in others`, a valid IndexedSet operand equals the set exactly when it holds the same elements in the same order, and any other operand exactly when it holds the same elements |
| SetAlgebra.DifferenceUpdateOperandOrder | boltons/setutils.py:271-275 | with the set holding `a, b`, an IndexedSet operand holding `b, a` and a second operand `[c]`, nothing is removed; a plain `[b, a]` in its place clears the set |
| SetAlgebra.DifferenceUpdateFixedSound | boltons/setutils.py:271-275 | the corrected `difference_update` leaves exactly the difference |
| SetAlgebra.DifferenceUpdateKeepsAll | boltons/setutils.py:271-275 | with others `[a]` and `[b]`, the as-written update keeps `a`; the corrected one removes it |
| SetAlgebra.ToggleSound | boltons/setutils.py:277-284 | toggling each item of a sequence in turn leaves a member exactly when it was a member xor it occurs an odd number of times |
| SetAlgebra.SymmetricDifferenceUpdateSound | boltons/setutils.py:277-284 | with the set itself as the other, the result is empty; with distinct items, a member stays exactly when it is on one side only |
| IndexedSetFindings.AddDeadTouches | boltons/setutils.py:117-136 | `_add_dead` as written extends only one neighbour, so a slot between two runs leaves two touching intervals |
| IndexedSetFindings.StaleLedger | boltons/setutils.py:85-103 | on `range(n)`, `n >= 32`, removing slots n-2, n-4, n-3, n-1 leaves a ledger interval that runs past the end of the shortened item list |
| IndexedSetFindings.StaleLedgerBreaksIndexing | boltons/setutils.py:105-115 | after that, re-adding the last item makes position n-4 raise IndexError although the length is n-3 |
| IndexedSetFindings.CullAnyLedger | boltons/setutils.py:85-103 | `_cull` keeps the iteration and the map's keys, and leaves the map describing the slots, whatever the ledger holds, provided it is empty when no slot is dead |
| IndexedSetFindings.RemoveAsWrittenSound | boltons/setutils.py:170-177 | the source's `remove`, with its own `_add_dead` and any ledger: KeyError for a non-member; otherwise exactly that item goes, the rest keep their order, the length drops by one and the map still describes the slots |
| IndexedSetFindings.MergedLedgerKeepsIndexing | boltons/setutils.py:165-177 | with the merging ledger, any remove followed by adding a new item keeps the set valid, and the new item sits at the last position |
| IndexedSetFindings.IndexIsSlotCounterexample | boltons/setutils.py:367-370 | after removing the first item, `index(xs[1])` returns 1 but `x[1]` is `xs[2]`; the corrected index is 0 |
| IndexedSetFindings.GetLeaksTombstone | boltons/setutils.py:314-329 | on `range(n)`, `n >= 8`, after removing the first item, `x[2 - 3n]` returns the tombstone of slot 0, while the corrected lookup raises IndexError |
| IndexedSetFindings.SliceSkipsCounterexample | boltons/setutils.py:302-311 | after removing the first item, `x[1:]` as written starts at `xs[3]`; the corrected slice starts at `xs[2]` |
| Inflection.KeyLookupSound | boltons/strutils.py:190-211 | a lookup in the singular-to-plural table finds a listed pair, and a miss means the key is not listed |
| Inflection.ValueLookupSound | boltons/strutils.py:213 | the reversed table gives a listed pair for a plural, and a miss means no entry has that plural |
| Inflection.MatchCase | boltons/strutils.py:177-186 | the result spells the disciple up to case; a blank master leaves it untouched; an all-lower master makes it lower case |
| Inflection.MatchCaseShapes | boltons/strutils.py:177-186 | an upper-case master gives an upper-case result, a capitalized master a capitalized one, and a master of any other mixed case leaves the disciple unchanged |
| Inflection.MatchCaseIdempotent | boltons/strutils.py:177-186 | matching the case twice is the same as matching it once |
| Inflection.PluralizeIn | boltons/strutils.py:161-174 | blank words and irregular plurals come back unchanged; any other word becomes its plural up to case |
| Inflection.SingularizeInCases | boltons/strutils.py:140-158 | blank words, irregular singulars and regular words not ending in `s` come back unchanged; irregular plurals and regular words ending in `s` become their singular, up to case |
| Inflection.PlainPluralShape | boltons/strutils.py:161-174 | a regular plain word's plural is one of three shapes: consonant+y to `ies`, s/ch/sh plus `es`, or plus `s` |
| Inflection.PluralRoundTrip | boltons/strutils.py:140-174 | for a plain regular word, the corrected `singularize` undoes `pluralize` |
| Inflection.SingularizeLosesY | boltons/strutils.py:140-158 | as written, a word ending in vowel+consonant+`y` (`baby`) pluralizes to `babies` but singularizes to `babi` |
| Inflection.IrregularRoundTrip | boltons/strutils.py:140-213 | a table pair that no other entry contradicts pluralizes and singularizes by the table, in both versions |
| Inflection.PluralizeKeepsCase | boltons/strutils.py:161-186 | the plural of an upper-case word is upper case and the plural of a capitalized word is capitalized |
| Inflection.CardinalizeMeaning | boltons/strutils.py:124-137 | a count of one keeps the noun; any other count keeps an upper-case or capitalized noun's case, gives a plain regular noun its regular plural, and the corrected `singularize` takes that plural back to the noun |
| Inflection.UnitLenReadsBack | boltons/strutils.py:78-94 | a zero count reads `No` plus the plural; otherwise the text is a decimal that parses back to the count, a space, and the cardinalized noun |
| ShortForms.A10nReadsBack | boltons/strutils.py:216-230 | words shorter than three stay as they are; otherwise the first and last letters are kept and the digits between parse to the length minus two |
| ShortForms.A10nExamples | boltons/strutils.py:216-230 | `internationalization` gives `i18n`, `abbreviation` gives `a10n`, and the empty string stays empty |
| ShortForms.OrdinalizeNonDigit | boltons/strutils.py:102-121 | when the last character is not a digit the text comes back unchanged, and `ext_only` gives no suffix |
| ShortForms.OrdinalSuffixByLastDigit | boltons/strutils.py:97-121 | as written, the suffix of an integer depends only on its last digit |
| ShortForms.TeensAsWritten | boltons/strutils.py:97-121 | as written, 11, 12 and 13 become `11st`, `12nd` and `13rd` |
| ShortForms.OrdinalSuffixFixedEnglish | boltons/strutils.py:97-121 | the corrected suffix is `th` when the number modulo 100 is 11 to 13, and follows the last digit otherwise |
| ShortForms.OrdinalizeReadsBack | boltons/strutils.py:102-121 | for a non-negative integer, the number parses back from its ordinal once the two-letter suffix is dropped, for both the as-written and the corrected `ordinalize` |
| ShortForms.OrdinalizeExamples | boltons/strutils.py:102-121 | 1 gives `1st` and 3694839230 gives `3694839230th` |
| Words.SplitPunctWs | boltons/strutils.py:66-75 | every word is non-empty and contains no punctuation or whitespace |
| Words.SplitPunctWsKeepsText | boltons/strutils.py:16-17 | gluing the words back together gives the input with its punctuation and whitespace removed |
| Words.SplitJoin | boltons/strutils.py:66-75 | joining clean non-empty words with a separator made only of delimiters and splitting again gives the words back |
| Words.SplitSpaced | boltons/strutils.py:66-75 | clean non-empty words with any run of delimiters before the first, a non-empty run of its own between each two and any run after the last split back into exactly those words |
| Words.SplitPunctWsExample | boltons/strutils.py:66-75 | `'First post! Hi!!!!~1    '` splits into `First`, `post`, `Hi`, `1` |
| Words.SplitPunctWsScan | boltons/strutils.py:66-75 | a single left-to-right scan with a word buffer computes the same list as the split-then-filter reference |
| Words.Slugify | boltons/strutils.py:43-63 | with `lower` set, the slug has no upper-case letter |
| Words.SlugifyWords | boltons/strutils.py:43-63 | with a delimiter made of punctuation or whitespace, splitting the slug gives back the words of the text, lower-cased when `lower` is set |
| Words.SlugifyIdempotent | boltons/strutils.py:43-63 | slugifying a slug again changes nothing |
| Words.Camel2Under | boltons/strutils.py:18-29 | the result has no upper-case letter |
| Words.Camel2UnderOnlyInserts | boltons/strutils.py:18-29 | apart from underscores, the result is the lower-cased input: only underscores are inserted |
| Words.SplitAtJoin | boltons/strutils.py:32-40 | splitting on one character undoes joining words that do not contain it with that character |
| Words.Under2CamelOfSnake | boltons/strutils.py:32-40 | `under2camel` of a snake-case name is the concatenation of its words, each capitalized |
| Words.UnderCamelRoundTrip | boltons/strutils.py:18-40 | for lower-case words of two or more letters (the last may be one), `camel2under(under2camel(s)) == s` |
| Ansi.StripAnsiLoop | boltons/strutils.py:263-299 | the source's loop, with its `keep` flag and the `nansi` list, computes the same text as the recursive scan |
| Ansi.StripAnsiNoEscape | boltons/strutils.py:268-299 | text without an escape sequence comes back unchanged |
| Ansi.StripAnsiAgainstFixed | boltons/strutils.py:268-299 | the source's result is the input unchanged, or it is the full removal minus the text after the last terminated escape; without escapes the two agree |
| Ansi.StripAnsiDropsTail | boltons/strutils.py:285-299 | with one terminated escape at `k..j`, the source returns only `t[..k]` while the full removal also keeps `t[j+1..]`; they differ when that tail is non-empty |
| Ansi.ScanMissesRest | boltons/strutils.py:285-299 | the pieces the loop collects, followed by the text after the last terminated escape, are exactly the text with every escape sequence removed |
| Ansi.StripAnsiFixed | boltons/strutils.py:268-299 | the full removal leaves text without escapes unchanged |
| FormatUtils.ConstructFieldStr | boltons/formatutils.py:13-22 | no field name gives the empty string; otherwise the field is wrapped in braces |
| FormatUtils.FieldRoundTrip | boltons/formatutils.py:13-22 | when the name has no `!` or `:` and the conversion has no `:`, parsing the constructed field gives back the name, spec and conversion |
| FormatUtils.InferLoop | boltons/formatutils.py:36-52 | the source's `finditer` loop over the pattern of lines 8-10 (copying the text between matches, keeping escaped braces, numbering anonymous fields) computes the same text as the reference scanner |
| FormatUtils.InferNoField | boltons/formatutils.py:36-52 | a string with no escaped brace and no anonymous field comes back unchanged |
| FormatUtils.InferTemplate | boltons/formatutils.py:36-52 | in a template of brace-free literals and anonymous fields, the fields are numbered from `n` upwards, left to right, and the literals are kept |
| FormatUtils.InferExampleBare | boltons/formatutils.py:149-159 | `'{} {} {}'` becomes `'{0} {1} {2}'` |
| FormatUtils.InferExampleSpec | boltons/formatutils.py:149-159 | `'{:d} {}'` becomes `'{0:d} {1}'` |
| FormatUtils.InferEscapeWins | boltons/formatutils.py:36-52 | in `'{{}'` the escaped brace is matched first, so no field is numbered |

## Left out

- The in-place operators `__ior__`, `__iand__`, `__isub__` and `__ixor__` (setutils.py 286-300) only forward to the `*_update` methods, which are modelled. So are the operator aliases `__or__` and the others.
- The `_compactions` and `_c_max_size` counters, `__repr__` and the `__main__` demonstration are statistics or output only.
- Object identity is not modelled. `self is other` in `symmetric_difference_update` becomes an explicit flag (`Operand.ItSelf`). `self in others` in `difference_update` is the `==` test, so it becomes `SelfAmong`, which compares an IndexedSet operand (`Arg.IndexedArg`) in order and any other operand (`Arg.PlainArg`) as a set.
- SetAlgebra.DifferenceUpdate: operands are re-readable sequences. A one-shot iterator among the operands would be consumed by the `set(other)` comparison of `self in others` before `intersection` reads it.
- IndexedSets.RemoveSound: proved for `Remove`, which registers the dead slot with the merging `AddDeadMerged`. The source's `_add_dead` is `IndexedSetFindings.RemoveAsWritten`. Its contract (`RemoveAsWrittenSound`) promises the same KeyError, elements and length but not validity, because the stale ledger of finding 1 is reachable.
- IndexedSets.DiscardSound: inherits the merging ledger from `Remove`, so its validity clause holds for the corrected ledger only.
- IndexedSets.PopSound: requires the index to be at least `-len`. Below that, the source records a negative slot number in the ledger, and that state is outside the model's invariant. Its inner branch registers the dead slot with the merging `AddDeadMerged`, not the source's `_add_dead`, so its validity clause holds for the corrected ledger only.
- IndexedSets.Sort: elements are integers. The source sorts any comparable items.
- SetAlgebra.Update: the embedding of a container as an element is a parameter (`embed`), because Dafny has no heterogeneous containers. With two or more operands, an unhashable operand such as a list makes the source raise TypeError on `add`; the model does not represent that error.
- Python iterables, generators and `chain` become sequences. The lazy `iter_*` functions are modelled through the sets they build.
- `asciify`, `slugify(ascii=True)`, `StringBuffer`, `bytes2human` and the de-accent tables are left out: they concern Unicode normalisation and byte encoding.
- Text.Strip: strips the six characters of Python 2 `string.whitespace` only. `pluralize`, `singularize` and `_match_case` call `strip()` on `unicode` text, which also removes `\x1c` to `\x1f`, `\x85`, `\xa0` and the Unicode spaces such as `\u2000` to `\u200a`. So `pluralize(u'cat\xa0')` gives `'cats'` in Python, while `Pluralize` keeps the no-break space and gives `"cat\xa0s"`. `split_punct_ws` does use `string.whitespace`, so `IsSpace` is exact there.
- Text.Lower: case mapping covers ASCII letters only. Python's `str.lower` and `str.upper` also map other letters.
- Inflection.IrregularRoundTrip: the irregular table is assumed coherent, as a precondition (`CoherentPair`). The table's 57 entries are listed, but their coherence is not proved.
- Inflection.PluralRoundTrip: covers plain words only, not ending in `e` or `es`. For words like `cake` or `tie`, `singularize` does not undo `pluralize` in either version.
- Words.UnderCamelRoundTrip: needs every word except the last to have at least two letters. A one-letter word such as `a_b` is merged by `camel2under`'s look-ahead.
- Words.SplitPunctWs: the docstring examples of `slugify`, `camel2under` and `under2camel` are covered by the general lemmas, not by literal instances. The `split_punct_ws` example is `SplitPunctWsExample`.
- FormatUtils.InferTemplate: the test template `'{{joek}} ({} {})'` is covered by `InferTemplate` and `InferEscapeWins`, not as a literal instance.
- FormatUtils.ConstructFieldStr: `None` and the empty string are the same for `fspec` and `conv`, since the source tests only their truthiness.
- `split_format_str`, `BaseFormatField`, `DeferredValue`, `tokenize_format_str` and the rest of formatutils are not part of this model.
- `unit_len` takes the count directly instead of a sized iterable, since only `len()` is used.

## Findings

| source | as written | input that shows it | evidently intended | confidence | as-written member | corrected member |
|---|---|---|---|---|---|---|
| boltons/setutils.py:117-136 | `_add_dead` widens only one neighbouring run. After the trailing tombstones are trimmed, `_cull` drops only the last interval, which can leave an interval past the end of the list. | `x = IndexedSet(range(32))`; remove 30, 28, 29, 31; `x.add(31)`; then `x[28]` raises IndexError although `len(x) == 29` | registering a dead slot joins both neighbouring runs, so the ledger stays exact | high, not executed | IndexedSetFindings.StaleLedgerBreaksIndexing | IndexedSetFindings.MergedLedgerKeepsIndexing |
| boltons/setutils.py:302-311 | `iter_slice` turns `start` and `stop` into slot numbers and then counts them as positions among the live items | `x = IndexedSet(range(8))`; `x.remove(0)`; `x[1:]` yields 3..7 instead of 2..7 | slice bounds are logical positions | high, not executed | IndexedSetFindings.SliceSkipsCounterexample | IndexedSets.GetSliceLogicalSound |
| boltons/setutils.py:367-370 | `index` returns the slot number from the item map | `x = IndexedSet(range(8))`; `x.remove(0)`; `x.index(1)` is 1 but `x[1]` is 2 | `x[x.index(v)] == v` | high, not executed | IndexedSetFindings.IndexIsSlotCounterexample | IndexedSets.LogicalIndexRoundTrip |
| boltons/setutils.py:257-265 | with two or more others, `chain(others)` yields the containers themselves, which are then added as elements | `x = IndexedSet(); x.update('ab', 'cd')` adds the strings `'ab'` and `'cd'`, not the letters a, b, c, d | `chain(*others)`: add every item of every other | high, not executed | SetAlgebra.UpdateAddsOperands | SetAlgebra.UpdateFlatIsUnion |
| boltons/setutils.py:267-269 | `intersection_update` discards `self.difference(*others)`, which for several others removes only what is in NO other | `x = IndexedSet([1, 2, 3]); x.intersection_update([1], [2])` keeps 1 and 2 | keep only the members found in every other | high, not executed | SetAlgebra.IntersectionUpdateKeepsEither | SetAlgebra.IntersectionUpdateFixedSound |
| boltons/setutils.py:271-275 | `difference_update` discards `self.intersection(*others)`, which for several others removes only what is in EVERY other | `x = IndexedSet([1, 2, 3]); x.difference_update([1], [2])` keeps all three | remove the members found in any other | high, not executed | SetAlgebra.DifferenceUpdateKeepsAll | SetAlgebra.DifferenceUpdateFixedSound |
| boltons/strutils.py:152 | the `ies` rule of `singularize` tests `word[-5:-4]`, the letter two before the `i`, against the vowels | `singularize(pluralize('baby'))`: `'babies'` has `a` at `[-5:-4]`, so it becomes `'babi'` | test `word[-4:-3]`, the letter before `ies`, as `pluralize` does | high, not executed | Inflection.SingularizeLosesY | Inflection.PluralRoundTrip |
| boltons/strutils.py:97-121 | `ordinalize` looks only at the last digit | `ordinalize(11)` gives `'11st'`, `ordinalize(12)` gives `'12nd'` | `'11th'`, `'12th'`, `'13th'` | high, not executed | ShortForms.TeensAsWritten | ShortForms.OrdinalSuffixFixedEnglish |
| boltons/strutils.py:285-299 | once an escape sequence has been seen, the loop keeps text only when it finds the next escape; the text after the last one is never appended | `strip_ansi('\x1b[1mart\x1b[0mX')` gives `'art'` and drops `'X'` | remove the escape sequences and keep all other text | medium, not executed (the docstring example drops `'\xdc'` too, so this may be deliberate) | Ansi.StripAnsiDropsTail | Ansi.ScanMissesRest |
| boltons/setutils.py:314-329 | `__getitem__` adds `len` to a negative index, and `_get_real_index` adds it again; below `-2*len` the real index is still negative and indexes the slot list from its end | `x = IndexedSet(range(8))`; `x.remove(0)`; `x[-22]` becomes -15, then -8, and `item_list[-8]` is the `_MISSING` sentinel, which is returned | an index outside `[-len, len)` raises IndexError | high, not executed | IndexedSetFindings.GetLeaksTombstone | IndexedSets.GetCheckedSound |

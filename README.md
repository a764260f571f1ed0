# burp-jq filter bar: completion controller, key harvest and filter assembly

This project models the core of a Burp Suite extension that shows a JSON
message through a jq filter, and proves properties of that model.

The filter bar is a single-line Swing text field. A controller (`JqComplete`)
watches it and reacts to keystrokes:

- It widens a one-char deletion over an empty pair such as `()`.
- When an opener is typed, it inserts the matching closer.
- When a closer is typed in front of the same closer, it steps over that closer.
- It completes the word being typed. Words after a `.` are looked up among the
  JSON keys of the message. Other words are looked up among a fixed list of jq
  builtins.
- The lookup is `Collections.binarySearch` on sorted lists.
- A completion is inserted selected. TAB accepts it, and otherwise types a TAB.

The tab (`JQTab`) does two more things:

- It harvests every field name of the message for the key list (`getKeys`).
- It builds the jq filter from the bar text and four helper check boxes. It
  joins the rendered results with newlines, and colours the bar by whether
  every result was null.

## Structure

| file | module | what it holds |
|---|---|---|
| `lexicographic.dfy` | `Lexicographic` | `String.compareTo` as `Less`, `startsWith`, sortedness; the order lemmas |
| `java_collections.dfy` | `JavaCollections` | `Collections.binarySearch` (the loop), the insertion point, `Collections.sort` as the unique sorted arrangement, `new ArrayList<>(set)` |
| `keywords.dfy` | `JqKeywords` | the 82 builtin keywords and the proof that the list is sorted |
| `options.dfy` | `Options` | Java's `null` as `Option` |
| `swing_text.dfy` | `SwingText` | the text field as a value: text, caret `dot` and `mark`, the implied trailing newline of a Swing document, `getText`, `setText`, `setCaretPosition`, `moveCaretPosition`, `replaceSelection`, removal with caret update |
| `jq_complete.dfy` | `JqCompletion` | the pair table, the specification functions of the listener, the filter, the tasks and the commit; the listener's loops as methods; the class `JqComplete` |
| `jq_complete_props.dfy` | `JqCompletionProps` | the lemmas: resolution, tokens, pair keystrokes, completion and commit, worked examples |
| `json_keys.dfy` | `JsonKeys` | a JSON tree, `getKeys` as a recursive method and its characterisation by paths |
| `filters.dfy` | `JqFilters` | `String.trim`, the filter string, output joining, all-null detection, colour; the class `JqTab` with `applyFilters` |

The class `JqComplete` holds four fields:

- `field`: the text field as a `Buffer` value.
- `mode`.
- `keys`: always sorted. This is the class invariant `Valid`.
- `pending`: the tasks handed to `SwingUtilities.invokeLater`, oldest first.

`RunNextTask` is the event loop running the oldest task. Each listener entry
point is proved against a specification function:

- `InsertReaction` says what `insertUpdate` does.
- `FilterRemove` says what the document filter's `remove` does.
- `TaskEffect` says what one deferred task does.
- `CommitEffect` says what the TAB action does.

`setText` replaces the whole document, so Swing tells the listener that the
whole new text was inserted at 0 (`SetTextReaction`). The listener ignores that
unless the text is exactly one char. Both the tasks and the commit action call
`setText`, so `RunNextTask` and `Commit` run the listener once more
(`TaskReaction`, `CommitReaction`). In a field holding only `s`, accepting a
completion therefore offers `calars` again.

The skip-close task can take a second round for the same reason. Typing `"`
just before a lone `"` leaves `""`, and the skip-close task deletes one quote.
Its `setText` then shows the listener a single `"`. A quote opens as well as
closes, so the listener pairs it again and the field ends as `""` with the
caret at 1. Every other closer (`)`, `}`, `]`) opens nothing, so for them the
skip-close ends after the first round (`SkipCloseRefire`).

The lemmas in `JqCompletionProps` are about those functions.

Swing reads the char after the typed one with `getText(pos + 1, 1)`. At the end
of the text this returns the document's implied trailing newline, so in the
model `GetText` reads from `text + [EndOfContent]`. No table entry holds that
newline, so typing an opener at the end of the field still pairs it.

In three places the source does not do what a reader might expect. The model
follows the source:

- An entry at the insertion point that does not extend the prefix changes
  nothing. The mode is not reset.
- A `_` at index 0 of the field never starts a token. Only a letter there makes
  the whole field the token, so `_ab` looks up `ab` (`LeadingUnderscoreDropped`).
- An exact hit offers nothing and resets the mode.

## Model

| member | source | states |
|---|---|---|
| Lexicographic.SortedUnique | burp/JqComplete.java:121-134 | two sorted lists with the same entries are equal, so any sort gives the one sorted arrangement |
| Lexicographic.ExtensionIsGreater | burp/JqComplete.java:212-217 | a string strictly extending the prefix sorts after it |
| Lexicographic.BetweenExtends | burp/JqComplete.java:212-217 | what sorts between a prefix and one of its extensions also extends it |
| JavaCollections.InsertionPoint | burp/JqComplete.java:213-215 | the insertion point: the entries before it sort below the key, the one at it does not |
| JavaCollections.InsertionPointSplits | burp/JqComplete.java:213-215 | in a sorted list without the key, the index splitting it into below and above is the insertion point |
| JavaCollections.BinarySearch | burp/JqComplete.java:213 | found index holds the key; negative exactly when the key is absent, then `-r-1` splits the sorted list into entries below and above the key |
| JavaCollections.InsertSorted | burp/JqComplete.java:121-124 | a sorted list with the one new entry added: sorted, one more occurrence, nothing else |
| JavaCollections.SortedOf | burp/JqComplete.java:123-133 | `Collections.sort`: sorted, same multiset of entries |
| JavaCollections.SortedOfSorted | burp/JqComplete.java:126-129 | sorting a sorted list leaves it unchanged |
| JavaCollections.ListOfSet | burp/JqComplete.java:131-133 | the list copied from a set holds each element of the set exactly once |
| JavaCollections.SetListDistinct | burp/JqComplete.java:131-134 | such a list has no duplicates and exactly the set's elements |
| JqKeywords.KeywordsSorted | burp/JqComplete.java:27-109 | the builtin keyword list is sorted as written (with `select()` twice), which the binary search needs |
| SwingText.ReplaceSelectionValid | burp/JqComplete.java:246 | replacing the selection keeps the caret in the text and changes the length by the inserted minus the selected chars |
| SwingText.RemoveRangeValid | burp/JqComplete.java:153 | a removal keeps both caret ends in the text |
| JqCompletion.MatesTable | burp/JqComplete.java:26 | every pair has two chars; no char opens or closes two pairs; only the quotes both open and close; no pair holds the implied newline or char 0 |
| JqCompletion.MateChars | burp/JqComplete.java:26 | the openers are `( { [ ' "` and the closers `) } ] ' "` |
| JqCompletion.WordStart | burp/JqComplete.java:194-198 | the word boundary: every char after it up to the typed char is a letter or `_`, and the boundary char itself is not, unless it is index 0 |
| JqCompletion.TabIsInert | burp/JqComplete.java:164-212 | a typed TAB makes the listener do nothing |
| JqCompletion.MatesFor | burp/JqComplete.java:180-191 | the mates loop returns the skip-close task, the auto-pair task, or nothing, as `MateReaction` |
| JqCompletion.ScanWordStart | burp/JqComplete.java:194-198 | the backward scan stops at `WordStart` |
| JqCompletion.ScanToken | burp/JqComplete.java:194-210 | the scan, the dictionary choice and the two boundary cases give `FindToken` |
| JqCompletion.WordLookup | burp/JqComplete.java:193-226 | token, dictionary choice, search and decision give `WordReaction` |
| JqCompletion.Lookup | burp/JqComplete.java:212-226 | the binary search and its handling give `Resolve` |
| JqCompletion.JqComplete.constructor | burp/JqComplete.java:115-119 | empty field and key list, insert mode, no pending task |
| JqCompletion.JqComplete.AddKeyword | burp/JqComplete.java:121-124 | the key list gains exactly one occurrence of the key and stays sorted; nothing else changes |
| JqCompletion.JqComplete.SetKeywordsFromList | burp/JqComplete.java:126-129 | the key list becomes the sorted arrangement of the given list |
| JqCompletion.JqComplete.SetKeywordsFromSet | burp/JqComplete.java:131-134 | the key list becomes the set's elements, sorted, without duplicates |
| JqCompletion.JqComplete.ClearKeywords | burp/JqComplete.java:136-138 | the key list becomes empty |
| JqCompletion.JqComplete.Remove | burp/JqComplete.java:145-154 | a deletion removes `RemovalLength` chars: one more exactly when one char is deleted and it and the next form a pair; an out-of-range deletion changes nothing |
| JqCompletion.JqComplete.InsertUpdate | burp/JqComplete.java:164-227 | the listener leaves the text and keys alone and schedules at most one task or resets the mode, as `InsertReaction` |
| JqCompletion.JqComplete.TypeText | burp/JqComplete.java:164-167 | typing replaces the selection and notifies the listener only when something was inserted |
| JqCompletion.JqComplete.Commit | burp/JqComplete.java:234-248 | TAB accepts the completion (caret at the selection end, one before it after `)`), or types a TAB; the mode becomes insert; the listener hears the accepting `setText` and may queue one task |
| JqCompletion.JqComplete.RunNextTask | burp/JqComplete.java:251-288 | the oldest task runs and leaves the queue; a position out of range drops the task with no effect; otherwise the listener hears the task's `setText` and may queue one more task |
| JqCompletion.NoMatePieceKeepsLength | burp/JqComplete.java:145-154 | no pair read at the offset means the deletion keeps its length |
| JqCompletion.MatePieceWidens | burp/JqComplete.java:145-154 | a pair read at the offset means one char was to be deleted and one more is |
| JqCompletionProps.SplitPoint | burp/JqComplete.java:213-215 | an index between an entry below and an entry above the key is its insertion point and the key is absent |
| JqCompletionProps.ResolveSchedulesIff | burp/JqComplete.java:212-222 | on a sorted list a completion is scheduled exactly when the prefix is absent and some entry strictly extends it |
| JqCompletionProps.CompletionIsNextEntry | burp/JqComplete.java:214-221 | the completion is non-empty, prefix plus completion is an entry, and it is the smallest entry sorting after the prefix |
| JqCompletionProps.ResolveResetsIff | burp/JqComplete.java:213-226 | the mode is reset exactly when the prefix is an entry or every entry sorts before it |
| JqCompletionProps.TooShortIff | burp/JqComplete.java:205-210 | no lookup happens exactly when the typed char is a non-letter at index 0, or a non-word char later |
| JqCompletionProps.TokenIsWord | burp/JqComplete.java:194-212 | the prefix is a non-empty run of word chars ending with the typed char; keys are searched exactly after a `.` |
| JqCompletionProps.LeadingUnderscoreDropped | burp/JqComplete.java:195-207 | a `_` at index 0 is not part of the token |
| JqCompletionProps.PairOf | burp/JqComplete.java:26 | an opener and its closer form a row of the table, and the closer closes |
| JqCompletionProps.TypedText | burp/JqComplete.java:173-174 | after typing `c` over the selection the char read after it is the char after the old selection |
| JqCompletionProps.SkipCloseNetEffect | burp/JqComplete.java:183-185 | a closer typed before the same closer: the task deletes the old closer; the text loses only the selection and the caret is past the closer |
| JqCompletionProps.SkipCloseRefire | burp/JqComplete.java:280-287 | a skip-close that leaves one quote has its `setText` pair it again, and the new pair triggers nothing more; one that leaves a lone `)` triggers nothing |
| JqCompletionProps.AutoPairNetEffect | burp/JqComplete.java:187-189 | an opener typed: the task inserts its closer behind it with the caret between the two; the mode is unchanged |
| JqCompletionProps.DeletePairRestores | burp/JqComplete.java:145-154 | deleting the opener of a fresh pair restores the text before the pair was typed |
| JqCompletionProps.CloseFreshPair | burp/JqComplete.java:183-185 | typing the closer inside a fresh pair steps over it without changing the text |
| JqCompletionProps.EmptyFieldParenExample | burp/JqComplete.java:173-189 | typing `(` into the empty field gives `()` with the caret in between |
| JqCompletionProps.CompletionThenCommit | burp/JqComplete.java:234-267 | a completion task inserts and selects the completion; commit keeps the text and places the caret; a second commit types a TAB |
| JqCompletionProps.CommitRefireNeedsOneChar | burp/JqComplete.java:164-167 | the accepting `setText` makes the listener act only when the field holds one char |
| JqCompletionProps.CommitRefireParenExample | burp/JqComplete.java:234-239 | accepting a completion in a field holding only `(` queues its closer again |
| JqCompletionProps.CommitRefireLetterExample | burp/JqComplete.java:234-239 | accepting a completion in a field holding only `s` queues the completion `calars` again |
| JqCompletionProps.OfferedCompletionSelected | burp/JqComplete.java:217-221 | a completion the listener offers is always selected once inserted |
| JqCompletionProps.KeywordCompletionExample | burp/JqComplete.java:212-221 | `sel` completes to `select()` |
| JqCompletionProps.KeyCompletionExample | burp/JqComplete.java:200-221 | `.na` with keys `id`, `name` completes to `name` |
| JqCompletionProps.PastLastKeywordExample | burp/JqComplete.java:213-225 | a word sorting after every keyword resets the mode |
| JqCompletionProps.ExactKeywordExample | burp/JqComplete.java:213-225 | a keyword typed out resets the mode |
| JsonKeys.ElemKeysMember | burp/BurpExtender.java:248-254 | an array's keys are those of any of its elements |
| JsonKeys.FieldKeysMember | burp/BurpExtender.java:256-265 | an object's keys are its field names and the keys of any field value |
| JsonKeys.GetKeys | burp/BurpExtender.java:243-269 | `getKeys` returns the keys of the tree |
| JsonKeys.SubtreeStep | burp/BurpExtender.java:243-269 | a step down a child prefixes the path |
| JsonKeys.KeysReached | burp/BurpExtender.java:243-269 | every harvested key names a field of some object reached by a path |
| JsonKeys.ReachedAreKeys | burp/BurpExtender.java:243-269 | every field name of an object reached by a path is harvested |
| JsonKeys.KeysAreFieldNames | burp/BurpExtender.java:243-269 | the keys are exactly the field names of the objects anywhere in the tree; array positions and values never appear |
| JsonKeys.KeysExample | burp/BurpExtender.java:243-269 | `{"a": [{"b": 1}, 2], "c": "d"}` has the keys `a`, `b`, `c` |
| JqFilters.TrimStart | burp/BurpExtender.java:275 | the trimmed text starts after the leading chars up to the space |
| JqFilters.TrimEnd | burp/BurpExtender.java:275 | the trimmed text ends before the trailing chars up to the space |
| JqFilters.TrimSlice | burp/BurpExtender.java:275-277 | the trimmed text is a slice with blanks only outside it and none at its ends; empty exactly when all is blank |
| JqFilters.TrimIdempotent | burp/BurpExtender.java:275 | trimming twice is trimming once |
| JqFilters.BuildQuery | burp/BurpExtender.java:274-285 | the step-by-step rewriting gives `Query`: wrapping, base filter, pipes |
| JqFilters.PipedFilter | burp/BurpExtender.java:275-281 | the trimmed text or `.`, then the pipes the flags ask for |
| JqFilters.NoHelpersQuery | burp/BurpExtender.java:275-285 | with every helper off the filter is the trimmed text, and it is `.` exactly for a blank bar or a bar holding `.` |
| JqFilters.PipeOrder | burp/BurpExtender.java:278-281 | `\|keys` comes before `\|select(.!=null)` |
| JqFilters.OneWrapping | burp/BurpExtender.java:282-285 | Unique ignores Sort; one bracket wrapping with `unique` or `sort`, or none |
| JqFilters.TerminatedIsJoined | burp/BurpExtender.java:305-310 | dropping the last newline of the newline-terminated results gives the results joined by newlines |
| JqFilters.JoinLinesSnoc | burp/BurpExtender.java:305 | one more result adds a newline and that result |
| JqFilters.SplitNoNewline | burp/BurpExtender.java:305 | a text without newline is one piece |
| JqFilters.SplitAtNewline | burp/BurpExtender.java:305 | a first piece is split off at the first newline |
| JqFilters.SplitJoin | burp/BurpExtender.java:289-310 | results without newlines are split back out of the output exactly |
| JqFilters.JoinLength | burp/BurpExtender.java:289-310 | no results give an empty output; otherwise one newline fewer than results |
| JqFilters.RenderFlags | burp/BurpExtender.java:295-304 | Raw acts only on string results, a string drawn raw is its text, and Pretty does not change a string drawn raw |
| JqFilters.RenderAll | burp/BurpExtender.java:292-306 | the results are rendered one by one in order |
| JqFilters.Collect | burp/BurpExtender.java:289-310 | the callback loop and the final deletion give the joined rendering, and the all-null flag is true exactly when every result is null |
| JqFilters.JqTab.constructor | burp/BurpExtender.java:111-155 | a new tab has an empty bar in the warning colour, Pretty and Raw ticked, the query helpers unticked and nothing shown |
| JqFilters.JqTab.ApplyFilters | burp/BurpExtender.java:272-322 | the bar's colour and the output text follow the outcome of the query built from the bar and helpers |
| JqFilters.NoResults | burp/BurpExtender.java:309-316 | no results: empty output and the warning colour |

## Left out

- Burp plumbing: the extender callbacks, `isEnabled`, `getMessage`, `isModified` and `getSelectedData`. `setMessage`'s body slicing is left out too. They are calls into Burp's API with no logic of their own.
- jackson-jq and Jackson: compiling and applying the filter, parsing the body, serialising results. The outcome of running a filter comes in as the function `jq`. Each result is an `Output` carrying its null-ness, its kind and its three renderings.
- An exception thrown by jq partway through the results is modelled as a plain `Failed` outcome. The results appended before it are not shown anyway.
- The Swing UI: the layout, the check boxes as widgets, the colours as RGB values, the fonts, and the TAB key binding. Commit is a plain method, and the colours are the three names `Warning`, `OK`, `Error`.
- Threads: `invokeLater` is FIFO deferral in `pending`, drained by `RunNextTask`.
- `removeUpdate` and `changedUpdate` of the listener: both are empty in the source, so the removal half of `setText` has no effect and no member models them.
- JqCompletion.IsLetter: `Character.isLetter` is restricted to ASCII letters. Unicode letters are not modelled.
- Lexicographic.Less: `String.compareTo` compares UTF-16 code units. The model compares Dafny chars, which agree on the Basic Multilingual Plane; surrogate pairs are not modelled.
- JqCompletion.JqComplete.SetKeywordsFromList: Java keeps and sorts the caller's own list, so later changes to that list by the caller would show through. The model copies the list, and this aliasing is not modelled.
- JqCompletion.JqComplete.ClearKeywords: Java clears the list object, which may be shared with a caller, and that sharing is not modelled.
- JavaCollections.ListOfSet: a `HashSet`'s iteration order is not modelled, because the list is sorted straight afterwards and the sorted list does not depend on that order (`SortedUnique`).

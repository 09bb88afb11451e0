# Home feed query logic of memos, in Dafny

This project models the logic of the memos web client's home page
(`web/src/pages/Home.tsx`) that decides what the paged memo list is asked
for and in what order its memos are shown:

- **Shortcut ids.** `getShortcutId` splits a shortcut's resource name
  (`users/{user}/shortcuts/{shortcut}`) on `/` and keeps the fourth segment.
  It returns "" for any name that does not split into exactly four segments.
  The page uses it to find the selected shortcut, whose filter it passes on
  (`selectedShortcut?.filter || ""`).
- **Filter compiler.** One pass over the active filter conditions pushes
  fixed literals for the flag factors and a pair of bounds for each
  `displayTime` factor onto `conditions`. Content and tag searches are collected
  into two accumulators. Then one `content_search == [...]` conjunct and one
  `tag_search == [...]` conjunct are appended, each only when its
  accumulator is non-empty, and everything is joined with `" && "`. Unknown factors are ignored.
- **List ordering.** `listSort` keeps the NORMAL memos, sorts them
  by display time (ascending or descending), and then sorts them stably by pinned, pinned first.
- **Query arguments.** `orderBy` is `display_time asc` or `display_time desc`.
  The query also carries the owner, the shortcut filter, and the compiled expression as `oldFilter`.

Modules: `Strings` (JavaScript `join`, `split`, and integer printing, each
with an inverse it is proved against), `Shortcuts`, `MemoFilter`, `MemoOrdering` and `Home`.

The filter compiler is an imperative loop in the source. It is modelled as
the method `MemoFilter.CompileFilter`, whose loop keeps the three accumulators.
The method is proved equal to the specification function `MemoFilter.Compile`,
which is defined through `Collect`: the contents of an accumulator after a
left-to-right pass. The properties are then proved about `Compile` and `Conjuncts`.
`listSort` is a pure chain (`filter`, `sort`, `sort`) over a fresh array.
It is modelled as functions.

JavaScript's `Array.prototype.sort` is stable. Each comparator in `listSort`
is a difference of integer keys:
- the time comparator uses `displayTime` when ascending and `-displayTime` when descending;
- the pinned comparator uses `0` for pinned memos and `1` for the rest.

Each sort is therefore a stable insertion sort by an integer key (`MemoOrdering.SortBy`).

Flag and date sub-expressions are emitted in the order the conditions come
(`web/src/pages/Home.tsx:27-46`). Only the two search conjuncts have a fixed
place, at the end, content before tag (`web/src/pages/Home.tsx:48-53`).

The filter store's selected shortcut id is an input that may be absent
(`None`). `getShortcutId` always yields a string, so an absent id matches no
shortcut and the list gets no shortcut filter. One consequence of
`getShortcutId`'s silent "" for malformed names is stated as
`Shortcuts.EmptyIdMatchesMalformedName`: if the store holds the empty id "",
the lookup picks the first shortcut whose id is "": one whose name is not of
the four-segment form, or whose last segment is empty. So any malformed name
makes the lookup succeed.

## Model

| member | source | states |
|---|---|---|
| `Strings.Split` | web/src/pages/Home.tsx:15 | `split("/")` never fails: it returns one segment more than there are separators, and no segment contains the separator |
| `Strings.JoinSplit` | web/src/pages/Home.tsx:15 | joining the segments of a split with the separator gives back the original name |
| `Strings.SplitJoin` | web/src/pages/Home.tsx:15 | splitting a `/`-join of slash-free segments gives back exactly those segments |
| `Strings.ParseIntToString` | web/src/pages/Home.tsx:44-45 | the decimal text spliced into a date bound reads back as the bound itself |
| `Strings.IntToStringCanonical` | web/src/pages/Home.tsx:44-45 | the printed bound is a canonical numeral: digits without a leading zero, a minus sign exactly for negative values |
| `Strings.IntToStringParseInt` | web/src/pages/Home.tsx:44-45 | every canonical numeral is the printed form of the value it reads as, so printing is one-to-one onto canonical numerals |
| `Shortcuts.ShortcutId` | web/src/pages/Home.tsx:14-17 | the id never contains `/`, and it is "" for every name that does not have exactly three slashes (four segments) |
| `Shortcuts.ShortcutIdOfResourceName` | web/src/pages/Home.tsx:12-17 | for slash-free `u` and `s`, the id of `users/u/shortcuts/s` is `s` |
| `Shortcuts.ShortcutIdIsLastSegment` | web/src/pages/Home.tsx:14-17 | for a four-segment name, the id is exactly the text after the last slash |
| `Shortcuts.FindShortcut` | web/src/pages/Home.tsx:21 | returns nothing exactly when no shortcut's id equals the selected id; otherwise it returns the first shortcut whose id does |
| `Shortcuts.SelectShortcut` | web/src/pages/Home.tsx:21 | an absent selected id selects nothing; a present id selects the first shortcut whose id equals it, and nothing exactly when none does |
| `Shortcuts.EmptyIdMatchesMalformedName` | web/src/pages/Home.tsx:14-21 | if the selected id is "", any shortcut whose name is not of the four-segment form makes the lookup succeed |
| `Shortcuts.SelectedFilter` | web/src/pages/Home.tsx:73 | the filter passed on is the selected shortcut's filter, and "" when no shortcut is selected |
| `MemoFilter.CompileFilter` | web/src/pages/Home.tsx:23-55 | the one-pass loop with three accumulators computes exactly the expression `Compile` specifies |
| `MemoFilter.CollectAppend` | web/src/pages/Home.tsx:27-47 | each accumulator after a pass over `a + b` is its contents after `a` followed by its contents after `b` (the pass only appends, in input order) |
| `MemoFilter.ContributionAt` | web/src/pages/Home.tsx:27-47 | condition `i` contributes exactly its own items, placed right after what the earlier conditions contributed |
| `MemoFilter.ContributionsInInputOrder` | web/src/pages/Home.tsx:27-47 | an earlier condition's contribution ends no later than where a later condition's contribution starts |
| `MemoFilter.FlagConjunct` | web/src/pages/Home.tsx:32-39 | each `pinned`, `hasLink`, `hasTaskList` and `hasCode` condition yields exactly its fixed literal, at the position that follows what the earlier conditions contributed |
| `MemoFilter.EmittedLength` | web/src/pages/Home.tsx:32-46 | there is one sub-expression per flag condition and two per date condition |
| `MemoFilter.DateBoundsOneDayApart` | web/src/pages/Home.tsx:40-45 | a date condition at `T` emits `display_time_after == T` and `display_time_before == T+86400`, and the two bounds read back exactly 86400 apart |
| `MemoFilter.DateWindow` | web/src/pages/Home.tsx:40-45 | the two bounds of each date condition are adjacent conjuncts, after-bound first, at the position that follows the earlier conditions' contributions |
| `MemoFilter.SearchTermsLength` | web/src/pages/Home.tsx:28-31 | the content (tag) accumulator holds one quoted value per content (tag) search condition |
| `MemoFilter.SearchValueAt` | web/src/pages/Home.tsx:28-31 | the value of the n-th content (tag) search, in double quotes, is the n-th entry of its accumulator |
| `MemoFilter.ConjunctCount` | web/src/pages/Home.tsx:48-54 | the number of conjuncts is flags + 2 × dates + (content present ? 1 : 0) + (tag present ? 1 : 0) |
| `MemoFilter.ConjunctOrder` | web/src/pages/Home.tsx:48-54 | all flag and date sub-expressions come first; after them come only search conjuncts, the `content_search` conjunct right after them and the `tag_search` conjunct last |
| `MemoFilter.ContentConjunctPresentIff` | web/src/pages/Home.tsx:48-50 | a `content_search == [` conjunct is present if and only if some condition is a content search |
| `MemoFilter.TagConjunctPresentIff` | web/src/pages/Home.tsx:51-53 | a `tag_search == [` conjunct is present if and only if some condition is a tag search |
| `MemoFilter.ConjunctsNonEmpty` | web/src/pages/Home.tsx:32-53 | no conjunct is the empty string |
| `MemoFilter.NoConjunctsIff` | web/src/pages/Home.tsx:24-53 | there are no conjuncts if and only if every condition has an unknown factor |
| `MemoFilter.CompileEmptyIff` | web/src/pages/Home.tsx:24-54 | the expression is "" if and only if the conditions are empty or all unknown |
| `MemoFilter.SearchExample` | web/src/pages/Home.tsx:28-54 | two content searches and one tag search compile to `content_search == ["a", "b"] && tag_search == ["x"]` |
| `MemoOrdering.FilterMembers` | web/src/pages/Home.tsx:63 | exactly the elements satisfying the predicate are kept |
| `MemoOrdering.SortBy` | web/src/pages/Home.tsx:64-69 | a sort returns a permutation of its input |
| `MemoOrdering.SortBySorted` | web/src/pages/Home.tsx:64-68 | a sort's result is ordered by the comparator's key |
| `MemoOrdering.SortByStable` | web/src/pages/Home.tsx:64-69 | elements that share one key keep their input order |
| `MemoOrdering.SortBySortedLex` | web/src/pages/Home.tsx:64-69 | a stable sort by a second key, applied to a sequence already sorted by a first key, orders it by the second key and then the first |
| `MemoOrdering.LexSortedUnique` | web/src/pages/Home.tsx:64-69 | two sequences ordered by a key pair that hold the same elements of every key pair, in the same order, are equal |
| `MemoOrdering.ListSortPermutation` | web/src/pages/Home.tsx:62-63 | the result is a permutation of exactly the NORMAL memos of the input |
| `MemoOrdering.ListSortOrder` | web/src/pages/Home.tsx:64-69 | every pinned memo precedes every unpinned one; within each group, display times are non-decreasing when ascending and non-increasing otherwise |
| `MemoOrdering.ListSortStable` | web/src/pages/Home.tsx:64-69 | memos that tie on pinned and display time keep the order they have among the NORMAL input memos |
| `MemoOrdering.ListSortClasses` | web/src/pages/Home.tsx:64-69 | for every pair of pinned key and time key, the result holds the NORMAL input memos with that pair in their input order |
| `MemoOrdering.ListSortIsSingleStableSort` | web/src/pages/Home.tsx:61-70 | the two chained sorts equal one stable sort keyed on pinned (descending), then display time in the chosen direction |
| `MemoOrdering.ListSortExample` | web/src/pages/Home.tsx:61-70 | the memos A (unpinned, t=10), B (pinned, t=5) and C (archived, t=20), sorted ascending, give `[B, A]` |
| `Home.OrderBy` | web/src/pages/Home.tsx:72 | `orderBy` is `display_time asc` exactly when ascending, and `display_time desc` otherwise |
| `Home.HomeQuery` | web/src/pages/Home.tsx:21-74 | the owner is the current user, `orderBy` is `display_time asc` when ascending and `display_time desc` otherwise, and `oldFilter` is the compiled expression. `filter` is the filter of the first shortcut whose id equals the selected id; it is "" when no id is selected or none matches |
| `Home.OrderByMatchesListSort` | web/src/pages/Home.tsx:64-72 | the direction named in `orderBy` is the time direction `listSort` applies within the pinned and the unpinned groups |

## Left out

- Date parsing of a `displayTime` value (`new Date(value)` plus the timezone offset) depends on the host's date library and local timezone. A date condition carries the resulting start instant `T` as an integer number of seconds.
- MemoFilter.DateWindow: the model does not cover a date string that fails to parse, which prints `NaN` bounds. It also does not cover a start instant with a fractional second. Both are floating-point behaviour of the host.
- Strings.IntToString: JavaScript number printing is modelled only for integers, and without the exponent notation the host uses from 10^21 on.
- MemoOrdering.ListSort: the model does not cover display times that `dayjs` cannot parse, where the comparator yields `NaN`. `dayjs(...).unix()` parsing is replaced by an integer `displayTime`.
- Memo states beyond `STATE_UNSPECIFIED`, `NORMAL` and `ARCHIVED` are not modelled. `listSort` only tests for `NORMAL`.
- MobX/React reactivity and the `useMemo` dependency list are not modelled, because they are caching. The current user and the ordering direction do not enter the compiled expression, so `MemoFilter.Compile` does not take them.
- Pagination, network fetching, `PagedMemoList` and `MemoView` rendering are left out as I/O and UI.
- `@/store/v2/memoFilter` is not part of this model. How the store marks "no shortcut selected" (an absent value or "") is not visible, so the selected id is an optional input and both cases are covered.
- `web/src/components/Settings/MyAccountSection.tsx` is presentational markup with no logic, and is not part of this model.
- Filter values are spliced into the expression verbatim, as the code does. No escaping is modelled because there is none.

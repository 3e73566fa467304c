# Portfolio page model

This project models `src/pages/index.js`, the single page of a portfolio site.
The page has two halves:

- **`getStaticProps`** runs at build time. It lists a user's repositories, reads
  each README, and builds one project record per repository:
  - the title comes from the `#tjidtitle` element, or the repository name when that is empty;
  - the technologies are the comma-separated, trimmed pieces of `#tjidtechs`;
  - the links are the repository URL, then the trimmed text of each `#tjidlinks li` item.

  When fetching or parsing throws, the record falls back to defaults. In that
  case `links` becomes one string of anchor markup.
- **`Home`** runs in the browser. It derives:
  - the distinct technologies, sorted case-insensitively;
  - the selection that the filter buttons toggle;
  - the *filtered* projects, which use a selected technology, and the *other* projects;
  - a count of projects per technology.

The Dafny modules follow that structure:

- `JsString` models the JavaScript string operations the page's data
  depends on: `trim` with the ECMAScript white-space set, `split` on one
  character, and `toLowerCase` on ASCII letters. `Join` is not one of the
  page's operations (its only `join` is in the rendering): it is there as the
  inverse of `Split` in the round-trip lemmas.
- `Collation` models the sort and de-duplication. `Array.prototype.sort` is a
  stable insertion sort by key. The `localeCompare` collation is a parameter
  `le`, "compares at most zero". Order lemmas assume `le` is a total preorder, and
  `CodePointOrderIsTotalPreorder` shows that this assumption can be met.
  `[...new Set(xs)]` is `Dedup`.
- `StaticProps` models the record shaping in `getStaticProps`. `CollectLinks` is
  the imperative `links.push` loop, proved against `LinksOf`.
- `Home` models the component's derived values. `TechCounts` is the `reduce`
  that fills an object, written as a loop filling a map.

The network and the HTML parser are not modelled: what they return for a
repository is the input value `Fetched`. It holds either the three extracted
texts (`Parsed`) or the exception path (`Failed`).

## Model

| member | source | states |
|---|---|---|
| StaticProps.TitleOf | src/pages/index.js:23 | the title is the extracted text when it is non-empty, otherwise the repository name; it is empty only when both are |
| StaticProps.TechnologiesPieces | src/pages/index.js:24 | there is one technology more than there are commas in the text; each is the trimmed piece at the same position, has no white space at either end and holds no comma |
| StaticProps.TechnologiesWithoutComma | src/pages/index.js:24 | text without a comma gives exactly one technology, its trimmed text; a missing element (empty text) gives `[""]` |
| StaticProps.TechnologiesCoverText | src/pages/index.js:24 | the pieces the technologies are trimmed from are as many as the technologies, and joined with commas they give back the text |
| StaticProps.Technologies | src/pages/index.js:24 | `split(",").map(trim)`; one technology more than there are commas (pieces and trimming in `TechnologiesPieces`) |
| StaticProps.LinksOf | src/pages/index.js:26-30 | the links of the normal path: never empty, the repository URL first, one entry more than list items (contents in `LinksShape`) |
| StaticProps.AnchorFor | src/pages/index.js:48 | the fallback markup: an anchor element of length twice the URL plus 31, opening with `<a href="` and closing with `</a>` (URL positions in `FailedLinksCarryUrl`) |
| StaticProps.CollectLinks | src/pages/index.js:26-30 | the push loop builds exactly `LinksOf`: the repository URL, then every trimmed list item in document order |
| StaticProps.LinksShape | src/pages/index.js:26-30 | the links list is never empty and starts with the repository URL; there is one more entry than list items, and entry k+1 is item k trimmed |
| StaticProps.ProjectOf | src/pages/index.js:14-49 | name, URL and description always come from the repository; on the exception path the title is the name and there are no technologies; on the normal path the links are a list headed by the URL; the title is empty only when the name is |
| StaticProps.FailedLinksCarryUrl | src/pages/index.js:48 | the fallback anchor markup contains the repository URL as its target and as its text |
| StaticProps.ReadmeWithoutElements | src/pages/index.js:20-39 | a README with none of the marked elements (a 404 page, say) gives title = name, technologies `[""]` and links = the URL alone |
| StaticProps.Projects | src/pages/index.js:12-13 | one record per repository |
| StaticProps.ProjectsFollowRepos | src/pages/index.js:12-52 | record i carries repository i's name and description, and when its fetch failed, the name as title and no technologies |
| JsString.LowerChar | src/pages/index.js:61 | an ASCII capital maps to its lower-case letter (+32), every other character is unchanged, no capital comes out |
| JsString.ToLower | src/pages/index.js:61 | same length, lowered character by character |
| JsString.ToLowerProperties | src/pages/index.js:61 | the result holds no ASCII capital, keeps every other character, and lowering again changes nothing |
| JsString.SkipLeading | src/pages/index.js:24 | the index where the leading white space ends: all before it is white space, the character at it is not |
| JsString.SkipTrailing | src/pages/index.js:24 | the index where the trailing white space starts (not below the given bound): all from it on is white space, the character before it is not |
| JsString.Trim | src/pages/index.js:24 | the result has no white space at either end and is no longer than the input |
| JsString.TrimDropsOnlyWhitespace | src/pages/index.js:24 | the string is its leading white space, then the trimmed result, then its trailing white space |
| JsString.TrimOfPadded | src/pages/index.js:24 | a trimmed string padded with white space on both sides trims back to itself |
| JsString.TrimKeepsOut | src/pages/index.js:24 | trimming introduces no character that was not in the input |
| JsString.TrimAll | src/pages/index.js:24 | `map(trim)`: same length, entry k is entry k trimmed |
| JsString.Split | src/pages/index.js:24 | splitting always gives at least one piece |
| JsString.SplitShape | src/pages/index.js:24 | there is one piece more than there are separators, and no piece contains the separator |
| JsString.JoinSplit | src/pages/index.js:24 | joining the pieces of a split with the same separator gives the string back |
| JsString.SplitJoin | src/pages/index.js:24 | splitting a join of separator-free pieces gives exactly those pieces back |
| Collation.InsertByKey | src/pages/index.js:61 | one insertion step of the sort: one element longer (multiset in `InsertCounts`, order in `InsertKeepsSorted`, ties in `InsertIntoClass`) |
| Collation.SortByKey | src/pages/index.js:61 | the comparator sort of lines 61, 73 and 79, as a returned value: same length; a permutation (`SortCounts`), ascending (`SortIsSorted`) and stable (`SortIsStable`) |
| Collation.InsertCounts | src/pages/index.js:61 | inserting into any list adds the element and loses nothing (multiset) |
| Collation.SortCounts | src/pages/index.js:61 | the sort returns a permutation of its input (multiset equality) |
| Collation.InsertKeepsSorted | src/pages/index.js:61 | inserting into a sorted list keeps it sorted, for a total preorder |
| Collation.SortIsSorted | src/pages/index.js:61 | the sorted list is in ascending key order, for a total preorder |
| Collation.SortIsStable | src/pages/index.js:61 | for every key, the elements equivalent to it keep their input order |
| Collation.SortKeepsDistinct | src/pages/index.js:60-61 | sorting a list without duplicates gives a list without duplicates |
| Collation.Dedup | src/pages/index.js:60 | no duplicates, every element comes from the input, and every input element is kept; order in `DedupKeepsFirstOccurrenceOrder` |
| Collation.FirstIndex | src/pages/index.js:60 | the index of a value's first occurrence: it holds the value and no earlier index does |
| Collation.DedupKeepsFirstOccurrenceOrder | src/pages/index.js:60 | the distinct values come in the order of their first occurrence, the insertion order of a `Set` |
| Collation.DedupOfDistinct | src/pages/index.js:60 | a list with no duplicates is its own de-duplication |
| Collation.CodePointOrderIsTotalPreorder | src/pages/index.js:61 | code-point order on strings meets the comparator hypothesis, so the hypothesis can be met |
| Home.AllTechnologies | src/pages/index.js:60 | the `flatMap` of all projects' technologies; membership in `AllTechnologiesMembers` |
| Home.TechSet | src/pages/index.js:60-61 | `techSet`: distinct and complete (`TechSetDistinctAndComplete`), sorted and stable (`TechSetSorted`), ties in first-use order (`DedupKeepsFirstOccurrenceOrder`) |
| Home.AllTechnologiesMembers | src/pages/index.js:60 | a technology is in the flattened list exactly when some project lists it |
| Home.TechSetDistinctAndComplete | src/pages/index.js:60-61 | the technology list has no duplicates and holds exactly the technologies some project uses |
| Home.TechSetSorted | src/pages/index.js:60-61 | the technology list is in ascending order of lower-cased names, and names that collate equal keep the order of their first use |
| Home.Without | src/pages/index.js:66 | `prev.filter((t) => t !== tech)`; what it keeps in `WithoutCounts`, `WithoutAppend`, `WithoutAbsent` |
| Home.Toggle | src/pages/index.js:64-68 | the successor of the selection on a click; its properties in `ToggleFlips`, `ToggleAbsentTwice`, `TogglePreservesDistinct`, `ToggleTwiceSameMembers` |
| Home.WithoutCounts | src/pages/index.js:66 | the filter removes every copy of the tech and keeps every other value as often as it was |
| Home.WithoutAppend | src/pages/index.js:66 | the filter works piece by piece, so the kept values keep their order |
| Home.WithoutAbsent | src/pages/index.js:66 | filtering a value that is not there changes nothing |
| Home.WithoutKeepsDistinct | src/pages/index.js:66 | filtering keeps a duplicate-free selection duplicate-free |
| Home.ToggleFlips | src/pages/index.js:64-68 | after toggling, the tech is selected exactly when it was not; an absent tech is appended at the end; every other value keeps its count |
| Home.ToggleAbsentTwice | src/pages/index.js:64-68 | toggling an unselected tech twice restores the exact selection |
| Home.TogglePreservesDistinct | src/pages/index.js:64-68 | a selection without duplicates stays without duplicates |
| Home.ToggleTwiceSameMembers | src/pages/index.js:64-68 | toggling any tech twice gives back a selection with the same members |
| Home.ToggleSelectedTwice | src/pages/index.js:64-68 | toggling a selected tech twice removes every copy of it and appends it once: the rest keeps its order and the tech moves to the end |
| Home.ToggleTwiceCanReorder | src/pages/index.js:64-68 | for example, toggling `"Go"` twice turns `["Go","Rust"]` into `["Rust","Go"]`, so the selection does not always come back as it was |
| Home.Matches | src/pages/index.js:72 | `filteredTech.some((tech) => project.technologies.includes(tech))`: some selected technology is one of the project's |
| Home.KeepMatching | src/pages/index.js:71-72 | a project is kept exactly when it is in the list and uses a selected technology |
| Home.KeepUnmatched | src/pages/index.js:71-72 | reference definition of the complement of the filter: a project is kept exactly when it is in the list and matches no selected technology |
| Home.KeepNotIn | src/pages/index.js:78 | a project is kept exactly when it is in the list and not among the shown ones |
| Home.MatchingSplitsProjects | src/pages/index.js:71-72 | the matching and the unmatched projects together are the project list, counted with multiplicity |
| Home.TitleKey | src/pages/index.js:73 | the sort key `title.toLowerCase()` of both project lists |
| Home.FilteredProjects | src/pages/index.js:71-73 | `filteredProjects`; members in `FilteredProjectsMembers`, order in `FilteredProjectsOrder` |
| Home.OtherProjects | src/pages/index.js:75-79 | `otherProjects`; members in `PartitionOfProjects` and `OtherAreUnmatched`, order in `OtherProjectsOrder` |
| Home.NothingSelectedNothingMatches | src/pages/index.js:71-72 | with nothing selected no project matches |
| Home.FilteredProjectsMembers | src/pages/index.js:71-73 | filtered projects are exactly those using a selected technology, drawn from the list without extra copies, and none when nothing is selected |
| Home.FilteredProjectsOrder | src/pages/index.js:71-73 | filtered projects are in ascending order of lower-cased title; equal titles keep the list order |
| Home.NotShownIsUnmatched | src/pages/index.js:78 | removing the projects found in a list of exactly the matching ones leaves exactly the unmatched ones |
| Home.OtherAreUnmatched | src/pages/index.js:75-78 | with something selected, the projects not in the filtered list are the unmatched ones (by value as by identity) |
| Home.PartitionOfProjects | src/pages/index.js:71-79 | filtered plus other projects is a permutation of the projects; with a selection the two are disjoint and the others are exactly the unmatched projects; with none the others are all projects |
| Home.OtherProjectsOrder | src/pages/index.js:75-79 | other projects are in ascending order of lower-cased title; equal titles keep the list order |
| Home.KeepMatchingSameMembers | src/pages/index.js:71-72 | selections with the same members match the same projects |
| Home.SameMembersSameViews | src/pages/index.js:71-79 | both project lists depend on the selection only through its members |
| Home.ToggleTwiceSameViews | src/pages/index.js:64-79 | clicking one filter button twice leaves both project lists as they were |
| Home.UsageCount | src/pages/index.js:83 | the number of projects listing the technology; bounds in `UsageCountBounds` |
| Home.UsageCountBounds | src/pages/index.js:83 | a count is at most the number of projects, and positive exactly when some project uses the technology |
| Home.UsageCountIsFilteredSize | src/pages/index.js:83 | a technology's count is the number of filtered projects when it alone is selected |
| Home.TechSetCountsPositive | src/pages/index.js:82-85 | every listed technology has a count between one and the number of projects |
| Home.TechCounts | src/pages/index.js:82-85 | the map has a key for exactly the listed technologies, and each value is the number of projects that use that technology |
| Home.GoSelectionScenario | src/pages/index.js:71-79 | for A (Go), B (Rust) and C (Go, Rust), selecting Go gives filtered [A, C] and other [B] |
| Home.EmptySelectionScenario | src/pages/index.js:71-79 | the same projects with nothing selected: no filtered projects, and all three as other projects in title order |

## Left out

- The two `fetch` calls, the GitHub API and `res.json()`/`res.text()` (lines 9 and 15-17) are network I/O. A repository listing is an input `seq<Repo>`, and a README outcome is an input `Fetched`.
- `Promise.all` (line 12) runs the fetches concurrently. Only the order of its results matters, and that is the listing order, so the model is sequential.
- Cheerio parsing (lines 20-29) is a foreign library. Its outputs are inputs: the text of `#tjidtitle`, the text of `#tjidtechs` and the texts of the `#tjidlinks li` items.
- `console.error` (line 41) is logging only.
- The React state hook and the JSX rendering (lines 59 and 87 onward) are not modelled. The selection is a value that `Toggle` maps to its successor.
- The rendering of `links.map` on the failure path, where `links` is a string, is left out with the rest of the JSX.
- `localeCompare` collation is locale data. It is the parameter `le`.
- JsString.LowerChar, JsString.ToLower: only ASCII letters are lowered. The full Unicode case mapping of `toLowerCase` is not modelled.
- Strings are sequences of Unicode scalar values, so UTF-16 lone surrogates cannot be represented.
- Home.TechCounts: a plain JavaScript object answers the key `__proto__` specially. The model uses a map, which has no such key.
- `otherProjects` compares records by object identity. The model compares them by value. `OtherAreUnmatched` shows that both pick the same projects, because a project that equals a filtered one matches the selection too.
- Home.OtherProjects: with nothing selected, `projects.sort(...)` sorts the props array itself in place, so every later render builds `techSet` from the title-sorted list. Technologies whose names differ only in case can then swap places among the filter buttons after the first render. The model sorts a copy and keeps the listing order for later renders. The filtered and other lists are not affected.
- `next.config.mjs` is configuration only and is not part of this model.

Two behaviours of the code that are easy to miss:

- A repository without a README does not take the exception path. The 404 page is still text, so the record gets technologies `[""]`, not `[]` (`ReadmeWithoutElements`).
- The selection is a list, not a set. Toggling an unselected technology twice restores it exactly (`ToggleAbsentTwice`). Toggling a selected one twice restores only its members and the two project lists (`ToggleTwiceSameMembers`, `ToggleTwiceSameViews`), and moves the technology to the end of the list (`ToggleSelectedTwice`, with the instance `ToggleTwiceCanReorder`).

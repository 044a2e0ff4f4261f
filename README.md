# Documentation hub: the document tree and its editing logic, in Dafny

This project models the logic of a small documentation portal. Projects are
stored as JSON documents, each holding a flat list of pages; a page names its
parent page by title. The portal turns that list into a forest of pages with
URL slugs and `/`-joined paths, looks pages up by path segments and lists them
in pre-order for previous/next navigation. Around that core sit a project
listing with a search and type filter, a project form (tags box, per-page
reference list, image markdown after an upload) and server actions that list,
summarise, save and upload.

Modules, one per concern:

- `Wrappers` (`wrappers.dfy`): `Option`.
- `Lists` (`lists.dfy`): order-preserving selection (`Subsequence`).
- `Text` (`text.dfy`): the JavaScript string operations the code relies on
  (`toLowerCase`, `trim`, `includes`, `endsWith`, `replace` with a string
  pattern, `split` on one character, `join`), over ASCII character classes.
- `DocTypes` (`doc_types.dfy`): the records of `lib/docs.ts`.
- `Slug` (`slug.dfy`): `slugify`.
- `SlugExamples` (`slug_examples.dfy`): two titles taken through `slugify` one stage at a time.
- `DocTree` (`doc_tree.dfy`): `buildDocTree`, `findNodeByPath`, `flattenTree`.
  The title index is a map from titles to entries whose children are titles;
  since every node reference the link pass pushes is "the node indexed under
  this title", this is exact, duplicates included. The index and link passes
  are loops over the pages; the path pass is a recursion with a loop over the
  children that grows `DocNode` values, and its termination rests on the chain
  of ancestors never repeating a title.
- `ProjectFilter` (`project_filter.dfy`): the listing's filter and "Clear Filters".
- `DocForm` (`doc_form.dfy`): the tags box as a class with its state and event
  handlers, the reference-list edits and the image markdown.
- `Actions` (`actions.dfy`): the pure parts of the server actions. The file
  system is a parameter: the `readdir` result (`None` when it fails) and the
  parsed documents by file name. The clock is a `now` parameter; failures of
  `mkdir`, `writeFile` or the upload are parameters too.

Two behaviours of the code worth knowing:

- A child of a root whose slug is empty gets just its own slug as path, not
  `"/" + slug`, because the code tests the parent path for truthiness
  (lib/docs.ts:94).
- With duplicate titles, the whole index is built before any linking. So every
  occurrence of a title links the node of its last record; no earlier record's
  node survives as a child (lib/docs.ts:71-90).

## Model

| member | source | states |
|---|---|---|
| Text.ToLower | lib/docs.ts:53 | each character is lower-cased on its own, length kept |
| Text.ToLowerIdempotent | lib/docs.ts:53 | lower-casing twice is lower-casing once |
| Text.Trim | lib/docs.ts:54 | the result neither starts nor ends with whitespace, holds only characters of the input, and already trimmed text is unchanged |
| Text.TrimSlice | lib/docs.ts:54 | the trimmed text is one contiguous slice of the input, and everything before and after that slice is whitespace |
| Text.TrimBlank | components/doc-form.tsx:145-148 | trimming gives the empty string exactly when the text is all whitespace |
| Text.IndexOf | app/actions.ts:17 | the first offset where the pattern occurs, or -1 when it occurs nowhere |
| Text.ReplaceFirst | app/actions.ts:17 | only the first occurrence of the pattern is replaced; no occurrence leaves the text unchanged |
| Text.Split | components/doc-form.tsx:154 | there is always at least one piece and no piece holds the separator |
| Text.JoinSplit | components/doc-form.tsx:154 | joining the pieces back with the separator gives the input |
| Text.SplitJoin | components/doc-form.tsx:154-155 | splitting undoes joining when no piece holds the separator |
| Slug.Slugify | lib/docs.ts:50-58 | the slug holds only `[a-z0-9_-]`, no whitespace, no upper case and never two hyphens in a row |
| Slug.HyphenateSpacesShape | lib/docs.ts:55 | hyphenation leaves no whitespace and adds only hyphens |
| Slug.HyphenateSpacesAppend | lib/docs.ts:55 | hyphenation works piecewise when the cut does not split a whitespace run |
| Slug.RemoveNonWordShape | lib/docs.ts:56 | what survives are word characters and hyphens of the input |
| Slug.RemoveNonWordAppend | lib/docs.ts:56 | the removal works piecewise |
| Slug.CollapseHyphensShape | lib/docs.ts:57 | collapsing leaves no double hyphen, adds no character and keeps the first character |
| Slug.SlugifyFixesSlugs | lib/docs.ts:50-58 | a slug is its own slug |
| Slug.SlugifyIdempotent | lib/docs.ts:50-58 | `slugify(slugify(s)) == slugify(s)` |
| SlugExamples.SlugifyHello | lib/docs.ts:50-58 | `"  Hello, World!! "` slugs to `"hello-world"` |
| SlugExamples.SlugifyRust | lib/docs.ts:50-58 | `"C++ & Rust"` slugs to `"c-rust"` |
| DocTree.IndexedPage | lib/docs.ts:74 | the page the index keeps for a title is a page with that title |
| DocTree.IndexPages | lib/docs.ts:71-80 | the index has exactly the titles of the pages, each with a fresh entry (no children, path = slug) for the page it keeps |
| DocTree.IndexedPageIsLast | lib/docs.ts:71-80 | a page with no later page of the same title is the one the index keeps for that title, so with duplicates the last one wins |
| DocTree.LinkPages | lib/docs.ts:83-90 | the index entries are left as they were except for their children, which become the titles of their child pages in input order; the roots are the titles of the root pages in input order |
| DocTree.PlacedStep | lib/docs.ts:83-90 | visiting one more page extends exactly the list that page goes to, by its title |
| DocTree.LinkChild | lib/docs.ts:85-86 | pushing a page onto its indexed parent's children keeps every entry's children equal to the titles placed under it so far |
| DocTree.LinkRoot | lib/docs.ts:85-88 | a page without a non-empty indexed parent leaves every entry's children as they were |
| DocTree.PlacedMember | lib/docs.ts:85-89 | every title in a list comes from a page that the link pass sends to that list |
| DocTree.PlacedExactlyOnce | lib/docs.ts:83-90 | with distinct titles, each page's title occurs once in the list it belongs to (its parent's children when the parent is non-empty and a title, else the roots) and in no other list |
| DocTree.PlacedAt | lib/docs.ts:84-89 | every page, duplicates included, is pushed into its list at its own position |
| DocTree.SiblingOrder | lib/docs.ts:83-90 | of two pages in the same list, the earlier page comes first |
| DocTree.ChildExtendsChain | lib/docs.ts:93-96 | with distinct titles a child is never one of its own ancestors, so the path recursion terminates |
| DocTree.UpdatePaths | lib/docs.ts:93-96 | the node is the page of its title, its path is its slug under the parent's path (or the slug alone under an empty path), and its children are grown the same way, in order |
| DocTree.BuildDocTree | lib/docs.ts:66-101 | the roots are the root pages in input order, each grown with its slug as its path |
| DocTree.FindBySlug | lib/docs.ts:111 | the first node whose slug matches, or none when no node matches |
| DocTree.Lookup | lib/docs.ts:103-117 | no segments find nothing, and a found node's slug is the last segment |
| DocTree.FindNodeByPath | lib/docs.ts:103-117 | the loop returns what the level-by-level lookup finds |
| DocTree.LookupPath | lib/docs.ts:94-115 | in a forest whose paths are stamped under a parent path, a node found by segments that are all non-empty has the segments, joined by `/`, under that parent path as its path |
| DocTree.LookupPathFromRoots | lib/docs.ts:93-117 | in the built forest a node found by segments that are all non-empty has exactly those segments joined by `/` as its path |
| DocTree.LookupListed | lib/docs.ts:103-128 | a node the lookup returns is one the flattening lists |
| DocTree.LookupMissing | lib/docs.ts:110-112 | a segment that matches no slug at its level gives not-found, whatever follows it: the first among the forest's nodes, a later one among the children of the node the earlier segments lead to |
| DocTree.LookupFindsPresent | lib/docs.ts:103-117 | with distinct sibling slugs, the slugs along any path of picks from level to level find exactly the node that path ends at |
| DocTree.ListedHasIndexPath | lib/docs.ts:119-128 | every node the flattening lists is reached by picking one node per level, from the roots down |
| DocTree.ListedFound | lib/docs.ts:103-128 | with distinct sibling slugs, every node the flattening lists is what the lookup returns for some list of segments |
| DocTree.PreorderTitles | lib/docs.ts:119-128 | in the listing of a built forest a title occurs once per time it is one of the forest's titles plus once per listed node that has it as a child |
| DocTree.KidsCount | lib/docs.ts:83-90 | with distinct titles a page is a child title of a list of nodes as often as its parent is among them, and never when it is a root |
| DocTree.ListedCount | lib/docs.ts:119-128 | with distinct titles the flattened forest lists a root page once and any other page as often as its parent |
| DocTree.ChildRooted | lib/docs.ts:85-86 | a child of a page reachable from the roots is reachable |
| DocTree.ListedRooted | lib/docs.ts:119-128 | with distinct titles every page the flattening lists is reachable from the roots |
| DocTree.ChainListedOnce | lib/docs.ts:119-128 | every page on a chain of parents from a root is listed exactly once |
| DocTree.ListedIffReachable | lib/docs.ts:66-128 | with distinct titles a page is listed once if it is reachable from the roots and not at all otherwise |
| DocTree.FlattenListsReachable | lib/docs.ts:66-128 | with distinct titles the flattened built forest lists exactly the reachable pages, each once |
| DocTree.FlattenCountsReachable | lib/docs.ts:66-128 | with distinct titles the flattened built forest is as long as the set of reachable pages |
| DocTree.PreorderConcat | lib/docs.ts:124 | flattening two forests one after the other lists the first, then the second |
| DocTree.FlattenTree | lib/docs.ts:119-128 | the loop yields the pre-order listing of the forest, so an empty forest gives an empty list |
| DocTree.PreorderFollows | lib/docs.ts:121-125 | in the listing every node is immediately followed by the listing of its children |
| DocTree.PreorderContains | lib/docs.ts:121-125 | every node of the forest and all of its subtree are listed |
| ProjectFilter.FilterProjects | components/project-list.tsx:43-54 | the result is a subsequence of the projects, keeps only projects whose search and type both match, and keeps every such project as often as it occurs |
| ProjectFilter.ClearFilters | components/project-list.tsx:122 | the reset sets an empty search and no type |
| ProjectFilter.EmptySearchMatches | components/project-list.tsx:45-49 | the empty search matches every project |
| ProjectFilter.ClearedFiltersKeepAll | components/project-list.tsx:122 | with cleared filters every project is listed, in order |
| ProjectFilter.FilterTwice | components/project-list.tsx:44 | filtering by two filters in turn keeps what both keep |
| ProjectFilter.TypeSelectionNarrows | components/project-list.tsx:51-52 | selecting a type only removes projects: the result is the search result restricted to that exact type |
| ProjectFilter.SearchIgnoresCase | components/project-list.tsx:45-49 | a search term and its lower-case form keep the same projects |
| DocForm.CleanTags | components/doc-form.tsx:154 | at most one tag per piece, and each kept tag is non-empty and trimmed |
| DocForm.CleanTagsSelects | components/doc-form.tsx:154 | the tags are the trimmed pieces in order, with the empty ones dropped and every non-empty one kept as often as it occurs |
| DocForm.CleanTagsChars | components/doc-form.tsx:154 | every character of a kept tag comes from one of the pieces |
| DocForm.ParseTags | components/doc-form.tsx:154 | every parsed tag is non-empty, has no comma and no whitespace at either end |
| DocForm.ParseTagsSelects | components/doc-form.tsx:154 | the parsed tags are the comma-separated pieces of the text, trimmed, in order, with the empty ones dropped and every non-empty one kept as often as it occurs |
| DocForm.TagsEditor.constructor | components/doc-form.tsx:47 | the box starts with the initial tags joined by `", "` (empty without tags) and no error |
| DocForm.TagsEditor.OnChange | components/doc-form.tsx:140-143 | typing sets the text and clears the error, the field is untouched |
| DocForm.TagsEditor.OnBlur | components/doc-form.tsx:144-158 | a trimmed non-empty text without a comma sets the error and changes nothing else; otherwise the field takes the parsed tags, the box shows them joined by `", "` and the error is cleared |
| DocForm.BlankTagsParseEmpty | components/doc-form.tsx:145-154 | blank text is accepted and yields no tags |
| DocForm.JoinEnds | components/doc-form.tsx:155 | joined tags start with the first tag's first character and end with the last tag's last character |
| DocForm.JoinedTagsParse | components/doc-form.tsx:154-155 | splitting the `", "`-joined tags on `,` and cleaning the pieces gives the tags back |
| DocForm.SingleTagParse | components/doc-form.tsx:154 | a single tag, with or without a blank before it, splits and cleans to itself |
| DocForm.JoinedTagsStep | components/doc-form.tsx:154-155 | the first tag splits off the joined text, so when the rest, after its blank, parses back, the whole does |
| DocForm.RenderedTagsStable | components/doc-form.tsx:145-157 | shown tags, unless there is exactly one, pass the next blur and parse back to themselves |
| DocForm.SingleTagRejected | components/doc-form.tsx:148-155 | a single accepted tag is shown without a comma, so the next blur rejects it |
| DocForm.SetReferenceUrl | components/doc-form.tsx:234-237 | only the url of the edited entry changes; length and all other entries are kept |
| DocForm.SetReferencePlaceholder | components/doc-form.tsx:244-247 | only the placeholder of the edited entry changes; length and all other entries are kept |
| DocForm.ReferenceEditsCommute | components/doc-form.tsx:234-247 | editing url and placeholder in either order gives the same list |
| DocForm.RemoveReference | components/doc-form.tsx:258 | exactly the entry at the index is dropped and the others keep their order; an absent list stays absent |
| DocForm.RemoveLosesOne | components/doc-form.tsx:258 | the removed entry is the only one lost |
| DocForm.AddReference | components/doc-form.tsx:271 | a blank reference is appended after the existing ones; an absent list counts as empty |
| DocForm.AddThenRemove | components/doc-form.tsx:258-271 | removing the reference just added gives the list back |
| DocForm.ContentAfterUpload | components/doc-form.tsx:311-326 | with a file and a url the current text stays a prefix and the image markdown is appended; without a file or after a failed upload the text is unchanged |
| DocForm.UploadsAppendInOrder | components/doc-form.tsx:319-323 | two successful uploads append their images in upload order |
| Actions.JsonFiles | app/actions.ts:16 | exactly the names ending in `.json` are kept, in listing order |
| Actions.SlugsAsWritten | app/actions.ts:17 | each file name maps to its name with the first `.json` removed |
| Actions.SlugOfFile | app/actions.ts:17 | the slug followed by `.json` is the file name |
| Actions.SlugsOfFiles | app/actions.ts:17 | each slug followed by `.json` is its file name |
| Actions.ProjectSlugsAsWritten | app/actions.ts:12-22 | a failed directory listing gives no slugs; otherwise one slug per `.json` name, in listing order, each the name with its first `.json` removed |
| Actions.ProjectSlugs | app/actions.ts:12-22 | a failed listing gives no slugs; otherwise one slug per `.json` file, which names back that file |
| Actions.LoadProject | app/actions.ts:46-55 | the document stored under the slug plus `.json`, or nothing when there is none |
| Actions.SlugAsWrittenOfPlainName | app/actions.ts:17 | a name without `.` loses exactly its appended `.json` |
| Actions.ListingsAgreeOnPlainNames | app/actions.ts:15-17 | when no slug part holds a `.`, the listing as written equals the corrected one |
| Actions.ListingAsWrittenLosesFile | app/actions.ts:15-28 | `a.jsonx.json` is listed as `ax.json`, which loads nothing; the corrected listing gives `a.jsonx`, which loads the document |
| Actions.Unslug | app/actions.ts:33 | every `-` and `_` becomes a space, all else is kept |
| Actions.Summarize | app/actions.ts:31-37 | the slug is kept; each of title, description and type is the metadata value when present and non-empty, otherwise the slug with `-` and `_` turned to spaces, `Documentation for ` + slug, and `General`; the tags are the metadata tags when present, otherwise `[]` |
| Actions.Summaries | app/actions.ts:27-39 | the summaries follow slug order, each belongs to a slug that loads, and every slug that loads is summarised exactly as often as it is listed |
| Actions.AllProjectsMetadata | app/actions.ts:24-44 | a failed directory listing gives no summaries; the summaries follow the order of the slugs listed as written, each is the summary of the document stored under its slug, and every listed slug whose file exists is summarised exactly as often as it is listed |
| Actions.AllProjectsMetadataCorrected | app/actions.ts:24-44 | the same over the corrected listing, which removes the `.json` suffix, including that every listed slug whose file exists is summarised as often as it is listed |
| Actions.StoredProjectsListed | app/actions.ts:14-39 | with the corrected listing, every listed `.json` file holding a document appears in the summaries under its slug |
| Actions.StoredPlainProjectsListed | app/actions.ts:14-39 | as written, the same holds when no listed `.json` file has a `.` before its suffix |
| Actions.MetadataAsWrittenDropsFile | app/actions.ts:17-30 | as written, a stored `a.jsonx.json` is missing from the summaries, while the corrected listing summarises it as `a.jsonx` |
| Actions.SaveProject | app/actions.ts:58-92 | a failed `mkdir` fails with its message; otherwise a new project without a title fails with the title-required message, a failed write fails with its message, and else the save succeeds, under the current slug when there is one and the slug of the title otherwise; a failed save writes nothing, a successful one stores the document, and it loads back |
| Actions.SaveKeepsExistingSlug | app/actions.ts:67-87 | an existing project is saved under its current slug |
| Actions.SaveNeedsTitle | app/actions.ts:72-90 | a new project without a title fails with `Error: Title is required to generate slug` and nothing is written |
| Actions.NewProjectListedBack | app/actions.ts:72-75 | a new project with a title is saved under the slug of its title, and the listing, as written or corrected, lists it back under that slug |
| Actions.SafeName | app/actions.ts:113 | the safe name holds only ASCII letters, digits, `.` and `-`, keeps their order and every occurrence of them, and a name already safe is unchanged |
| Actions.Digit | app/actions.ts:114 | a digit character for each value below ten |
| Actions.DecimalString | app/actions.ts:114 | the time stamp is written with at least one decimal digit and nothing else, and with no leading zero unless it is zero |
| Actions.DecimalRoundTrip | app/actions.ts:114 | reading the digits back gives the time stamp |
| Actions.UploadImage | app/actions.ts:106-129 | no file gives `No file uploaded`, a failure gives `Upload failed`, otherwise the url is `/uploads/` + time stamp + `-` + safe name |
| Actions.UploadStaysInUploads | app/actions.ts:113-124 | the stored file name starts with a digit and holds no `/`, only digits, letters, `.` and `-` |

## Left out

- The file system, `JSON.parse`/`JSON.stringify`, `revalidatePath`, `Date.now`, `console.error` and the network round trip of the upload. Their results are parameters; a document is assumed to read back as it was written.
- The `Promise.all` fan-out in `getAllProjectsMetadata`, and its outer `catch`. The fan-out is modelled as a sequential map. Nothing inside the `try` can throw, so the `catch` is unreachable.
- React rendering, hooks and `react-hook-form` internals, the router, `alert` and the dialogs. The form's `onChange` of the reference list and of the notes are the function results.
- `deleteProject`, `components/docs-sidebar.tsx`, `components/project-actions.tsx`, `app/page.tsx`, `components/logo.tsx` and the page routes. They are not part of this model.
- Unicode: lower-casing, whitespace and `\w` cover ASCII only.
- JavaScript object-key quirks of the title index (titles such as `__proto__`). The index is a plain map.
- `toString()` in `slugify`. It is the identity on strings.
- DocTree.BuildDocTree: requires distinct titles. With a duplicated title, JavaScript shares one node object between several lists; its path is whatever was stamped last, and a cycle through duplicates never terminates. The index and link passes (`IndexPages`, `LinkPages`) carry no such requirement.
- DocTree.UpdatePaths: the path is written into a fresh node value rather than into the shared node object. With distinct titles no node is shared, so the forest is the same.
- DocTree.LookupPath and DocTree.LookupPathFromRoots: require every segment to be non-empty. Under a node whose path is empty (a root whose title slugs to the empty string), a child's path is its slug alone rather than `"/"` + slug, so there the path is not the plain `/`-join of the segments.
- Text.Trim: its own contract gives only the ends of the result and where its characters come from. That the result is the slice between leading and trailing whitespace is stated by `Text.TrimSlice`, kept apart because the proofs that unfold `Trim` would otherwise carry the extra quantifiers.
- DocForm.CleanTags: its own contract gives only the shape of each tag. The selection (trimmed pieces, in order, empty ones dropped, the rest kept) is stated by `DocForm.CleanTagsSelects`, for the same reason.
- DocForm.ParseTags: its own contract gives only the shape of each tag. The selection from the comma-separated pieces is stated by `DocForm.ParseTagsSelects`, for the same reason.
- DocTree.LookupFindsPresent and DocTree.ListedFound: require distinct sibling slugs. The lookup takes the first match at each level, so with a repeated slug a node behind a later sibling can be unreachable.
- DocForm.SetReferenceUrl and DocForm.SetReferencePlaceholder: require the index to be in range. The editors only exist for entries of the list, so the source never calls them otherwise.

## Findings

| source | as written | input that shows it | evidently intended | confidence | as-written member | corrected member |
|---|---|---|---|---|---|---|
| app/actions.ts:17 | `file.replace('.json', '')` removes the first `.json` anywhere in the name | a stored `a.jsonx.json` is listed as `ax.json`; `getProjectData` then reads `ax.json.json`, finds nothing, and `getAllProjectsMetadata` drops the project from the summaries | remove the `.json` suffix, so the slug names back its file and every stored project is summarised (`Actions.AllProjectsMetadataCorrected`, `Actions.StoredProjectsListed`) | not executed; high that the listing loses such files, low that such names occur, since the app's own slugs hold no `.` | Actions.MetadataAsWrittenDropsFile | Actions.ProjectSlugs |

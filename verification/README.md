# Portfolio and blog client: a Dafny model

This project models the client-side logic of a React portfolio and blog. The
model covers:

- the article detail page's code-block parser and its like and comment
  controls;
- the pagination of the article list, the category page, the admin table and
  the projects page;
- grouping and ordering of categories;
- search filters, technology badges and project image paths;
- the read-time estimate;
- the navbar's active item and logo scroll;
- the admin validators for categories and articles;
- the theme toggle and its persistence;
- the hero terminal and its typewriter.

Everything is modelled with immutable datatypes, pure functions and lemmas.

React state becomes a record. Hooks, timers and server answers become
explicit events fed to a `Step` function, and a `Run` folds a sequence of
events. HTTP requests, the browser and the animation libraries are outside
the model. What they deliver is an input: a loaded list, a server count, a
timer firing, the decoded size of an image.

Modules follow the source:

| module | file | models |
|---|---|---|
| `Common` | common.dfy | options, JavaScript string operations (`trim`, `split`, `join`, `includes`, ASCII case), `Math.ceil` division, `slice`, `filter` |
| `Entities` | entities.dfy | the article and project records |
| `CodeBlocks` | code_blocks.dfy | `parseCodeBlocks` of the detail page |
| `Engagement` | engagement.dfy | like toggle with optimistic update and rollback; comment posting |
| `ArticleCards` | article_cards.dfy | read time on card and detail page; card link |
| `Pagination` | pagination.dfy | the four page bars, navigation guards, page slices, "Showing" ranges, retry back-off |
| `Categories` | categories.dfy | category grouping, counts, stable sort by count, card contents |
| `ManageArticles` | manage_articles.dfy | the admin article table: page fetches, search, pages, the delete dialog and its requests |
| `Projects` | projects.dfy | project search and pages, results line, badges, image paths |
| `Services` | services.dfy | the two review rows |
| `Navigation` | navigation.dfy | active menu item, menu state, logo scroll target |
| `AdminForms` | admin_forms.dfy | category and article forms, image orientation, form data |
| `Theme` | theme.dfy | theme read, save, toggle and timers |
| `Typewriter` | typewriter.dfy | the typewriter span |
| `Terminal` | terminal.dfy | the hero terminal's cycle |

Five places where the code does something its authors evidently did not
intend are listed under "## Findings". Each has an as-written model, a
lemma exhibiting the input, and a corrected model with the intended
property proved. The rest of the model uses the corrected definitions.

One more timing behaviour is recorded but not claimed as a defect,
because the source gives no sign of what was intended.
`Theme.QuickSecondPressRepeats` shows that `toggleTheme` reads the theme
that is not yet applied. Two presses within 200 ms therefore aim at the
same theme and switch it once.

## Model

| member | source | states |
|---|---|---|
| Common.JoinSplit | src/pages/Articles/ArticleCardDetail.tsx:110 | joining the pieces of `split(sep)` with `sep` gives the text back |
| Common.SplitJoin | src/pages/Articles/ArticleCardDetail.tsx:159 | splitting lines joined with `"\n"` gives the lines back when none holds a newline |
| Common.CeilDiv | src/pages/Admin/Management/ManageArticles.tsx:115 | `Math.ceil(a / b)` is the least `q` with `q*b >= a` |
| Common.KeepAppend | src/pages/Admin/Management/ManageArticles.tsx:110-112 | `filter` distributes over concatenation |
| CodeBlocks.Classify | src/pages/Articles/ArticleCardDetail.tsx:119-136 | no contract of its own: the filename marker wins over the language marker, which wins over the title marker; `CodeBlocks.BlankIsPlain` and `CodeBlocks.MarkerValueTrimmed` state what a marker yields |
| CodeBlocks.Step | src/pages/Articles/ArticleCardDetail.tsx:117-167 | no contract of its own: the forEach callback for one line; `CodeBlocks.ParseMatchesSegments` and `CodeBlocks.CutsAreSeparators` state what the callbacks produce together |
| CodeBlocks.Run | src/pages/Articles/ArticleCardDetail.tsx:117-181 | no contract of its own: the forEach over all lines; `CodeBlocks.ParseMatchesSegments` proves it equals the segment reference and `CodeBlocks.ParsePreservesCode` that no code line is lost |
| CodeBlocks.Fallback | src/pages/Articles/ArticleCardDetail.tsx:183-185 | no contract of its own: the single raw block; `CodeBlocks.ParseShape` states it is used iff every line is a marker |
| CodeBlocks.ParseCodeBlocks | src/pages/Articles/ArticleCardDetail.tsx:106-107 | the empty text gives no blocks, any other text gives at least one |
| CodeBlocks.BlankIsPlain | src/pages/Articles/ArticleCardDetail.tsx:119-136 | a blank line never matches a marker expression |
| CodeBlocks.MarkerValueTrimmed | src/pages/Articles/ArticleCardDetail.tsx:123-135 | metadata taken from a marker is trimmed |
| CodeBlocks.ParseMatchesSegments | src/pages/Articles/ArticleCardDetail.tsx:106-186 | the line-by-line parser equals the reference: segments between cut lines, language and filename of the last earlier markers, title of the segment's own marker, or the raw fallback block |
| CodeBlocks.FirstCutsAreCuts | src/pages/Articles/ArticleCardDetail.tsx:139-167 | every line that meets the cut rule for the block it lies in is dropped as a separator |
| CodeBlocks.CutsAreSeparators | src/pages/Articles/ArticleCardDetail.tsx:139-167 | a line is dropped as a separator exactly when it is the first line of its block that is blank, not a marker, not the last, preceded by some code of the block, and followed by a `//` or `/*` comment as the next non-blank line |
| CodeBlocks.SegmentsEmptyIff | src/pages/Articles/ArticleCardDetail.tsx:171-185 | there are no blocks exactly when every line is a marker |
| CodeBlocks.ParseShape | src/pages/Articles/ArticleCardDetail.tsx:106-186 | a non-empty text gives at least one block; the raw `code.js` fallback happens iff every line is a marker |
| CodeBlocks.ParsePreservesCode | src/pages/Articles/ArticleCardDetail.tsx:119-181 | the blocks' lines in order are the input's non-marker lines minus the separators, and no block line is a marker |
| CodeBlocks.RenderRoundTrip | src/pages/Articles/ArticleCardDetail.tsx:158-159 | a block's code splits back into the lines it was joined from |
| Engagement.Step | src/pages/Articles/ArticleCardDetail.tsx:454-580 | no contract of its own: the like and comment handlers as one event function; `Engagement.ToggleLikeEffect`, `Engagement.FailureRollsBack`, `Engagement.SuccessAdoptsServerCount`, `Engagement.CommentOutcome` and `Engagement.CommentsAndLikesIndependent` state its behaviour |
| Engagement.ActionFor | src/pages/Articles/ArticleCardDetail.tsx:570-574 | the action is `unlike` exactly when the article is liked |
| Engagement.Optimistic | src/pages/Articles/ArticleCardDetail.tsx:476-485 | like sets `isLiked` and raises the count; unlike clears it and lowers the count no further than 0 |
| Engagement.OptimisticInverse | src/pages/Articles/ArticleCardDetail.tsx:478-485 | unlike undoes like; like undoes unlike exactly when the count was at least 1 |
| Engagement.LikeFailedMessage | src/pages/Articles/ArticleCardDetail.tsx:497-500 | the error shown is never empty and is the request's own message when there is one |
| Engagement.ToggleLikeEffect | src/pages/Articles/ArticleCardDetail.tsx:470-489 | a press while a request is pending does nothing; otherwise it flips `isLiked`, moves the count one step and saves the snapshot |
| Engagement.PendingIsStable | src/pages/Articles/ArticleCardDetail.tsx:570-572 | unrelated events leave a pending like untouched |
| Engagement.FailureRollsBack | src/pages/Articles/ArticleCardDetail.tsx:491-503 | a failed like restores `isLiked` and the count exactly to the snapshot, whatever came between |
| Engagement.SuccessAdoptsServerCount | src/pages/Articles/ArticleCardDetail.tsx:505-506 | a successful like adopts the server's count and keeps the optimistic `isLiked` |
| Engagement.CountStaysNonNegative | src/pages/Articles/ArticleCardDetail.tsx:478-506 | with non-negative server counts the shown count never goes below zero |
| Engagement.CommentsAndLikesIndependent | src/pages/Articles/ArticleCardDetail.tsx:540-548 | comment events never change the like fields, and like events never change the comment box |
| Engagement.CommentRequest | src/pages/Articles/ArticleCardDetail.tsx:576-580 | a comment is sent iff its trimmed text is non-empty, untrimmed and as "Guest User" |
| Engagement.CommentOutcome | src/pages/Articles/ArticleCardDetail.tsx:540-548 | only a successful post clears the comment box; a failure keeps it and shows the error |
| ArticleCards.Words | src/pages/Articles/ArticleCard.tsx:45-46 | `split(" ")` always yields at least one word |
| ArticleCards.WordsAreSpacesPlusOne | src/pages/Articles/ArticleCard.tsx:45-46 | the word count is the number of spaces plus one |
| ArticleCards.CardReadTime | src/pages/Articles/ArticleCard.tsx:43-49 | the minutes are the least whole number covering the words at 200 a minute, never below 1 |
| ArticleCards.CardReadTimeMonotone | src/pages/Articles/ArticleCard.tsx:43-49 | adding text to either field never lowers the estimate |
| ArticleCards.DetailReadTime | src/pages/Articles/ArticleCardDetail.tsx:616-622 | the detail page reports zero minutes exactly when the description is empty |
| ArticleCards.DetailAgreesWithCard | src/pages/Articles/ArticleCardDetail.tsx:616-622 | with a description and code the detail page gives the card's estimate |
| ArticleCards.DetailLink | src/pages/Articles/ArticleCard.tsx:62 | the link is the detail prefix followed by the slug |
| ArticleCards.DetailLinkInjective | src/pages/Articles/ArticleCard.tsx:62 | different slugs give different links |
| Pagination.PageBar | src/pages/Articles/Articles.tsx:104-176 | no bar for at most one page; otherwise it starts at page 1 and ends at the last page |
| Pagination.PageBarPages | src/pages/Articles/Articles.tsx:108-147 | the pages with buttons are exactly 1, T and `max(2,p-1)..min(T-1,p+1)` |
| Pagination.PageBarAscending | src/pages/Articles/Articles.tsx:112-174 | button numbers strictly increase, so no page has two buttons |
| Pagination.PageBarDots | src/pages/Articles/Articles.tsx:123-161 | a leading ellipsis iff `startPage > 2`, a trailing one iff `endPage < T-1`, no others |
| Pagination.PageBarCurrentOnce | src/pages/Articles/ArticleCategory.tsx:126-199 | for a page in range its button appears exactly once |
| Pagination.Navigate | src/pages/Articles/Articles.tsx:82-101 | previous moves iff `p > 1`, next iff `p < T`, a click is taken iff in range; a page in range stays in range |
| Pagination.PreviousNextInverse | src/pages/Articles/ArticleCategory.tsx:104-116 | previous undoes next and next undoes previous away from the ends |
| Pagination.ButtonClick | src/pages/Articles/Articles.tsx:446-447 | a label that is not a usable number leads to page 1, and no click leaves the range |
| Pagination.ResetBeyondLast | src/pages/Articles/Articles.tsx:75-79 | the page changes only to 1, and only when it lies beyond a known last page |
| Pagination.ListStepInRange | src/pages/Articles/ArticleCategory.tsx:88-123 | every event keeps the page in range, and a category change shows page 1 |
| Pagination.ListRunInRange | src/pages/Articles/ArticleCategory.tsx:88-123 | no sequence of loads, clicks and category changes leaves the range |
| Pagination.RetryDelay | src/pages/Articles/Articles.tsx:62 | the delay lies between one and thirty seconds |
| Pagination.RetryDelayGrows | src/pages/Articles/Articlecategorylist.tsx:74-75 | the delay never shrinks from one attempt to the next and is capped from the fifth on |
| Pagination.PageSlice | src/pages/Admin/Management/ManageArticles.tsx:115-119 | the page is never longer than the list; `Pagination.PageSliceOfValidPage`, `Pagination.PageSliceBeyondLast` and `Pagination.PagesCoverItems` state which items it holds |
| Pagination.SafePageNumber | src/pages/Articles/Articles.tsx:446-447 | no contract of its own: `Pagination.ButtonClick` states that an unusable label leads to page 1 |
| Pagination.ListStep | src/pages/Articles/ArticleCategory.tsx:88-123 | no contract of its own: `Pagination.ListStepInRange` and `Pagination.ListRunInRange` state that it keeps the page in range and that a category change shows page 1 |
| Pagination.ProjectCells | src/pages/projects/ProjectsPage.tsx:306-326 | one cell per page, each the button or ellipsis decision for that page; `Pagination.ProjectCellsKeepEnds` and `Pagination.ProjectBarIsPageBar` state what the bar shows |
| Pagination.PageSliceOfValidPage | src/pages/Admin/Management/ManageArticles.tsx:115-119 | a valid page holds 1 to `size` items, the run starting at `(p-1)*size` |
| Pagination.PageSliceBeyondLast | src/pages/Admin/Management/ManageArticles.tsx:116-119 | a page beyond the last is empty |
| Pagination.PagesCoverItems | src/pages/projects/ProjectsPage.tsx:134-137 | reading every page in turn shows every item once, in order |
| Pagination.SerialIsPosition | src/pages/Admin/Management/ManageArticles.tsx:245 | a row's serial number is its position in the whole filtered list |
| Pagination.ShowingMatchesSlice | src/pages/Admin/Management/ManageArticles.tsx:291-296 | on a valid page the "Showing" range names exactly the rows on it |
| Pagination.RangesTile | src/pages/Articles/Articles.tsx:191-192 | consecutive pages' ranges abut, starting at 1 and ending at n |
| Pagination.ClampPage | src/pages/Admin/Management/ManageArticles.tsx:121-123 | the result is in `1..T` and equals the request iff that is in range; 0 when there are no pages |
| Pagination.ClampPageIdempotent | src/pages/Admin/Management/ManageArticles.tsx:121-123 | clamping twice is clamping once |
| Pagination.ManageWindow | src/pages/Admin/Management/ManageArticles.tsx:309-320 | `min(5,T)` consecutive pages inside `1..T` that contain the current page |
| Pagination.ManageWindowCentred | src/pages/Admin/Management/ManageArticles.tsx:309-320 | away from the ends the current page is the middle button |
| Pagination.ProjectCellsKeepEnds | src/pages/projects/ProjectsPage.tsx:306-326 | an ellipsis never replaces page 1, page T or the current page |
| Pagination.ProjectBarIsPageBar | src/pages/projects/ProjectsPage.tsx:306-326 | the projects page draws exactly the article list's bar |
| Categories.ColorIndex | src/pages/Articles/Articlecategorylist.tsx:148-150 | the colour scheme index names one of the six schemes |
| Categories.Grouped | src/pages/Articles/Articlecategorylist.tsx:88-98 | no contract of its own: `Categories.GroupedMatches` proves it equals the reference grouping by `Categories.Names` and `Categories.InCategory` |
| Categories.SortByCount | src/pages/Articles/Articlecategorylist.tsx:162 | the result is a permutation of the input; `Categories.SortByCountOrdered` states the order and the tie rule |
| Categories.CategoryList | src/pages/Articles/Articlecategorylist.tsx:146-162 | no contract of its own: `Categories.CategoryListOrdered` states that it is a permutation of the groups, by descending count, ties in first-appearance order |
| Categories.Names | src/pages/Articles/Articlecategorylist.tsx:91-97 | category names are distinct and cover every article's category |
| Categories.InCategoryMembers | src/pages/Articles/Articlecategorylist.tsx:91-97 | a group holds exactly the articles of its category |
| Categories.GroupedMatches | src/pages/Articles/Articlecategorylist.tsx:88-98 | grouping gives one group per name in first-appearance order, holding that category's articles in order |
| Categories.ArticleInOneGroup | src/pages/Articles/Articlecategorylist.tsx:91-97 | every article is in a group, and only in the group of its own category |
| Categories.CountsSumToTotal | src/pages/Articles/Articlecategorylist.tsx:153-166 | the group counts add up to the number of articles |
| Categories.SortByCountOrdered | src/pages/Articles/Articlecategorylist.tsx:162 | the insertion sort orders by count with ties in position order |
| Categories.CategoryListOrdered | src/pages/Articles/Articlecategorylist.tsx:146-162 | the list is a permutation of the groups, counts non-increasing, ties in first-appearance order |
| Categories.FormatCategoryName | src/pages/Articles/Articlecategorylist.tsx:399-401 | first character upper case, the rest lower case, same length |
| Categories.FormatCategoryNameIdempotent | src/pages/Articles/ArticleCategory.tsx:209-211 | formatting a formatted name changes nothing |
| Categories.CardFor | src/pages/Articles/Articlecategorylist.tsx:471-509 | the card previews the first `min(3, count)` titles and only the first card is popular |
| ManageArticles.Filtered | src/pages/Admin/Management/ManageArticles.tsx:110-112 | never longer than the rows; `ManageArticles.FilteredSpec` states it keeps exactly the matching rows in order |
| ManageArticles.Remove | src/pages/Admin/Management/ManageArticles.tsx:79 | never longer than the rows; `ManageArticles.RemoveSpec` states it removes exactly the rows with that id |
| ManageArticles.Showing | src/pages/Admin/Management/ManageArticles.tsx:291-296 | no contract of its own: `Pagination.ShowingMatchesSlice` and `ManageArticles.FixedShowingIsAccurate` state when it names the rows on screen, `ManageArticles.DeleteStrandsPage` when it does not |
| ManageArticles.Step | src/pages/Admin/Management/ManageArticles.tsx:34-123 | no contract of its own: the table as written; `ManageArticles.ControlsKeepPageValid`, `ManageArticles.SmallLoadsKeepPageOne`, `ManageArticles.ConfirmUsesClickTimeRows` and `ManageArticles.AnswerInstallsCaptured` state its behaviour |
| ManageArticles.FixedStep | src/pages/Admin/Management/ManageArticles.tsx:34-123 | no contract of its own: the corrected table; `ManageArticles.FixedRunKeepsPageValid`, `ManageArticles.FullListReachesEveryArticle` and `ManageArticles.FixedDeletedStaysGone` state its behaviour |
| ManageArticles.FilteredSpec | src/pages/Admin/Management/ManageArticles.tsx:110-112 | the filter keeps exactly the rows whose lower-cased title contains the lower-cased search, in order |
| ManageArticles.EmptySearchKeepsAll | src/pages/Admin/Management/ManageArticles.tsx:110-112 | an empty search keeps every row |
| ManageArticles.RemoveSpec | src/pages/Admin/Management/ManageArticles.tsx:79 | deletion removes exactly the rows with that id and keeps the others in order |
| ManageArticles.RemoveCommutesWithSearch | src/pages/Admin/Management/ManageArticles.tsx:78-112 | deleting and then searching equals searching and then deleting |
| ManageArticles.SearchResetsPage | src/pages/Admin/Management/ManageArticles.tsx:147-150 | editing the search shows page 1 of the new filter |
| ManageArticles.ClickControlSpec | src/pages/Admin/Management/ManageArticles.tsx:298-345 | every pagination control leads to a page in `1..T`; previous and next move one page within it |
| ManageArticles.ControlsKeepPageValid | src/pages/Admin/Management/ManageArticles.tsx:121-150 | searching, paging, and opening, confirming or dismissing the delete dialog keep the page valid |
| ManageArticles.Resettle | src/pages/Admin/Management/ManageArticles.tsx:121-123 | the corrected re-clamp yields a valid page and leaves a valid page alone |
| ManageArticles.SmallLoadsKeepPageOne | src/pages/Admin/Management/ManageArticles.tsx:34-57 | as written, while every load holds at most ten rows, the table stays on page 1 and only page 1 is ever fetched |
| ManageArticles.OnlyFirstServerPageListed | src/pages/Admin/Management/ManageArticles.tsx:34-57 | as written, against a server that answers each fetch with the requested page, every row the table holds is one of the server's first ten |
| ManageArticles.EleventhArticleNeverListed | src/pages/Admin/Management/ManageArticles.tsx:34-57 | as written, the server's eleventh article never reaches the table, whatever the admin clicks |
| ManageArticles.FullListReachesEveryArticle | src/pages/Admin/Management/ManageArticles.tsx:110-123 | corrected, with the whole list loaded once, `i / 10` presses of Next show the page holding the `i`-th article |
| ManageArticles.ClickCaptures | src/pages/Admin/Management/ManageArticles.tsx:59-79 | clicking Delete on a row of the page opens the dialog and captures that render's rows |
| ManageArticles.ConfirmUsesClickTimeRows | src/pages/Admin/Management/ManageArticles.tsx:59-79 | confirming sends the request with the rows captured at the click, even if a load arrived while the dialog was open |
| ManageArticles.AnswerInstallsCaptured | src/pages/Admin/Management/ManageArticles.tsx:78-79 | as written, a successful answer installs the captured rows without the id and leaves the page alone |
| ManageArticles.DeleteStrandsPage | src/pages/Admin/Management/ManageArticles.tsx:78-80 | as written, when the table holds eleven rows, deleting the only row of page 2 leaves page 2 of 1, an empty table and "Showing 11 to 10 of 10" |
| ManageArticles.FixedRunKeepsPageValid | src/pages/Admin/Management/ManageArticles.tsx:121-123 | with the re-clamp, every run keeps the page valid |
| ManageArticles.FixedShowingIsAccurate | src/pages/Admin/Management/ManageArticles.tsx:291-296 | with the re-clamp, the "Showing" line always names the rows on screen |
| ManageArticles.OverlappingDeletesResurrect | src/pages/Admin/Management/ManageArticles.tsx:70-80 | as written, two overlapping deletes bring the first deleted row back |
| ManageArticles.FixedDeletedStaysGone | src/pages/Admin/Management/ManageArticles.tsx:78-80 | removing from the current rows keeps a deleted row gone until the next load |
| Projects.Search | src/pages/projects/ProjectsPage.tsx:117-126 | never longer than the list; `Projects.SearchSpec` states it keeps exactly the matching projects in order |
| Projects.Step | src/pages/projects/ProjectsPage.tsx:129-157 | no contract of its own: `Projects.StepSpec` and `Projects.StepKeepsPageValid` state its behaviour |
| Projects.ResultsLine | src/pages/projects/ProjectsPage.tsx:252-255 | no contract of its own: `Projects.ResultsLineMatchesShown` states that it names exactly the projects shown |
| Projects.SearchSpec | src/pages/projects/ProjectsPage.tsx:117-126 | a project is kept iff its title, description or some technology contains the query ignoring case, in order |
| Projects.EmptyQueryKeepsAll | src/pages/projects/ProjectsPage.tsx:117-126 | an empty query keeps every project |
| Projects.LongerQueryNarrows | src/pages/projects/ProjectsPage.tsx:117-126 | extending the query never adds results |
| Projects.StepSpec | src/pages/projects/ProjectsPage.tsx:129-157 | next moves iff `p < T`, previous iff `p > 1`, a query edit goes to page 1 |
| Projects.StepKeepsPageValid | src/pages/projects/ProjectsPage.tsx:140-157 | the arrows and the buttons on screen keep the page valid |
| Projects.RunKeepsPageValid | src/pages/projects/ProjectsPage.tsx:129-157 | every run of possible events keeps the page valid and a non-empty result shows 1 to 6 projects |
| Projects.ResultsLineMatchesShown | src/pages/projects/ProjectsPage.tsx:252-255 | the results line names exactly the projects shown, and reads "1-0 of 0" when none match |
| Projects.TechnologyBadges | src/components/Projects/ProjectCard.tsx:84-129 | the first `min(limit, n)` technologies in order, and a "+k" badge iff `n > limit` with shown plus k equal to n |
| Projects.BadgesAccountForModal | src/components/Projects/ProjectModal.tsx:65-107 | the card's badges are the start of the modal's full list and, with "+k", account for all of it |
| Projects.BadgeLimitsNest | src/pages/projects/ProjectsPage.tsx:55-70 | the card's three badges are the start of the grid's four |
| Projects.ImageUrl | src/components/Projects/ProjectCard.tsx:13-15 | an `http` image is kept; any other becomes `/works/` and its last `/`-segment, which holds no `/` |
| Projects.ImageUrlKeepsFileName | src/components/Projects/ProjectModal.tsx:16-18 | a path in any directory maps to `/works/` and its file name |
| Projects.ImageUrlIdempotent | src/components/Projects/ProjectCard.tsx:13-15 | rewriting a rewritten path changes nothing |
| Services.SplitRows | src/components/Services/Services.tsx:95-96 | no contract of its own: `Services.SplitRowsSpec` states the two rows concatenate to the reviews and the first holds `ceil(n/2)` |
| Services.SplitRowsSpec | src/components/Services/Services.tsx:95-96 | the rows concatenate to the reviews, the first has `ceil(n/2)`, they differ by at most one |
| Navigation.ActiveItem | src/components/Navbar/Navbar.tsx:133-142 | the item is always home, projects or articles; projects iff the path starts with `/projects`, articles iff `/articles` |
| Navigation.MenuItemsHighlightThemselves | src/components/Navbar/Navbar.tsx:11-34 | every menu item's own path highlights that item, and every path highlights some item |
| Navigation.SectionPathsHighlightSection | src/components/Navbar/Navbar.tsx:133-142 | every path under a section highlights that section |
| Navigation.Step | src/components/Navbar/Navbar.tsx:146-167 | `scrolled` iff `scrollY > 20`; the toggle flips the menu; navigating closes it |
| Navigation.ToggleTwiceRestores | src/components/Navbar/Navbar.tsx:161-167 | two toggles restore the menu |
| Navigation.LogoTarget | src/components/Navbar/Navbar.tsx:169-195 | the logo scrolls either to the top or to `scrollHeight` |
| Navigation.LogoLandsFarther | src/components/Navbar/Navbar.tsx:169-195 | the page comes to rest at the top or the bottom, and away from both ends at the one at least as far from the current offset as the other |
| Navigation.LogoGoesToFarEnd | src/components/Navbar/Navbar.tsx:175-194 | near the top it goes to the bottom, else near the bottom to the top, else to the further end |
| AdminForms.NamePatternIff | src/pages/Admin/AddNewItem/AddCategory.tsx:101-105 | `^[a-zA-Z0-9\s-]+$` matches exactly the non-empty strings of letters, digits, whitespace and hyphens |
| AdminForms.ValidateCategoryName | src/pages/Admin/AddNewItem/AddCategory.tsx:91-100 | empty gives "required", under 3 characters "too short", over 50 "too long" |
| AdminForms.CategoryNameAcceptedIff | src/pages/Admin/AddNewItem/AddCategory.tsx:91-106 | a name is accepted iff it has 3 to 50 characters, all allowed; the character error appears iff the length fits and some character is not allowed |
| AdminForms.BlankNameAccepted | src/pages/Admin/AddNewItem/AddCategory.tsx:101-105 | a name of three or more spaces passes every rule |
| AdminForms.SubmitCategory | src/pages/Admin/AddNewItem/AddCategory.tsx:24-129 | a request carrying the name is sent iff no request is out and the name is valid; while one is out nothing changes |
| AdminForms.CategoryAnswered | src/pages/Admin/AddNewItem/AddCategory.tsx:34-45 | only a success clears the input; loading ends in every case |
| AdminForms.CategoryRetry | src/pages/Admin/AddNewItem/AddCategory.tsx:24-45 | after a failure the same name can be sent again; after a success the form is empty |
| AdminForms.OrientationAccepted | src/pages/Admin/AddNewItem/AddArticles.tsx:62-108 | no contract of its own: `AdminForms.OrientationIsSideComparison` states it is "taller than wide" for the avatar and "wider than tall" for the cover |
| AdminForms.OrientationIsSideComparison | src/pages/Admin/AddNewItem/AddArticles.tsx:62-108 | the floating-point ratio test is "taller than wide" for the avatar and "wider than tall" for the cover; a square or undecodable image is refused |
| AdminForms.ChooseFile | src/pages/Admin/AddNewItem/AddArticles.tsx:110-158 | an accepted file becomes the preview and clears the error; a refused one sets the error, empties the input and keeps the preview |
| AdminForms.RemoveFile | src/pages/Admin/AddNewItem/AddArticles.tsx:160-174 | in the model, removing leaves the slot with no file, no preview and no error, as the handler intends |
| AdminForms.ArticleErrors | src/pages/Admin/AddNewItem/AddArticles.tsx:253-475 | no contract of its own: `AdminForms.ArticleFormAcceptedIff` states when the list is empty and that each field reports at most one error |
| AdminForms.FormData | src/pages/Admin/AddNewItem/AddArticles.tsx:181-192 | at least the four text entries; `AdminForms.FormDataRoundTrip` states what reading the body back gives |
| AdminForms.ArticleFormAcceptedIff | src/pages/Admin/AddNewItem/AddArticles.tsx:253-475 | the form submits iff category and code are filled, the title has at least 5 and the description 20 characters, and both images are present |
| AdminForms.RefusedFileBlocksSubmit | src/pages/Admin/AddNewItem/AddArticles.tsx:115-124 | in the model, where a refused file leaves its slot without a file, the form cannot submit after a refused file; removing returns the slot to empty |
| AdminForms.FormDataRoundTrip | src/pages/Admin/AddNewItem/AddArticles.tsx:181-192 | reading the body back gives every text field and exactly the images present |
| AdminForms.SubmitArticle | src/pages/Admin/AddNewItem/AddArticles.tsx:176-192 | a body is built iff no rule fails, and it then carries both images |
| AdminForms.ArticleAnswered | src/pages/Admin/AddNewItem/AddArticles.tsx:201-216 | a success empties the form and both previews; a failure changes nothing |
| Theme.Init | src/context/ThemeProvider.tsx:90-92 | the theme and the next theme are the stored one, with no animation and no pending timer |
| Theme.ReadTheme | src/context/ThemeProvider.tsx:61-71 | the stored theme is light iff storage holds exactly "light"; everything else gives dark |
| Theme.SaveTheme | src/context/ThemeProvider.tsx:74-80 | a save touches only the theme key and never makes storage appear or fail |
| Theme.SaveThenRead | src/context/ThemeProvider.tsx:61-80 | reading back a saved theme gives it, and without storage gives dark |
| Theme.FlipInvolution | src/context/ThemeProvider.tsx:100 | toggling twice gives the original theme |
| Theme.Step | src/context/ThemeProvider.tsx:99-109 | no contract of its own: `Theme.StepKeepsConsistent`, `Theme.SettledThemePersists` and `Theme.ToggleSwitches` state its behaviour |
| Theme.StepKeepsConsistent | src/context/ThemeProvider.tsx:99-109 | storage holds the theme being moved to, the last pending application is that theme, and the overlay shows only while its stop timer is pending |
| Theme.SettledThemePersists | src/context/ThemeProvider.tsx:90-109 | once every application has fired, the theme on screen is the one a reload reads back |
| Theme.ToggleSwitches | src/context/ThemeProvider.tsx:99-109 | a press on a settled page shows and stores the other theme after its two timers |
| Theme.QuickSecondPressRepeats | src/context/ThemeProvider.tsx:99-107 | two presses before the first applies switch the theme once |
| Typewriter.Mount | src/components/Hero/TypewriterText.tsx:16-35 | a fresh typewriter shows nothing yet, and reports completion at once iff the text is empty |
| Typewriter.TextChanged | src/components/Hero/TypewriterText.tsx:19-35 | a new text starts from nothing; `Typewriter.StaleCompletion` shows the early completion it reports |
| Typewriter.FixedTextChanged | src/components/Hero/TypewriterText.tsx:19-23 | corrected, a new text starts from nothing; `Typewriter.FixedCompletionMeansTyped` states that it reports completion only with the text shown |
| Typewriter.Tick | src/components/Hero/TypewriterText.tsx:25-31 | a tick adds the next character while characters remain, keeping the display equal to the typed prefix |
| Typewriter.TicksAdvance | src/components/Hero/TypewriterText.tsx:25-35 | `n` ticks show `n` more characters, up to the whole text, and report completion once, on reaching the end |
| Typewriter.TypesWholeText | src/components/Hero/TypewriterText.tsx:16-35 | after one tick per character the whole text is shown and completion was reported exactly once |
| Typewriter.Rerender | src/components/Hero/TypewriterText.tsx:25-35 | a re-render with a new `onComplete` leaves the state alone and reports completion again iff the whole text is typed |
| Typewriter.RerendersRepeatCompletion | src/components/Hero/TypewriterText.tsx:25-35 | under a caller that rebuilds `onComplete`, every re-render after the end reports completion again and none during typing does |
| Typewriter.StaleCompletion | src/components/Hero/TypewriterText.tsx:19-35 | as written, a finished "abc" handed "xyz" reports completion before typing anything; no caller in this app changes the text of a mounted typewriter |
| Typewriter.FixedCompletionMeansTyped | src/components/Hero/TypewriterText.tsx:19-35 | corrected, completion on a change means the whole new text is shown; the written change differs exactly for a non-empty text as long as the old index |
| Terminal.Step | src/components/Hero/Terminal.tsx:58-97 | no contract of its own: the terminal as written; `Terminal.RunKeepsIndexInRange`, `Terminal.MissingResultSticks` and `Terminal.RunAgreesWhenResultsPresent` state its behaviour |
| Terminal.FixedStep | src/components/Hero/Terminal.tsx:58-97 | no contract of its own: the corrected terminal; `Terminal.FixedRunKeepsWellFormed`, `Terminal.FixedNeverSticks` and `Terminal.RoundsVisitEveryCommand` state its behaviour |
| Terminal.Current | src/components/Hero/Terminal.tsx:74-77 | the command shown is `commands[index mod n]`, missing for an empty list |
| Terminal.MissingResultSticks | src/components/Hero/Terminal.tsx:176-190 | as written, once a command with a missing or empty result is typed, no event moves the terminal |
| Terminal.StuckForever | src/components/Hero/Terminal.tsx:79-97 | a stuck terminal stays stuck |
| Terminal.StepKeepsIndexInRange | src/components/Hero/Terminal.tsx:58-82 | as written, every event keeps the index below the number of commands and leaves the list alone |
| Terminal.RunKeepsIndexInRange | src/components/Hero/Terminal.tsx:58-82 | as written, every run keeps the index below the number of commands |
| Terminal.FixedRunKeepsWellFormed | src/components/Hero/Terminal.tsx:58-86 | corrected, the index stays below n, a result is typed only when present, and only displaying has its timer pending |
| Terminal.FixedNeverSticks | src/components/Hero/Terminal.tsx:88-97 | corrected, the next event always moves the terminal on |
| Terminal.RoundAdvances | src/components/Hero/Terminal.tsx:79-97 | one round from a typed command ends typing the next command, wrapping after the last |
| Terminal.RoundsVisitEveryCommand | src/components/Hero/Terminal.tsx:58-82 | the first n rounds type the commands in list order |
| Terminal.RoundsCycle | src/components/Hero/Terminal.tsx:82 | after n rounds the terminal is back at its start |
| Terminal.RunAgreesWhenResultsPresent | src/components/Hero/Terminal.tsx:88-97 | when every result is non-empty the written and corrected terminals behave the same |

## Left out

- HTTP, react-query caching, invalidation, cancellation and retries are outside the model. Only the `retryDelay` formula is modelled; server answers are events.
- The server paginates `/api/articles` for the article list. The page count it reports is an input to the model.
- ManageArticles: the server's answer to each page fetch is an input. The finding that only the server's first page is listed assumes the server honours `page` and `limit`. The finding of a stranded page after a delete needs more than ten rows in the table, so it assumes a server that ignores `limit`, or the corrected whole-list fetch. The server is not part of this model.
- `getUserId` is left out: it draws on the clock, randomness and local storage.
- Timers are modelled as events, not as times. A timer that a transition sets but that changes nothing is omitted, such as the terminal's second `typing-result` after 200 ms.
- Animations (framer-motion, Swiper, the theme overlay, particles and colours) and the DOM (`scrollTo`, body class and overflow) are purely visual.
- Navigation.LogoTarget: scroll offsets are integers, and `maxScroll / 2` is compared as `2 * scrollTop < maxScroll`. Browsers report fractional offsets.
- Case conversion covers ASCII letters only. JavaScript's `toLowerCase` and `toUpperCase` also map other letters.
- Lengths count characters. JavaScript counts UTF-16 code units, so `minLength` and `maxLength` differ from the model for characters outside the Basic Multilingual Plane.
- `toLocaleDateString` date formatting is locale data.
- The share button and clipboard are browser APIs.
- Comment likes are a bare request with no client logic.
- AdminForms.ChooseFile: after a refused file the model's form holds no file, as the handler's "reset the file input" intends. The form library also keeps the file list it recorded at the change event; that library is not part of this model.
- ManageArticles: while a fetch is out the page shows a spinner in place of the table and its pagination. The flag is cleared when any fetch ends, failed ones included, and failed fetches are not events of the model. So the model lets Delete clicks and page controls happen while a fetch is in flight. This allows more runs than the page does, and every invariant proved holds over all of them.
- AdminForms.SubmitArticle: the `isSubmitting` flag, which disables the submit button and every field while a submission is out, is not modelled. A second submission during the first is therefore not excluded.
- AdminForms.RemoveFile: the remove button exists only while a preview is shown, and then the file input is not rendered. The handler's reset of the input therefore finds nothing, and the form library keeps the file list it recorded, which a later submit may still send. The model's slot holds no file after removal, as the handler intends; the form library is not part of this model.
- AdminForms.RefusedFileBlocksSubmit: rests on the model's slot, which drops a refused file. Whether the form library's `required` check sees the emptied input or the file list it recorded at the change event is library behaviour, not part of this model. If it keeps the list, a refused image can still be submitted.
- AdminForms.OrientationAccepted: the image's width and height are inputs, because decoding is done by the browser.
- Typewriter.TextChanged: models a change of `text` on a mounted typewriter, which the terminal never makes. Each terminal typewriter lives inside the block keyed by the command index (src/components/Hero/Terminal.tsx:145), so a new command mounts a fresh one. The terminal does pass a new `onComplete` on every render, because `transitions` is an object literal rebuilt each time (src/components/Hero/Terminal.tsx:88-97). Any re-render, such as a theme change, therefore reruns the completion effect: it restarts the pending tick, or reports completion again once the text is typed. `Typewriter.Rerender` models that; which re-renders happen is not modelled.
- Terminal: the loading and error screens of the command fetch only render text, so they are left out.
- Grid and card images fall back from `image` to `thumbnail`. That is a plain `||` and has no model.
- src/components/Projects/Projects.tsx, the magnetic cards and scroll progress use mouse-position and scroll floating-point maths; they are not part of this model.
- The route table, sidebar, dashboard and purely presentational components hold no logic to verify.

## Findings

| source | as written | input that shows it | evidently intended | confidence | as-written member | corrected member |
|---|---|---|---|---|---|---|
| src/pages/Admin/Management/ManageArticles.tsx:34-57 | the fetch asks the server for page `currentPage` with a limit of 10, and the table then filters and pages those rows again on the client | a server holding 11 articles that honours `page` and `limit` | the whole list is fetched once and paged on the client, which is what the search over all titles and the page count from `filteredArticles.length` are written for | medium, not executed; the server is not part of this model | ManageArticles.EleventhArticleNeverListed | ManageArticles.FullListReachesEveryArticle |
| src/pages/Admin/Management/ManageArticles.tsx:78-80 | a successful delete filters the rows but leaves `currentPage` alone | 11 rows in the table, page 2 shows only the 11th; delete it. Eleven rows arrive only from a server that ignores `limit`, or once the whole list is fetched | the page is clamped to the new page count, so page 1 with ten rows is shown | medium, not executed; needs more than ten rows in the table | ManageArticles.DeleteStrandsPage | ManageArticles.FixedShowingIsAccurate |
| src/pages/Admin/Management/ManageArticles.tsx:70-80 | the delete handler filters the `articles` array its closure captured when the Delete button was clicked | rows a, b; click Delete on a and confirm, then on b and confirm, before either answer; both succeed | each successful delete removes its row from the current rows | medium, not executed | ManageArticles.OverlappingDeletesResurrect | ManageArticles.FixedDeletedStaysGone |
| src/components/Hero/Terminal.tsx:88-97 | only the result's typewriter moves `typing-result` on, and it is rendered only for a non-empty result | a first command whose `result` is missing or `""` | a command without a result goes on to display and fade like the others | high, not executed | Terminal.MissingResultSticks | Terminal.FixedNeverSticks |
| src/components/Hero/TypewriterText.tsx:19-35 | the completion effect runs in the same commit as the reset, with the old index | a typewriter that has finished "abc" receives the text "xyz" from its caller | completion is reported only once the new text is shown | low, not executed; a defect of the component alone, latent in this app because the terminal never changes the text of a mounted typewriter | Typewriter.StaleCompletion | Typewriter.FixedCompletionMeansTyped |

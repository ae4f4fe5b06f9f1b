# Gitblit page filters and syndication access decisions, in Dafny

This project models the decision and list-processing logic of three classes of Gitblit's web front end,
and proves what they promise:

- `SyndicationFilter` (module `SyndicationFilter`): the access-restriction filter for feed requests. It cuts
  the repository name out of a feed url, names the action every feed request asks for (VIEW), asks for
  authentication exactly for VIEW-restricted repositories, and leaves access to the user's own decision.
- `BasePage` (module `BasePage`): the base class of every page.
  - The lazily obtained logger, with one cached flag per level. A flag is 0 (unknown) until the first `logger()`
    call and 1 (off) or 2 (on) ever after.
  - The page title and the last-modified header, which is never earlier than the server's boot date.
  - `getProjects`, the project listing filter. A regular expression on the name and a list of team names
    select projects by union, with every project passing when neither is given. A days-back window, clamped to
    a configured maximum, then narrows the selection. The result lists each project once, in natural order.
- `ProjectPage` (module `ProjectPage`): the page of one project.
  - A lazily filled project list and a case-insensitive project lookup.
  - The "projects" drop-down menu: non-personal projects only. When there are more than 15, it shows the 15
    most recently changed, sorted by name, then a divider and an "all projects" entry.
  - The "filters" menu with its conditional reset entry.
  - The default activity window of 7 days, and the newest-first order of the repository list.

Shared pieces:
- `Models`: the records read (repositories, projects, users, teams) and the access-restriction order
  NONE < PUSH < CLONE < VIEW.
- `Ordering`: the sort standing for `Collections.sort`, with its permutation, sortedness and stability proofs.
- `Text`: the `String` operations used (`trim`, `indexOf`, `equalsIgnoreCase`).
- `Wrappers`: `Option` for Java's null and `Result` for a thrown exception.

Dates are integers (milliseconds); a day is 86 400 000 ms. "Midnight today" is an input, and so are the
clock, the configuration values and the boot date.

Everything this core calls but does not define is a function-valued input (`BasePage.Collaborators`, the
`canAccessRepository` argument of `CanAccess`, the `naturalOrder` arguments). These are `Pattern.compile` with
`Matcher.find`, `StringUtils.getStringsFromValue`, the team lookup, `TeamModel.hasRepositoryPermission`,
`UserModel.canAccessRepository` and `ProjectModel.compareTo`. The natural order is only required to be a total
preorder, which is the `Comparable` contract.

The model assumes that `ProjectModel.equals`, as used by the `HashSet` in `getProjects`, is value equality
of the `Project` record; that class is not part of this model. If Java's equality were by identity, two
distinct objects with the same fields would both be listed where the model lists one. If it were by name,
two records with the same name and different fields would be listed once where the model lists both.

Three operations of `java.lang`/Gitblit utilities are modelled by their usual meaning, because their code is
not part of this model:
- `StringUtils.isEmpty` is "null, or only characters up to U+0020", the same test `getPageTitle` writes
  out with `trim()`.
- `Constants.NAME` is `"Gitblit"`.
- `AccessRestrictionType.atLeast` is an ordinal comparison in declaration order.

## Model

| member | source | states |
|---|---|---|
| `Ordering.SortBy` | src/main/java/com/gitblit/wicket/pages/BasePage.java:597 | `Collections.sort`: the result is a permutation of the input in which each element may come before every later one, for any total preorder; the sort is stable: for every x, the elements equivalent to x appear in the same order as in the input |
| `Ordering.SortedArrangementIsUnique` | src/main/java/com/gitblit/wicket/pages/BasePage.java:596-597 | two sorted permutations of the same elements are equal when no two different elements among them are ordered both ways (for any order, not only a total one) |
| `BasePage.ListingIsUniqueForDistinctKeys` | src/main/java/com/gitblit/wicket/pages/BasePage.java:596-597 | when the natural order ties only projects with the same key (such as the name) and the selected projects have distinct keys, every sorted listing of them is the same list, so `getProjects`' result does not depend on the `HashSet`'s iteration order |
| `Models.AtLeast` | src/com/gitblit/SyndicationFilter.java:65 | `AccessRestrictionType.atLeast`: a level is at least another exactly when the other is NONE, the level is VIEW, the two are equal, or the level is CLONE and the other PUSH (declaration order NONE < PUSH < CLONE < VIEW) |
| `Text.IsEmpty` | src/main/java/com/gitblit/wicket/pages/BasePage.java:389 | `StringUtils.isEmpty` (also at lines 534 and 545): true for null, and for a string exactly when it is blank |
| `Text.EqualsIgnoreCase` | src/main/java/com/gitblit/wicket/pages/ProjectPage.java:173 | `String.equalsIgnoreCase`: equal lengths, and each pair of characters equal or the upper- and lower-case forms of one ASCII letter |
| `Ordering.ListsEachOnce` | src/main/java/com/gitblit/wicket/pages/BasePage.java:532-597 | a list holding the elements of a set lists exactly the set's elements, each once (no duplicates in `getProjects`' result) |
| `Text.Trim` | src/main/java/com/gitblit/wicket/pages/BasePage.java:392 | `String.trim`: a slice of the input with only trimmable characters (code at most U+0020) around it; its ends are not trimmable; it is empty exactly when the input is blank |
| `Text.IndexOf` | src/com/gitblit/SyndicationFilter.java:40 | `String.indexOf(char)`: -1 exactly when the character is absent, otherwise the position of its first occurrence |
| `SyndicationFilter.ExtractRepositoryName` | src/com/gitblit/SyndicationFilter.java:39-44 | the result is a prefix of the url and holds no `?`; with a `?` in the url it is what precedes the first one, without one it is the url itself |
| `SyndicationFilter.ExtractRepositoryNameIsIdempotent` | src/com/gitblit/SyndicationFilter.java:39-44 | extracting twice equals extracting once |
| `SyndicationFilter.GetUrlRequestAction` | src/com/gitblit/SyndicationFilter.java:53-55 | every url asks for the action `"VIEW"` |
| `SyndicationFilter.RequiresAuthentication` | src/com/gitblit/SyndicationFilter.java:64-66 | authentication is required iff the restriction is at least VIEW in the order NONE < PUSH < CLONE < VIEW (src/main/java/com/gitblit/wicket/pages/BasePage.java:420-430), that is iff it is VIEW, the most restrictive level |
| `SyndicationFilter.CanAccess` | src/com/gitblit/SyndicationFilter.java:78-80 | access is the user's own `canAccessRepository` answer for the repository |
| `SyndicationFilter.CanAccessIgnoresAction` | src/com/gitblit/SyndicationFilter.java:78-80 | two requests by the same user for the same repository get the same answer whatever actions they name |
| `BasePage.FlagFor` | src/main/java/com/gitblit/wicket/pages/BasePage.java:156-160 | the flag `logger()` stores is never 0 (unknown): 2 when the level is enabled, 1 when it is not |
| `BasePage.Page.constructor` | src/main/java/com/gitblit/wicket/pages/BasePage.java:88-98 | a new page has no logger and every level flag at 0 (unknown) |
| `BasePage.Page.Logger` | src/main/java/com/gitblit/wicket/pages/BasePage.java:152-163 | after `logger()` the logger is the factory's and every flag mirrors it (1 off, 2 on); a second call changes nothing |
| `BasePage.Page.IsEnabled` | src/main/java/com/gitblit/wicket/pages/BasePage.java:168-247 | `isTraceEnabled` … `isErrorEnabled`: the answer is the logger's for that level and is true iff the flag is 2; an unknown flag is filled first; once the logger exists nothing changes |
| `BasePage.NotBeforeBoot` | src/main/java/com/gitblit/wicket/pages/BasePage.java:374-379 | the date used is the maximum of the given date and the boot date |
| `BasePage.SetLastModified` | src/main/java/com/gitblit/wicket/pages/BasePage.java:369-385 | a null date changes nothing; otherwise the last-modified time becomes the date clamped to the boot date and `Expires` becomes now plus the configured minutes |
| `BasePage.SiteName` | src/main/java/com/gitblit/wicket/pages/BasePage.java:388-391 | the configured site name when it is not empty, `Constants.NAME` otherwise; never blank |
| `BasePage.PageTitle` | src/main/java/com/gitblit/wicket/pages/BasePage.java:387-397 | `"<name> - <site>"` when the repository name has a non-blank character, the site name alone when it is null or blank |
| `BasePage.TitleEndsWithSiteName` | src/main/java/com/gitblit/wicket/pages/BasePage.java:387-397 | every title ends with the site name and is never blank |
| `BasePage.ResolveTeams` | src/main/java/com/gitblit/wicket/pages/BasePage.java:550-557 | a team is resolved iff some listed name looks it up; unknown names contribute nothing |
| `BasePage.EffectiveDaysBack` | src/main/java/com/gitblit/wicket/pages/BasePage.java:576-579 | a positive days-back value is kept when the maximum is 0 or less and becomes `min(daysBack, max)` otherwise; it stays positive, and a value equal to the maximum is kept |
| `BasePage.MatchByName` | src/main/java/com/gitblit/wicket/pages/BasePage.java:538-542 | the loop collects exactly the available projects whose name contains a match of the pattern |
| `BasePage.ResolveTeamModels` | src/main/java/com/gitblit/wicket/pages/BasePage.java:551-557 | the loop collects the teams the names resolve to, in order |
| `BasePage.AddPermitted` | src/main/java/com/gitblit/wicket/pages/BasePage.java:560-568 | the triple loop adds exactly the available projects having a repository permitted to some resolved team, and keeps what was there |
| `BasePage.KeepRecent` | src/main/java/com/gitblit/wicket/pages/BasePage.java:587-593 | the loop keeps exactly the projects changed strictly after the threshold |
| `BasePage.SortedList` | src/main/java/com/gitblit/wicket/pages/BasePage.java:596-597 | the list holds each project of the set once and is sorted in natural order |
| `BasePage.FilterCandidates` | src/main/java/com/gitblit/wicket/pages/BasePage.java:525-573 | the regex and team steps compute the candidates of the specification, or the malformed-pattern error |
| `BasePage.GetProjects` | src/main/java/com/gitblit/wicket/pages/BasePage.java:520-599 | null parameters return the available list unchanged; otherwise the result fails iff the specification does, with its error, and else holds each selected project once, sorted in natural order |
| `BasePage.WithoutFiltersEveryProjectIsCandidate` | src/main/java/com/gitblit/wicket/pages/BasePage.java:571-573 | with neither regex nor team every available project is a candidate |
| `BasePage.OnlyMalformedPatternsFail` | src/main/java/com/gitblit/wicket/pages/BasePage.java:534-537 | the listing fails exactly when a non-empty regex does not compile, and reports that regex |
| `BasePage.CandidatesAreWhatSomeFilterAccepts` | src/main/java/com/gitblit/wicket/pages/BasePage.java:534-569 | with a regex or a team, a project is a candidate iff it is available and its name contains a match, or one of its repositories is permitted to a team some listed name resolves to |
| `BasePage.UnknownTeamsSelectNothing` | src/main/java/com/gitblit/wicket/pages/BasePage.java:545-569 | team names that all fail to resolve, without a regex, list nothing and raise no error |
| `BasePage.FiltersCombineByUnion` | src/main/java/com/gitblit/wicket/pages/BasePage.java:534-569 | listing with a regex and a team is the union of listing with each alone, for any days-back value |
| `BasePage.TimeFilterNarrows` | src/main/java/com/gitblit/wicket/pages/BasePage.java:575-594 | everything listed is an available candidate; with days-back 0 or less the candidates are listed unchanged; with a positive value exactly those changed strictly after midnight today minus the effective days are kept |
| `BasePage.WiderWindowListsMore` | src/main/java/com/gitblit/wicket/pages/BasePage.java:576-593 | for positive windows, a wider window lists a superset |
| `BasePage.FiveDayWindowExample` | src/main/java/com/gitblit/wicket/pages/BasePage.java:576-593 | with a 5-day window and maximum 30, a project changed today is listed and one changed ten days ago is not |
| `ProjectPage.SharedProjects` | src/main/java/com/gitblit/wicket/pages/ProjectPage.java:183-187 | a project is kept iff it is in the list and is not a personal project |
| `ProjectPage.CollectShared` | src/main/java/com/gitblit/wicket/pages/ProjectPage.java:181-187 | the loop keeps the non-personal projects in list order |
| `ProjectPage.KeepMostRecent` | src/main/java/com/gitblit/wicket/pages/ProjectPage.java:192-204 | 15 of the projects, sorted in natural order, none of the dropped ones changed later than any kept one |
| `ProjectPage.AddProjectItems` | src/main/java/com/gitblit/wicket/pages/ProjectPage.java:207-209 | one project entry per project, appended in order |
| `ProjectPage.ProjectsMenu` | src/main/java/com/gitblit/wicket/pages/ProjectPage.java:180-215 | no entry links to a personal project; up to 15 shared projects give exactly one entry each in list order and nothing more; more than 15 give the 15 most recently changed sorted by name, then a divider and "all projects" (17 entries) |
| `ProjectPage.FiltersMenu` | src/main/java/com/gitblit/wicket/pages/ProjectPage.java:143-151 | the repository and time filter entries in order, followed by the reset entry only when there is at least one of them |
| `ProjectPage.FirstNamed` | src/main/java/com/gitblit/wicket/pages/ProjectPage.java:171-178 | none exactly when no name equals the given one ignoring case; otherwise the first such project in list order |
| `ProjectPage.FindProject` | src/main/java/com/gitblit/wicket/pages/ProjectPage.java:172-177 | the search loop returns the first case-insensitive match, or null |
| `ProjectPage.ExactNameIsFound` | src/main/java/com/gitblit/wicket/pages/ProjectPage.java:171-178 | a project whose name is exactly the one asked for guarantees a result |
| `ProjectPage.ActivityDaysBack` | src/main/java/com/gitblit/wicket/pages/ProjectPage.java:107-110 | the window is at least 1; a parameter of 1 or more is kept; a missing parameter or one below 1 becomes 7 |
| `ProjectPage.ReverseChronological` | src/main/java/com/gitblit/wicket/pages/ProjectPage.java:117-123 | the sorted repositories are a permutation of the input with non-increasing last-change dates, and repositories changed at the same time keep their input order |
| `ProjectPage.ProjectPage.constructor` | src/main/java/com/gitblit/wicket/pages/ProjectPage.java:47 | the project list starts empty |
| `ProjectPage.ProjectPage.GetProjectModels` | src/main/java/com/gitblit/wicket/pages/ProjectPage.java:162-169 | an empty list is filled from the source; a non-empty one is returned unchanged |
| `ProjectPage.ProjectPage.GetProjectModel` | src/main/java/com/gitblit/wicket/pages/ProjectPage.java:171-178 | fills the list if empty, then returns its first case-insensitive match |
| `ProjectPage.ProjectPage.GetProjectsMenu` | src/main/java/com/gitblit/wicket/pages/ProjectPage.java:180-215 | fills the list if empty, then builds the projects menu of `ProjectsMenu` from it |

A window of 0 or less disables the time filter. Widening the window from 0 to a positive value can therefore
shrink the listing, so `WiderWindowListsMore` is stated for positive windows only.

## Left out

- Wicket rendering and request handling is not modelled. That covers labels, links, fragments, the feedback
  panel, bottom scripts, CSS header contributions, `setHeaders`, redirects, `onBeforeRender`/`onAfterRender`
  and `setupPage`. It is UI glue without decisions of its own.
- `ProjectPage.setup` is modelled only in its days-back default and its repository sort. Its authentication
  check, its redirects for a missing or unknown project, and its markdown messages belong to the framework
  and to `MarkdownUtils`. `transformMarkdown` is left out for the same reason.
- Session, locale, time zone and `ResourceBundle` lookups are not modelled. That includes the label maps
  `getAccessRestrictions`, `getAccessPermissions`, `getFederationTypes` and `getAuthorizationControls`; only
  the order of the restriction levels is taken from the first.
- `readResource`, `System.gc()`, the log output and `getTimeUtils` are I/O or runtime side effects.
- Calendar arithmetic is not modelled. Midnight today is an input and a day is a fixed 86 400 000 ms, so time
  zones and daylight-saving days are not represented.
- `getRepositories`, `addActivity`, `createNgList`, `getRepositoryFilterItems`, `getTimeFilterItems`,
  `getRepositoryModels` and the server's `getProjectModels` are defined outside the modelled classes. Their
  results are inputs: the `available` list, the `projectSource` of a `ProjectPage`, and the filter items.
- `BasePage.GetProjects`: the available list is an input. On a `ProjectPage` it is the lazily filled list of
  `GetProjectModels`.
- `ProjectPage.ProjectPage.GetProjectModels`: the server's list is fixed per page (`projectSource`). A source
  that answered differently on later calls would only matter while the cache is still empty.
- `Text.EqualsIgnoreCase` folds only the ASCII letters. The other Unicode case mappings of
  `String.equalsIgnoreCase` are not modelled.
- `BasePage.Page.IsEnabled`: the five `is*Enabled` methods run the same code on different fields, and are one
  method taking the level.
- `ProjectPage.KeepMostRecent`: the contract does not say which of several projects tied on their last change
  at the 15th place are kept. The sort it uses is proved stable, so those earliest in list order are kept, but
  that is not carried into this member's contract.
- `Ordering.SortBy`: a total preorder is required of every comparator. `Collections.sort` may reject a
  comparator that breaks this contract with an exception, and that case is not modelled.
- Java's `int` range is not modelled for days-back values, because they are small configuration and
  parameter values.
- Null urls, null names and other null dereferences that would throw are not modelled.

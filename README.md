# Project archive: visibility, aggregation and listing

A Dafny model of the project archive of a university extension-services
web application, and of its unread-notification counter.

The archive lets a user browse projects. Which projects a user may see
depends on the user's role and college:

- UESO, Director and VP see everything.
- Faculty, Program Head, Coordinator and Dean see every completed project,
  plus the in-progress projects led from their own college.
- Everyone else sees only completed projects.

On top of that visible set the archive offers two endpoints:

- An aggregation endpoint groups the projects by one category (start year,
  end year, agenda, project type, college). It counts each group, orders
  the groups by value descending, and labels them for display. An empty
  value is labelled "N/A". A project type such as `RESEARCH_BASED` is shown
  as "Research Based".
- A listing endpoint filters the projects by a category value, where "N/A"
  means the value is absent. It then applies a case-insensitive search over
  title, leader name and location, sorts, removes duplicates, and serves
  pages of 10 rows by default and at most 100.

The landing page picks an internal or a public layout from the role. A
context processor puts the user's unread-notification count on every page.

The database is replaced by a sequence of `Project` values. A project
carries the fields of its leader, college and agenda that the queries read.
Each query is a function or method over that sequence.

Modules:

- `Wrappers`: the `Option` type.
- `Text`: the ASCII subset of Python's `str` that the code relies on:
  `upper`, `lower`, `replace`, `title`, case-insensitive containment,
  code-point order, and `int()`/`str()` on integers.
- `ArchiveModel`: the entities (`Role`, `Status`, `College`, `Date`,
  `User`, `Project`). It also defines `Key`, the value of one result
  column, with the total order the database sorts keys by.
- `QuerySet`: `.filter()` and `.distinct()` on sequences.
- `Visibility`: the role-based base queryset.
- `Aggregation`: the aggregation endpoint. `GroupCount` is the
  grouping/count loop and `FormatRows` is the label-formatting loop. Both
  are proved against the `IsGrouping` and `Formats` specifications.
- `Listing`: the listing endpoint. It has the category filter, the search,
  an insertion sort (`SortProjects`), `Distinct`, `List`, and the page size.
- `ArchivePage`: the landing page's layout choice and category menu.
- `Notifications`: the unread count.

Modelling conventions:

- A URL keyword or query parameter that is missing is the empty string.
  Python treats `None` and `""` alike in `if category and filter_value` and
  `if search_query`.
- NULL sorts after every value. This is PostgreSQL's default: NULLs come
  last in ascending order and first in descending order. Text sorts by
  code point.
- Aggregation labels follow Python truthiness. NULL, the year 0 and the
  empty string are all labelled "N/A".
- An aggregation label does not always lead back to its group in the
  listing. `Listing.DrillDown` proves it does for the NULL group, a
  non-zero year, and a text value that is neither `""` nor the literal
  "N/A" (for project types, one of upper-case letters, digits and
  underscores). The code as written fails the excluded cases:
  - a group whose value is `""` is labelled "N/A", but the "N/A" filter
    selects only NULL (`Listing.EmptyAgendaNameNotListed`);
  - an agenda or college literally named "N/A" is labelled with its own
    name, and the "N/A" filter again selects only NULL
    (`Listing.LiteralNotAvailableNotListed`);
  - a stored project type with lower-case letters, such as
    `research_based`, is displayed as "Research Based" and read back as
    `RESEARCH_BASED`, which is not the stored value
    (`Listing.LowerCaseProjectTypeNotListed`);
  - the year 0 is falsy and labelled "N/A".
- A status other than `IN_PROGRESS` and `COMPLETED` is `OtherStatus`, whose
  code excludes those two strings.

## Model

| member | source | states |
|---|---|---|
| `Visibility.CanSee` | shared/archive/views.py:41-59 | UESO/Director/VP see every project. An in-progress project is visible to anyone else iff the role is college-bound and the leader's college is the user's. A project of any other status is visible iff the role is UESO/Director/VP. |
| `QuerySet.Filter` | shared/archive/views.py:53-59 | `.filter()` keeps exactly the rows the condition holds for, and never adds rows. |
| `QuerySet.Dedup` | shared/archive/views.py:55 | `.distinct()` never adds rows and keeps the first row in first place. |
| `Visibility.BaseQueryset` | shared/archive/views.py:27-59 | A project is in the base queryset iff it is in the database and the role cascade admits it. UESO/Director/VP get the whole database. Roles outside both named groups get exactly the completed projects. |
| `Visibility.SeesAllSeeEverything` | shared/archive/views.py:41-43 | UESO, Director and VP see every project, whatever its status or college. |
| `Visibility.OwnCollegeRule` | shared/archive/views.py:45-55 | Faculty, Program Head, Coordinator and Dean with a college see a project iff it is completed, or it is in progress and its leader's college is theirs. Any other status is never visible. |
| `Visibility.NoCollegeSeesCompletedOnly` | shared/archive/views.py:48-55 | Those roles without a college see exactly the completed projects. |
| `Visibility.OthersSeeCompletedOnly` | shared/archive/views.py:57-59 | Every other role, and a user with no role attribute (line 39), sees exactly the completed projects. |
| `Visibility.VisibilityNests` | shared/archive/views.py:41-59 | The visible sets nest: other roles ⊆ college-bound roles ⊆ UESO/Director/VP. |
| `Visibility.CompletedVisibleToAll` | shared/archive/views.py:41-59 | A completed project is visible to every user. |
| `Visibility.DependsOnRoleAndCollege` | shared/archive/views.py:38-55 | Visibility is decided by the role and the identity of the user's college alone. |
| `Visibility.ThreeProjectScenario` | shared/archive/views.py:41-59 | For projects completed/A, in-progress/A and in-progress/B: Faculty of A sees the first two, a Guest the first, a Director all three. |
| `ArchivePage.BaseTemplate` | shared/archive/views.py:64-70 | The internal layout is chosen iff the role is VP, Director, UESO, Program Head, Dean or Coordinator. Faculty and the other roles get the public one. |
| `ArchivePage.ArchiveContext` | shared/archive/views.py:72-88 | The page menu offers exactly the categories the aggregation endpoint accepts. The default category is one of them. The context carries the layout and the user's role. |
| `Aggregation.GroupKey` | shared/archive/views.py:98-115 | The grouping value is a year (or NULL) for the two date categories, and a text (or NULL) for agenda, project type and college. |
| `Aggregation.GroupCount` | shared/archive/views.py:117-121 | The result is one group per distinct key. Every group's key occurs in the input, its count equals the number of occurrences, and keys are strictly descending. |
| `Aggregation.GroupingUnique` | shared/archive/views.py:117-121 | Any two results meeting that specification are equal, so the specification fixes the output. |
| `Aggregation.GroupingTotals` | shared/archive/views.py:117-121 | Every count is at least 1. The counts add up to the number of keys. There are as many groups as distinct keys. |
| `Aggregation.FormatRows` | shared/archive/views.py:124-136 | One row per group, in group order, with the group's count. The label is "N/A" for a falsy value and the formatted display text for a non-"N/A" project type. Otherwise it is the raw value. |
| `Aggregation.ProjectTypeDisplay` | shared/archive/views.py:132-133 | The display form of a project type has the stored value's length, and equals it ignoring case once underscores are read as spaces. |
| `Aggregation.LabelOf` | shared/archive/views.py:126-133 | A label is a number exactly for a non-zero year, and that number is the year. A falsy value is labelled "N/A". A non-empty text keeps its length. |
| `Aggregation.ResearchBasedDisplay` | shared/archive/views.py:130-133 | `RESEARCH_BASED` is displayed as "Research Based". |
| `Aggregation.Aggregate` | shared/archive/views.py:93-140 | An unknown category gives status 400 with "Invalid category specified." and no rows. Otherwise the rows are the formatted grouping of the grouping values of exactly the projects the user may see. |
| `Aggregation.AggregateTotals` | shared/archive/views.py:117-121 | On success every row's count is at least 1. The counts add up to the number of visible projects. There is one row per distinct grouping value. |
| `ArchiveModel.KeyLeTotalOrder` | shared/archive/views.py:117-119 | The key order used for `order_by` is reflexive, antisymmetric, transitive and total. |
| `Text.Contains` | shared/archive/views.py:197-203 | Containment holds iff the search term occurs at some offset of the field. |
| `Listing.ProjectTypeFromDisplay` | shared/archive/views.py:189-190 | The stored form read from the URL has the value's length, no space and no lower-case letter. |
| `Listing.ProjectTypeRoundTrip` | shared/archive/views.py:189-191 | For every stored project type of upper-case letters, digits and underscores, reading back its display form gives the stored value. |
| `Listing.CategoryMatch` | shared/archive/views.py:166-194 | No category or no value, or an unknown category, restricts nothing. For a known category, "N/A" selects exactly the projects whose grouping value is NULL. Any other value selects exactly the projects whose grouping value equals the value read from the URL: `int()` of it for years, its stored form for project types. |
| `Listing.DrillDown` | shared/archive/views.py:180-194 | Using an aggregation label as the filter value lists exactly the projects of that label's group. This holds for a NULL group, a non-zero year, and a non-empty, non-"N/A" text (an upper-snake one for project types). |
| `Listing.EmptyAgendaNameNotListed` | shared/archive/views.py:166-169 | As written, an agenda named `""` is labelled "N/A", yet the "N/A" filter does not list its projects. |
| `Listing.LiteralNotAvailableNotListed` | shared/archive/views.py:126-128 | As written, an agenda literally named "N/A" is labelled "N/A", yet the "N/A" filter (lines 166-169) does not list its projects. |
| `Listing.LowerCaseProjectTypeNotListed` | shared/archive/views.py:132-133 | As written, the stored project type `research_based` is labelled "Research Based", and that label read back (line 190) does not select its projects. |
| `Listing.SearchMatch` | shared/archive/views.py:196-203 | The empty search matches every project. A matching non-empty term is no longer than one of the four fields. |
| `Listing.SearchTermOccurs` | shared/archive/views.py:197-203 | A project that matches a non-empty search has the lower-cased term inside the lower-cased title, given name, last name or location. |
| `Listing.SortFieldOf` | shared/archive/views.py:206-211 | `start_date` and `end_date` select those fields. Every other `sort_by` value sorts by title. |
| `Listing.SortProjects` | shared/archive/views.py:213-216 | The result is a permutation of the input, sorted non-decreasing on the key, or non-increasing when descending. |
| `Listing.Distinct` | shared/archive/views.py:218 | `.distinct()` equals `Dedup`: the first occurrence of each row, in order. |
| `QuerySet.DedupMembership` | shared/archive/views.py:218 | `.distinct()` keeps exactly the rows it is given. |
| `QuerySet.DedupNoDuplicates` | shared/archive/views.py:218 | After `.distinct()` no row appears twice. |
| `Listing.DedupKeepsSorted` | shared/archive/views.py:216-218 | Removing duplicates from a sorted result keeps it sorted. |
| `Listing.List` | shared/archive/views.py:152-218 | A project is listed iff it is visible to the user, passes the category filter and matches the search. No project is listed twice. The list is sorted on the chosen field: non-increasing iff `order == "desc"`, non-decreasing for any other value. |
| `Listing.PageSize` | shared/archive/views.py:19-23 | The page size is between 1 and 100. It is 10 when `page_size` is absent, not an integer, or not positive. Otherwise it is the requested size capped at 100. |
| `Listing.PageSizeCapped` | shared/archive/views.py:19-23 | `page_size=k` for a positive integer `k` gives `min(k, 100)`. For example, 1000 becomes 100. |
| `Notifications.UnreadNotifications` | system/notifications/context_processors.py:5-16 | The context has exactly one key, `unread_notifications_count`. Its value is 0 for an anonymous visitor. Otherwise it is the number of notifications addressed to the user and unread, which is at most the number addressed to the user. |
| `Notifications.UnreadCount` | system/notifications/context_processors.py:11-14 | The count never exceeds the number of notifications. |
| `Notifications.UnreadCountIsCardinality` | system/notifications/context_processors.py:11-14 | The filtered count equals the number of notifications whose recipient is the user and whose `is_read` is false. |
| `Notifications.UnreadAtMostAddressed` | system/notifications/context_processors.py:11-14 | The unread count never exceeds the number of notifications addressed to the user. |
| `Notifications.AnonymousIgnoresNotifications` | system/notifications/context_processors.py:9-16 | For an anonymous visitor the result does not depend on the notifications at all, so none are looked up. |

## Left out

- Rendering, `Response` objects, serializer output, URL parsing, and DRF's page-number handling and out-of-range-page errors. Only the page-size rule is modelled.
- The catch-all exception handler of the aggregation endpoint (status 500). What triggers it lies in the database layer, which is not modelled.
- The database order of rows with equal sort keys. `SortProjects` is stable, but its contract promises only sortedness and permutation.
- NULL placement on database backends other than PostgreSQL, and locale collation of text: text is compared by code point.
- Unicode case mapping: `upper`, `lower` and `title` are modelled on ASCII only, and other characters pass through unchanged.
- `int()` accepts surrounding whitespace and digit-separating underscores. The model accepts only an optional sign followed by ASCII digits.
- A year filter whose value is not an integer selects no project here. Django raises an error for it.
- The `Notification` and `User` models and `is_authenticated`. These are inputs: a recipient id, a read flag and an authentication flag.
- A project without a leader. The leader's names are plain strings, and a missing leader shows up only as a missing college.
- `User.Role` codes other than the ten named roles. The model assumes each role's stored code is its upper-case name, such as `PROGRAM_HEAD`.

/**
  The listing endpoint: the projects a user may see, narrowed by a
  category value and a free-text search, sorted, made distinct, and served
  in pages whose size the caller may choose within a cap.
*/
module Listing {
  import opened Wrappers
  import opened ArchiveModel
  import opened QuerySet
  import opened Visibility
  import opened Aggregation
  import Text

  // ---------------------------------------------------------------------
  // Category filter

  /**
    `filter_value.replace(' ', '_').upper()`: a displayed project type back
    in stored form, of the same length, with no space and no lower-case letter.
  */
  function ProjectTypeFromDisplay(s: string): (r: string)
    ensures |r| == |s|
    ensures forall i :: 0 <= i < |r| ==> r[i] != ' ' && !Text.IsLowerLetter(r[i])
  {
    Text.Upper(Text.Replace(s, ' ', '_'))
  }

  /** A stored project type: upper-case letters, digits and underscores. */
  predicate IsUpperSnake(v: string) {
    forall i :: 0 <= i < |v| ==> Text.IsUpperLetter(v[i]) || Text.IsDigit(v[i]) || v[i] == '_'
  }

  /** Formatting a stored project type for display and reading the display form back gives the stored value. */
  lemma ProjectTypeRoundTrip(v: string)
    requires IsUpperSnake(v)
    ensures ProjectTypeFromDisplay(ProjectTypeDisplay(v)) == v
  {
    var shown := ProjectTypeDisplay(v);
    var back := ProjectTypeFromDisplay(shown);
    forall i | 0 <= i < |v| ensures back[i] == v[i] {
      assert Text.Replace(v, '_', ' ')[i] == if v[i] == '_' then ' ' else v[i];
    }
  }

  /** `start_date__year=filter_value`: the year is set and `int(filter_value)` equals it. */
  predicate YearEquals(d: Option<Date>, filterValue: string) {
    d.Some? && Text.ParseInt(filterValue) == Some(d.value.year)
  }

  /**
    The URL's category filter. It applies only when both the category and
    the value are given; an unrecognised category restricts nothing. For a
    known category "N/A" selects exactly the projects whose grouping value,
    as the aggregation endpoint derives it, is NULL, and any other value
    selects exactly those whose grouping value equals the value read from
    the URL.
  */
  predicate CategoryMatch(category: string, filterValue: string, p: Project): (r: bool)
    ensures category == "" || filterValue == "" || !IsCategory(category) ==> r
    ensures IsCategory(category) && filterValue == NotAvailable ==> (r <==> GroupKey(category, p) == Null)
    ensures IsCategory(category) && filterValue != "" && filterValue != NotAvailable ==>
      (r <==> FilterKey(category, filterValue) == Some(GroupKey(category, p)))
  {
    if category == "" || filterValue == "" then true
    else if filterValue == NotAvailable then
      if category == "agenda" then p.agendaName.None?
      else if category == "college" then p.leaderCollege.None?
      else if category == "start_year" then p.startDate.None?
      else if category == "estimated_end_date" then p.estimatedEndDate.None?
      else if category == "project_type" then p.projectType.None?
      else true
    else
      if category == "start_year" then YearEquals(p.startDate, filterValue)
      else if category == "estimated_end_date" then YearEquals(p.estimatedEndDate, filterValue)
      else if category == "agenda" then p.agendaName == Some(filterValue)
      else if category == "project_type" then p.projectType == Some(ProjectTypeFromDisplay(filterValue))
      else if category == "college" then p.leaderCollege.Some? && p.leaderCollege.value.name == filterValue
      else true
  }

  /** The grouping value a non-"N/A" filter value selects; `None` when `int()` would refuse a year. */
  function FilterKey(category: string, filterValue: string): Option<Key>
    requires IsCategory(category)
  {
    if category == "start_year" || category == "estimated_end_date" then
      match Text.ParseInt(filterValue)
      case None => None
      case Some(y) => Some(Year(y))
    else if category == "project_type" then Some(Text(ProjectTypeFromDisplay(filterValue)))
    else Some(Text(filterValue))
  }

  /** The text a label puts in the listing URL: the label itself, or `str()` of a year. */
  function FilterText(l: Label): string {
    match l
    case LabelText(t) => t
    case LabelNumber(n) => Text.ShowInt(n)
  }

  /** The grouping values whose label leads back to exactly their group. */
  predicate DrillsDown(category: string, k: Key) {
    && FitsCategory(category, k)
    && (k.Year? ==> k.y != 0)
    && (k.Text? ==> k.s != "" && k.s != NotAvailable && (category == "project_type" ==> IsUpperSnake(k.s)))
  }

  /**
    Listing with an aggregation row's label as the filter value returns
    exactly the projects of that row's group.
  */
  lemma DrillDown(category: string, k: Key, p: Project)
    requires IsCategory(category) && DrillsDown(category, k)
    ensures CategoryMatch(category, FilterText(LabelOf(category, k)), p) <==> GroupKey(category, p) == k
  {
    if k.Year? {
      Text.ParseShowInt(k.y);
      assert FilterText(LabelOf(category, k)) != NotAvailable by {
        assert Text.ShowInt(k.y)[|Text.ShowInt(k.y)| - 1] != 'A';
      }
    } else if k.Text? && category == "project_type" {
      var shown := ProjectTypeDisplay(k.s);
      ProjectTypeRoundTrip(k.s);
      assert ProjectTypeFromDisplay(NotAvailable)[1] == '/';
      assert shown != NotAvailable;
      assert |shown| == |k.s|;
    }
  }

  /**
    As written, a group whose value is the empty string is labelled "N/A",
    but the "N/A" filter asks for NULL, so that group's projects are not
    listed from its label.
  */
  lemma EmptyAgendaNameNotListed(p: Project)
    requires p.agendaName == Some("")
    ensures LabelOf("agenda", GroupKey("agenda", p)) == LabelText(NotAvailable)
    ensures !CategoryMatch("agenda", FilterText(LabelOf("agenda", GroupKey("agenda", p))), p)
  {
  }

  /**
    As written, an agenda literally named "N/A" is truthy, so its label is
    its own name "N/A"; that label in the URL asks for NULL, so the group's
    projects are not listed from it.
  */
  lemma LiteralNotAvailableNotListed(p: Project)
    requires p.agendaName == Some(NotAvailable)
    ensures LabelOf("agenda", GroupKey("agenda", p)) == LabelText(NotAvailable)
    ensures !CategoryMatch("agenda", FilterText(LabelOf("agenda", GroupKey("agenda", p))), p)
  {
  }

  /** The display form of the lower-case project type `research_based`. */
  lemma LowerCaseDisplay()
    ensures ProjectTypeDisplay("research_based") == "Research Based"
  {
    assert Text.Replace("research_based", '_', ' ') == "research based";
  }

  /**
    As written, a stored project type with lower-case letters is displayed
    title-cased, read back upper-cased, and so does not match itself:
    `research_based` is shown as "Research Based" and read as `RESEARCH_BASED`.
  */
  lemma LowerCaseProjectTypeNotListed(p: Project)
    requires p.projectType == Some("research_based")
    ensures LabelOf("project_type", GroupKey("project_type", p)) == LabelText("Research Based")
    ensures !CategoryMatch("project_type", FilterText(LabelOf("project_type", GroupKey("project_type", p))), p)
  {
    var k := GroupKey("project_type", p);
    var shown := "Research Based";
    assert LabelOf("project_type", k) == LabelText(shown) by {
      assert k == Text("research_based");
      assert !Falsy(k) && k.s != NotAvailable by { assert k.s[0] == 'r'; }
      LowerCaseDisplay();
    }
    assert !CategoryMatch("project_type", shown, p) by {
      assert shown != "" && shown != NotAvailable by { assert shown[0] == 'R'; }
      var back := ProjectTypeFromDisplay(shown);
      assert back != k.s by { assert back[0] == 'R'; }
    }
  }

  // ---------------------------------------------------------------------
  // Search

  /**
    `title`, the leader's given and last name, or the location contains the
    term, ignoring case. The empty term matches everything; a non-empty one
    is never longer than the field it matched.
  */
  predicate SearchMatch(search: string, p: Project): (r: bool)
    ensures search == "" ==> r
    ensures r && search != "" ==>
      |search| <= |p.title| || |search| <= |p.leaderGivenName| || |search| <= |p.leaderLastName| || |search| <= |p.primaryLocation|
  {
    search == ""
    || Text.IContains(p.title, search)
    || Text.IContains(p.leaderGivenName, search)
    || Text.IContains(p.leaderLastName, search)
    || Text.IContains(p.primaryLocation, search)
  }

  /** A matched term occurs, ignoring case, in one of the four fields. */
  lemma SearchTermOccurs(search: string, p: Project)
    requires search != "" && SearchMatch(search, p)
    ensures exists field ::
      (field in [p.title, p.leaderGivenName, p.leaderLastName, p.primaryLocation]
       && exists i :: Text.OccursAt(Text.Lower(search), Text.Lower(field), i))
  {
    if Text.IContains(p.title, search) {
      assert p.title in [p.title, p.leaderGivenName, p.leaderLastName, p.primaryLocation];
    } else if Text.IContains(p.leaderGivenName, search) {
      assert p.leaderGivenName in [p.title, p.leaderGivenName, p.leaderLastName, p.primaryLocation];
    } else if Text.IContains(p.leaderLastName, search) {
      assert p.leaderLastName in [p.title, p.leaderGivenName, p.leaderLastName, p.primaryLocation];
    } else {
      assert p.primaryLocation in [p.title, p.leaderGivenName, p.leaderLastName, p.primaryLocation];
    }
  }

  // ---------------------------------------------------------------------
  // Sorting

  datatype SortField = ByTitle | ByStartDate | ByEndDate

  /** The `sort_by` parameter; anything unrecognised sorts by title. */
  function SortFieldOf(sortBy: string): (f: SortField)
    ensures f == ByStartDate <==> sortBy == "start_date"
    ensures f == ByEndDate <==> sortBy == "end_date"
    ensures sortBy != "start_date" && sortBy != "end_date" ==> f == ByTitle
  {
    if sortBy == "start_date" then ByStartDate
    else if sortBy == "end_date" then ByEndDate
    else ByTitle
  }

  function SortKey(f: SortField, p: Project): Key {
    match f
    case ByTitle => Text(p.title)
    case ByStartDate => DayOf(p.startDate)
    case ByEndDate => DayOf(p.estimatedEndDate)
  }

  /** `a` may come before `b`: non-decreasing keys ascending, non-increasing keys descending. */
  predicate Precedes(f: SortField, desc: bool, a: Project, b: Project) {
    if desc then KeyLe(SortKey(f, b), SortKey(f, a)) else KeyLe(SortKey(f, a), SortKey(f, b))
  }

  lemma PrecedesTotalPreorder(f: SortField, desc: bool, a: Project, b: Project, c: Project)
    ensures Precedes(f, desc, a, b) || Precedes(f, desc, b, a)
    ensures Precedes(f, desc, a, b) && Precedes(f, desc, b, c) ==> Precedes(f, desc, a, c)
  {
    KeyLeTotalOrder(SortKey(f, a), SortKey(f, b), SortKey(f, c));
    KeyLeTotalOrder(SortKey(f, c), SortKey(f, b), SortKey(f, a));
  }

  ghost predicate Sorted(r: seq<Project>, f: SortField, desc: bool) {
    forall i, j :: 0 <= i < j < |r| ==> Precedes(f, desc, r[i], r[j])
  }

  /** Placing `x` after the elements that precede it keeps a sorted list sorted. */
  lemma InsertKeepsSorted(r: seq<Project>, x: Project, j: nat, f: SortField, desc: bool)
    requires Sorted(r, f, desc) && j <= |r|
    requires forall m :: 0 <= m < j ==> Precedes(f, desc, r[m], x)
    requires j < |r| ==> !Precedes(f, desc, r[j], x)
    ensures Sorted(r[..j] + [x] + r[j..], f, desc)
  {
    forall m | j <= m < |r| ensures Precedes(f, desc, x, r[m]) {
      PrecedesTotalPreorder(f, desc, r[j], x, r[m]);
      PrecedesTotalPreorder(f, desc, x, r[j], r[m]);
    }
    var s := r[..j] + [x] + r[j..];
    forall a, b | 0 <= a < b < |s| ensures Precedes(f, desc, s[a], s[b]) {
      if a < j && b > j {
        PrecedesTotalPreorder(f, desc, s[a], x, s[b]);
      }
    }
  }

  /** `queryset.order_by(sort_field)`: a sorted permutation of the rows. */
  method SortProjects(ps: seq<Project>, f: SortField, desc: bool) returns (r: seq<Project>)
    ensures Sorted(r, f, desc)
    ensures multiset(r) == multiset(ps)
  {
    r := [];
    for i := 0 to |ps|
      invariant Sorted(r, f, desc)
      invariant multiset(r) == multiset(ps[..i])
    {
      var x := ps[i];
      var j := 0;
      while j < |r| && Precedes(f, desc, r[j], x)
        invariant 0 <= j <= |r|
        invariant forall m :: 0 <= m < j ==> Precedes(f, desc, r[m], x)
      {
        j := j + 1;
      }
      InsertKeepsSorted(r, x, j, f, desc);
      assert ps[..i + 1] == ps[..i] + [x];
      assert r == r[..j] + r[j..];
      r := r[..j] + [x] + r[j..];
    }
    assert ps[..|ps|] == ps;
  }

  // ---------------------------------------------------------------------
  // Distinct

  /** `queryset.distinct()` */
  method Distinct(s: seq<Project>) returns (r: seq<Project>)
    ensures r == Dedup(s)
  {
    r := [];
    for i := 0 to |s|
      invariant r == Dedup(s[..i])
    {
      assert s[..i + 1][..i] == s[..i];
      if s[i] !in r {
        r := r + [s[i]];
      }
    }
    assert s[..|s|] == s;
  }

  /** Keeping first occurrences keeps a sorted list sorted. */
  lemma {:induction false} DedupKeepsSorted(s: seq<Project>, f: SortField, desc: bool)
    requires Sorted(s, f, desc)
    ensures Sorted(Dedup(s), f, desc)
  {
    if s != [] {
      var init, last := s[..|s| - 1], s[|s| - 1];
      DedupKeepsSorted(init, f, desc);
      DedupMembership(init);
      var d := Dedup(init);
      if last !in d {
        forall m | 0 <= m < |d| ensures Precedes(f, desc, d[m], last) {
          assert d[m] in init;
          var k :| 0 <= k < |init| && init[k] == d[m];
          assert s[k] == d[m];
        }
      }
    }
  }

  // ---------------------------------------------------------------------
  // The endpoint

  /** `ProjectListAPIView.get_queryset` */
  method List(user: User, db: seq<Project>, category: string, filterValue: string,
              search: string, sortBy: string, order: string) returns (r: seq<Project>)
    ensures forall p :: p in r <==>
      p in db && CanSee(user, p) && CategoryMatch(category, filterValue, p) && SearchMatch(search, p)
    ensures NoDuplicates(r)
    ensures Sorted(r, SortFieldOf(sortBy), order == "desc")
  {
    var queryset := BaseQueryset(user, db);
    if category != "" && filterValue != "" {
      queryset := Filter(queryset, (p: Project) => CategoryMatch(category, filterValue, p));
    }
    if search != "" {
      queryset := Filter(queryset, (p: Project) => SearchMatch(search, p));
    }
    var f := SortFieldOf(sortBy);
    var desc := order == "desc";
    var sorted := SortProjects(queryset, f, desc);
    assert forall p :: p in sorted <==> p in queryset by {
      assert forall p :: p in sorted <==> p in multiset(sorted);
    }
    r := Distinct(sorted);
    DedupMembership(sorted);
    DedupNoDuplicates(sorted);
    DedupKeepsSorted(sorted, f, desc);
  }

  // ---------------------------------------------------------------------
  // Page size

  const DefaultPageSize: nat := 10
  const MaxPageSize: nat := 100

  /**
    The page size a request gets: the `page_size` parameter when it is a
    positive integer, capped at 100; otherwise 10.
  */
  function PageSize(requested: Option<string>): (n: nat)
    ensures 1 <= n <= MaxPageSize
    ensures requested.None? ==> n == DefaultPageSize
    ensures requested.Some? ==> match Text.ParseInt(requested.value)
      case Some(v) => (v > 0 ==> n == if v < MaxPageSize then v else MaxPageSize) && (v <= 0 ==> n == DefaultPageSize)
      case None => n == DefaultPageSize
  {
    if requested.None? then DefaultPageSize
    else match Text.ParseInt(requested.value)
      case None => DefaultPageSize
      case Some(v) => if v <= 0 then DefaultPageSize else if v < MaxPageSize then v else MaxPageSize
  }

  /** Asking for `page_size=k` with `k` a positive integer gives pages of `k` rows, but never more than 100. */
  lemma PageSizeCapped(k: int)
    requires k > 0
    ensures PageSize(Some(Text.ShowInt(k))) == if k < MaxPageSize then k else MaxPageSize
  {
    Text.ParseShowInt(k);
  }
}

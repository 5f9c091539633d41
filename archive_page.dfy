/** The archive landing page: which base layout it extends and the category menu it offers. */
module ArchivePage {
  import opened Wrappers
  import opened ArchiveModel
  import Aggregation

  const InternalTemplate := "base_internal.html"
  const PublicTemplate := "base_public.html"

  /** The role codes that get the internal layout. Faculty is not among them. */
  const InternalRoleCodes: seq<string> := ["VP", "DIRECTOR", "UESO", "PROGRAM_HEAD", "DEAN", "COORDINATOR"]

  /** The layout for a user's role. */
  function BaseTemplate(role: Option<Role>): (t: string)
    ensures t == InternalTemplate || t == PublicTemplate
    ensures t == InternalTemplate <==>
      role in {Some(VP), Some(Director), Some(UESO), Some(ProgramHead), Some(Dean), Some(Coordinator)}
  {
    if role.Some? && RoleCode(role.value) in InternalRoleCodes then InternalTemplate else PublicTemplate
  }

  /** The dropdown: each category's code and its caption. */
  const Categories: seq<(string, string)> := [
    ("start_year", "Year Started"),
    ("estimated_end_date", "Year Ended"),
    ("agenda", "Agenda"),
    ("project_type", "Project Type"),
    ("college", "College/CORD")
  ]

  const DefaultCategory := "start_year"

  datatype PageContext = PageContext(
    baseTemplate: string,
    categories: seq<(string, string)>,
    defaultCategory: string,
    userRole: Option<Role>)

  /**
    The context `ArchiveView.get` renders: the menu offers exactly the
    categories the aggregation endpoint accepts, and the default is one of
    them.
  */
  function ArchiveContext(user: User): (c: PageContext)
    ensures c.baseTemplate == BaseTemplate(user.role) && c.userRole == user.role
    ensures forall i :: 0 <= i < |c.categories| ==> Aggregation.IsCategory(c.categories[i].0)
    ensures forall cat :: Aggregation.IsCategory(cat) ==>
      exists i :: 0 <= i < |c.categories| && c.categories[i].0 == cat
    ensures Aggregation.IsCategory(c.defaultCategory)
  {
    var c := PageContext(BaseTemplate(user.role), Categories, DefaultCategory, user.role);
    assert Categories[0].0 == "start_year" && Categories[1].0 == "estimated_end_date"
      && Categories[2].0 == "agenda" && Categories[3].0 == "project_type" && Categories[4].0 == "college";
    c
  }
}

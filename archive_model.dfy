/**
  The records the archive reads. The ORM is replaced by plain values: a
  project carries the fields of its related leader, college and agenda
  that the archive's queries touch, and a query result is a sequence.
*/
module ArchiveModel {
  import opened Wrappers
  import Text

  /**
    `User.Role`. The residual roles are the ones the visibility rule lumps
    together ("Guest, Client, Implementer"); a user with no `role`
    attribute at all (an anonymous user) is `None` in an `Option<Role>`.
  */
  datatype Role = UESO | Director | VP | Faculty | ProgramHead | Coordinator | Dean
                | Implementer | Client | Guest

  /** The role's stored code, the string `ArchiveView` compares against. */
  function RoleCode(r: Role): string {
    match r
    case UESO => "UESO"
    case Director => "DIRECTOR"
    case VP => "VP"
    case Faculty => "FACULTY"
    case ProgramHead => "PROGRAM_HEAD"
    case Coordinator => "COORDINATOR"
    case Dean => "DEAN"
    case Implementer => "IMPLEMENTER"
    case Client => "CLIENT"
    case Guest => "GUEST"
  }

  /** A status code other than the two the archive compares against. */
  type OtherCode = c: string | c != "IN_PROGRESS" && c != "COMPLETED" witness ""

  /** A project's lifecycle status; `OtherStatus` stands for every value besides the two the archive names. */
  datatype Status = InProgress | Completed | OtherStatus(code: OtherCode)

  /** A college row: its primary key and its name. */
  datatype College = College(id: nat, name: string)

  datatype Date = Date(year: int, month: int, day: int)

  datatype User = User(role: Option<Role>, college: Option<College>)

  /**
    A project together with what the archive reads through its relations:
    `project_leader.given_name`, `.last_name`, `.college`, and `agenda.name`.
  */
  datatype Project = Project(
    id: nat,
    title: string,
    status: Status,
    leaderGivenName: string,
    leaderLastName: string,
    leaderCollege: Option<College>,
    startDate: Option<Date>,
    estimatedEndDate: Option<Date>,
    agendaName: Option<string>,
    projectType: Option<string>,
    primaryLocation: string)

  // ---------------------------------------------------------------------
  // Column values and the order the database sorts them in

  /**
    The value of one column of a result row: an extracted year, a text
    value, a date, or SQL NULL.
  */
  datatype Key = Year(y: int) | Text(s: string) | Day(d: Date) | Null

  function YearOf(d: Option<Date>): (k: Key)
    ensures d.None? <==> k == Null
  {
    match d
    case None => Null
    case Some(v) => Year(v.year)
  }

  function DayOf(d: Option<Date>): (k: Key)
    ensures d.None? <==> k == Null
  {
    match d
    case None => Null
    case Some(v) => Day(v)
  }

  function TextOf(s: Option<string>): (k: Key)
    ensures s.None? <==> k == Null
  {
    match s
    case None => Null
    case Some(v) => Text(v)
  }

  predicate DateLess(a: Date, b: Date) {
    a.year < b.year
    || (a.year == b.year && a.month < b.month)
    || (a.year == b.year && a.month == b.month && a.day < b.day)
  }

  function Rank(k: Key): nat {
    match k
    case Year(_) => 0
    case Text(_) => 1
    case Day(_) => 2
    case Null => 3
  }

  /**
    The ordering of column values. Values of one column all have the same
    kind; NULL sorts after every value, which is PostgreSQL's default
    (NULLS LAST ascending, NULLS FIRST descending).
  */
  predicate KeyLess(a: Key, b: Key) {
    if Rank(a) != Rank(b) then Rank(a) < Rank(b)
    else match a
      case Year(x) => x < b.y
      case Text(s) => Text.StrLess(s, b.s)
      case Day(d) => DateLess(d, b.d)
      case Null => false
  }

  predicate KeyLe(a: Key, b: Key) {
    !KeyLess(b, a)
  }

  lemma KeyLessIrreflexive(a: Key)
    ensures !KeyLess(a, a)
  {
    if a.Text? { Text.StrLessIrreflexive(a.s); }
  }

  lemma KeyLessTransitive(a: Key, b: Key, c: Key)
    requires KeyLess(a, b) && KeyLess(b, c)
    ensures KeyLess(a, c)
  {
    if a.Text? && b.Text? && c.Text? { Text.StrLessTransitive(a.s, b.s, c.s); }
  }

  lemma KeyLessTotal(a: Key, b: Key)
    requires a != b
    ensures KeyLess(a, b) || KeyLess(b, a)
  {
    if a.Text? && b.Text? { Text.StrLessTotal(a.s, b.s); }
  }

  /** `KeyLe` is a total order: reflexive, antisymmetric, transitive and total. */
  lemma KeyLeTotalOrder(a: Key, b: Key, c: Key)
    ensures KeyLe(a, a)
    ensures KeyLe(a, b) || KeyLe(b, a)
    ensures KeyLe(a, b) && KeyLe(b, a) ==> a == b
    ensures KeyLe(a, b) && KeyLe(b, c) ==> KeyLe(a, c)
  {
    KeyLessIrreflexive(a);
    if a != b { KeyLessTotal(a, b); }
    if KeyLess(a, b) && KeyLess(b, a) { KeyLessTransitive(a, b, a); }
    if KeyLe(a, b) && KeyLe(b, c) && KeyLess(c, a) {
      if b == c {
      } else {
        KeyLessTotal(b, c);
        KeyLessTransitive(b, c, a);
      }
    }
  }
}

/**
  The aggregation endpoint: the projects a user may see, grouped by one
  category, counted, ordered by the grouping value descending, and
  labelled for display.
*/
module Aggregation {
  import opened Wrappers
  import opened ArchiveModel
  import opened QuerySet
  import opened Visibility
  import Text

  const InvalidCategoryMessage := "Invalid category specified."
  const NotAvailable := "N/A"

  /** The keys of the category-to-field map; any other category is refused. */
  predicate IsCategory(category: string) {
    category == "start_year" || category == "estimated_end_date" || category == "agenda"
    || category == "project_type" || category == "college"
  }

  /** Year categories group by a year, the others by a text value; either may be NULL. */
  predicate FitsCategory(category: string, k: Key) {
    if category == "start_year" || category == "estimated_end_date" then k.Year? || k.Null?
    else k.Text? || k.Null?
  }

  /**
    The grouping value of a project: the year of `start_date` or of
    `estimated_end_date`, the agenda's name, the raw project type, or the
    name of the leader's college; NULL where the field or relation is empty.
  */
  function GroupKey(category: string, p: Project): (k: Key)
    requires IsCategory(category)
    ensures FitsCategory(category, k)
  {
    if category == "start_year" then YearOf(p.startDate)
    else if category == "estimated_end_date" then YearOf(p.estimatedEndDate)
    else if category == "agenda" then TextOf(p.agendaName)
    else if category == "project_type" then TextOf(p.projectType)
    else match p.leaderCollege
      case None => Null
      case Some(c) => Text(c.name)
  }

  function KeysOf(category: string, ps: seq<Project>): (ks: seq<Key>)
    requires IsCategory(category)
    ensures |ks| == |ps|
    ensures forall i :: 0 <= i < |ps| ==> ks[i] == GroupKey(category, ps[i])
  {
    seq(|ps|, i requires 0 <= i < |ps| => GroupKey(category, ps[i]))
  }

  // ---------------------------------------------------------------------
  // Grouping and counting

  /** One `values(field).annotate(count=Count('id'))` row. */
  datatype Group = Group(key: Key, count: nat)

  /** How many times `k` occurs in `s`. */
  function Occ(s: seq<Key>, k: Key): nat {
    if s == [] then 0 else (if s[0] == k then 1 else 0) + Occ(s[1..], k)
  }

  lemma {:induction false} OccConcat(a: seq<Key>, b: seq<Key>, k: Key)
    ensures Occ(a + b, k) == Occ(a, k) + Occ(b, k)
  {
    if a != [] {
      assert (a + b)[0] == a[0] && (a + b)[1..] == a[1..] + b;
      OccConcat(a[1..], b, k);
    } else {
      assert a + b == b;
    }
  }

  lemma {:induction false} OccPositive(s: seq<Key>, k: Key)
    ensures k in s <==> Occ(s, k) >= 1
  {
    if s != [] {
      OccPositive(s[1..], k);
      assert s == [s[0]] + s[1..];
    }
  }

  function GroupKeys(gs: seq<Group>): (ks: seq<Key>)
    ensures |ks| == |gs|
    ensures forall i :: 0 <= i < |gs| ==> ks[i] == gs[i].key
  {
    seq(|gs|, i requires 0 <= i < |gs| => gs[i].key)
  }

  ghost predicate StrictlyDescending(ks: seq<Key>) {
    forall i, j :: 0 <= i < j < |ks| ==> KeyLess(ks[j], ks[i])
  }

  /**
    `gs` is the grouped count of `keys`: one group per distinct key, keys
    strictly descending, each count the number of occurrences of its key.
  */
  ghost predicate IsGrouping(keys: seq<Key>, gs: seq<Group>) {
    && StrictlyDescending(GroupKeys(gs))
    && (forall i :: 0 <= i < |gs| ==> gs[i].key in keys && gs[i].count == Occ(keys, gs[i].key))
    && (forall k :: k in keys ==> k in GroupKeys(gs))
  }

  lemma DescendingDistinct(ks: seq<Key>)
    requires StrictlyDescending(ks)
    ensures NoDuplicates(ks)
  {
    forall i, j | 0 <= i < j < |ks| ensures ks[i] != ks[j] {
      KeyLessIrreflexive(ks[i]);
    }
  }

  /** Counting one more occurrence of a key that already has a group. */
  lemma BumpPreservesGrouping(keys: seq<Key>, gs: seq<Group>, j: nat)
    requires IsGrouping(keys, gs) && j < |gs|
    ensures IsGrouping(keys + [gs[j].key], gs[j := Group(gs[j].key, gs[j].count + 1)])
  {
    var k := gs[j].key;
    var gs' := gs[j := Group(k, gs[j].count + 1)];
    assert GroupKeys(gs') == GroupKeys(gs);
    DescendingDistinct(GroupKeys(gs));
    forall i | 0 <= i < |gs'|
      ensures gs'[i].key in keys + [k] && gs'[i].count == Occ(keys + [k], gs'[i].key)
    {
      OccConcat(keys, [k], gs'[i].key);
      assert Occ([k], gs'[i].key) == if k == gs'[i].key then 1 else 0;
      if i != j {
        assert GroupKeys(gs)[i] != GroupKeys(gs)[j];
      }
    }
  }

  /** Inserting a key between its greater and smaller neighbours keeps a key list descending. */
  lemma InsertKeepsDescending(ks: seq<Key>, k: Key, j: nat)
    requires StrictlyDescending(ks) && j <= |ks|
    requires forall m :: 0 <= m < j ==> KeyLess(k, ks[m])
    requires j < |ks| ==> KeyLess(ks[j], k)
    ensures forall m :: j <= m < |ks| ==> KeyLess(ks[m], k)
    ensures StrictlyDescending(ks[..j] + [k] + ks[j..])
  {
    forall m | j < m < |ks| ensures KeyLess(ks[m], k) {
      KeyLessTransitive(ks[m], ks[j], k);
    }
    var r := ks[..j] + [k] + ks[j..];
    forall a, b | 0 <= a < b < |r| ensures KeyLess(r[b], r[a]) {
      if b > j && a < j {
        KeyLessTransitive(r[b], k, r[a]);
      }
    }
  }

  /** Opening a group for a key that has none yet, at the place that keeps the order. */
  lemma InsertPreservesGrouping(keys: seq<Key>, gs: seq<Group>, k: Key, j: nat)
    requires IsGrouping(keys, gs) && j <= |gs|
    requires forall m :: 0 <= m < j ==> KeyLess(k, gs[m].key)
    requires j < |gs| ==> KeyLess(gs[j].key, k)
    ensures IsGrouping(keys + [k], gs[..j] + [Group(k, 1)] + gs[j..])
  {
    var gs' := gs[..j] + [Group(k, 1)] + gs[j..];
    var ks := GroupKeys(gs);
    InsertKeepsDescending(ks, k, j);
    assert GroupKeys(gs') == ks[..j] + [k] + ks[j..];
    // k has no group yet, so it does not occur in keys
    KeyLessIrreflexive(k);
    assert k !in ks;
    OccPositive(keys, k);
    forall i | 0 <= i < |gs'|
      ensures gs'[i].key in keys + [k] && gs'[i].count == Occ(keys + [k], gs'[i].key)
    {
      OccConcat(keys, [k], gs'[i].key);
      assert Occ([k], gs'[i].key) == if k == gs'[i].key then 1 else 0;
    }
  }

  /**
    `values(field).annotate(count=Count('id')).order_by('-field')`: one
    group per distinct key with its number of occurrences, keys descending.
  */
  method GroupCount(keys: seq<Key>) returns (gs: seq<Group>)
    ensures IsGrouping(keys, gs)
  {
    gs := [];
    for i := 0 to |keys|
      invariant IsGrouping(keys[..i], gs)
    {
      var k := keys[i];
      assert keys[..i + 1] == keys[..i] + [k];
      var j := 0;
      while j < |gs| && KeyLess(k, gs[j].key)
        invariant 0 <= j <= |gs|
        invariant forall m :: 0 <= m < j ==> KeyLess(k, gs[m].key)
      {
        j := j + 1;
      }
      if j < |gs| && gs[j].key == k {
        BumpPreservesGrouping(keys[..i], gs, j);
        gs := gs[j := Group(k, gs[j].count + 1)];
      } else {
        if j < |gs| { KeyLessTotal(k, gs[j].key); }
        InsertPreservesGrouping(keys[..i], gs, k, j);
        gs := gs[..j] + [Group(k, 1)] + gs[j..];
      }
    }
    assert keys[..|keys|] == keys;
  }

  // ---------------------------------------------------------------------
  // What a grouping adds up to

  function SumCounts(gs: seq<Group>): nat {
    if gs == [] then 0 else gs[0].count + SumCounts(gs[1..])
  }

  function SumOcc(keys: seq<Key>, ds: seq<Key>): nat {
    if ds == [] then 0 else Occ(keys, ds[0]) + SumOcc(keys, ds[1..])
  }

  lemma {:induction false} SumCountsIsSumOcc(keys: seq<Key>, gs: seq<Group>)
    requires forall i :: 0 <= i < |gs| ==> gs[i].count == Occ(keys, gs[i].key)
    ensures SumCounts(gs) == SumOcc(keys, GroupKeys(gs))
  {
    if gs != [] {
      assert GroupKeys(gs)[1..] == GroupKeys(gs[1..]);
      SumCountsIsSumOcc(keys, gs[1..]);
    }
  }

  lemma {:induction false} SumOccEmpty(ds: seq<Key>)
    ensures SumOcc([], ds) == 0
  {
    if ds != [] { SumOccEmpty(ds[1..]); }
  }

  lemma {:induction false} SumOccSnoc(keys: seq<Key>, k: Key, ds: seq<Key>)
    ensures SumOcc(keys + [k], ds) == SumOcc(keys, ds) + Occ(ds, k)
  {
    if ds != [] {
      OccConcat(keys, [k], ds[0]);
      SumOccSnoc(keys, k, ds[1..]);
    }
  }

  lemma {:induction false} OccInDistinct(ds: seq<Key>, k: Key)
    requires NoDuplicates(ds) && k in ds
    ensures Occ(ds, k) == 1
  {
    if ds[0] == k {
      OccPositive(ds[1..], k);
    } else {
      OccInDistinct(ds[1..], k);
    }
  }

  /** Summing the occurrences of each of a list of distinct keys covering `keys` gives `|keys|`. */
  lemma {:induction false} SumOccCovering(keys: seq<Key>, ds: seq<Key>)
    requires NoDuplicates(ds)
    requires forall k :: k in keys ==> k in ds
    ensures SumOcc(keys, ds) == |keys|
  {
    if keys == [] {
      SumOccEmpty(ds);
    } else {
      var init, last := keys[..|keys| - 1], keys[|keys| - 1];
      assert keys == init + [last];
      SumOccCovering(init, ds);
      SumOccSnoc(init, last, ds);
      OccInDistinct(ds, last);
    }
  }

  lemma CountsPositive(keys: seq<Key>, gs: seq<Group>)
    requires forall i :: 0 <= i < |gs| ==> gs[i].key in keys && gs[i].count == Occ(keys, gs[i].key)
    ensures forall i :: 0 <= i < |gs| ==> gs[i].count >= 1
  {
    forall i | 0 <= i < |gs| ensures gs[i].count >= 1 {
      OccPositive(keys, gs[i].key);
    }
  }

  /**
    The groups account for every project exactly once: counts are at least
    one, they add up to the number of keys, and there are as many groups as
    distinct keys.
  */
  lemma GroupingTotals(keys: seq<Key>, gs: seq<Group>)
    requires IsGrouping(keys, gs)
    ensures forall i :: 0 <= i < |gs| ==> gs[i].count >= 1
    ensures SumCounts(gs) == |keys|
    ensures |gs| == |set k | k in keys|
  {
    CountsPositive(keys, gs);
    DescendingDistinct(GroupKeys(gs));
    SumCountsIsSumOcc(keys, gs);
    SumOccCovering(keys, GroupKeys(gs));
    DistinctCardinality(GroupKeys(gs));
    assert (set k | k in keys) == (set k | k in GroupKeys(gs));
  }

  /** Strictly descending key lists holding the same keys are the same list. */
  lemma {:induction false} DescendingUnique(a: seq<Key>, b: seq<Key>)
    requires StrictlyDescending(a) && StrictlyDescending(b)
    requires forall k :: k in a <==> k in b
    ensures a == b
    decreases |a|
  {
    assert b != [] ==> b[0] in a;
    if a == [] {
    } else {
      assert a[0] in b;
      assert b[0] in a;
      assert a[0] == b[0] by {
        var m :| 0 <= m < |b| && b[m] == a[0];
        var n :| 0 <= n < |a| && a[n] == b[0];
        if m > 0 && n > 0 {
          KeyLessTransitive(a[0], b[0], a[0]);
          KeyLessIrreflexive(a[0]);
        } else if m > 0 {
          KeyLessIrreflexive(a[0]);
        }
      }
      DescendingDistinct(a);
      DescendingDistinct(b);
      forall k ensures k in a[1..] <==> k in b[1..] {
        if k in a[1..] {
          var i :| 1 <= i < |a| && a[i] == k;
          assert k != a[0];
          assert k in b;
        }
        if k in b[1..] {
          var i :| 1 <= i < |b| && b[i] == k;
          assert k != b[0];
          assert k in a;
        }
      }
      DescendingUnique(a[1..], b[1..]);
      assert a == [a[0]] + a[1..] && b == [b[0]] + b[1..];
    }
  }

  /** The grouping is determined by the keys alone. */
  lemma GroupingUnique(keys: seq<Key>, g1: seq<Group>, g2: seq<Group>)
    requires IsGrouping(keys, g1) && IsGrouping(keys, g2)
    ensures g1 == g2
  {
    DescendingUnique(GroupKeys(g1), GroupKeys(g2));
    assert |g1| == |g2|;
    forall i | 0 <= i < |g1| ensures g1[i] == g2[i] {
      assert GroupKeys(g1)[i] == GroupKeys(g2)[i];
    }
  }

  // ---------------------------------------------------------------------
  // Labels

  /** A JSON label: text, or the year as a number. */
  datatype Label = LabelText(text: string) | LabelNumber(n: int)

  /** One `{"label": ..., "count": ...}` entry of the response. */
  datatype Row = Row(caption: Label, count: nat)

  /**
    `label.replace('_', ' ').title()`: the same length as the stored value,
    and equal to it, ignoring case, once underscores are read as spaces.
  */
  function ProjectTypeDisplay(v: string): (r: string)
    ensures |r| == |v|
    ensures forall i :: 0 <= i < |v| ==> Text.LowerChar(r[i]) == Text.LowerChar(if v[i] == '_' then ' ' else v[i])
  {
    Text.Title(Text.Replace(v, '_', ' '))
  }

  /** The display form of a stored project type, as in "RESEARCH_BASED" shown as "Research Based". */
  lemma ResearchBasedDisplay()
    ensures ProjectTypeDisplay("RESEARCH_BASED") == "Research Based"
  {
  }

  /** Python falsiness of a grouping value: None, the year 0, the empty string. */
  predicate Falsy(k: Key) {
    k == Null || k == Year(0) || k == Text("")
  }

  /**
    The label of a group: "N/A" for a falsy value, project types formatted
    for display. A year label is a number exactly for a non-zero year, and a
    truthy text keeps its length.
  */
  function LabelOf(category: string, k: Key): (l: Label)
    requires FitsCategory(category, k)
    ensures l.LabelNumber? <==> k.Year? && k.y != 0
    ensures l.LabelNumber? ==> l.n == k.y
    ensures Falsy(k) ==> l == LabelText(NotAvailable)
    ensures k.Text? && k.s != "" ==> l.LabelText? && |l.text| == |k.s|
  {
    if Falsy(k) then LabelText(NotAvailable)
    else if k.Year? then LabelNumber(k.y)
    else if category == "project_type" && k.s != NotAvailable then LabelText(ProjectTypeDisplay(k.s))
    else LabelText(k.s)
  }

  ghost predicate Formats(category: string, gs: seq<Group>, rows: seq<Row>)
    requires forall i :: 0 <= i < |gs| ==> FitsCategory(category, gs[i].key)
  {
    |rows| == |gs| && forall i :: 0 <= i < |gs| ==> rows[i] == Row(LabelOf(category, gs[i].key), gs[i].count)
  }

  /** The formatting loop: one row per group, in the same order, with the same count. */
  method FormatRows(category: string, gs: seq<Group>) returns (rows: seq<Row>)
    requires forall i :: 0 <= i < |gs| ==> FitsCategory(category, gs[i].key)
    ensures Formats(category, gs, rows)
  {
    rows := [];
    for i := 0 to |gs|
      invariant |rows| == i
      invariant forall m :: 0 <= m < i ==> rows[m] == Row(LabelOf(category, gs[m].key), gs[m].count)
    {
      var key := gs[i].key;
      var caption := if Falsy(key) then LabelText(NotAvailable)
        else if key.Year? then LabelNumber(key.y)
        else LabelText(key.s);
      if category == "project_type" && caption != LabelText(NotAvailable) {
        caption := LabelText(ProjectTypeDisplay(caption.text));
      }
      rows := rows + [Row(caption, gs[i].count)];
    }
  }

  // ---------------------------------------------------------------------
  // The endpoint

  datatype AggregateResponse = Rows(rows: seq<Row>) | Failure(status: nat, error: string)

  /** `ProjectAggregationAPIView.get` */
  method Aggregate(user: User, db: seq<Project>, category: string) returns (resp: AggregateResponse)
    ensures resp.Failure? <==> !IsCategory(category)
    ensures resp.Failure? ==> resp.status == 400 && resp.error == InvalidCategoryMessage
    ensures resp.Rows? ==>
      exists gs :: IsGrouping(KeysOf(category, BaseQueryset(user, db)), gs) && Formats(category, gs, resp.rows)
  {
    var base := BaseQueryset(user, db);
    if !IsCategory(category) {
      return Failure(400, InvalidCategoryMessage);
    }
    var keys := KeysOf(category, base);
    var gs := GroupCount(keys);
    forall i | 0 <= i < |gs| ensures FitsCategory(category, gs[i].key) {
      assert gs[i].key in keys;
    }
    var rows := FormatRows(category, gs);
    resp := Rows(rows);
  }

  /**
    What a successful response says about the visible projects: a row per
    distinct grouping value, counts at least one summing to the number of
    visible projects.
  */
  lemma AggregateTotals(user: User, db: seq<Project>, category: string, gs: seq<Group>, rows: seq<Row>)
    requires IsCategory(category)
    requires IsGrouping(KeysOf(category, BaseQueryset(user, db)), gs)
    requires Formats(category, gs, rows)
    ensures forall i :: 0 <= i < |rows| ==> rows[i].count >= 1
    ensures SumCounts(gs) == |BaseQueryset(user, db)|
    ensures |rows| == |set k | k in KeysOf(category, BaseQueryset(user, db))|
  {
    GroupingTotals(KeysOf(category, BaseQueryset(user, db)), gs);
  }
}

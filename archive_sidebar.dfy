/**
 * The archive sidebar: entries grouped by the year, then by the month name,
 * they are filed under; years from the latest down, months in the order their
 * first entry appears, entries in the order given.
 */
module ArchiveSidebar {
  import opened Wrappers
  import opened Seqs
  import opened Posts

  /** The entries of one month of one year. */
  datatype MonthGroup = MonthGroup(name: string, posts: seq<Post>)

  /** One year of the archive, with its months. */
  datatype YearGroup = YearGroup(year: int, months: seq<MonthGroup>)

  /** The month names of a year's groups, in order. */
  function Names(ms: seq<MonthGroup>): (r: seq<string>)
    ensures |r| == |ms| && forall i | 0 <= i < |ms| :: r[i] == ms[i].name
  {
    seq(|ms|, i requires 0 <= i < |ms| => ms[i].name)
  }

  /** Filed under year `y`. */
  function YearIs(year: int -> int, y: int): Post -> bool {
    (p: Post) => year(When(p)) == y
  }

  /** Filed under month `m` of year `y`. */
  function InMonth(year: int -> int, month: int -> string, y: int, m: string): Post -> bool {
    (p: Post) => year(When(p)) == y && month(When(p)) == m
  }

  /** The month name of every entry, in order. */
  function MonthNames(ps: seq<Post>, month: int -> string): (r: seq<string>)
    ensures |r| == |ps|
    ensures forall i | 0 <= i < |ps| :: r[i] == month(When(ps[i]))
  {
    if ps == [] then []
    else MonthNames(ps[..|ps| - 1], month) + [month(When(ps[|ps| - 1]))]
  }

  /** The months of year `y`, each once, in the order their first entry appears. */
  function MonthsOf(ps: seq<Post>, year: int -> int, month: int -> string, y: int): seq<string> {
    Dedupe(MonthNames(Filter(ps, YearIs(year, y)), month))
  }

  /** A year for exactly the years of the entries `ps`. */
  predicate GroupedYears(groups: map<int, seq<MonthGroup>>, ps: seq<Post>, year: int -> int) {
    && (forall y | y in groups :: Filter(ps, YearIs(year, y)) != [])
    && (forall p | p in ps :: year(When(p)) in groups)
  }

  /** The months of each year, in the order their first entry appears. */
  predicate GroupedNames(groups: map<int, seq<MonthGroup>>, ps: seq<Post>, year: int -> int, month: int -> string) {
    forall y | y in groups :: Names(groups[y]) == MonthsOf(ps, year, month, y)
  }

  /** Each month holds exactly its entries, in order. */
  predicate GroupedPosts(groups: map<int, seq<MonthGroup>>, ps: seq<Post>, year: int -> int, month: int -> string) {
    forall y, k | y in groups && 0 <= k < |groups[y]| ::
      groups[y][k].posts == Filter(ps, InMonth(year, month, y, groups[y][k].name))
  }

  /** What the grouping holds after it has seen `ps`. */
  predicate Grouped(groups: map<int, seq<MonthGroup>>, ps: seq<Post>, year: int -> int, month: int -> string) {
    GroupedYears(groups, ps, year) && GroupedNames(groups, ps, year, month) && GroupedPosts(groups, ps, year, month)
  }

  /** Where the month `m` sits among a year's groups; `|ms|` when it is not there. */
  function IndexOfMonth(ms: seq<MonthGroup>, m: string): (k: nat)
    ensures k <= |ms|
    ensures k < |ms| ==> ms[k].name == m
    ensures forall j | 0 <= j < k :: ms[j].name != m
  {
    if ms == [] then 0
    else if ms[0].name == m then 0
    else 1 + IndexOfMonth(ms[1..], m)
  }

  /** A year's groups once the entry `p` of month `m` is added: appended to
    * the month's group, or to a new group at the end when there is none. */
  function Placed(ms: seq<MonthGroup>, m: string, p: Post): seq<MonthGroup> {
    var k := IndexOfMonth(ms, m);
    if k < |ms| then ms[k := MonthGroup(m, ms[k].posts + [p])]
    else ms + [MonthGroup(m, [p])]
  }

  /** The reducer's callback: the year's groups are created when missing and
    * the entry is placed among them. */
  function Place(acc: map<int, seq<MonthGroup>>, p: Post, year: int -> int, month: int -> string): map<int, seq<MonthGroup>> {
    var y := year(When(p));
    acc[y := Placed(if y in acc then acc[y] else [], month(When(p)), p)]
  }

  lemma MonthNamesSnoc(ps: seq<Post>, p: Post, month: int -> string)
    ensures MonthNames(ps + [p], month) == MonthNames(ps, month) + [month(When(p))]
  {
    assert (ps + [p])[..|ps|] == ps;
  }

  /** An entry filed under another year leaves that year's months alone. */
  lemma MonthsOfSnoc(ps: seq<Post>, p: Post, year: int -> int, month: int -> string, y: int)
    ensures MonthsOf(ps + [p], year, month, y) ==
      if year(When(p)) != y then MonthsOf(ps, year, month, y)
      else if month(When(p)) in MonthNames(Filter(ps, YearIs(year, y)), month) then MonthsOf(ps, year, month, y)
      else MonthsOf(ps, year, month, y) + [month(When(p))]
  {
    var f := YearIs(year, y);
    var inYear := Filter(ps, f);
    FilterSnoc(ps, p, f);
    if year(When(p)) == y {
      assert f(p);
      assert Filter(ps + [p], f) == inYear + [p];
      MonthNamesSnoc(inYear, p, month);
      DedupeSnoc(MonthNames(inYear, month), month(When(p)));
    } else {
      assert !f(p);
      assert Filter(ps + [p], f) == inYear;
    }
  }

  /** A year without a group has no entries. */
  lemma NoGroupNoPosts(acc: map<int, seq<MonthGroup>>, ps: seq<Post>, year: int -> int, y: int)
    requires GroupedYears(acc, ps, year) && y !in acc
    ensures Filter(ps, YearIs(year, y)) == []
  {
    assert Filter(ps, YearIs(year, y)) != [] ==> Filter(ps, YearIs(year, y))[0] in Filter(ps, YearIs(year, y));
  }

  /** A month is listed for year `y` exactly when it has entries there. */
  lemma ListedMonth(ps: seq<Post>, year: int -> int, month: int -> string, y: int, m: string)
    ensures m in MonthsOf(ps, year, month, y) <==> Filter(ps, InMonth(year, month, y, m)) != []
  {
    var inYear := Filter(ps, YearIs(year, y));
    var names := MonthNames(inYear, month);
    if m in MonthsOf(ps, year, month, y) {
      assert m in names;
      var i :| 0 <= i < |names| && names[i] == m;
      assert inYear[i] in inYear;
      assert inYear[i] in Filter(ps, InMonth(year, month, y, m));
    }
    if Filter(ps, InMonth(year, month, y, m)) != [] {
      var q := Filter(ps, InMonth(year, month, y, m))[0];
      assert q in Filter(ps, InMonth(year, month, y, m));
      assert q in inYear;
      var i :| 0 <= i < |inYear| && inYear[i] == q;
      assert names[i] == m;
    }
  }

  lemma NamesSnoc(ms: seq<MonthGroup>, g: MonthGroup)
    ensures Names(ms + [g]) == Names(ms) + [g.name]
  {
  }

  lemma NamesUpdate(ms: seq<MonthGroup>, k: nat, g: MonthGroup)
    requires k < |ms| && g.name == ms[k].name
    ensures Names(ms[k := g]) == Names(ms)
  {
  }

  /** Placing an entry keeps its year's month names in first-appearance order. */
  lemma NamesPlaced(ms: seq<MonthGroup>, ps: seq<Post>, p: Post, year: int -> int, month: int -> string)
    requires Names(ms) == MonthsOf(ps, year, month, year(When(p)))
    ensures Names(Placed(ms, month(When(p)), p)) == MonthsOf(ps + [p], year, month, year(When(p)))
  {
    var y0, m0 := year(When(p)), month(When(p));
    var names := MonthNames(Filter(ps, YearIs(year, y0)), month);
    var k0 := IndexOfMonth(ms, m0);
    MonthsOfSnoc(ps, p, year, month, y0);
    if k0 < |ms| {
      assert Names(ms)[k0] == m0;
      assert m0 in names;
      NamesUpdate(ms, k0, MonthGroup(m0, ms[k0].posts + [p]));
    } else {
      assert m0 !in Names(ms);
      assert m0 !in names;
      NamesSnoc(ms, MonthGroup(m0, [p]));
    }
  }

  /** The callback keeps the month names of year `y` in first-appearance order. */
  lemma PlaceNamesAt(acc: map<int, seq<MonthGroup>>, ps: seq<Post>, p: Post, year: int -> int, month: int -> string, y: int)
    requires GroupedYears(acc, ps, year) && GroupedNames(acc, ps, year, month)
    requires y in Place(acc, p, year, month)
    ensures Names(Place(acc, p, year, month)[y]) == MonthsOf(ps + [p], year, month, y)
  {
    var y0 := year(When(p));
    if y != y0 {
      MonthsOfSnoc(ps, p, year, month, y);
    } else if y0 in acc {
      NamesPlaced(acc[y0], ps, p, year, month);
    } else {
      NoGroupNoPosts(acc, ps, year, y0);
      assert MonthsOf(ps, year, month, y0) == [];
      NamesPlaced([], ps, p, year, month);
    }
  }

  /** Placing an entry keeps each month of its year holding exactly its entries. */
  lemma PostsPlaced(ms: seq<MonthGroup>, ps: seq<Post>, p: Post, year: int -> int, month: int -> string, k: nat)
    requires Names(ms) == MonthsOf(ps, year, month, year(When(p)))
    requires forall j | 0 <= j < |ms| :: ms[j].posts == Filter(ps, InMonth(year, month, year(When(p)), ms[j].name))
    requires k < |Placed(ms, month(When(p)), p)|
    ensures Placed(ms, month(When(p)), p)[k].posts
      == Filter(ps + [p], InMonth(year, month, year(When(p)), Placed(ms, month(When(p)), p)[k].name))
  {
    var y0, m0 := year(When(p)), month(When(p));
    var k0 := IndexOfMonth(ms, m0);
    var g := Placed(ms, m0, p)[k];
    var f := InMonth(year, month, y0, g.name);
    FilterSnoc(ps, p, f);
    if k != k0 && k < |ms| {
      assert g == ms[k];
      assert g.name != m0 by {
        var names := Names(ms);
        assert Distinct(names);
        if k0 < |ms| {
          assert names[k] != names[k0];
        }
      }
      assert !f(p);
    } else if k0 < |ms| {
      assert g == MonthGroup(m0, ms[k0].posts + [p]);
      assert f(p);
    } else {
      assert g == MonthGroup(m0, [p]);
      assert f(p);
      assert m0 !in MonthsOf(ps, year, month, y0) by {
        var names := Names(ms);
        forall j | 0 <= j < |names| ensures names[j] != m0 {
          assert names[j] == ms[j].name;
        }
      }
      ListedMonth(ps, year, month, y0, m0);
    }
  }

  /** The callback keeps the entries of month `k` of year `y` exact. */
  lemma PlacePostsAt(acc: map<int, seq<MonthGroup>>, ps: seq<Post>, p: Post, year: int -> int, month: int -> string, y: int, k: int)
    requires Grouped(acc, ps, year, month)
    requires y in Place(acc, p, year, month) && 0 <= k < |Place(acc, p, year, month)[y]|
    ensures Place(acc, p, year, month)[y][k].posts
      == Filter(ps + [p], InMonth(year, month, y, Place(acc, p, year, month)[y][k].name))
  {
    var y0 := year(When(p));
    if y != y0 {
      var g := acc[y][k];
      FilterSnoc(ps, p, InMonth(year, month, y, g.name));
    } else if y0 in acc {
      PostsPlaced(acc[y0], ps, p, year, month, k);
    } else {
      NoGroupNoPosts(acc, ps, year, y0);
      assert MonthsOf(ps, year, month, y0) == [];
      PostsPlaced([], ps, p, year, month, k);
    }
  }

  /** The callback keeps a year for exactly the years of the entries; `next`
    * is the entries seen so far followed by `p`. */
  lemma PlaceYears(acc: map<int, seq<MonthGroup>>, ps: seq<Post>, p: Post, next: seq<Post>, year: int -> int, month: int -> string)
    requires next == ps + [p]
    requires GroupedYears(acc, ps, year)
    ensures GroupedYears(Place(acc, p, year, month), next, year)
  {
    var r: map<int, seq<MonthGroup>> := Place(acc, p, year, month);
    forall y | y in r ensures Filter(next, YearIs(year, y)) != [] {
      FilterSnoc(ps, p, YearIs(year, y));
      if y == year(When(p)) {
        assert YearIs(year, y)(p);
      }
    }
  }

  /** The callback keeps the grouping right for one more entry. */
  lemma PlaceKeeps(acc: map<int, seq<MonthGroup>>, ps: seq<Post>, p: Post, next: seq<Post>, year: int -> int, month: int -> string)
    requires next == ps + [p]
    requires Grouped(acc, ps, year, month)
    ensures Grouped(Place(acc, p, year, month), next, year, month)
  {
    var r: map<int, seq<MonthGroup>> := Place(acc, p, year, month);
    PlaceYears(acc, ps, p, next, year, month);
    forall y | y in r ensures Names(r[y]) == MonthsOf(next, year, month, y) {
      PlaceNamesAt(acc, ps, p, year, month, y);
    }
    forall y, k | y in r && 0 <= k < |r[y]|
      ensures r[y][k].posts == Filter(next, InMonth(year, month, y, r[y][k].name))
    {
      PlacePostsAt(acc, ps, p, year, month, y, k);
    }
  }

  /** The callback run on the entry at `i`, in terms of the prefix before it. */
  lemma PlaceStep(acc: map<int, seq<MonthGroup>>, posts: seq<Post>, i: nat, year: int -> int, month: int -> string)
    requires i < |posts| && Grouped(acc, posts[..i], year, month)
    ensures Grouped(Place(acc, posts[i], year, month), posts[..i + 1], year, month)
  {
    assert posts[..i + 1] == posts[..i] + [posts[i]];
    PlaceKeeps(acc, posts[..i], posts[i], posts[..i + 1], year, month);
  }

  /** The reduce over the entries. Besides the groups it keeps the object's
    * keys, the years, in the order they were added. */
  method GroupPosts(posts: seq<Post>, year: int -> int, month: int -> string)
    returns (groups: map<int, seq<MonthGroup>>, keys: seq<int>)
    ensures Grouped(groups, posts, year, month)
    ensures forall y | y in keys :: y in groups
    ensures forall y | y in groups :: y in keys
  {
    groups, keys := map[], [];
    var i := 0;
    while i < |posts|
      invariant 0 <= i <= |posts|
      invariant Grouped(groups, posts[..i], year, month)
      invariant forall y | y in keys :: y in groups
      invariant forall y | y in groups :: y in keys
    {
      PlaceStep(groups, posts, i, year, month);
      var y := year(When(posts[i]));
      if y !in groups {
        keys := keys + [y];
      }
      groups := Place(groups, posts[i], year, month);
      i := i + 1;
    }
    assert posts[..i] == posts;
  }

  /** `Object.keys(groups).sort((a, b) => b - a)`: the years from the latest down. */
  method SortYears(keys: seq<int>) returns (years: seq<int>)
    ensures StrictlyDescending(years)
    ensures forall y | y in years :: y in keys
    ensures forall y | y in keys :: y in years
  {
    years := [];
    var i := 0;
    while i < |keys|
      invariant 0 <= i <= |keys|
      invariant StrictlyDescending(years)
      invariant forall y | y in years :: y in keys[..i]
      invariant forall y | y in keys[..i] :: y in years
    {
      assert keys[..i + 1] == keys[..i] + [keys[i]];
      years := InsertDescending(keys[i], years);
      i := i + 1;
    }
    assert keys[..i] == keys;
  }

  /** The years of the rows, in order. */
  function Years(rows: seq<YearGroup>): (r: seq<int>)
    ensures |r| == |rows| && forall i | 0 <= i < |rows| :: r[i] == rows[i].year
  {
    seq(|rows|, i requires 0 <= i < |rows| => rows[i].year)
  }

  /** What the sidebar lists for the entries `ps`. */
  predicate Archived(rows: seq<YearGroup>, ps: seq<Post>, year: int -> int, month: int -> string) {
    && StrictlyDescending(Years(rows))
    && (forall k | 0 <= k < |rows| :: Filter(ps, YearIs(year, rows[k].year)) != [])
    && (forall p | p in ps :: year(When(p)) in Years(rows))
    && (forall k | 0 <= k < |rows| :: Names(rows[k].months) == MonthsOf(ps, year, month, rows[k].year))
    && (forall k, j | 0 <= k < |rows| && 0 <= j < |rows[k].months| ::
          rows[k].months[j].posts == Filter(ps, InMonth(year, month, rows[k].year, rows[k].months[j].name)))
  }

  /** The sidebar: nothing when there are no entries, else the years from the
    * latest down, each with its months and their entries. */
  method Archive(posts: Option<seq<Post>>, year: int -> int, month: int -> string) returns (r: Option<seq<YearGroup>>)
    ensures r.None? <==> posts.None? || posts.value == []
    ensures r.Some? ==> Archived(r.value, posts.value, year, month)
  {
    if posts.None? || posts.value == [] {
      return None;
    }
    var ps := posts.value;
    var groups, keys := GroupPosts(ps, year, month);
    var years := SortYears(keys);
    forall k | 0 <= k < |years| ensures years[k] in groups {
      var y := years[k];
      assert y in years;
      assert y in keys;
    }
    var rows := Rows(years, groups);
    RowsArchived(groups, years, rows, ps, year, month);
    r := Some(rows);
  }

  /** `years.map(year => …)`: each year with the groups filed under it. */
  function Rows(years: seq<int>, groups: map<int, seq<MonthGroup>>): (rows: seq<YearGroup>)
    requires forall k | 0 <= k < |years| :: years[k] in groups
    ensures |rows| == |years|
    ensures forall k | 0 <= k < |years| :: years[k] in groups && rows[k] == YearGroup(years[k], groups[years[k]])
  {
    if years == [] then []
    else [YearGroup(years[0], groups[years[0]])] + Rows(years[1..], groups)
  }

  /** The rows built from the grouping and its sorted years list the entries. */
  lemma RowsArchived(groups: map<int, seq<MonthGroup>>, years: seq<int>, rows: seq<YearGroup>, ps: seq<Post>, year: int -> int, month: int -> string)
    requires Grouped(groups, ps, year, month)
    requires StrictlyDescending(years)
    requires forall y | y in years :: y in groups
    requires forall y | y in groups :: y in years
    requires |rows| == |years|
    requires forall k | 0 <= k < |years| :: years[k] in groups && rows[k] == YearGroup(years[k], groups[years[k]])
    ensures Archived(rows, ps, year, month)
  {
    assert Years(rows) == years;
    forall p | p in ps ensures year(When(p)) in Years(rows) {
      var y := year(When(p));
      assert y in groups;
      assert y in years;
    }
  }

  /** Every entry is listed: under its year and its month. */
  lemma EachPostListed(rows: seq<YearGroup>, ps: seq<Post>, year: int -> int, month: int -> string, p: Post)
    requires Archived(rows, ps, year, month) && p in ps
    ensures exists k, j | 0 <= k < |rows| && 0 <= j < |rows[k].months| :: p in rows[k].months[j].posts
  {
    var y := year(When(p));
    var m := month(When(p));
    var f := InMonth(year, month, y, m);
    assert p in Filter(ps, f) by {
      assert f(p);
    }
    var ys := Years(rows);
    assert y in ys;
    var k :| 0 <= k < |rows| && ys[k] == y;
    var ms := rows[k].months;
    var names := Names(ms);
    assert m in names by {
      assert rows[k].year == y;
      assert names == MonthsOf(ps, year, month, y);
      ListedMonth(ps, year, month, y, m);
    }
    var j :| 0 <= j < |names| && names[j] == m;
    assert ms[j].posts == Filter(ps, f) by {
      assert rows[k].year == y && ms[j].name == m;
    }
    assert 0 <= j < |rows[k].months| && p in rows[k].months[j].posts;
  }

  /** No entry is listed twice: the year and the month it is listed under are
    * its own, and years and month names do not repeat. */
  lemma EachPostOnce(rows: seq<YearGroup>, ps: seq<Post>, year: int -> int, month: int -> string, p: Post,
                     k1: nat, j1: nat, k2: nat, j2: nat)
    requires Archived(rows, ps, year, month)
    requires k1 < |rows| && j1 < |rows[k1].months| && p in rows[k1].months[j1].posts
    requires k2 < |rows| && j2 < |rows[k2].months| && p in rows[k2].months[j2].posts
    ensures k1 == k2 && j1 == j2
  {
    var y, m := year(When(p)), month(When(p));
    var g1, g2 := rows[k1].months[j1], rows[k2].months[j2];
    assert p in Filter(ps, InMonth(year, month, rows[k1].year, g1.name));
    assert p in Filter(ps, InMonth(year, month, rows[k2].year, g2.name));
    assert rows[k1].year == y && g1.name == m;
    assert rows[k2].year == y && g2.name == m;
    var names := Names(rows[k1].months);
    assert Distinct(names);
    assert names[j1] == names[j2];
  }

  /** A month's entries keep the order of the input: the entries of a longer
    * list are those of its first part followed by those of the rest. */
  lemma MonthKeepsOrder(a: seq<Post>, b: seq<Post>, year: int -> int, month: int -> string, y: int, m: string)
    ensures Filter(a + b, InMonth(year, month, y, m))
      == Filter(a, InMonth(year, month, y, m)) + Filter(b, InMonth(year, month, y, m))
  {
    FilterAppend(a, b, InMonth(year, month, y, m));
  }
}

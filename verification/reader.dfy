/**
  Reading prizes back: every prize joined with its category's code, filtered
  by an optional year and an optional non-blank category code, ordered by
  year and then category key, each with its laureates nested and each
  laureate with the person and the organization its foreign keys point to.
  Both are read into the person shape, so an organization keeps its name but
  loses its identifier.
 */
module PrizeReader {
  import opened Wrappers
  import opened Store

  /** The person shape every linked row is read into: its person identifier (none for an organization) and its name. */
  datatype PersonView = PersonView(personIdentifier: Option<string>, name: string)

  datatype LaureateView = LaureateView(
    description: Option<string>,
    nominator: int,
    denominator: int,
    person: Option<PersonView>,
    organization: Option<PersonView>)

  datatype PrizeView = PrizeView(category: string, year: int, url: Option<string>, laureates: seq<LaureateView>)

  /**
    Whitespace in the sense of Java's `Character.isWhitespace`: the space,
    line and paragraph separators other than the no-break spaces U+00A0, U+2007
    and U+202F, and the controls tab, line feed, U+000B, form feed, carriage
    return and U+001C to U+001F.
   */
  predicate IsWhitespace(c: char)
  {
    || c == ' ' || c == '\t' || c == '\n' || c == '\r' || c == '\U{B}' || c == '\U{C}' || '\U{1C}' <= c <= '\U{1F}'
    || c == '\U{1680}' || '\U{2000}' <= c <= '\U{2006}' || '\U{2008}' <= c <= '\U{200A}'
    || c == '\U{2028}' || c == '\U{2029}' || c == '\U{205F}' || c == '\U{3000}'
  }

  /** Empty or whitespace only, as `String.isBlank`. */
  predicate IsBlank(s: string)
  {
    forall i :: 0 <= i < |s| ==> IsWhitespace(s[i])
  }

  /** Blank codes beyond ASCII: the ideographic and em spaces are blank; the no-break spaces are not. */
  lemma BlankBeyondAscii()
    ensures IsBlank("\U{3000}") && IsBlank(" \U{2003}\t\U{2028}")
    ensures !IsBlank("\U{A0}") && !IsBlank("\U{2007}") && !IsBlank("\U{202F}") && !IsBlank(" E ")
  {
    assert " E "[1] == 'E';
    assert "\U{A0}"[0] == '\U{A0}';
    assert "\U{2007}"[0] == '\U{2007}';
    assert "\U{202F}"[0] == '\U{202F}';
  }

  /** The category condition is added only for a present, non-blank code. */
  predicate FiltersOnCategory(category: Option<string>)
  {
    category.Some? && !IsBlank(category.value)
  }

  /** A prize row together with the code of its category. */
  datatype Joined = Joined(prize: PrizeRow, code: string)

  /** The code of the category with this key, if there is one. */
  function CodeOfCategory(categories: seq<CategoryRow>, id: int): (r: Option<string>)
    ensures r.Some? ==> exists i :: 0 <= i < |categories| && categories[i].id == id && categories[i].code == r.value
    ensures r.None? <==> forall i :: 0 <= i < |categories| ==> categories[i].id != id
  {
    match FirstIndex(categories, (c: CategoryRow) => c.id == id)
    case Some(i) => Some(categories[i].code)
    case None => None
  }

  /** The year condition when a year is given, and the category condition when it applies. */
  predicate Matches(j: Joined, year: Option<int>, category: Option<string>)
  {
    && (year.Some? ==> j.prize.year == year.value)
    && (FiltersOnCategory(category) ==> j.code == category.value)
  }

  /** The prizes that have a category and meet the conditions, joined with their code, in store order. */
  function Select(prizes: seq<PrizeRow>, categories: seq<CategoryRow>, year: Option<int>, category: Option<string>)
    : (r: seq<Joined>)
    ensures |r| <= |prizes|
    ensures forall j :: j in r <==> j.prize in prizes && CodeOfCategory(categories, j.prize.categoryId) == Some(j.code)
                                    && Matches(j, year, category)
  {
    if |prizes| == 0 then []
    else
      var rest := Select(prizes[1..], categories, year, category);
      match CodeOfCategory(categories, prizes[0].categoryId)
      case Some(code) =>
        if Matches(Joined(prizes[0], code), year, category) then [Joined(prizes[0], code)] + rest else rest
      case None => rest
  }

  /** The ordering of the query: by year, then by category key. */
  predicate Before(a: Joined, b: Joined)
  {
    a.prize.year < b.prize.year || (a.prize.year == b.prize.year && a.prize.categoryId <= b.prize.categoryId)
  }

  predicate Ordered(js: seq<Joined>)
  {
    forall i, k :: 0 <= i < k < |js| ==> Before(js[i], js[k])
  }

  function Insert(j: Joined, js: seq<Joined>): (r: seq<Joined>)
    requires Ordered(js)
    ensures Ordered(r)
    ensures multiset(r) == multiset(js) + multiset{j}
    ensures |r| == |js| + 1
  {
    if |js| == 0 then [j]
    else if !Before(js[0], j) then
      assert forall k :: 0 <= k < |js| ==> Before(j, js[k]);
      ConsOrdered(j, js);
      [j] + js
    else
      var tail := js[1..];
      assert js == [js[0]] + tail;
      assert forall k :: 0 <= k < |tail| ==> Before(js[0], tail[k]);
      var rest := Insert(j, tail);
      InsertBelow(js[0], j, tail, rest);
      ConsOrdered(js[0], rest);
      [js[0]] + rest
  }

  /** An ordered list stays ordered with a row in front that comes before all of it. */
  lemma ConsOrdered(x: Joined, js: seq<Joined>)
    requires Ordered(js)
    requires forall k :: 0 <= k < |js| ==> Before(x, js[k])
    ensures Ordered([x] + js)
  {
    forall i, k | 0 <= i < k < |js| + 1 ensures Before(([x] + js)[i], ([x] + js)[k]) {
      if i > 0 {
        assert ([x] + js)[i] == js[i - 1];
      }
      assert ([x] + js)[k] == js[k - 1];
    }
  }

  /** A row that comes before a new row and before every row of a list comes before every row of the list with the new row added. */
  lemma InsertBelow(x: Joined, j: Joined, js: seq<Joined>, r: seq<Joined>)
    requires Before(x, j)
    requires forall k :: 0 <= k < |js| ==> Before(x, js[k])
    requires multiset(r) == multiset(js) + multiset{j}
    ensures forall k :: 0 <= k < |r| ==> Before(x, r[k])
  {
    forall k | 0 <= k < |r| ensures Before(x, r[k]) {
      assert r[k] in multiset(r);
      if r[k] != j {
        assert r[k] in multiset(js);
        var i :| 0 <= i < |js| && js[i] == r[k];
      }
    }
  }

  /**
    The rows in query order. The database leaves the order of rows equal in
    year and category key open; here each row is inserted after the rows equal
    to it, so they keep store order.
   */
  function Sort(js: seq<Joined>): (r: seq<Joined>)
    ensures Ordered(r)
    ensures multiset(r) == multiset(js)
    ensures |r| == |js|
  {
    if |js| == 0 then []
    else
      assert js == js[..|js| - 1] + [js[|js| - 1]];
      Insert(js[|js| - 1], Sort(js[..|js| - 1]))
  }

  /** A single row, if it belongs to the prize. */
  function RowIfOf(l: LaureateRow, prizeId: int): (r: seq<LaureateRow>)
  {
    if l.prizeId == prizeId then [l] else []
  }

  /** The laureate rows of one prize, in store order. */
  function RowsOf(laureates: seq<LaureateRow>, prizeId: int): (r: seq<LaureateRow>)
    ensures forall i :: 0 <= i < |r| ==> r[i].prizeId == prizeId
    ensures forall l :: l in r <==> l in laureates && l.prizeId == prizeId
    ensures |r| <= |laureates|
  {
    if |laureates| == 0 then []
    else
      assert forall l :: l in laureates <==> l == laureates[0] || l in laureates[1..];
      RowIfOf(laureates[0], prizeId) + RowsOf(laureates[1..], prizeId)
  }

  /**
    The person a foreign key points to, in the person shape: the first person
    row with that key, with its identifier and name; none for an absent key.
   */
  function PersonOf(persons: seq<PersonRow>, key: Option<int>): (r: Option<PersonView>)
    ensures key.None? ==> r.None?
    ensures r.Some? ==> exists i :: 0 <= i < |persons| && persons[i].id == key.value
                                    && r.value == PersonView(Some(persons[i].personIdentifier), persons[i].name)
                                    && forall k :: 0 <= k < i ==> persons[k].id != key.value
    ensures key.Some? ==> (r.None? <==> forall i :: 0 <= i < |persons| ==> persons[i].id != key.value)
  {
    match key
    case None => None
    case Some(id) =>
      match FirstIndex(persons, (p: PersonRow) => p.id == id)
      case Some(i) => Some(PersonView(Some(persons[i].personIdentifier), persons[i].name))
      case None => None
  }

  /**
    The organization a foreign key points to, read into the person shape: the
    first organization row with that key keeps its name, and its organization
    identifier, which the person shape has no place for, is lost. None for an
    absent key.
   */
  function OrganizationOf(organizations: seq<OrganizationRow>, key: Option<int>): (r: Option<PersonView>)
    ensures key.None? ==> r.None?
    ensures r.Some? ==> r.value.personIdentifier.None?
    ensures r.Some? ==> exists i :: 0 <= i < |organizations| && organizations[i].id == key.value
                                    && r.value == PersonView(None, organizations[i].name)
                                    && forall k :: 0 <= k < i ==> organizations[k].id != key.value
    ensures key.Some? ==> (r.None? <==> forall i :: 0 <= i < |organizations| ==> organizations[i].id != key.value)
  {
    match key
    case None => None
    case Some(id) =>
      match FirstIndex(organizations, (o: OrganizationRow) => o.id == id)
      case Some(i) => Some(PersonView(None, organizations[i].name))
      case None => None
  }

  function LaureateViewOf(db: Db, row: LaureateRow): (v: LaureateView)
  {
    LaureateView(row.description, row.nominator, row.denominator,
                 PersonOf(db.persons, row.personId), OrganizationOf(db.organizations, row.organizationId))
  }

  function LaureateViews(db: Db, rows: seq<LaureateRow>): (r: seq<LaureateView>)
    ensures |r| == |rows| && forall i :: 0 <= i < |rows| ==> r[i] == LaureateViewOf(db, rows[i])
  {
    seq(|rows|, i requires 0 <= i < |rows| => LaureateViewOf(db, rows[i]))
  }

  /** The views of some laureate rows are the views of exactly those rows. */
  lemma LaureateViewsContents(db: Db, rows: seq<LaureateRow>)
    ensures forall v :: v in LaureateViews(db, rows) <==> exists l :: l in rows && v == LaureateViewOf(db, l)
  {
    var views := LaureateViews(db, rows);
    forall v | v in views ensures exists l :: l in rows && v == LaureateViewOf(db, l) {
      var i :| 0 <= i < |views| && views[i] == v;
      assert rows[i] in rows;
    }
    forall l | l in rows ensures LaureateViewOf(db, l) in views {
      var i :| 0 <= i < |rows| && rows[i] == l;
      assert views[i] == LaureateViewOf(db, l);
    }
  }

  /**
    One prize with its laureates nested: the joined code, year and url, and a
    laureate view for exactly the laureate rows that reference the prize.
   */
  function PrizeViewOf(db: Db, j: Joined): (v: PrizeView)
    ensures v.category == j.code && v.year == j.prize.year && v.url == j.prize.url
    ensures forall lv :: lv in v.laureates <==> exists l :: l in db.laureates && l.prizeId == j.prize.id
                                                           && lv == LaureateViewOf(db, l)
  {
    var rows := RowsOf(db.laureates, j.prize.id);
    LaureateViewsContents(db, rows);
    PrizeView(j.code, j.prize.year, j.prize.url, LaureateViews(db, rows))
  }

  /**
    A prize's view holds one laureate view per laureate row that references the
    prize: the views, in order, are those of a list of rows holding each such
    row as often as the table does, and no other row.
   */
  lemma PrizeViewCountsRows(db: Db, j: Joined)
    ensures var rows := RowsOf(db.laureates, j.prize.id);
            && |PrizeViewOf(db, j).laureates| == |rows|
            && (forall i :: 0 <= i < |rows| ==> PrizeViewOf(db, j).laureates[i] == LaureateViewOf(db, rows[i]))
            && forall l :: multiset(rows)[l] == if l.prizeId == j.prize.id then multiset(db.laureates)[l] else 0
  {
    RowsOfMultiset(db.laureates, j.prize.id);
  }

  /** The selected rows in query order. */
  function QueryRows(db: Db, year: Option<int>, category: Option<string>): (r: seq<Joined>)
    ensures Ordered(r)
    ensures |r| == |Select(db.prizes, db.categories, year, category)|
    ensures multiset(r) == multiset(Select(db.prizes, db.categories, year, category))
    ensures forall j :: j in r <==> j.prize in db.prizes && CodeOfCategory(db.categories, j.prize.categoryId) == Some(j.code)
                                    && Matches(j, year, category)
  {
    var selected := Select(db.prizes, db.categories, year, category);
    var sorted := Sort(selected);
    assert forall j :: j in sorted <==> j in multiset(sorted);
    assert forall j :: j in selected <==> j in multiset(selected);
    sorted
  }

  /** The view shows this prize row: its category's code, year and url, and the views of exactly its laureate rows. */
  predicate Shows(db: Db, v: PrizeView, p: PrizeRow)
  {
    && CodeOfCategory(db.categories, p.categoryId) == Some(v.category)
    && v.year == p.year
    && v.url == p.url
    && v.laureates == LaureateViews(db, RowsOf(db.laureates, p.id))
  }

  function PrizeViews(db: Db, rows: seq<Joined>): (r: seq<PrizeView>)
    ensures |r| == |rows| && forall i :: 0 <= i < |rows| ==> r[i] == PrizeViewOf(db, rows[i])
  {
    seq(|rows|, i requires 0 <= i < |rows| => PrizeViewOf(db, rows[i]))
  }

  /** The prize query. */
  function GetNobelPrizes(db: Db, year: Option<int>, category: Option<string>): (r: seq<PrizeView>)
    ensures |r| == |Select(db.prizes, db.categories, year, category)|
    ensures forall i :: 0 <= i < |r| ==> year.Some? ==> r[i].year == year.value
    ensures forall i :: 0 <= i < |r| ==> FiltersOnCategory(category) ==> r[i].category == category.value
    ensures forall i, k :: 0 <= i < k < |r| ==> r[i].year <= r[k].year
  {
    var rows := QueryRows(db, year, category);
    assert forall i :: 0 <= i < |rows| ==> rows[i] in rows;
    ViewsFollowRows(db, rows, year, category);
    PrizeViews(db, rows)
  }

  /** Views of ordered rows that meet the conditions are ordered by year and meet the conditions. */
  lemma ViewsFollowRows(db: Db, rows: seq<Joined>, year: Option<int>, category: Option<string>)
    requires Ordered(rows)
    requires forall i :: 0 <= i < |rows| ==> Matches(rows[i], year, category)
    ensures var r := PrizeViews(db, rows);
            && (forall i :: 0 <= i < |r| ==> year.Some? ==> r[i].year == year.value)
            && (forall i :: 0 <= i < |r| ==> FiltersOnCategory(category) ==> r[i].category == category.value)
            && (forall i, k :: 0 <= i < k < |r| ==> r[i].year <= r[k].year)
  {
  }

  /** Every prize the query returns shows a stored prize row. */
  lemma QueryIsSound(db: Db, year: Option<int>, category: Option<string>, i: nat)
    requires i < |GetNobelPrizes(db, year, category)|
    ensures exists p :: p in db.prizes && Matches(Joined(p, GetNobelPrizes(db, year, category)[i].category), year, category)
                        && Shows(db, GetNobelPrizes(db, year, category)[i], p)
  {
    var rows := QueryRows(db, year, category);
    assert rows[i] in rows;
    assert Shows(db, PrizeViews(db, rows)[i], rows[i].prize);
  }

  /** Every stored prize row that has a category and meets the conditions is returned. */
  lemma QueryIsComplete(db: Db, year: Option<int>, category: Option<string>, p: PrizeRow, code: string)
    requires p in db.prizes && CodeOfCategory(db.categories, p.categoryId) == Some(code)
    requires Matches(Joined(p, code), year, category)
    ensures exists i :: 0 <= i < |GetNobelPrizes(db, year, category)| && Shows(db, GetNobelPrizes(db, year, category)[i], p)
  {
    var rows := QueryRows(db, year, category);
    var views := GetNobelPrizes(db, year, category);
    assert views == PrizeViews(db, rows);
    assert Joined(p, code) in rows;
    var i :| 0 <= i < |rows| && rows[i] == Joined(p, code);
    assert views[i] == PrizeViewOf(db, Joined(p, code));
    assert Shows(db, views[i], p);
  }

  /** A blank category code selects the same rows as no category at all. */
  lemma {:induction false} SelectIgnoresBlankCategory(prizes: seq<PrizeRow>, categories: seq<CategoryRow>, year: Option<int>, c: string)
    requires IsBlank(c)
    ensures Select(prizes, categories, year, Some(c)) == Select(prizes, categories, year, None)
  {
    if |prizes| > 0 {
      SelectIgnoresBlankCategory(prizes[1..], categories, year, c);
    }
  }

  /** A blank category code means "no category condition", not "category equals the blank code". */
  lemma BlankCategoryIsNoFilter(db: Db, year: Option<int>, c: string)
    requires IsBlank(c)
    ensures GetNobelPrizes(db, year, Some(c)) == GetNobelPrizes(db, year, None)
  {
    SelectIgnoresBlankCategory(db.prizes, db.categories, year, c);
  }

  /** The selection over two stretches of the prize table comes stretch by stretch. */
  lemma {:induction false} SelectAppend(a: seq<PrizeRow>, b: seq<PrizeRow>, categories: seq<CategoryRow>,
                                        year: Option<int>, category: Option<string>)
    ensures Select(a + b, categories, year, category) == Select(a, categories, year, category) + Select(b, categories, year, category)
  {
    if |a| == 0 {
      assert a + b == b;
    } else {
      assert (a + b)[0] == a[0];
      assert (a + b)[1..] == a[1..] + b;
      SelectAppend(a[1..], b, categories, year, category);
    }
  }

  /** Two rows equal in year and category key come out in store order. */
  lemma SortKeepsTies(a: Joined, b: Joined)
    requires a.prize.year == b.prize.year && a.prize.categoryId == b.prize.categoryId
    ensures Sort([a, b]) == [a, b]
  {
    assert [a, b][..1] == [a];
    assert [a][..0] == [];
  }

  /** The laureate rows of a prize, over two stretches of the table, come stretch by stretch. */
  lemma {:induction false} RowsOfAppend(a: seq<LaureateRow>, b: seq<LaureateRow>, prizeId: int)
    ensures RowsOf(a + b, prizeId) == RowsOf(a, prizeId) + RowsOf(b, prizeId)
  {
    if |a| == 0 {
      assert a + b == b;
    } else {
      var head := RowIfOf(a[0], prizeId);
      calc {
        RowsOf(a + b, prizeId);
        { assert (a + b)[0] == a[0]; assert (a + b)[1..] == a[1..] + b; }
        head + RowsOf(a[1..] + b, prizeId);
        { RowsOfAppend(a[1..], b, prizeId); }
        head + (RowsOf(a[1..], prizeId) + RowsOf(b, prizeId));
        (head + RowsOf(a[1..], prizeId)) + RowsOf(b, prizeId);
      }
    }
  }

  /** The laureate rows of a prize hold each row that references it as often as the table does, and no other row. */
  lemma {:induction false} RowsOfMultiset(laureates: seq<LaureateRow>, prizeId: int)
    ensures forall l :: multiset(RowsOf(laureates, prizeId))[l] == if l.prizeId == prizeId then multiset(laureates)[l] else 0
  {
    if |laureates| > 0 {
      var head := laureates[0];
      RowsOfMultiset(laureates[1..], prizeId);
      assert laureates == [head] + laureates[1..];
      assert multiset(laureates) == multiset{head} + multiset(laureates[1..]);
      assert multiset(RowsOf(laureates, prizeId)) == multiset(RowIfOf(head, prizeId)) + multiset(RowsOf(laureates[1..], prizeId));
    }
  }

  /** When every row belongs to the prize, all of them are its laureates, in order. */
  lemma {:induction false} RowsOfAllMatching(rows: seq<LaureateRow>, prizeId: int)
    requires forall i :: 0 <= i < |rows| ==> rows[i].prizeId == prizeId
    ensures RowsOf(rows, prizeId) == rows
  {
    if |rows| > 0 {
      RowsOfAllMatching(rows[1..], prizeId);
    }
  }

  /** When no row belongs to the prize, it has no laureates. */
  lemma RowsOfNoneMatching(rows: seq<LaureateRow>, prizeId: int)
    requires forall i :: 0 <= i < |rows| ==> rows[i].prizeId != prizeId
    ensures RowsOf(rows, prizeId) == []
  {
  }
}

/**
 * The agent's brochure page (frontend/src/pages/agent/AgentBrochures.jsx):
 * it lists the university programmes assigned to the agent, fetches each
 * programme's brochures, flattens them into one table sorted newest first,
 * filters the table by a search text and a programme, shows it ten rows per
 * page and builds download links. The network calls are parameters: the
 * programme list, and a function giving each programme's brochures or None
 * when that request failed.
 */
module AgentBrochures {
  import opened Common
  import opened Text

  type Id = string

  /** A university programme as the programme list returns it; `typeName` is the populated type's name. */
  datatype Program = Program(id: Id, name: Option<string>, country: Option<string>, typeName: Option<string>)

  /** A brochure document as the brochure endpoint returns it, its category populated. */
  datatype Stored = Stored(id: Id, title: Option<string>, programId: Id, categoryName: Option<string>,
                           fileUrl: Option<string>, updatedAt: int)

  /** One row of the flat table: the brochure with its programme's details copied in. */
  datatype Row = Row(brochure: Stored, universityName: Option<string>, country: Option<string>, typeName: string)

  // ---------------------------------------------------------------------------
  // Loading
  // ---------------------------------------------------------------------------

  /** The programme details injected into one brochure; a programme without a type reads 'Standard'. */
  function Decorate(p: Program, b: Stored): (r: Row)
    ensures r.brochure == b && r.universityName == p.name && r.country == p.country
    ensures r.typeName != []
    ensures p.typeName.Some? && p.typeName.value != [] ==> r.typeName == p.typeName.value
  {
    Row(b, p.name, p.country, OrElse(p.typeName, "Standard"))
  }

  /** The brochures of one programme, decorated; a failed request contributes nothing. */
  function RowsOf(p: Program, fetched: Option<seq<Stored>>): (r: seq<Row>)
    ensures fetched.None? ==> r == []
    ensures fetched.Some? ==> |r| == |fetched.value|
  {
    if fetched.None? then []
    else seq(|fetched.value|, i requires 0 <= i < |fetched.value| => Decorate(p, fetched.value[i]))
  }

  /** `Promise.all` over the programmes followed by `flat()`, in programme order. */
  function Collect(programs: seq<Program>, fetch: Id -> Option<seq<Stored>>): seq<Row>
  {
    if programs == [] then []
    else RowsOf(programs[0], fetch(programs[0].id)) + Collect(programs[1..], fetch)
  }

  /** Every row comes from a brochure some programme's request returned, decorated with that programme. */
  lemma {:induction false} CollectSound(programs: seq<Program>, fetch: Id -> Option<seq<Stored>>)
    ensures forall k :: 0 <= k < |Collect(programs, fetch)| ==>
      (exists i :: (0 <= i < |programs| && fetch(programs[i].id).Some?
        && Collect(programs, fetch)[k].brochure in fetch(programs[i].id).value
        && Collect(programs, fetch)[k] == Decorate(programs[i], Collect(programs, fetch)[k].brochure)))
  {
    if programs != [] {
      CollectSound(programs[1..], fetch);
      var head := RowsOf(programs[0], fetch(programs[0].id));
      var c := Collect(programs, fetch);
      var tail := Collect(programs[1..], fetch);
      assert c == head + tail;
      forall k | 0 <= k < |c|
        ensures exists i :: (0 <= i < |programs| && fetch(programs[i].id).Some?
          && c[k].brochure in fetch(programs[i].id).value && c[k] == Decorate(programs[i], c[k].brochure))
      {
        if k < |head| {
          assert c[k] == head[k];
          assert c[k].brochure == fetch(programs[0].id).value[k];
          assert 0 <= 0 < |programs| && fetch(programs[0].id).Some?
            && c[k].brochure in fetch(programs[0].id).value && c[k] == Decorate(programs[0], c[k].brochure);
        } else {
          assert c[k] == tail[k - |head|];
          var i :| 0 <= i < |programs[1..]| && fetch(programs[1..][i].id).Some?
            && tail[k - |head|].brochure in fetch(programs[1..][i].id).value
            && tail[k - |head|] == Decorate(programs[1..][i], tail[k - |head|].brochure);
          assert programs[1..][i] == programs[i + 1];
          assert 0 <= i + 1 < |programs| && fetch(programs[i + 1].id).Some?
            && c[k].brochure in fetch(programs[i + 1].id).value && c[k] == Decorate(programs[i + 1], c[k].brochure);
        }
      }
    } else {
      assert Collect(programs, fetch) == [];
    }
  }

  /** Every brochure a successful request returned appears, decorated with its programme. */
  lemma {:induction false} CollectComplete(programs: seq<Program>, fetch: Id -> Option<seq<Stored>>)
    ensures forall i, b :: (0 <= i < |programs| && fetch(programs[i].id).Some? && b in fetch(programs[i].id).value
      ==> Decorate(programs[i], b) in Collect(programs, fetch))
  {
    if programs != [] {
      CollectComplete(programs[1..], fetch);
      var head := RowsOf(programs[0], fetch(programs[0].id));
      var tail := Collect(programs[1..], fetch);
      forall i, b | 0 <= i < |programs| && fetch(programs[i].id).Some? && b in fetch(programs[i].id).value
        ensures Decorate(programs[i], b) in Collect(programs, fetch)
      {
        if i == 0 {
          var j :| 0 <= j < |fetch(programs[0].id).value| && fetch(programs[0].id).value[j] == b;
          assert head[j] == Decorate(programs[0], b);
          assert Collect(programs, fetch)[j] == head[j];
        } else {
          assert programs[1..][i - 1] == programs[i];
          var row := Decorate(programs[i], b);
          assert row in tail;
          var j :| 0 <= j < |tail| && tail[j] == row;
          assert Collect(programs, fetch)[|head| + j] == row;
        }
      }
    }
  }

  /** Newest first: `updatedAt` never increases along the table. */
  predicate NewestFirst(rows: seq<Row>) {
    forall i, j :: 0 <= i < j < |rows| ==> rows[i].brochure.updatedAt >= rows[j].brochure.updatedAt
  }

  /** Places `x` before the first row that is not newer than it. */
  function InsertByDate(x: Row, rows: seq<Row>): (r: seq<Row>)
    ensures |r| == |rows| + 1
  {
    if rows == [] || rows[0].brochure.updatedAt <= x.brochure.updatedAt then [x] + rows
    else [rows[0]] + InsertByDate(x, rows[1..])
  }

  /**
   * `sort((a, b) => new Date(b.updatedAt) - new Date(a.updatedAt))`: a stable
   * sort, newest first, written as an insertion sort.
   */
  function SortByDate(rows: seq<Row>): (r: seq<Row>)
    ensures |r| == |rows|
  {
    if rows == [] then [] else InsertByDate(rows[0], SortByDate(rows[1..]))
  }

  /** Inserting adds exactly the one row. */
  lemma {:induction false} InsertByDateCount(x: Row, rows: seq<Row>)
    ensures multiset(InsertByDate(x, rows)) == multiset(rows) + multiset{x}
  {
    if rows != [] && rows[0].brochure.updatedAt > x.brochure.updatedAt {
      InsertByDateCount(x, rows[1..]);
      assert rows == [rows[0]] + rows[1..];
    }
  }

  /** The tail of a newest-first table is newest first. */
  lemma TailNewestFirst(rows: seq<Row>)
    requires rows != [] && NewestFirst(rows)
    ensures NewestFirst(rows[1..])
    ensures forall k :: 0 <= k < |rows[1..]| ==> rows[0].brochure.updatedAt >= rows[1..][k].brochure.updatedAt
  {
    var t := rows[1..];
    forall i, j | 0 <= i < j < |t| ensures t[i].brochure.updatedAt >= t[j].brochure.updatedAt {
      assert t[i] == rows[i + 1] && t[j] == rows[j + 1];
    }
    forall k | 0 <= k < |t| ensures rows[0].brochure.updatedAt >= t[k].brochure.updatedAt {
      assert t[k] == rows[k + 1];
    }
  }

  /** A row no older than every row of a newest-first table can go in front. */
  lemma ConsNewestFirst(x: Row, rows: seq<Row>)
    requires NewestFirst(rows)
    requires forall k :: 0 <= k < |rows| ==> x.brochure.updatedAt >= rows[k].brochure.updatedAt
    ensures NewestFirst([x] + rows)
  {
    var r := [x] + rows;
    forall i, j | 0 <= i < j < |r| ensures r[i].brochure.updatedAt >= r[j].brochure.updatedAt {
      if i == 0 {
        assert r[j] == rows[j - 1];
      } else {
        assert r[i] == rows[i - 1] && r[j] == rows[j - 1];
      }
    }
  }

  /** Inserting keeps a newest-first table newest first. */
  lemma {:induction false} InsertByDateSorted(x: Row, rows: seq<Row>)
    requires NewestFirst(rows)
    ensures NewestFirst(InsertByDate(x, rows))
  {
    if rows != [] && rows[0].brochure.updatedAt > x.brochure.updatedAt {
      var t := rows[1..];
      TailNewestFirst(rows);
      InsertByDateSorted(x, t);
      InsertByDateCount(x, t);
      var u := InsertByDate(x, t);
      forall k | 0 <= k < |u| ensures rows[0].brochure.updatedAt >= u[k].brochure.updatedAt {
        assert u[k] in multiset(u);
        if u[k] != x {
          assert u[k] in multiset(t);
        }
      }
      ConsNewestFirst(rows[0], u);
    } else if rows != [] {
      TailNewestFirst(rows);
      ConsNewestFirst(x, rows);
    }
  }

  /** The sorted table is newest first and holds the same rows, each as often as before. */
  lemma {:induction false} SortByDateSorted(rows: seq<Row>)
    ensures NewestFirst(SortByDate(rows))
    ensures multiset(SortByDate(rows)) == multiset(rows)
  {
    if rows != [] {
      SortByDateSorted(rows[1..]);
      InsertByDateSorted(rows[0], SortByDate(rows[1..]));
      InsertByDateCount(rows[0], SortByDate(rows[1..]));
      assert rows == [rows[0]] + rows[1..];
    }
  }

  function UpdatedAt(t: int): Row -> bool {
    (r: Row) => r.brochure.updatedAt == t
  }

  /** Inserting a row puts it ahead of every row stamped with the same time, and leaves other times' order alone. */
  lemma {:induction false} InsertByDateTies(x: Row, rows: seq<Row>, t: int)
    ensures x.brochure.updatedAt == t ==>
      Filter(InsertByDate(x, rows), UpdatedAt(t)) == [x] + Filter(rows, UpdatedAt(t))
    ensures x.brochure.updatedAt != t ==>
      Filter(InsertByDate(x, rows), UpdatedAt(t)) == Filter(rows, UpdatedAt(t))
  {
    var p := UpdatedAt(t);
    if rows == [] || rows[0].brochure.updatedAt <= x.brochure.updatedAt {
      assert ([x] + rows)[1..] == rows;
    } else {
      InsertByDateTies(x, rows[1..], t);
      var r := [rows[0]] + InsertByDate(x, rows[1..]);
      assert r[1..] == InsertByDate(x, rows[1..]);
      assert x.brochure.updatedAt == t ==> !p(rows[0]);
    }
  }

  /**
   * The sort is stable: the rows stamped with any one time keep the order they
   * had in the input, so the tie order decides nothing the input did not.
   */
  lemma {:induction false} SortByDateStable(rows: seq<Row>, t: int)
    ensures Filter(SortByDate(rows), UpdatedAt(t)) == Filter(rows, UpdatedAt(t))
  {
    if rows != [] {
      SortByDateStable(rows[1..], t);
      InsertByDateTies(rows[0], SortByDate(rows[1..]), t);
    }
  }

  datatype Loaded = Loaded(brochures: seq<Row>, error: Option<string>)

  /**
   * `fetchInitialData`. A failed programme list (None) leaves the table empty
   * with an error; a failed brochure request only drops that programme's rows.
   */
  function Load(programs: Option<seq<Program>>, fetch: Id -> Option<seq<Stored>>): (r: Loaded)
    ensures programs.None? ==> r == Loaded([], Some("Failed to load brochure data"))
    ensures programs.Some? ==> r.error.None?
  {
    if programs.None? then Loaded([], Some("Failed to load brochure data"))
    else Loaded(SortByDate(Collect(programs.value, fetch)), None)
  }

  /** After a successful load the table is newest first and holds exactly the collected rows. */
  lemma LoadedTable(programs: seq<Program>, fetch: Id -> Option<seq<Stored>>)
    ensures NewestFirst(Load(Some(programs), fetch).brochures)
    ensures multiset(Load(Some(programs), fetch).brochures) == multiset(Collect(programs, fetch))
  {
    SortByDateSorted(Collect(programs, fetch));
  }

  // ---------------------------------------------------------------------------
  // Filtering
  // ---------------------------------------------------------------------------

  /** The row matches an already lower-cased query on title, programme name or category name. */
  predicate MatchesQuery(r: Row, query: string) {
    Contains(Lower(OrElse(r.brochure.title, "")), query)
    || Contains(Lower(OrElse(r.universityName, "")), query)
    || Contains(Lower(OrElse(r.brochure.categoryName, "")), query)
  }

  function Matching(query: string): Row -> bool {
    (r: Row) => MatchesQuery(r, query)
  }

  function InProgram(id: Id): Row -> bool {
    (r: Row) => r.brochure.programId == id
  }

  /** The page number: always at least one. */
  type Page = p: int | p >= 1 witness 1

  datatype Listing = Listing(rows: seq<Row>, page: Page)

  /**
   * `filterBrochures`: the search applies when it is not blank, but the text
   * matched is the untrimmed query, lower-cased; `university` is 'all' or a
   * programme id. Every change of filter goes back to the first page.
   */
  function FilterBrochures(rows: seq<Row>, query: string, university: string): (r: Listing)
    ensures r.page == 1
    ensures |r.rows| <= |rows|
  {
    var searched := if Trim(query) != [] then Filter(rows, Matching(Lower(query))) else rows;
    var shown := if university != "all" then Filter(searched, InProgram(university)) else searched;
    Listing(shown, 1)
  }

  /** The shown rows are the table's rows in their order, some left out. */
  lemma FilterBrochuresSubseq(rows: seq<Row>, query: string, university: string)
    ensures IsSubseq(FilterBrochures(rows, query, university).rows, rows)
  {
    var q := if Trim(query) != [] then Matching(Lower(query)) else (r: Row) => true;
    var u := if university != "all" then InProgram(university) else (r: Row) => true;
    var both := (r: Row) => q(r) && u(r);
    FilterAll(rows, (r: Row) => true);
    var searched := Filter(rows, q);
    FilterAll(searched, (r: Row) => true);
    FilterAnd(rows, q, u, both);
    FilterMembers(rows, both);
  }

  /** A row is shown exactly when it is in the table and passes both filters. */
  lemma FilterBrochuresMembers(rows: seq<Row>, query: string, university: string)
    ensures forall x :: x in FilterBrochures(rows, query, university).rows <==>
      x in rows
      && (Trim(query) == [] || MatchesQuery(x, Lower(query)))
      && (university == "all" || x.brochure.programId == university)
  {
    var q := Matching(Lower(query));
    var u := InProgram(university);
    var searched := if Trim(query) != [] then Filter(rows, q) else rows;
    FilterMembers(rows, q);
    FilterMembers(searched, u);
    var shown := FilterBrochures(rows, query, university).rows;
    forall x ensures x in shown <==>
      x in rows && (Trim(query) == [] || MatchesQuery(x, Lower(query))) && (university == "all" || x.brochure.programId == university)
    {
      if x in shown && university != "all" {
        var k :| 0 <= k < |shown| && shown[k] == x;
        assert u(shown[k]);
      }
      if x in searched && Trim(query) != [] {
        var k :| 0 <= k < |searched| && searched[k] == x;
        assert q(searched[k]);
      }
      if x in rows && (Trim(query) == [] || MatchesQuery(x, Lower(query))) {
        var k :| 0 <= k < |rows| && rows[k] == x;
        if Trim(query) != [] { assert q(rows[k]); }
        assert x in searched;
        if university != "all" && x.brochure.programId == university {
          var m :| 0 <= m < |searched| && searched[m] == x;
          assert u(searched[m]);
        }
      }
    }
  }

  /** Filtering keeps a newest-first table newest first. */
  lemma {:induction false} FilterNewestFirst(rows: seq<Row>, p: Row -> bool)
    requires NewestFirst(rows)
    ensures NewestFirst(Filter(rows, p))
  {
    if rows != [] {
      var t := rows[1..];
      TailNewestFirst(rows);
      FilterNewestFirst(t, p);
      if p(rows[0]) {
        var f := Filter(t, p);
        FilterMembers(t, p);
        forall k | 0 <= k < |f| ensures rows[0].brochure.updatedAt >= f[k].brochure.updatedAt {
          var m :| 0 <= m < |t| && t[m] == f[k];
        }
        ConsNewestFirst(rows[0], f);
      }
    }
  }

  /** The shown table stays newest first. */
  lemma FilterBrochuresNewestFirst(rows: seq<Row>, query: string, university: string)
    requires NewestFirst(rows)
    ensures NewestFirst(FilterBrochures(rows, query, university).rows)
  {
    var searched := if Trim(query) != [] then Filter(rows, Matching(Lower(query))) else rows;
    FilterNewestFirst(rows, Matching(Lower(query)));
    FilterNewestFirst(searched, InProgram(university));
  }

  /** A blank search over all programmes shows the whole table. */
  lemma BlankSearchShowsAll(rows: seq<Row>, query: string)
    requires forall i :: 0 <= i < |query| ==> IsSpace(query[i])
    ensures FilterBrochures(rows, query, "all").rows == rows
  {
    TrimEmptyIff(query);
  }

  /** The row whose only text is `title` does not match a longer query. */
  lemma LongerQueryMisses(b: Stored, title: string, query: string)
    requires b.title == Some(title) && b.categoryName.None? && |query| > |title|
    ensures !Matching(Lower(query))(Row(b, None, None, "Standard"))
  {
    ContainsShorter(Lower(title), Lower(query));
    ContainsShorter(Lower(""), Lower(query));
  }

  /**
   * The search text is trimmed only to decide whether to search: a brochure is
   * not found by its own title typed with a leading space, when its programme
   * and category names are missing.
   */
  lemma LeadingSpaceMisses(b: Stored, title: string)
    requires b.title == Some(title) && b.categoryName.None? && title != [] && !IsSpace(title[0])
    ensures Trim(title) != []
    ensures FilterBrochures([Row(b, None, None, "Standard")], " " + title, "all").rows == []
  {
    var query := " " + title;
    assert Trim(query) != [] by {
      TrimEmptyIff(query);
      assert !IsSpace(query[1]);
    }
    TrimEmptyIff(title);
    var row := Row(b, None, None, "Standard");
    LongerQueryMisses(b, title, query);
    FilterNone([row], Matching(Lower(query)));
  }

  // ---------------------------------------------------------------------------
  // Pagination
  // ---------------------------------------------------------------------------

  const EntriesPerPage: nat := 10

  /** `Array.prototype.slice(start, end)` for `0 <= start <= end`: both ends clamp to the length. */
  function Slice<T>(s: seq<T>, start: nat, end: nat): (r: seq<T>)
    requires start <= end
    ensures |r| <= end - start
  {
    var e := if end < |s| then end else |s|;
    var b := if start < e then start else e;
    s[b..e]
  }

  /** The rows shown on `page`. */
  function PageRows<T>(rows: seq<T>, page: Page): (r: seq<T>)
    ensures |r| <= EntriesPerPage
  {
    Slice(rows, (page - 1) * EntriesPerPage, page * EntriesPerPage)
  }

  /** `Math.ceil(n / 10)`. */
  function TotalPages(n: nat): (t: nat)
    ensures t * EntriesPerPage >= n
    ensures n > 0 ==> (t - 1) * EntriesPerPage < n
    ensures n == 0 ==> t == 0
  {
    (n + EntriesPerPage - 1) / EntriesPerPage
  }

  /** Pages 1 to `k`, one after another. */
  function FirstPages<T>(rows: seq<T>, k: nat): seq<T>
  {
    if k == 0 then [] else FirstPages(rows, k - 1) + PageRows(rows, k)
  }

  /** The first `k` pages are the first `10 k` rows (or all of them). */
  lemma {:induction false} FirstPagesPrefix<T>(rows: seq<T>, k: nat)
    ensures FirstPages(rows, k) == rows[..if k * EntriesPerPage < |rows| then k * EntriesPerPage else |rows|]
  {
    if k > 0 {
      FirstPagesPrefix(rows, k - 1);
    }
  }

  /** The pages partition the table: read in order they give back every row once. */
  lemma PagesPartition<T>(rows: seq<T>)
    ensures FirstPages(rows, TotalPages(|rows|)) == rows
  {
    FirstPagesPrefix(rows, TotalPages(|rows|));
  }

  /** A page has rows exactly when its number is at most the page count. */
  lemma PageNonEmpty<T>(rows: seq<T>, page: Page)
    ensures PageRows(rows, page) != [] <==> page <= TotalPages(|rows|)
  {
  }

  /** The pager is shown only when there is more than one page. */
  predicate PagerShown(total: nat) { total > 1 }

  /** `Math.max(1, p - 1)`. */
  function Previous(page: Page): (r: Page)
    ensures r <= page
  {
    if page - 1 > 1 then page - 1 else 1
  }

  /** `Math.min(totalPages, p + 1)`. */
  function Next(page: Page, total: nat): (r: int)
    ensures r <= page + 1
  {
    if total < page + 1 then total else page + 1
  }

  /**
   * Inside a shown pager the buttons keep the page between 1 and the page
   * count, and a button changes the page exactly when it is enabled
   * (Previous is disabled on page 1, Next on the last page).
   */
  lemma PagerStaysInRange(page: Page, total: nat)
    requires PagerShown(total) && page <= total
    ensures 1 <= Next(page, total) <= total
    ensures Previous(page) <= total
    ensures Next(page, total) == page <==> page == total
    ensures Previous(page) == page <==> page == 1
  {
  }

  // ---------------------------------------------------------------------------
  // Download
  // ---------------------------------------------------------------------------

  /** `VITE_API_URL?.replace('/api', '')`: absent when the variable is unset. */
  function FileBaseUrl(apiUrl: Option<string>): (r: Option<string>)
    ensures r.None? <==> apiUrl.None?
  {
    if apiUrl.None? then None else Some(ReplaceFirst(apiUrl.value, "/api", ""))
  }

  /** An API address ending in `/api`, with no earlier `/api`, loses exactly that suffix. */
  lemma FileBaseUrlStripsApi(host: string)
    requires !Contains(host, "/api")
    ensures FileBaseUrl(Some(host + "/api")) == Some(host)
  {
    var s := host + "/api";
    IndexOfFirst(s, "/api");
    ContainsIff(host, "/api");
    assert OccursAt(s, "/api", |host|);
    ContainsIff(s, "/api");
    forall j | 0 <= j < |host| ensures !OccursAt(s, "/api", j) {
      if OccursAt(s, "/api", j) {
        ApiDoesNotOverlap(s, j, |host|);
        OccursInPrefix(host, "/api", "/api", j);
      }
    }
    assert IndexOf(s, "/api") == |host|;
    assert s[..|host|] == host;
    assert s[|host| + 4..] == [];
    assert ReplaceFirst(s, "/api", "") == s[..|host|] + "" + s[|host| + 4..] == host;
    assert FileBaseUrl(Some(s)) == Some(ReplaceFirst(s, "/api", ""));
  }

  /** Two occurrences of `/api` never overlap: no proper suffix of it starts with '/'. */
  lemma ApiDoesNotOverlap(s: string, k: int, h: int)
    requires OccursAt(s, "/api", k) && OccursAt(s, "/api", h) && k < h
    ensures k + 4 <= h
  {
    assert s[h] == s[h..h + 4][0];
    assert forall i :: k <= i < k + 4 ==> s[i] == s[k..k + 4][i - k];
  }

  /** An occurrence that ends inside the first part is an occurrence in it. */
  lemma OccursInPrefix(a: string, b: string, sub: string, j: int)
    requires OccursAt(a + b, sub, j) && j + |sub| <= |a|
    ensures OccursAt(a, sub, j)
  {
    assert (a + b)[j..j + |sub|] == a[j..j + |sub|];
  }

  datatype Download = Unavailable(message: string) | Link(href: string, fileName: string)

  /**
   * `handleDownload`: an absolute address is used as it is, anything else is
   * appended to the file base address (printed as `undefined` when unset).
   */
  function DownloadLink(base: Option<string>, fileUrl: Option<string>, fileName: Option<string>): (r: Download)
    ensures r.Unavailable? <==> OrElse(fileUrl, "") == []
    ensures r.Link? ==> r.fileName != []
  {
    if OrElse(fileUrl, "") == [] then Unavailable("File not available for download")
    else
      var u := fileUrl.value;
      Link(if StartsWith(u, "http") then u else Interpolate(base) + u, OrElse(fileName, "brochure"))
  }

  /**
   * The link always ends with the stored address; an address under the
   * server's upload root (it starts with '/') gets the base in front, and the
   * page, which passes no file name, downloads as 'brochure'.
   */
  lemma DownloadLinkShape(base: Option<string>, u: string)
    requires u != []
    ensures DownloadLink(base, Some(u), None).fileName == "brochure"
    ensures exists pre :: DownloadLink(base, Some(u), None).href == pre + u
    ensures u[0] == '/' ==> DownloadLink(base, Some(u), None).href == Interpolate(base) + u
    ensures StartsWith(u, "http") ==> DownloadLink(base, Some(u), None).href == u
  {
    if StartsWith(u, "http") {
      assert DownloadLink(base, Some(u), None).href == [] + u;
    } else {
      assert DownloadLink(base, Some(u), None).href == Interpolate(base) + u;
    }
  }
}

/**
 * The "/" listing route of main.go: the page size chosen from the
 * User-Agent, the page number and offset, the filtered SQL query with its
 * placeholder arguments, and the pageSize+1 fetch that detects a next page.
 * The database is a function from the query and its arguments to rows.
 */
module Listing {
  import opened Text

  // ---------------------------------------------------------------- page size

  const BooksPerPage := 24
  const LimitedPageSize := 8

  /** User-Agent keywords of phones, tablets and e-readers. */
  const LimitedKeywords := ["kobo", "mobile", "android", "kindle", "ipad", "iphone"]

  /** Eight books on a limited device, twenty-four otherwise. */
  function PageSize(userAgent: string): (n: int)
    ensures n == LimitedPageSize <==> exists k :: k in LimitedKeywords && Contains(Lower(userAgent), k)
    ensures n == LimitedPageSize || n == BooksPerPage
  {
    var uaLower := Lower(userAgent);
    var isLimited :=
      Contains(uaLower, "kobo") ||
      Contains(uaLower, "mobile") ||
      Contains(uaLower, "android") ||
      Contains(uaLower, "kindle") ||
      Contains(uaLower, "ipad") ||
      Contains(uaLower, "iphone");
    if isLimited then LimitedPageSize else BooksPerPage
  }

  /** The keyword test ignores case: a lower-cased User-Agent gets the same page size. */
  lemma PageSizeIgnoresCase(userAgent: string)
    ensures PageSize(Lower(userAgent)) == PageSize(userAgent)
  {
    LowerIdempotent(userAgent);
  }

  // ------------------------------------------------------ 64-bit page numbers

  const MaxInt64 := 0x7fff_ffff_ffff_ffff
  const MinInt64 := -0x8000_0000_0000_0000

  /** Two's-complement wrap-around of Go's 64-bit int arithmetic. */
  function Wrap64(x: int): (r: int)
    ensures MinInt64 <= r <= MaxInt64
    ensures MinInt64 <= x <= MaxInt64 ==> r == x
    ensures (x - r) % 0x1_0000_0000_0000_0000 == 0
  {
    (x - MinInt64) % 0x1_0000_0000_0000_0000 + MinInt64
  }

  const MaxUint64 := 0xffff_ffff_ffff_ffff

  predicate IsDigit(c: char) {
    '0' <= c <= '9'
  }

  predicate AllDigits(s: string) {
    forall i :: 0 <= i < |s| ==> IsDigit(s[i])
  }

  /** The decimal value of a run of digits. */
  function DigitsValue(s: string): nat
    requires AllDigits(s)
  {
    if s == [] then 0
    else
      assert IsDigit(s[|s| - 1]);
      DigitsValue(s[..|s| - 1]) * 10 + (s[|s| - 1] as int - '0' as int)
  }

  /** What strconv.ParseUint reports: a value, a syntax error or a range error. */
  datatype Parsed = Value(n: nat) | SyntaxError | RangeError

  /**
   * The loop of strconv.ParseUint in base 10 from position i, with n the value
   * read so far: a non-digit is a syntax error, and a digit that takes the
   * value past 2^64 - 1 is a range error at once, whatever follows it.
   */
  function Scan(s: string, i: nat, n: nat): Parsed
    requires i <= |s|
    decreases |s| - i
  {
    if i == |s| then Value(n)
    else if !IsDigit(s[i]) then SyntaxError
    else
      var n' := n * 10 + (s[i] as int - '0' as int);
      if n' > MaxUint64 then RangeError else Scan(s, i + 1, n')
  }

  /** strconv.ParseUint(s, 10, 64). */
  function ParseUint(s: string): Parsed {
    if s == [] then SyntaxError else Scan(s, 0, 0)
  }

  /** The value of a longer run of digits is at least that of its prefix. */
  lemma {:induction false} DigitsValuePrefix(s: string, i: nat, j: nat)
    requires i <= j <= |s| && AllDigits(s[..j])
    ensures AllDigits(s[..i]) && DigitsValue(s[..i]) <= DigitsValue(s[..j])
    decreases j
  {
    assert forall k :: 0 <= k < i ==> s[..i][k] == s[..j][k];
    if i < j {
      assert s[..j][..j - 1] == s[..j - 1];
      DigitsValuePrefix(s, i, j - 1);
    }
  }

  /** Reading digits whose value stays within 2^64 - 1 carries the value of the prefix read. */
  lemma {:induction false} ScanDigits(s: string, i: nat, j: nat)
    requires i <= j <= |s| && AllDigits(s[..j]) && DigitsValue(s[..j]) <= MaxUint64
    ensures AllDigits(s[..i]) && Scan(s, i, DigitsValue(s[..i])) == Scan(s, j, DigitsValue(s[..j]))
    decreases j - i
  {
    DigitsValuePrefix(s, i, j);
    if i < j {
      DigitsValuePrefix(s, i + 1, j);
      assert s[..i + 1][..i] == s[..i];
      assert s[i] == s[..j][i];
      ScanDigits(s, i + 1, j);
    }
  }

  /** A run of digits within 2^64 - 1 parses to its value. */
  lemma ParseUintValue(s: string)
    requires s != [] && AllDigits(s) && DigitsValue(s) <= MaxUint64
    ensures ParseUint(s) == Value(DigitsValue(s))
  {
    assert s[..0] == [] && s[..|s|] == s;
    ScanDigits(s, 0, |s|);
  }

  /** A non-digit reached before the value overflows is a syntax error. */
  lemma ParseUintSyntax(s: string, k: nat)
    requires k < |s| && AllDigits(s[..k]) && !IsDigit(s[k]) && DigitsValue(s[..k]) <= MaxUint64
    ensures ParseUint(s) == SyntaxError
  {
    assert s[..0] == [];
    ScanDigits(s, 0, k);
  }

  /** A leading run of digits past 2^64 - 1 is a range error, whatever follows it. */
  lemma ParseUintRange(s: string, k: nat)
    requires k <= |s| && AllDigits(s[..k]) && DigitsValue(s[..k]) > MaxUint64
    ensures ParseUint(s) == RangeError
  {
    assert s[..0] == [];
    ScanOverflows(s, 0, k);
  }

  lemma {:induction false} ScanOverflows(s: string, i: nat, k: nat)
    requires i <= k <= |s| && AllDigits(s[..k]) && DigitsValue(s[..k]) > MaxUint64
    requires AllDigits(s[..i]) && DigitsValue(s[..i]) <= MaxUint64
    ensures Scan(s, i, DigitsValue(s[..i])) == RangeError
    decreases k - i
  {
    DigitsValuePrefix(s, i + 1, k);
    assert s[..i + 1][..i] == s[..i];
    assert s[i] == s[..k][i];
    if DigitsValue(s[..i + 1]) <= MaxUint64 {
      ScanOverflows(s, i + 1, k);
    }
  }

  /** The string after one optional leading sign. */
  function Unsigned(s: string): string {
    if |s| > 0 && (s[0] == '-' || s[0] == '+') then s[1..] else s
  }

  predicate Negative(s: string) {
    |s| > 0 && s[0] == '-'
  }

  /**
   * strconv.Atoi with the error dropped: one optional sign, then ParseUint;
   * a syntax error gives 0, and a range error or a value beyond the int64
   * range gives the int64 bound of the sign.
   */
  function Atoi(s: string): (n: int)
    ensures MinInt64 <= n <= MaxInt64
    ensures Unsigned(s) == [] ==> n == 0
  {
    match ParseUint(Unsigned(s))
    case SyntaxError => 0
    case RangeError => if Negative(s) then MinInt64 else MaxInt64
    case Value(u) =>
      if Negative(s) then (if u > -MinInt64 then MinInt64 else -(u as int))
      else (if u > MaxInt64 then MaxInt64 else u)
  }

  /** Digits whose value fits give that value, negated after a '-'. */
  lemma AtoiExact(s: string)
    requires Unsigned(s) != [] && AllDigits(Unsigned(s))
    requires DigitsValue(Unsigned(s)) <= if Negative(s) then -MinInt64 else MaxInt64
    ensures Atoi(s) == if Negative(s) then -(DigitsValue(Unsigned(s)) as int) else DigitsValue(Unsigned(s))
  {
    ParseUintValue(Unsigned(s));
  }

  /** Digits whose value does not fit saturate to the bound of the sign. */
  lemma AtoiSaturates(s: string)
    requires Unsigned(s) != [] && AllDigits(Unsigned(s))
    requires DigitsValue(Unsigned(s)) > if Negative(s) then -MinInt64 else MaxInt64
    ensures Atoi(s) == if Negative(s) then MinInt64 else MaxInt64
  {
    var d := Unsigned(s);
    if DigitsValue(d) <= MaxUint64 {
      ParseUintValue(d);
    } else {
      assert d[..|d|] == d;
      ParseUintRange(d, |d|);
    }
  }

  /**
   * A leading run of digits past 2^64 - 1 saturates as well, even when a
   * non-digit follows it: the parser stops at the overflow.
   */
  lemma AtoiOverflowIgnoresRest(s: string, k: nat)
    requires k <= |Unsigned(s)| && AllDigits(Unsigned(s)[..k]) && DigitsValue(Unsigned(s)[..k]) > MaxUint64
    ensures Atoi(s) == if Negative(s) then MinInt64 else MaxInt64
  {
    ParseUintRange(Unsigned(s), k);
  }

  /** A non-digit reached before the value passes 2^64 - 1 gives 0. */
  lemma AtoiSyntaxIsZero(s: string, k: nat)
    requires k < |Unsigned(s)| && AllDigits(Unsigned(s)[..k]) && !IsDigit(Unsigned(s)[k])
    requires DigitsValue(Unsigned(s)[..k]) <= MaxUint64
    ensures Atoi(s) == 0
  {
    ParseUintSyntax(Unsigned(s), k);
  }

  /** The page number as written: Atoi of the query, raised to 1 when below 1. */
  function PageFromQuery(pageStr: string): (page: int)
    ensures 1 <= page <= MaxInt64
    ensures Atoi(pageStr) >= 1 ==> page == Atoi(pageStr)
    ensures Atoi(pageStr) < 1 ==> page == 1
  {
    var page := Atoi(pageStr);
    if page < 1 then 1 else page
  }

  /** offset := (page - 1) * pageSize, in Go's 64-bit int. */
  function Offset(page: int, pageSize: int): (r: int)
    ensures MinInt64 <= r <= MaxInt64
    ensures (r - (page - 1) * pageSize) % 0x1_0000_0000_0000_0000 == 0
  {
    var p := Wrap64(page - 1);
    CongruentScaled(p, page - 1, pageSize);
    var r := Wrap64(p * pageSize);
    CongruentTrans(r, p * pageSize, (page - 1) * pageSize);
    r
  }

  /** Equal modulo 2^64 stays equal modulo 2^64 when both sides are multiplied by c. */
  lemma CongruentScaled(x: int, y: int, c: int)
    requires (x - y) % 0x1_0000_0000_0000_0000 == 0
    ensures (x * c - y * c) % 0x1_0000_0000_0000_0000 == 0
  {
    var q := (x - y) / 0x1_0000_0000_0000_0000;
    assert x - y == 0x1_0000_0000_0000_0000 * q;
    assert x * c - y * c == 0x1_0000_0000_0000_0000 * (q * c);
  }

  lemma CongruentTrans(x: int, y: int, z: int)
    requires (x - y) % 0x1_0000_0000_0000_0000 == 0 && (y - z) % 0x1_0000_0000_0000_0000 == 0
    ensures (x - z) % 0x1_0000_0000_0000_0000 == 0
  {
    var q := (x - y) / 0x1_0000_0000_0000_0000;
    var q' := (y - z) / 0x1_0000_0000_0000_0000;
    assert x - z == 0x1_0000_0000_0000_0000 * (q + q');
  }

  /**
   * As written, the offset is negative for a large page number: page
   * 2^60 + 1 on a limited device gives (2^60) * 8 = 2^63, which wraps to -2^63.
   */
  lemma HugePageGivesNegativeOffset()
    ensures var page := 0x1000_0000_0000_0001;
      1 <= page <= MaxInt64 && Offset(page, LimitedPageSize) == MinInt64
  {
  }

  /**
   * As written, "NextPage": page + 1 wraps when the parsed page saturates:
   * a page query at or beyond the largest int64 gives a next page of -2^63.
   */
  lemma SaturatedPageWrapsNextPage(pageStr: string)
    requires Atoi(pageStr) == MaxInt64
    ensures Wrap64(PageFromQuery(pageStr) + 1) == MinInt64
  {
  }

  /** The largest page whose offset fits in an int64. */
  function LastPage(pageSize: int): (p: int)
    requires pageSize > 0
    ensures 1 <= p && (p - 1) * pageSize <= MaxInt64 < p * pageSize
  {
    MaxInt64 / pageSize + 1
  }

  /** The corrected page number: PageFromQuery, capped at LastPage. */
  function BoundedPage(pageStr: string, pageSize: int): (page: int)
    requires pageSize > 0
    ensures 1 <= page <= LastPage(pageSize)
    ensures PageFromQuery(pageStr) <= LastPage(pageSize) ==> page == PageFromQuery(pageStr)
    ensures PageFromQuery(pageStr) > LastPage(pageSize) ==> page == LastPage(pageSize)
  {
    var page := PageFromQuery(pageStr);
    if page > LastPage(pageSize) then LastPage(pageSize) else page
  }

  /** Up to LastPage, the 64-bit offset is the exact product (page - 1) * pageSize, never negative. */
  lemma OffsetExact(page: int, pageSize: int)
    requires pageSize > 0 && 1 <= page <= LastPage(pageSize)
    ensures Offset(page, pageSize) == (page - 1) * pageSize >= 0
  {
    var p, last := page - 1, LastPage(pageSize) - 1;
    assert Wrap64(p) == p;
    assert p * pageSize <= last * pageSize by {
      assert (last - p) * pageSize >= 0;
    }
    assert Wrap64(p * pageSize) == p * pageSize;
  }

  /** With the page capped, the next page page + 1 fits in an int64 for both page sizes. */
  lemma BoundedNextPageFits(pageStr: string, userAgent: string)
    ensures var page := BoundedPage(pageStr, PageSize(userAgent));
      Wrap64(page + 1) == page + 1 && page + 1 > 1
  {
    var pageSize := PageSize(userAgent);
    assert LastPage(pageSize) < MaxInt64;
  }

  /** With the page capped, the offset is (page - 1) * pageSize and never negative. */
  lemma BoundedPageOffset(pageStr: string, pageSize: int)
    requires pageSize > 0
    ensures var page := BoundedPage(pageStr, pageSize);
      Offset(page, pageSize) == (page - 1) * pageSize >= 0
  {
    OffsetExact(BoundedPage(pageStr, pageSize), pageSize);
  }

  // ------------------------------------------------------------- the query

  /** A value bound to a `?` placeholder. */
  datatype Arg = Str(s: string) | Int(n: int)

  /**
   * A piece of the SQL text: the fixed SELECT ... FROM ... WHERE that every
   * listing starts from (it holds no placeholder), literal text, or one `?`.
   */
  datatype Fragment = BaseSelect | Literal(text: string) | Hole

  /** The number of `?` placeholders of a query. */
  function Holes(q: seq<Fragment>): nat {
    if q == [] then 0 else (if q[0].Hole? then 1 else 0) + Holes(q[1..])
  }

  lemma {:induction false} HolesAppend(a: seq<Fragment>, b: seq<Fragment>)
    ensures Holes(a + b) == Holes(a) + Holes(b)
    decreases |a|
  {
    if a == [] {
      assert a + b == b;
    } else {
      assert (a + b)[1..] == a[1..] + b;
      HolesAppend(a[1..], b);
    }
  }

  /** The arguments of the filters, in the order their placeholders appear. */
  function FilterArgs(query: string, authorID: string, seriesID: string): (r: seq<Arg>)
    ensures forall a :: a in r ==> a.Str?
    ensures |r| == (if query != "" then 2 else 0) + (if authorID != "" then 1 else 0) + (if seriesID != "" then 1 else 0)
    ensures query != "" ==> r[0] == r[1] == Str("%" + query + "%")
    ensures authorID != "" ==> r[|r| - (if seriesID != "" then 2 else 1)] == Str(authorID)
    ensures seriesID != "" ==> r[|r| - 1] == Str(seriesID)
  {
    (if query != "" then [Str("%" + query + "%"), Str("%" + query + "%")] else []) +
    (if authorID != "" then [Str(authorID)] else []) +
    (if seriesID != "" then [Str(seriesID)] else [])
  }

  /** baseQuery += clause; args = append(args, clauseArgs...): one argument per placeholder of the clause. */
  method AddClause(sql: seq<Fragment>, args: seq<Arg>, clause: seq<Fragment>, clauseArgs: seq<Arg>)
    returns (sql': seq<Fragment>, args': seq<Arg>)
    requires Holes(clause) == |clauseArgs|
    ensures sql' == sql + clause && args' == args + clauseArgs
    ensures Holes(sql') - |args'| == Holes(sql) - |args|
  {
    HolesAppend(sql, clause);
    sql', args' := sql + clause, args + clauseArgs;
  }

  /** Appends the filter clauses to the base SELECT, binding one argument to each placeholder appended. */
  method AppendFilters(query: string, authorID: string, seriesID: string)
    returns (sql: seq<Fragment>, args: seq<Arg>)
    ensures Holes(sql) == |args|
    ensures |sql| > 0 && sql[0] == BaseSelect
    ensures args == FilterArgs(query, authorID, seriesID)
  {
    sql := [BaseSelect];
    args := [];
    assert Holes(sql) == 0;

    if query != "" {
      var pattern := "%" + query + "%";
      sql, args := AddClause(sql, args,
        [Literal(" AND (b.title LIKE "), Hole, Literal(" OR a.name LIKE "), Hole, Literal(")")],
        [Str(pattern), Str(pattern)]);
    }
    if authorID != "" {
      sql, args := AddClause(sql, args, [Literal(" AND a.id = "), Hole], [Str(authorID)]);
    }
    if seriesID != "" {
      sql, args := AddClause(sql, args, [Literal(" AND s.id = "), Hole], [Str(seriesID)]);
    }
  }

  /**
   * The whole listing query: the base SELECT, the filters, grouping, the ordering
   * (series order when a series is shown, newest first otherwise) and
   * LIMIT/OFFSET, with one argument per placeholder.
   */
  method BuildQuery(query: string, authorID: string, seriesID: string, pageSize: int, offset: int)
    returns (sql: seq<Fragment>, args: seq<Arg>)
    ensures Holes(sql) == |args|
    ensures |sql| > 0 && sql[0] == BaseSelect
    ensures args == FilterArgs(query, authorID, seriesID) + [Int(pageSize + 1), Int(offset)]
  {
    sql, args := AppendFilters(query, authorID, seriesID);

    sql, args := AddClause(sql, args, [Literal(" GROUP BY b.id")], []);

    if seriesID != "" {
      sql, args := AddClause(sql, args, [Literal(" ORDER BY b.series_index ASC")], []);
    } else {
      sql, args := AddClause(sql, args, [Literal(" ORDER BY b.id DESC")], []);
    }

    sql, args := AddClause(sql, args, [Literal(" LIMIT "), Hole, Literal(" OFFSET "), Hole],
                           [Int(pageSize + 1), Int(offset)]);
  }

  // ------------------------------------------------------------- the page

  /** One listed book, as scanned from a row. */
  datatype Book = Book(
    id: int, title: string, author: string, authorId: int, path: string,
    series: string, seriesId: int, seriesIndex: real, description: string, hasKepub: bool)

  /**
   * Append every returned row, then keep the first pageSize of them; one row
   * more than a page means there is a next page.
   */
  method CollectPage(rows: seq<Book>, pageSize: int) returns (books: seq<Book>, hasNext: bool)
    requires pageSize >= 0
    ensures hasNext <==> |rows| > pageSize
    ensures |books| == (if hasNext then pageSize else |rows|)
    ensures books == rows[..|books|]
  {
    books := [];
    var i := 0;
    while i < |rows|
      invariant 0 <= i <= |rows|
      invariant books == rows[..i]
    {
      books := books + [rows[i]];
      i := i + 1;
    }

    hasNext := false;
    if |books| > pageSize {
      hasNext := true;
      books := books[..pageSize];
    }
  }

  /** What the database answers. */
  datatype QueryResult = Rows(rows: seq<Book>) | QueryError(message: string)

  /** The values handed to the index.html template. */
  datatype IndexView = IndexView(
    books: seq<Book>, query: string, authorId: string, seriesId: string,
    page: int, hasNext: bool, prevPage: int, nextPage: int, showSearch: bool)

  datatype IndexResponse = Listed(view: IndexView) | DbError(code: int, message: string)

  /**
   * The route: page size from the User-Agent, bounded page number, offset,
   * query, fetch of pageSize + 1 rows, truncation to one page. The query
   * and arguments handed to the database are returned beside the response.
   */
  method HandleIndex(userAgent: string, query: string, authorID: string, seriesID: string,
                     pageStr: string, searchMode: string, db: (seq<Fragment>, seq<Arg>) -> QueryResult)
    returns (resp: IndexResponse, sql: seq<Fragment>, args: seq<Arg>)
    ensures Holes(sql) == |args| && |sql| > 0 && sql[0] == BaseSelect
    ensures args == FilterArgs(query, authorID, seriesID) +
      [Int(PageSize(userAgent) + 1), Int((BoundedPage(pageStr, PageSize(userAgent)) - 1) * PageSize(userAgent))]
    ensures db(sql, args).QueryError? <==> resp.DbError?
    ensures resp.DbError? ==> resp == DbError(500, "Erreur DB: " + db(sql, args).message)
    ensures resp.Listed? ==>
      var rows := db(sql, args).rows;
      var v := resp.view;
      v.page == BoundedPage(pageStr, PageSize(userAgent)) &&
      v.prevPage == v.page - 1 && v.nextPage == v.page + 1 &&
      (v.hasNext <==> |rows| > PageSize(userAgent)) &&
      |v.books| == (if v.hasNext then PageSize(userAgent) else |rows|) && v.books == rows[..|v.books|] &&
      v.query == query && v.authorId == authorID && v.seriesId == seriesID &&
      (v.showSearch <==> searchMode == "true")
  {
    var pageSize := PageSize(userAgent);
    var page := BoundedPage(pageStr, pageSize);
    BoundedPageOffset(pageStr, pageSize);
    var offset := Offset(page, pageSize);

    var q, a := BuildQuery(query, authorID, seriesID, pageSize, offset);
    sql, args := q, a;

    var result := db(q, a);
    if result.QueryError? {
      resp := DbError(500, "Erreur DB: " + result.message);
      return;
    }

    var books, hasNext := CollectPage(result.rows, pageSize);
    var showSearch := searchMode == "true";
    resp := Listed(IndexView(books, query, authorID, seriesID, page, hasNext, page - 1, page + 1, showSearch));
  }
}

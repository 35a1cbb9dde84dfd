/** The generator's pipeline: each row of a continent's sheet becomes a
    festival or is dropped, each continent's festivals are sorted by
    year-month, and the continents are concatenated in their fixed order.
    The sheet download and the clock are parameters: `sheets` gives the grid
    of a sheet label, `clock` the reading taken while a continent is being
    processed. */
module FestivalPipeline {
  import opened PhpValues
  import opened Calendar
  import opened RowWrapper
  import opened ColumnMapper
  import opened YearClassifier
  import opened FestivalImages
  import MappedRows

  /** The five continents, each with its URL slug and its sheet label. */
  datatype Continent = Europe | NorthAmerica | SouthAmerica | Asia | AustraliaPacific {
    function UrlSlug(): string {
      match this
      case Europe => "europe"
      case NorthAmerica => "north-america"
      case SouthAmerica => "south-america"
      case Asia => "asia"
      case AustraliaPacific => "australia-pacific"
    }

    function Label(): string {
      match this
      case Europe => "EUROPE"
      case NorthAmerica => "NORTH AMERICA"
      case SouthAmerica => "SOUTH AMERICA"
      case Asia => "ASIA"
      case AustraliaPacific => "AUSTRALASIA/PACIFIC"
    }

    /** Where the continent stands in the generator's list. */
    function Position(): nat {
      match this
      case Europe => 0
      case NorthAmerica => 1
      case SouthAmerica => 2
      case Asia => 3
      case AustraliaPacific => 4
    }
  }

  /** The generator's list of continents, in processing order. */
  const Continents: seq<Continent> := [Europe, NorthAmerica, SouthAmerica, Asia, AustraliaPacific]

  lemma ContinentPositions(c: Continent)
    ensures c.Position() < |Continents| && Continents[c.Position()] == c
  {
  }

  /** The two network fetchers the image policy consults. */
  datatype ImageFetchers = ImageFetchers(webpageImage: string -> Option<string>, graphPicture: string -> Option<string>)

  /** The record the generator builds for a dated row. */
  datatype Festival = Festival(
    name: Option<string>,
    city: Option<string>,
    country: Option<string>,
    languages: Option<string>,
    webpage: Option<string>,
    facebook: Option<string>,
    email: Option<string>,
    image: Option<string>,
    yearMonth: YearMonth,
    date: string,
    continent: Continent)

  /** The `mm` cell as the `int $monthNumber` parameter receives it: the
      month the digits denote, leading zeros allowed ("07" is July). */
  function MonthNumber(cell: string): (month: Month)
    requires IsMonthCell(cell)
    ensures cell[0] != '0' ==> DecimalString(month) == cell
    ensures exists z :: 0 <= z < |cell| && (forall i :: 0 <= i < z ==> cell[i] == '0') && cell[z..] == DecimalString(month)
  {
    CanonicalSuffix(cell);
    if cell[0] != '0' then
      DigitsValueRoundTrip(cell);
      DigitsValue(cell)
    else
      DigitsValue(cell)
  }

  /** Every month written in decimal is a month cell, read back as itself. */
  lemma MonthNumberOfDecimal(month: Month)
    ensures IsMonthCell(DecimalString(month)) && MonthNumber(DecimalString(month)) == month
  {
    DecimalStringRoundTrip(month);
  }

  /** A `mm` cell the pipeline can handle: PHP-empty (the row is dropped) or
      a decimal month. */
  predicate MonthCellAcceptable(cell: Option<string>) {
    IsBlank(cell) || IsMonthCell(cell.value)
  }

  predicate MonthCellsAcceptable(mappings: Mappings, rows: seq<Row>) {
    forall i :: 0 <= i < |rows| ==> MonthCellAcceptable(Lookup(mappings, rows[i], "mm"))
  }

  /** A usable date in the column titled `year`. */
  predicate HasYearDate(mappings: Mappings, row: Row, year: nat) {
    YearColumnValue(year, mappings, row).Some?
  }

  /** `fetchRowAndCreateFestival`, for a row whose `mm` cell is a month: a
      festival exactly when the row has a usable next-year date, or a usable
      current-year date and the month has not passed; it carries the row's
      cells, the month of `mm`, an upcoming year-month in this or next year,
      and as its date the cell of the column of that year. */
  function FestivalFromRow(mappings: Mappings, row: Row, now: Now, continent: Continent, fetchers: ImageFetchers)
    : (festival: Option<Festival>)
    requires Lookup(mappings, row, "mm").Some? && IsMonthCell(Lookup(mappings, row, "mm").value)
    ensures festival.Some? <==>
      HasYearDate(mappings, row, now.year + 1) ||
      (HasYearDate(mappings, row, now.year) && MonthNumber(Lookup(mappings, row, "mm").value) >= now.month)
    ensures festival.Some? ==>
      var f := festival.value;
      && f.yearMonth.month == MonthNumber(Lookup(mappings, row, "mm").value)
      && (f.yearMonth.year == now.year || f.yearMonth.year == now.year + 1)
      && IsUpcoming(f.yearMonth, now)
      && Lookup(mappings, row, DecimalString(f.yearMonth.year)) == Some(f.date)
      && !IsEmptyString(f.date) && HasDigit(f.date)
      && f.continent == continent
    ensures festival.Some? ==> forall y: nat ::
      HasYearDate(mappings, row, y) && IsUpcoming(YearMonth(y, festival.value.yearMonth.month), now) ==>
        festival.value.yearMonth.year <= y
    ensures festival.Some? ==>
      var f := festival.value;
      && f.name == Lookup(mappings, row, "festival-name")
      && f.city == Lookup(mappings, row, "city")
      && f.country == Lookup(mappings, row, "country")
      && f.languages == Lookup(mappings, row, "languages")
      && f.webpage == Lookup(mappings, row, "webpage")
      && f.facebook == Lookup(mappings, row, "facebook")
      && f.email == Lookup(mappings, row, "email")
      && f.image == FestivalImage(f.webpage, f.facebook, fetchers.webpageImage, fetchers.graphPicture).image
  {
    var monthNumber := MonthNumber(Lookup(mappings, row, "mm").value);
    var currentYearDate := YearColumnValue(now.year, mappings, row);
    var nextYearDate := YearColumnValue(now.year + 1, mappings, row);
    var yearCase := DetermineYearCase(currentYearDate, nextYearDate);
    var yearMonth := FestivalYearAndMonth(monthNumber, now, yearCase);
    if yearMonth.None? then
      assert !HasDataFor(yearCase, now.year + 1, now);
      None
    else
      DisplayDateFromResolvedYear(mappings, row, monthNumber, now);
      var webpage := Lookup(mappings, row, "webpage");
      var facebook := Lookup(mappings, row, "facebook");
      Some(Festival(
        name := Lookup(mappings, row, "festival-name"),
        city := Lookup(mappings, row, "city"),
        country := Lookup(mappings, row, "country"),
        languages := Lookup(mappings, row, "languages"),
        webpage := webpage,
        facebook := facebook,
        email := Lookup(mappings, row, "email"),
        image := FestivalImage(webpage, facebook, fetchers.webpageImage, fetchers.graphPicture).image,
        yearMonth := yearMonth.value,
        date := ClosestDate(currentYearDate, nextYearDate, yearMonth.value, now).value,
        continent := continent))
  }

  /** A data row that gives festival `f`: its `mm` cell is not PHP-empty and
      the row is dated. */
  predicate Yields(mappings: Mappings, row: Row, now: Now, continent: Continent, fetchers: ImageFetchers, f: Festival) {
    var mm := Lookup(mappings, row, "mm");
    && !IsBlank(mm) && IsMonthCell(mm.value)
    && FestivalFromRow(mappings, row, now, continent, fetchers) == Some(f)
  }

  /** What the filter / map / filter chain keeps of one row: nothing when
      its `mm` is PHP-empty or it is undated, else its festival. */
  function RowFestivals(mappings: Mappings, row: Row, now: Now, continent: Continent, fetchers: ImageFetchers)
    : (festivals: seq<Festival>)
    requires MonthCellAcceptable(Lookup(mappings, row, "mm"))
    ensures |festivals| <= 1
    ensures forall f :: f in festivals <==> Yields(mappings, row, now, continent, fetchers, f)
  {
    if IsBlank(Lookup(mappings, row, "mm")) then []
    else match FestivalFromRow(mappings, row, now, continent, fetchers)
      case None => []
      case Some(f) => [f]
  }

  /** The filter / map / filter part of the collection chain, in row order:
      rows with a PHP-empty `mm` are dropped, the others are built, and the
      undated ones are dropped. */
  function DatedFestivals(mappings: Mappings, rows: seq<Row>, now: Now, continent: Continent, fetchers: ImageFetchers)
    : (festivals: seq<Festival>)
    requires MonthCellsAcceptable(mappings, rows)
    ensures |festivals| <= |rows|
    ensures forall f :: f in festivals ==> f.continent == continent
    decreases |rows|
  {
    if rows == [] then []
    else
      MonthCellsAcceptableTail(mappings, rows);
      RowFestivals(mappings, rows[0], now, continent, fetchers) + DatedFestivals(mappings, rows[1..], now, continent, fetchers)
  }

  lemma MonthCellsAcceptableTail(mappings: Mappings, rows: seq<Row>)
    requires rows != [] && MonthCellsAcceptable(mappings, rows)
    ensures MonthCellsAcceptable(mappings, rows[1..])
  {
    forall i | 0 <= i < |rows[1..]|
      ensures MonthCellAcceptable(Lookup(mappings, rows[1..][i], "mm"))
    {
      assert rows[1..][i] == rows[i + 1];
    }
  }

  /** The chain keeps the first row's festival, if any, ahead of the rest. */
  lemma DatedFestivalsCons(mappings: Mappings, rows: seq<Row>, now: Now, continent: Continent, fetchers: ImageFetchers, f: Festival)
    requires rows != [] && MonthCellsAcceptable(mappings, rows)
    ensures MonthCellsAcceptable(mappings, rows[1..])
    ensures f in DatedFestivals(mappings, rows, now, continent, fetchers) <==>
      Yields(mappings, rows[0], now, continent, fetchers, f) || f in DatedFestivals(mappings, rows[1..], now, continent, fetchers)
  {
    MonthCellsAcceptableTail(mappings, rows);
  }

  /** A festival survives exactly when some row yields it. */
  lemma {:induction false} DatedFestivalsFromRows(
    mappings: Mappings, rows: seq<Row>, now: Now, continent: Continent, fetchers: ImageFetchers, f: Festival)
    requires MonthCellsAcceptable(mappings, rows)
    ensures f in DatedFestivals(mappings, rows, now, continent, fetchers) <==>
      exists i :: 0 <= i < |rows| && Yields(mappings, rows[i], now, continent, fetchers, f)
    decreases |rows|
  {
    if rows != [] {
      var rest := rows[1..];
      DatedFestivalsCons(mappings, rows, now, continent, fetchers, f);
      DatedFestivalsFromRows(mappings, rest, now, continent, fetchers, f);
      if f in DatedFestivals(mappings, rest, now, continent, fetchers) {
        var i :| 0 <= i < |rest| && Yields(mappings, rest[i], now, continent, fetchers, f);
        assert rows[i + 1] == rest[i];
      }
      if exists i :: 0 <= i < |rows| && Yields(mappings, rows[i], now, continent, fetchers, f) {
        var i :| 0 <= i < |rows| && Yields(mappings, rows[i], now, continent, fetchers, f);
        if i > 0 {
          assert rest[i - 1] == rows[i];
        }
      }
    }
  }

  /** A single data row gives its own festival, if it yields one, and
      nothing else. */
  lemma DatedFestivalsOfRow(mappings: Mappings, row: Row, now: Now, continent: Continent, fetchers: ImageFetchers)
    requires MonthCellAcceptable(Lookup(mappings, row, "mm"))
    ensures MonthCellsAcceptable(mappings, [row])
    ensures |DatedFestivals(mappings, [row], now, continent, fetchers)| <= 1
    ensures forall f :: f in DatedFestivals(mappings, [row], now, continent, fetchers) <==>
      Yields(mappings, row, now, continent, fetchers, f)
  {
    assert [row][1..] == [];
  }

  /** The chain works row by row: the festivals of two runs of rows are the
      festivals of the first run followed by those of the second, so row
      order and repeated rows are kept. */
  lemma {:induction false} DatedFestivalsAppend(
    mappings: Mappings, a: seq<Row>, b: seq<Row>, now: Now, continent: Continent, fetchers: ImageFetchers)
    requires MonthCellsAcceptable(mappings, a) && MonthCellsAcceptable(mappings, b)
    ensures MonthCellsAcceptable(mappings, a + b)
    ensures DatedFestivals(mappings, a + b, now, continent, fetchers)
         == DatedFestivals(mappings, a, now, continent, fetchers) + DatedFestivals(mappings, b, now, continent, fetchers)
    decreases |a|
  {
    MonthCellsAcceptableAppend(mappings, a, b);
    if a == [] {
      assert a + b == b;
    } else {
      var rows := a + b;
      assert rows[0] == a[0] && rows[1..] == a[1..] + b;
      MonthCellsAcceptableTail(mappings, a);
      DatedFestivalsUnfold(mappings, a, now, continent, fetchers);
      DatedFestivalsUnfold(mappings, rows, now, continent, fetchers);
      DatedFestivalsAppend(mappings, a[1..], b, now, continent, fetchers);
      AppendAfterHead(
        RowFestivals(mappings, a[0], now, continent, fetchers),
        DatedFestivals(mappings, a[1..], now, continent, fetchers),
        DatedFestivals(mappings, b, now, continent, fetchers));
    }
  }

  lemma DatedFestivalsUnfold(mappings: Mappings, rows: seq<Row>, now: Now, continent: Continent, fetchers: ImageFetchers)
    requires rows != [] && MonthCellsAcceptable(mappings, rows)
    ensures MonthCellAcceptable(Lookup(mappings, rows[0], "mm")) && MonthCellsAcceptable(mappings, rows[1..])
    ensures DatedFestivals(mappings, rows, now, continent, fetchers)
         == RowFestivals(mappings, rows[0], now, continent, fetchers) + DatedFestivals(mappings, rows[1..], now, continent, fetchers)
  {
    MonthCellsAcceptableTail(mappings, rows);
  }

  lemma AppendAfterHead(head: seq<Festival>, middle: seq<Festival>, tail: seq<Festival>)
    ensures head + (middle + tail) == (head + middle) + tail
  {
  }

  lemma MonthCellsAcceptableAppend(mappings: Mappings, a: seq<Row>, b: seq<Row>)
    requires MonthCellsAcceptable(mappings, a) && MonthCellsAcceptable(mappings, b)
    ensures MonthCellsAcceptable(mappings, a + b)
  {
    forall i | 0 <= i < |a + b| ensures MonthCellAcceptable(Lookup(mappings, (a + b)[i], "mm")) {
      if i < |a| {
        assert (a + b)[i] == a[i];
      } else {
        assert (a + b)[i] == b[i - |a|];
      }
    }
  }

  /** Chronological order of the "Y-m" sort key. */
  predicate SortedByYearMonth(festivals: seq<Festival>) {
    forall i, j :: 0 <= i < j < |festivals| ==> NotAfter(festivals[i].yearMonth, festivals[j].yearMonth)
  }

  lemma ConsSorted(head: Festival, tail: seq<Festival>)
    requires SortedByYearMonth(tail)
    requires forall x :: x in tail ==> NotAfter(head.yearMonth, x.yearMonth)
    ensures SortedByYearMonth([head] + tail)
  {
    forall i, j | 0 <= i < j < |[head] + tail|
      ensures NotAfter(([head] + tail)[i].yearMonth, ([head] + tail)[j].yearMonth)
    {
      assert ([head] + tail)[j] == tail[j - 1];
      if i > 0 {
        assert ([head] + tail)[i] == tail[i - 1];
      } else {
        assert tail[j - 1] in tail;
      }
    }
  }

  lemma InsertAtFront(f: Festival, sorted: seq<Festival>)
    requires SortedByYearMonth(sorted)
    requires sorted == [] || NotAfter(f.yearMonth, sorted[0].yearMonth)
    ensures SortedByYearMonth([f] + sorted)
  {
    forall x | x in sorted ensures NotAfter(f.yearMonth, x.yearMonth) {
      var k :| 0 <= k < |sorted| && sorted[k] == x;
      assert k == 0 || NotAfter(sorted[0].yearMonth, sorted[k].yearMonth);
    }
    ConsSorted(f, sorted);
  }

  lemma InsertBehind(f: Festival, sorted: seq<Festival>, tail: seq<Festival>)
    requires SortedByYearMonth(sorted) && sorted != [] && !NotAfter(f.yearMonth, sorted[0].yearMonth)
    requires SortedByYearMonth(tail) && multiset(tail) == multiset(sorted[1..]) + multiset{f}
    ensures SortedByYearMonth([sorted[0]] + tail)
    ensures multiset([sorted[0]] + tail) == multiset(sorted) + multiset{f}
  {
    var head, rest := sorted[0], sorted[1..];
    assert sorted == [head] + rest;
    forall x | x in tail ensures NotAfter(head.yearMonth, x.yearMonth) {
      assert x in multiset(tail);
      if x != f {
        assert x in multiset(rest);
        var k :| 0 <= k < |rest| && rest[k] == x;
        assert sorted[k + 1] == x;
      }
    }
    ConsSorted(head, tail);
  }

  /** Inserts `f` before the first festival that is not earlier than it. */
  function InsertByYearMonth(f: Festival, sorted: seq<Festival>): (r: seq<Festival>)
    requires SortedByYearMonth(sorted)
    ensures SortedByYearMonth(r)
    ensures multiset(r) == multiset(sorted) + multiset{f}
    decreases |sorted|
  {
    if sorted == [] || NotAfter(f.yearMonth, sorted[0].yearMonth) then
      InsertAtFront(f, sorted);
      [f] + sorted
    else
      var tail := InsertByYearMonth(f, sorted[1..]);
      InsertBehind(f, sorted, tail);
      [sorted[0]] + tail
  }

  /** `sortBy` on the "Y-m" key: a stable sort, by insertion. */
  function SortByYearMonth(festivals: seq<Festival>): (sorted: seq<Festival>)
    ensures SortedByYearMonth(sorted)
    ensures multiset(sorted) == multiset(festivals)
    decreases |festivals|
  {
    if festivals == [] then []
    else
      assert festivals == [festivals[0]] + festivals[1..];
      InsertByYearMonth(festivals[0], SortByYearMonth(festivals[1..]))
  }

  /** The festivals of one year-month, in their order. */
  function WithYearMonth(festivals: seq<Festival>, ym: YearMonth): seq<Festival>
    decreases |festivals|
  {
    if festivals == [] then []
    else (if festivals[0].yearMonth == ym then [festivals[0]] else []) + WithYearMonth(festivals[1..], ym)
  }

  lemma {:induction false} WithYearMonthAppend(a: seq<Festival>, b: seq<Festival>, ym: YearMonth)
    ensures WithYearMonth(a + b, ym) == WithYearMonth(a, ym) + WithYearMonth(b, ym)
    decreases |a|
  {
    if a != [] {
      var head := if a[0].yearMonth == ym then [a[0]] else [];
      assert (a + b)[0] == a[0];
      assert (a + b)[1..] == a[1..] + b;
      assert WithYearMonth(a + b, ym) == head + WithYearMonth(a[1..] + b, ym);
      WithYearMonthAppend(a[1..], b, ym);
    } else {
      assert a + b == b;
    }
  }

  lemma {:induction false} InsertKeepsTies(f: Festival, sorted: seq<Festival>, ym: YearMonth)
    requires SortedByYearMonth(sorted)
    ensures WithYearMonth(InsertByYearMonth(f, sorted), ym) == WithYearMonth([f] + sorted, ym)
    decreases |sorted|
  {
    if sorted != [] && !NotAfter(f.yearMonth, sorted[0].yearMonth) {
      var head, rest := sorted[0], sorted[1..];
      assert sorted == [head] + rest;
      InsertKeepsTies(f, rest, ym);
      WithYearMonthAppend([head], InsertByYearMonth(f, rest), ym);
      WithYearMonthAppend([f], rest, ym);
      WithYearMonthAppend([f], sorted, ym);
      WithYearMonthAppend([head], rest, ym);
      assert head.yearMonth != f.yearMonth;
    }
  }

  /** The sort is stable: the festivals of each year-month keep their order. */
  lemma {:induction false} SortKeepsTies(festivals: seq<Festival>, ym: YearMonth)
    ensures WithYearMonth(SortByYearMonth(festivals), ym) == WithYearMonth(festivals, ym)
    decreases |festivals|
  {
    if festivals != [] {
      SortKeepsTies(festivals[1..], ym);
      InsertKeepsTies(festivals[0], SortByYearMonth(festivals[1..]), ym);
      WithYearMonthAppend([festivals[0]], SortByYearMonth(festivals[1..]), ym);
      WithYearMonthAppend([festivals[0]], festivals[1..], ym);
      assert festivals == [festivals[0]] + festivals[1..];
    }
  }

  /** What a sheet must hold for the generator to get through it: a header
      row, and a month or a PHP-empty value in every data row's `mm` cell. */
  predicate SheetProcessable(grid: seq<Row>, now: Now) {
    |grid| > 0 && MonthCellsAcceptable(ColumnMapping(grid[0], now), grid[1..])
  }

  /** The collection chain of `fetchAndProcessFestivals`: the header row
      gives the mapping, the other rows are filtered and built, and the
      survivors are sorted by year-month. */
  function ContinentFestivals(continent: Continent, grid: seq<Row>, now: Now, fetchers: ImageFetchers)
    : (festivals: seq<Festival>)
    requires SheetProcessable(grid, now)
    ensures SortedByYearMonth(festivals)
    ensures multiset(festivals) == multiset(DatedFestivals(ColumnMapping(grid[0], now), grid[1..], now, continent, fetchers))
    ensures forall f :: f in festivals ==> f.continent == continent
  {
    var dated := DatedFestivals(ColumnMapping(grid[0], now), grid[1..], now, continent, fetchers);
    var sorted := SortByYearMonth(dated);
    assert forall f :: f in sorted ==> f in dated by {
      forall f | f in sorted ensures f in dated {
        assert f in multiset(sorted);
      }
    }
    sorted
  }

  /** Every festival of a continent comes from a data row of its sheet,
      never from the header row. */
  lemma HeaderNeverYields(continent: Continent, grid: seq<Row>, now: Now, fetchers: ImageFetchers, f: Festival)
    requires SheetProcessable(grid, now)
    requires f in ContinentFestivals(continent, grid, now, fetchers)
    ensures exists i :: 1 <= i < |grid| && Yields(ColumnMapping(grid[0], now), grid[i], now, continent, fetchers, f)
  {
    var mappings := ColumnMapping(grid[0], now);
    assert f in multiset(ContinentFestivals(continent, grid, now, fetchers));
    DatedFestivalsFromRows(mappings, grid[1..], now, continent, fetchers, f);
    var i :| 0 <= i < |grid[1..]| && Yields(mappings, grid[1..][i], now, continent, fetchers, f);
    assert grid[1..][i] == grid[i + 1];
  }

  /** Festivals of the same year-month keep the order of their rows. */
  lemma TiesKeepRowOrder(continent: Continent, grid: seq<Row>, now: Now, fetchers: ImageFetchers, ym: YearMonth)
    requires SheetProcessable(grid, now)
    ensures WithYearMonth(ContinentFestivals(continent, grid, now, fetchers), ym)
         == WithYearMonth(DatedFestivals(ColumnMapping(grid[0], now), grid[1..], now, continent, fetchers), ym)
  {
    SortKeepsTies(DatedFestivals(ColumnMapping(grid[0], now), grid[1..], now, continent, fetchers), ym);
  }

  /** `fetchAndProcessFestivals` with the shared `MappedRow` mapping: builds
      the mapping from the header row and loads it into the shared table.
      The collection chain is the value-level `ContinentFestivals`, which
      reads the rows through `ColumnMapping` of the header directly; that is
      the mapping now in the table, and `MappedRow.Get` answers through it
      exactly as `Lookup` does. */
  method FetchAndProcessFestivals(
    table: MappedRows.MappingTable, continent: Continent, grid: seq<Row>, now: Now, fetchers: ImageFetchers)
    returns (festivals: seq<Festival>)
    requires SheetProcessable(grid, now)
    modifies table
    ensures table.mappings == ColumnMapping(grid[0], now)
    ensures festivals == ContinentFestivals(continent, grid, now, fetchers)
  {
    var columnIndexMappings := CreateColumnIndexMappings(grid[0], now);
    table.LoadMappings(columnIndexMappings);
    festivals := ContinentFestivals(continent, grid, now, fetchers);
  }

  predicate SheetsProcessable(sheets: string -> seq<Row>, clock: Continent -> Now) {
    forall c :: c in Continents ==> SheetProcessable(sheets(c.Label()), clock(c))
  }

  /** The `array_reduce` with `array_merge` of `generate`: the blocks
      appended one after the other, in order. */
  function Concatenated(blocks: seq<seq<Festival>>): (festivals: seq<Festival>)
    ensures forall f :: f in festivals <==> exists k :: 0 <= k < |blocks| && f in blocks[k]
    decreases |blocks|
  {
    if blocks == [] then []
    else Concatenated(blocks[..|blocks| - 1]) + blocks[|blocks| - 1]
  }

  /** Each continent's list, in the generator's continent order, each
      computed from that continent's sheet and clock reading. */
  function ContinentBlocks(sheets: string -> seq<Row>, clock: Continent -> Now, fetchers: ImageFetchers)
    : (blocks: seq<seq<Festival>>)
    requires SheetsProcessable(sheets, clock)
    ensures |blocks| == |Continents|
    ensures forall k :: 0 <= k < |Continents| ==>
      blocks[k] == ContinentFestivals(Continents[k], sheets(Continents[k].Label()), clock(Continents[k]), fetchers)
  {
    seq(|Continents|, k requires 0 <= k < |Continents| =>
      ContinentFestivals(Continents[k], sheets(Continents[k].Label()), clock(Continents[k]), fetchers))
  }

  /** The festival list `generate` hands to the page. */
  function Generate(sheets: string -> seq<Row>, clock: Continent -> Now, fetchers: ImageFetchers)
    : (festivals: seq<Festival>)
    requires SheetsProcessable(sheets, clock)
    ensures forall f :: f in festivals <==>
      exists k :: 0 <= k < |Continents| &&
        f in ContinentFestivals(Continents[k], sheets(Continents[k].Label()), clock(Continents[k]), fetchers)
  {
    Concatenated(ContinentBlocks(sheets, clock, fetchers))
  }

  /** Block `k` holds festivals of continent `continents[k]` only. */
  predicate BlocksOf(blocks: seq<seq<Festival>>, continents: seq<Continent>) {
    |blocks| == |continents| &&
    forall k, f :: 0 <= k < |blocks| && f in blocks[k] ==> f.continent == continents[k]
  }

  predicate Distinct(continents: seq<Continent>) {
    forall a, b :: 0 <= a < b < |continents| ==> continents[a] != continents[b]
  }

  /** The festivals of one continent, in their order. */
  function OfContinent(festivals: seq<Festival>, continent: Continent): seq<Festival>
    decreases |festivals|
  {
    if festivals == [] then []
    else (if festivals[0].continent == continent then [festivals[0]] else []) + OfContinent(festivals[1..], continent)
  }

  lemma {:induction false} OfContinentAppend(a: seq<Festival>, b: seq<Festival>, continent: Continent)
    ensures OfContinent(a + b, continent) == OfContinent(a, continent) + OfContinent(b, continent)
    decreases |a|
  {
    if a == [] {
      assert a + b == b;
    } else {
      var c := a + b;
      assert c[0] == a[0] && c[1..] == a[1..] + b;
      OfContinentStep(a, continent);
      OfContinentStep(c, continent);
      OfContinentAppend(a[1..], b, continent);
      AppendAfterHead(OfContinent([a[0]], continent), OfContinent(a[1..], continent), OfContinent(b, continent));
    }
  }

  lemma OfContinentStep(festivals: seq<Festival>, continent: Continent)
    requires festivals != []
    ensures OfContinent(festivals, continent) == OfContinent([festivals[0]], continent) + OfContinent(festivals[1..], continent)
  {
    assert [festivals[0]][1..] == [];
  }

  lemma {:induction false} OfContinentUniform(festivals: seq<Festival>, owner: Continent, continent: Continent)
    requires forall f :: f in festivals ==> f.continent == owner
    ensures OfContinent(festivals, continent) == if owner == continent then festivals else []
    decreases |festivals|
  {
    if festivals != [] {
      OfContinentUniform(festivals[1..], owner, continent);
    }
  }

  lemma BlocksOfInit(blocks: seq<seq<Festival>>, continents: seq<Continent>)
    requires blocks != [] && BlocksOf(blocks, continents)
    ensures BlocksOf(blocks[..|blocks| - 1], continents[..|continents| - 1])
  {
    var n := |blocks|;
    forall k | 0 <= k < n - 1 ensures blocks[..n - 1][k] == blocks[k] && continents[..n - 1][k] == continents[k] {
    }
  }

  /** A continent no block belongs to has no festival in the concatenation. */
  lemma {:induction false} ConcatenatedWithout(blocks: seq<seq<Festival>>, continents: seq<Continent>, continent: Continent)
    requires BlocksOf(blocks, continents) && continent !in continents
    ensures OfContinent(Concatenated(blocks), continent) == []
    decreases |blocks|
  {
    if blocks != [] {
      var n := |blocks|;
      BlocksOfInit(blocks, continents);
      assert continents[..n - 1] <= continents;
      ConcatenatedWithout(blocks[..n - 1], continents[..n - 1], continent);
      OfContinentAppend(Concatenated(blocks[..n - 1]), blocks[n - 1], continent);
      OfContinentUniform(blocks[n - 1], continents[n - 1], continent);
    }
  }

  /** Within the concatenation, the festivals of the continent of block `k`
      are exactly that block. */
  lemma {:induction false} ConcatenatedByContinent(blocks: seq<seq<Festival>>, continents: seq<Continent>, k: nat)
    requires BlocksOf(blocks, continents) && Distinct(continents) && k < |blocks|
    ensures OfContinent(Concatenated(blocks), continents[k]) == blocks[k]
    decreases |blocks|
  {
    var n := |blocks|;
    var init, continent := continents[..n - 1], continents[k];
    BlocksOfInit(blocks, continents);
    OfContinentAppend(Concatenated(blocks[..n - 1]), blocks[n - 1], continent);
    OfContinentUniform(blocks[n - 1], continents[n - 1], continent);
    if k == n - 1 {
      assert continent !in init by {
        forall j | 0 <= j < n - 1 ensures init[j] != continent {
          assert init[j] == continents[j];
        }
      }
      ConcatenatedWithout(blocks[..n - 1], init, continent);
    } else {
      assert Distinct(init) by {
        forall a, b | 0 <= a < b < n - 1 ensures init[a] != init[b] {
          assert init[a] == continents[a] && init[b] == continents[b];
        }
      }
      ConcatenatedByContinent(blocks[..n - 1], init, k);
      assert init[k] == continent && blocks[..n - 1][k] == blocks[k];
    }
  }

  lemma ContinentBlocksOf(sheets: string -> seq<Row>, clock: Continent -> Now, fetchers: ImageFetchers)
    requires SheetsProcessable(sheets, clock)
    ensures BlocksOf(ContinentBlocks(sheets, clock, fetchers), Continents)
  {
    var blocks := ContinentBlocks(sheets, clock, fetchers);
    forall k, f: Festival | 0 <= k < |blocks| && f in blocks[k] ensures f.continent == Continents[k] {
      assert blocks[k] == ContinentFestivals(Continents[k], sheets(Continents[k].Label()), clock(Continents[k]), fetchers);
    }
  }

  /** Each continent's festivals appear in `generate`'s list exactly as that
      continent's sheet produced them: sorted by year-month there, but the
      list as a whole is not re-sorted. */
  lemma GenerateByContinent(sheets: string -> seq<Row>, clock: Continent -> Now, fetchers: ImageFetchers, continent: Continent)
    requires SheetsProcessable(sheets, clock)
    ensures OfContinent(Generate(sheets, clock, fetchers), continent)
         == ContinentFestivals(continent, sheets(continent.Label()), clock(continent), fetchers)
    ensures SortedByYearMonth(OfContinent(Generate(sheets, clock, fetchers), continent))
  {
    ContinentPositions(continent);
    ContinentBlocksOf(sheets, clock, fetchers);
    ContinentsListedInPlace();
    ListedInPlaceDistinct(Continents);
    ConcatenatedByContinent(ContinentBlocks(sheets, clock, fetchers), Continents, continent.Position());
  }

  /** Every festival belongs to one of the first `n` continents of the list. */
  predicate AmongFirstContinents(festivals: seq<Festival>, n: nat) {
    forall i :: 0 <= i < |festivals| ==> festivals[i].continent.Position() < n
  }

  /** Festivals of an earlier continent come first. */
  predicate InContinentOrder(festivals: seq<Festival>) {
    forall i, j :: 0 <= i < j < |festivals| ==> festivals[i].continent.Position() <= festivals[j].continent.Position()
  }

  lemma AppendContinentBlock(before: seq<Festival>, block: seq<Festival>, p: nat)
    requires InContinentOrder(before) && AmongFirstContinents(before, p)
    requires forall f :: f in block ==> f.continent.Position() == p
    ensures InContinentOrder(before + block) && AmongFirstContinents(before + block, p + 1)
  {
    forall i | 0 <= i < |block| ensures block[i].continent.Position() == p {
      assert block[i] in block;
    }
  }

  /** A list of continents whose every entry sits at its own position. */
  predicate ListedInPlace(continents: seq<Continent>) {
    forall k :: 0 <= k < |continents| ==> continents[k].Position() == k
  }

  lemma ContinentsListedInPlace()
    ensures ListedInPlace(Continents)
  {
    forall k | 0 <= k < |Continents| ensures Continents[k].Position() == k {
      ContinentPositions(Continents[k]);
    }
  }

  lemma ListedInPlaceDistinct(continents: seq<Continent>)
    requires ListedInPlace(continents)
    ensures Distinct(continents)
  {
    forall a, b | 0 <= a < b < |continents| ensures continents[a] != continents[b] {
      assert continents[a].Position() == a && continents[b].Position() == b;
    }
  }

  /** Blocks of continents listed in place concatenate in list order. */
  lemma {:induction false} ConcatenatedInListOrder(blocks: seq<seq<Festival>>, continents: seq<Continent>)
    requires BlocksOf(blocks, continents) && ListedInPlace(continents)
    ensures InContinentOrder(Concatenated(blocks))
    ensures AmongFirstContinents(Concatenated(blocks), |blocks|)
    decreases |blocks|
  {
    if blocks != [] {
      var n := |blocks|;
      var init := continents[..n - 1];
      BlocksOfInit(blocks, continents);
      assert ListedInPlace(init) by {
        forall k | 0 <= k < n - 1 ensures init[k].Position() == k {
          assert init[k] == continents[k];
        }
      }
      ConcatenatedInListOrder(blocks[..n - 1], init);
      AppendContinentBlock(Concatenated(blocks[..n - 1]), blocks[n - 1], n - 1);
    }
  }

  /** In `generate`'s list, festivals of an earlier continent come first. */
  lemma GenerateInContinentOrder(sheets: string -> seq<Row>, clock: Continent -> Now, fetchers: ImageFetchers)
    requires SheetsProcessable(sheets, clock)
    ensures InContinentOrder(Generate(sheets, clock, fetchers))
  {
    var blocks := ContinentBlocks(sheets, clock, fetchers);
    ContinentBlocksOf(sheets, clock, fetchers);
    assert BlocksOf(blocks, Continents);
    ContinentsListedInPlace();
    ConcatenatedInListOrder(blocks, Continents);
    assert Generate(sheets, clock, fetchers) == Concatenated(blocks);
  }
}

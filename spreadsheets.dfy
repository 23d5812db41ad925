/**
 * modules/spreadsheets.js: filling the calendar cache and the roster cache
 * from the Google Sheets of every configured timetable.
 *
 * The calendar cache maps a timetable hash to `year -> month -> day ->
 * dutyName`; the roster cache maps a roster hash to `dutyName -> slackName`.
 * Each cache also carries the instant of its last complete refresh. The
 * Sheets API is a parameter `fetch` from (spreadsheetId, range) to the reply.
 */
module Spreadsheets {
  import opened Common
  import opened Utils

  /** A sheet cell as JavaScript sees it: a string, or `undefined`. */
  type Cell = Option<string>
  type Grid = seq<seq<Cell>>

  type DayMap = map<string, string>
  type MonthMap = map<string, DayMap>
  type YearMap = map<string, MonthMap>
  type Roster = map<string, string>

  /** Both sheet caches are refetched at most every 30 minutes. */
  const RefreshWindow: nat := 30 * 60

  /** JavaScript truthiness of a cell: present and not the empty string. */
  predicate Truthy(c: Cell)
  {
    c.Some? && c.value != ""
  }

  /** What `getSpreadSheet` yields: a thrown error, no `values`, or rows. */
  datatype SheetReply = ApiError | NoValues | Values(rows: Grid)

  /** The Sheets API, as a function of (spreadsheetId, range). */
  type Fetch = (string, string) -> SheetReply

  function TimetableRange(prefix: string, year: string): string
  {
    "timetable_" + prefix + year + "!A1:Z33"
  }

  const UsersRange: string := "users!A1:V40"

  /** A cache after an operation, with what the operation ended with. */
  datatype Refresh<V> = Refresh(cache: map<string, V>, outcome: Outcome)

  /* ================= de-duplication of timetables by hash ================= */

  /** `arr.findIndex(item => key(item) === k)`, searching from `from`. */
  function FindIndex<T>(xs: seq<T>, key: T -> string, k: string, from: nat): (r: int)
    requires from <= |xs|
    ensures r == -1 || (from <= r < |xs| && key(xs[r]) == k)
    ensures forall j :: from <= j < |xs| && (r == -1 || j < r) ==> key(xs[j]) != k
    decreases |xs| - from
  {
    if from == |xs| then -1
    else if key(xs[from]) == k then from
    else FindIndex(xs, key, k, from + 1)
  }

  /** The elements from index `i` on that are the first with their key. */
  function UniqueFrom<T>(xs: seq<T>, key: T -> string, i: nat): seq<T>
    requires i <= |xs|
    decreases |xs| - i
  {
    if i == |xs| then []
    else (if FindIndex(xs, key, key(xs[i]), 0) == i then [xs[i]] else []) + UniqueFrom(xs, key, i + 1)
  }

  /** `xs.filter((el, index, arr) => arr.findIndex(...) === index)`. */
  function UniqueBy<T>(xs: seq<T>, key: T -> string): seq<T>
  {
    UniqueFrom(xs, key, 0)
  }

  function KeySet<T>(xs: seq<T>, key: T -> string): set<string>
  {
    set a | 0 <= a < |xs| :: key(xs[a])
  }

  /** The first position of `x`'s key in `xs` (or -1). */
  function FirstOf<T>(xs: seq<T>, key: T -> string, x: T): int
  {
    FindIndex(xs, key, key(x), 0)
  }

  /** `x` is the first element of `xs` with its key, found at or after `lo`. */
  ghost predicate FirstAtOrAfter<T>(xs: seq<T>, key: T -> string, lo: nat, x: T)
  {
    lo <= FirstOf(xs, key, x) < |xs| && xs[FirstOf(xs, key, x)] == x
  }

  /** Each element kept from index `i` on is the first with its key, at or after `i`. */
  lemma {:induction false} UniqueFromFirst<T>(xs: seq<T>, key: T -> string, i: nat)
    requires i <= |xs|
    ensures forall a :: 0 <= a < |UniqueFrom(xs, key, i)| ==>
      FirstAtOrAfter(xs, key, i, UniqueFrom(xs, key, i)[a])
    decreases |xs| - i
  {
    if i < |xs| {
      UniqueFromFirst(xs, key, i + 1);
      var rest := UniqueFrom(xs, key, i + 1);
      var head := if FirstOf(xs, key, xs[i]) == i then [xs[i]] else [];
      var r := head + rest;
      assert UniqueFrom(xs, key, i) == r;
      forall a | 0 <= a < |r| ensures FirstAtOrAfter(xs, key, i, r[a]) {
        if a >= |head| {
          assert r[a] == rest[a - |head|];
          assert FirstAtOrAfter(xs, key, i + 1, rest[a - |head|]);
        } else {
          assert r[a] == xs[i];
        }
      }
    }
  }

  /** Kept elements appear in the order of their first positions. */
  lemma {:induction false} UniqueFromOrdered<T>(xs: seq<T>, key: T -> string, i: nat)
    requires i <= |xs|
    ensures forall a, b :: 0 <= a < b < |UniqueFrom(xs, key, i)| ==>
      FirstOf(xs, key, UniqueFrom(xs, key, i)[a]) < FirstOf(xs, key, UniqueFrom(xs, key, i)[b])
    decreases |xs| - i
  {
    if i < |xs| {
      UniqueFromOrdered(xs, key, i + 1);
      UniqueFromFirst(xs, key, i + 1);
      var rest := UniqueFrom(xs, key, i + 1);
      var head := if FirstOf(xs, key, xs[i]) == i then [xs[i]] else [];
      var r := head + rest;
      assert UniqueFrom(xs, key, i) == r;
      forall a, b | 0 <= a < b < |r|
        ensures FirstOf(xs, key, r[a]) < FirstOf(xs, key, r[b])
      {
        var b' := b - |head|;
        assert r[b] == rest[b'];
        assert FirstAtOrAfter(xs, key, i + 1, rest[b']);
        if a >= |head| {
          assert r[a] == rest[a - |head|];
        }
      }
    }
  }

  /** Every key whose first position is at or after `i` is kept. */
  lemma {:induction false} UniqueFromCovers<T>(xs: seq<T>, key: T -> string, i: nat)
    requires i <= |xs|
    ensures var r := UniqueFrom(xs, key, i);
      forall j :: i <= j < |xs| && FindIndex(xs, key, key(xs[j]), 0) >= i ==> key(xs[j]) in KeySet(r, key)
    decreases |xs| - i
  {
    if i < |xs| {
      UniqueFromCovers(xs, key, i + 1);
      var rest := UniqueFrom(xs, key, i + 1);
      var head := if FindIndex(xs, key, key(xs[i]), 0) == i then [xs[i]] else [];
      var r := head + rest;
      assert UniqueFrom(xs, key, i) == r;
      assert KeySet(rest, key) <= KeySet(r, key) by {
        forall k | k in KeySet(rest, key) ensures k in KeySet(r, key) {
          var a :| 0 <= a < |rest| && key(rest[a]) == k;
          assert r[|head| + a] == rest[a];
        }
      }
      forall j | i <= j < |xs| && FindIndex(xs, key, key(xs[j]), 0) >= i
        ensures key(xs[j]) in KeySet(r, key)
      {
        if FindIndex(xs, key, key(xs[j]), 0) == i {
          assert r[0] == xs[i];
        }
      }
    }
  }

  /**
   * De-duplication keeps, in input order, exactly the first element for
   * each key: every kept element is the first with its key, kept elements
   * appear in the order of those first positions (so no key is kept
   * twice), and every key of the input is kept.
   */
  lemma UniqueByKeepsFirstOfEachKey<T>(xs: seq<T>, key: T -> string)
    ensures var r := UniqueBy(xs, key);
      (forall a :: 0 <= a < |r| ==> FirstAtOrAfter(xs, key, 0, r[a])) &&
      (forall a, b :: 0 <= a < b < |r| ==> key(r[a]) != key(r[b])) &&
      (forall a, b :: 0 <= a < b < |r| ==> FirstOf(xs, key, r[a]) < FirstOf(xs, key, r[b])) &&
      KeySet(r, key) == KeySet(xs, key)
  {
    var r := UniqueBy(xs, key);
    UniqueFromFirst(xs, key, 0);
    UniqueFromOrdered(xs, key, 0);
    UniqueFromCovers(xs, key, 0);
    forall j | 0 <= j < |xs| ensures key(xs[j]) in KeySet(r, key) {
      assert FindIndex(xs, key, key(xs[j]), 0) >= 0;
    }
    forall k | k in KeySet(r, key) ensures k in KeySet(xs, key) {
      var a :| 0 <= a < |r| && key(r[a]) == k;
      assert FirstAtOrAfter(xs, key, 0, r[a]);
      assert key(xs[FirstOf(xs, key, r[a])]) == k;
    }
  }

  /* ======================== calendar grid parsing ======================== */

  /**
   * Month block `m` is read when `m < 12`, its date column `2m` exists and
   * its header cell (row 0 of that column) is truthy.
   */
  predicate BlockStarts(cols: Grid, m: nat)
  {
    m < 12 && 2 * m < |cols| && Truthy(CellAt(cols[2 * m], 0))
  }

  /** The header of a block: the month key its days are filed under. */
  function Header(cols: Grid, m: nat): string
    requires BlockStarts(cols, m)
  {
    CellAt(cols[2 * m], 0).value
  }

  predicate HasDevColumn(cols: Grid, m: nat)
  {
    2 * m + 1 < |cols|
  }

  /** `cal[year][month][day] = duty`, creating the year and month maps if absent. */
  function WriteDay(cal: YearMap, year: string, month: string, day: string, duty: string): YearMap
  {
    var months := if year in cal then cal[year] else map[];
    var days := if month in months then months[month] else map[];
    cal[year := months[month := days[day := duty]]]
  }

  /**
   * The rows `i..` of block `m` (the `forEach` over the block's columns
   * after `slice(2)`): a (date, dev) pair is written only when both cells
   * are truthy.
   */
  function FillBlock(cal: YearMap, year: string, cols: Grid, m: nat, i: nat): YearMap
    requires BlockStarts(cols, m) && HasDevColumn(cols, m)
    decreases |cols[2 * m]| - i
  {
    if i >= |cols[2 * m]| then cal
    else
      var date := cols[2 * m][i];
      var dev := CellAt(cols[2 * m + 1], i);
      var next := if Truthy(date) && Truthy(dev) then WriteDay(cal, year, Header(cols, m), date.value, dev.value) else cal;
      FillBlock(next, year, cols, m, i + 1)
  }

  /** Whether the month loop reaches a started block without a dev column. */
  function LacksDevColumn(cols: Grid, m: nat): bool
    decreases 12 - m
  {
    if !BlockStarts(cols, m) then false
    else if !HasDevColumn(cols, m) then true
    else LacksDevColumn(cols, m + 1)
  }

  /** The calendar after the month loop, and whether the loop threw. */
  datatype CalendarParse = CalendarParse(cal: YearMap, failed: bool)

  /** The month loop from block `m` on. */
  function FillMonths(cal: YearMap, year: string, cols: Grid, m: nat): (r: CalendarParse)
    ensures r.failed == LacksDevColumn(cols, m)
    decreases 12 - m
  {
    if !BlockStarts(cols, m) then CalendarParse(cal, false)
    else if !HasDevColumn(cols, m) then CalendarParse(cal, true)
    else FillMonths(FillBlock(cal, year, cols, m, 2), year, cols, m + 1)
  }

  /**
   * `cal'` merges into `cal` under `year`: no key at any level disappears
   * and every other year is untouched.
   */
  ghost predicate Keeps(cal: YearMap, cal': YearMap, year: string)
  {
    (forall y :: y in cal ==> y in cal') &&
    (forall y :: y in cal' && y != year ==> y in cal && cal'[y] == cal[y]) &&
    (forall mo :: year in cal && mo in cal[year] ==> mo in cal'[year]) &&
    (forall mo, d :: year in cal && mo in cal[year] && d in cal[year][mo] ==> d in cal'[year][mo])
  }

  /** Only truthy month headers, dates and duty names are ever recorded. */
  ghost predicate WellFormed(cal: YearMap)
  {
    forall y, mo, d :: y in cal && mo in cal[y] && d in cal[y][mo] ==>
      mo != "" && d != "" && cal[y][mo][d] != ""
  }

  /** Row `i` of block `m` holds the truthy pair (d, v) under header `mo`. */
  ghost predicate PairAt(cols: Grid, m: nat, i: nat, mo: string, d: string, v: string)
  {
    BlockStarts(cols, m) && HasDevColumn(cols, m) && 2 <= i < |cols[2 * m]| &&
    Header(cols, m) == mo && cols[2 * m][i] == Some(d) && CellAt(cols[2 * m + 1], i) == Some(v) &&
    d != "" && v != ""
  }

  /** Every entry of `cal'` under `year` is an entry of `cal` or a pair of the grid. */
  ghost predicate FromGrid(cal: YearMap, cal': YearMap, year: string, cols: Grid)
  {
    forall mo, d :: year in cal' && mo in cal'[year] && d in cal'[year][mo] ==>
      (year in cal && mo in cal[year] && d in cal[year][mo] && cal[year][mo][d] == cal'[year][mo][d]) ||
      exists m: nat, i: nat :: PairAt(cols, m, i, mo, d, cal'[year][mo][d])
  }

  lemma FromGridTransitive(a: YearMap, b: YearMap, c: YearMap, year: string, cols: Grid)
    requires FromGrid(a, b, year, cols) && FromGrid(b, c, year, cols)
    ensures FromGrid(a, c, year, cols)
  {
  }

  lemma KeepsTransitive(a: YearMap, b: YearMap, c: YearMap, year: string)
    requires Keeps(a, b, year) && Keeps(b, c, year)
    ensures Keeps(a, c, year)
  {
  }

  lemma WriteDayKeeps(cal: YearMap, year: string, mo: string, d: string, v: string)
    ensures Keeps(cal, WriteDay(cal, year, mo, d, v), year)
  {
  }

  lemma WriteDayWellFormed(cal: YearMap, year: string, mo: string, d: string, v: string)
    requires WellFormed(cal) && mo != "" && d != "" && v != ""
    ensures WellFormed(WriteDay(cal, year, mo, d, v))
  {
  }

  lemma WriteDayFromGrid(cal: YearMap, year: string, cols: Grid, m: nat, i: nat, d: string, v: string)
    requires BlockStarts(cols, m) && PairAt(cols, m, i, Header(cols, m), d, v)
    ensures FromGrid(cal, WriteDay(cal, year, Header(cols, m), d, v), year, cols)
  {
    var r := WriteDay(cal, year, Header(cols, m), d, v);
    forall mo, d' | year in r && mo in r[year] && d' in r[year][mo]
      ensures (year in cal && mo in cal[year] && d' in cal[year][mo] && cal[year][mo][d'] == r[year][mo][d']) ||
              exists m: nat, i: nat :: PairAt(cols, m, i, mo, d', r[year][mo][d'])
    {
      if mo == Header(cols, m) && d' == d {
        assert PairAt(cols, m, i, mo, d', r[year][mo][d']);
      }
    }
  }

  lemma {:induction false} FillBlockKeeps(cal: YearMap, year: string, cols: Grid, m: nat, i: nat)
    requires BlockStarts(cols, m) && HasDevColumn(cols, m)
    ensures Keeps(cal, FillBlock(cal, year, cols, m, i), year)
    decreases |cols[2 * m]| - i
  {
    if i < |cols[2 * m]| {
      var date := cols[2 * m][i];
      var dev := CellAt(cols[2 * m + 1], i);
      if Truthy(date) && Truthy(dev) {
        var next := WriteDay(cal, year, Header(cols, m), date.value, dev.value);
        FillBlockKeeps(next, year, cols, m, i + 1);
        WriteDayKeeps(cal, year, Header(cols, m), date.value, dev.value);
        KeepsTransitive(cal, next, FillBlock(next, year, cols, m, i + 1), year);
      } else {
        FillBlockKeeps(cal, year, cols, m, i + 1);
      }
    }
  }

  lemma {:induction false} FillBlockWellFormed(cal: YearMap, year: string, cols: Grid, m: nat, i: nat)
    requires BlockStarts(cols, m) && HasDevColumn(cols, m) && WellFormed(cal)
    ensures WellFormed(FillBlock(cal, year, cols, m, i))
    decreases |cols[2 * m]| - i
  {
    if i < |cols[2 * m]| {
      var date := cols[2 * m][i];
      var dev := CellAt(cols[2 * m + 1], i);
      if Truthy(date) && Truthy(dev) {
        var next := WriteDay(cal, year, Header(cols, m), date.value, dev.value);
        WriteDayWellFormed(cal, year, Header(cols, m), date.value, dev.value);
        FillBlockWellFormed(next, year, cols, m, i + 1);
      } else {
        FillBlockWellFormed(cal, year, cols, m, i + 1);
      }
    }
  }

  lemma {:induction false} FillBlockFromGrid(cal: YearMap, year: string, cols: Grid, m: nat, i: nat)
    requires BlockStarts(cols, m) && HasDevColumn(cols, m) && i >= 2
    ensures FromGrid(cal, FillBlock(cal, year, cols, m, i), year, cols)
    decreases |cols[2 * m]| - i
  {
    if i < |cols[2 * m]| {
      var date := cols[2 * m][i];
      var dev := CellAt(cols[2 * m + 1], i);
      if Truthy(date) && Truthy(dev) {
        var next := WriteDay(cal, year, Header(cols, m), date.value, dev.value);
        FillBlockFromGrid(next, year, cols, m, i + 1);
        WriteDayFromGrid(cal, year, cols, m, i, date.value, dev.value);
        FromGridTransitive(cal, next, FillBlock(next, year, cols, m, i + 1), year, cols);
      } else {
        FillBlockFromGrid(cal, year, cols, m, i + 1);
      }
    } else {
      assert FillBlock(cal, year, cols, m, i) == cal;
    }
  }

  lemma FillBlockMerges(cal: YearMap, year: string, cols: Grid, m: nat, i: nat)
    requires BlockStarts(cols, m) && HasDevColumn(cols, m)
    ensures var r := FillBlock(cal, year, cols, m, i);
      Keeps(cal, r, year) && (WellFormed(cal) ==> WellFormed(r)) &&
      (i >= 2 ==> FromGrid(cal, r, year, cols))
  {
    FillBlockKeeps(cal, year, cols, m, i);
    if WellFormed(cal) {
      FillBlockWellFormed(cal, year, cols, m, i);
    }
    if i >= 2 {
      FillBlockFromGrid(cal, year, cols, m, i);
    }
  }

  /**
   * The month loop merges into the calendar (entries under other keys are
   * left intact), records only truthy headers, dates and duty names, and
   * every entry it writes is a (date, dev) pair of a block it read.
   */
  lemma {:induction false} FillMonthsMerges(cal: YearMap, year: string, cols: Grid, m: nat)
    ensures var r := FillMonths(cal, year, cols, m).cal;
      Keeps(cal, r, year) && (WellFormed(cal) ==> WellFormed(r)) && FromGrid(cal, r, year, cols)
    decreases 12 - m
  {
    if BlockStarts(cols, m) && HasDevColumn(cols, m) {
      var next := FillBlock(cal, year, cols, m, 2);
      FillBlockMerges(cal, year, cols, m, 2);
      FillMonthsMerges(next, year, cols, m + 1);
      KeepsTransitive(cal, next, FillMonths(cal, year, cols, m).cal, year);
      FromGridTransitive(cal, next, FillMonths(cal, year, cols, m).cal, year, cols);
    }
  }

  lemma {:induction false} FillBlockRecords(cal: YearMap, year: string, cols: Grid, m: nat, from: nat, i: nat)
    requires BlockStarts(cols, m) && HasDevColumn(cols, m)
    requires from <= i < |cols[2 * m]| && Truthy(cols[2 * m][i]) && Truthy(CellAt(cols[2 * m + 1], i))
    ensures var r := FillBlock(cal, year, cols, m, from);
      year in r && Header(cols, m) in r[year] && cols[2 * m][i].value in r[year][Header(cols, m)]
    decreases i - from
  {
    var date := cols[2 * m][from];
    var dev := CellAt(cols[2 * m + 1], from);
    var next := if Truthy(date) && Truthy(dev) then WriteDay(cal, year, Header(cols, m), date.value, dev.value) else cal;
    if from == i {
      FillBlockMerges(next, year, cols, m, from + 1);
    } else {
      FillBlockRecords(next, year, cols, m, from + 1, i);
    }
  }

  lemma {:induction false} FillMonthsRecordsFrom(cal: YearMap, year: string, cols: Grid, j: nat, m: nat, i: nat)
    requires j <= m
    requires forall k :: j <= k <= m ==> BlockStarts(cols, k)
    requires HasDevColumn(cols, m)
    requires 2 <= i < |cols[2 * m]| && Truthy(cols[2 * m][i]) && Truthy(CellAt(cols[2 * m + 1], i))
    ensures var r := FillMonths(cal, year, cols, j).cal;
      year in r && Header(cols, m) in r[year] && cols[2 * m][i].value in r[year][Header(cols, m)]
    decreases m - j
  {
    assert BlockStarts(cols, j) && HasDevColumn(cols, j);
    var next := FillBlock(cal, year, cols, j, 2);
    if j == m {
      FillBlockRecords(cal, year, cols, m, 2, i);
      FillMonthsMerges(next, year, cols, m + 1);
    } else {
      FillMonthsRecordsFrom(next, year, cols, j + 1, m, i);
    }
  }

  /**
   * Every truthy (date, dev) pair of a block the loop reaches is recorded:
   * when blocks 0..m all start and block m has its dev column, each such
   * row's date is a key under `cal[year][header of m]`.
   */
  lemma FillMonthsRecords(cal: YearMap, year: string, cols: Grid, m: nat, i: nat)
    requires forall k :: 0 <= k <= m ==> BlockStarts(cols, k)
    requires HasDevColumn(cols, m)
    requires 2 <= i < |cols[2 * m]| && Truthy(cols[2 * m][i]) && Truthy(CellAt(cols[2 * m + 1], i))
    ensures var r := FillMonths(cal, year, cols, 0).cal;
      year in r && Header(cols, m) in r[year] && cols[2 * m][i].value in r[year][Header(cols, m)]
  {
    FillMonthsRecordsFrom(cal, year, cols, 0, m, i);
  }

  /** Row `j` of block `m` is a truthy pair that `forEach` writes to day `d` of month `mo`. */
  ghost predicate WritesAt(cols: Grid, m: nat, j: nat, mo: string, d: string)
  {
    BlockStarts(cols, m) && HasDevColumn(cols, m) && 2 <= j < |cols[2 * m]| &&
    Truthy(cols[2 * m][j]) && Truthy(CellAt(cols[2 * m + 1], j)) &&
    Header(cols, m) == mo && cols[2 * m][j].value == d
  }

  /** Blocks `a..k` all start, so the month loop started at `a` reaches block `k`. */
  ghost predicate ReachedFrom(cols: Grid, a: nat, k: nat)
  {
    a <= k && forall k' :: a <= k' <= k ==> BlockStarts(cols, k')
  }

  /** A day that no row from `i` on writes keeps its duty name through the rest of the block. */
  lemma {:induction false} FillBlockUntouched(cal: YearMap, year: string, cols: Grid, m: nat, i: nat, mo: string, d: string)
    requires BlockStarts(cols, m) && HasDevColumn(cols, m)
    requires 2 <= i && year in cal && mo in cal[year] && d in cal[year][mo]
    requires forall j :: i <= j ==> !WritesAt(cols, m, j, mo, d)
    ensures var r := FillBlock(cal, year, cols, m, i);
      year in r && mo in r[year] && d in r[year][mo] && r[year][mo][d] == cal[year][mo][d]
    decreases |cols[2 * m]| - i
  {
    if i < |cols[2 * m]| {
      var date := cols[2 * m][i];
      var dev := CellAt(cols[2 * m + 1], i);
      if Truthy(date) && Truthy(dev) {
        var next := WriteDay(cal, year, Header(cols, m), date.value, dev.value);
        assert !WritesAt(cols, m, i, mo, d);
        assert next[year][mo][d] == cal[year][mo][d];
        FillBlockUntouched(next, year, cols, m, i + 1, mo, d);
      } else {
        FillBlockUntouched(cal, year, cols, m, i + 1, mo, d);
      }
    }
  }

  /** The last truthy row of a block with a given date decides that day's duty name. */
  lemma {:induction false} FillBlockLastWins(cal: YearMap, year: string, cols: Grid, m: nat, from: nat, i: nat)
    requires BlockStarts(cols, m) && HasDevColumn(cols, m)
    requires from <= i && 2 <= i < |cols[2 * m]| && Truthy(cols[2 * m][i]) && Truthy(CellAt(cols[2 * m + 1], i))
    requires forall j :: i < j ==> !WritesAt(cols, m, j, Header(cols, m), cols[2 * m][i].value)
    ensures var r := FillBlock(cal, year, cols, m, from); var mo := Header(cols, m); var d := cols[2 * m][i].value;
      year in r && mo in r[year] && d in r[year][mo] && r[year][mo][d] == CellAt(cols[2 * m + 1], i).value
    decreases i - from
  {
    var date := cols[2 * m][from];
    var dev := CellAt(cols[2 * m + 1], from);
    var next := if Truthy(date) && Truthy(dev) then WriteDay(cal, year, Header(cols, m), date.value, dev.value) else cal;
    assert FillBlock(cal, year, cols, m, from) == FillBlock(next, year, cols, m, from + 1);
    if from == i {
      FillBlockUntouched(next, year, cols, m, i + 1, Header(cols, m), cols[2 * m][i].value);
    } else {
      FillBlockLastWins(next, year, cols, m, from + 1, i);
    }
  }

  /** A day that no block the loop reaches from `j` on writes keeps its duty name. */
  lemma {:induction false} FillMonthsUntouched(cal: YearMap, year: string, cols: Grid, j: nat, mo: string, d: string)
    requires year in cal && mo in cal[year] && d in cal[year][mo]
    requires forall k, row :: ReachedFrom(cols, j, k) ==> !WritesAt(cols, k, row, mo, d)
    ensures var r := FillMonths(cal, year, cols, j).cal;
      year in r && mo in r[year] && d in r[year][mo] && r[year][mo][d] == cal[year][mo][d]
    decreases 12 - j
  {
    if BlockStarts(cols, j) && HasDevColumn(cols, j) {
      assert ReachedFrom(cols, j, j);
      FillBlockUntouched(cal, year, cols, j, 2, mo, d);
      forall k, row | ReachedFrom(cols, j + 1, k) ensures !WritesAt(cols, k, row, mo, d) {
        assert ReachedFrom(cols, j, k);
      }
      FillMonthsUntouched(FillBlock(cal, year, cols, j, 2), year, cols, j + 1, mo, d);
    }
  }

  lemma {:induction false} FillMonthsLastWinsFrom(cal: YearMap, year: string, cols: Grid, j: nat, m: nat, i: nat)
    requires j <= m && ReachedFrom(cols, j, m) && HasDevColumn(cols, m)
    requires 2 <= i < |cols[2 * m]| && Truthy(cols[2 * m][i]) && Truthy(CellAt(cols[2 * m + 1], i))
    requires forall r :: i < r ==> !WritesAt(cols, m, r, Header(cols, m), cols[2 * m][i].value)
    requires forall k, r :: ReachedFrom(cols, m + 1, k) ==> !WritesAt(cols, k, r, Header(cols, m), cols[2 * m][i].value)
    ensures var r := FillMonths(cal, year, cols, j).cal; var mo := Header(cols, m); var d := cols[2 * m][i].value;
      year in r && mo in r[year] && d in r[year][mo] && r[year][mo][d] == CellAt(cols[2 * m + 1], i).value
    decreases m - j
  {
    assert BlockStarts(cols, j) && HasDevColumn(cols, j);
    var next := FillBlock(cal, year, cols, j, 2);
    if j == m {
      FillBlockLastWins(cal, year, cols, m, 2, i);
      FillMonthsUntouched(next, year, cols, m + 1, Header(cols, m), cols[2 * m][i].value);
    } else {
      assert ReachedFrom(cols, j + 1, m);
      FillMonthsLastWinsFrom(next, year, cols, j + 1, m, i);
    }
  }

  /**
   * The duty name recorded for a day is that of the last truthy row the
   * loop reads with this month header and date: when no later row of block
   * `m`, and no row of a later block the loop reaches, writes the same day,
   * `cal[year][header][date]` is row `i`'s duty name, whatever the cache
   * held for that day before.
   */
  lemma FillMonthsLastWins(cal: YearMap, year: string, cols: Grid, m: nat, i: nat)
    requires ReachedFrom(cols, 0, m) && HasDevColumn(cols, m)
    requires 2 <= i < |cols[2 * m]| && Truthy(cols[2 * m][i]) && Truthy(CellAt(cols[2 * m + 1], i))
    requires forall r :: i < r ==> !WritesAt(cols, m, r, Header(cols, m), cols[2 * m][i].value)
    requires forall k, r :: ReachedFrom(cols, m + 1, k) ==> !WritesAt(cols, k, r, Header(cols, m), cols[2 * m][i].value)
    ensures var r := FillMonths(cal, year, cols, 0).cal; var mo := Header(cols, m); var d := cols[2 * m][i].value;
      year in r && mo in r[year] && d in r[year][mo] && r[year][mo][d] == CellAt(cols[2 * m + 1], i).value
  {
    FillMonthsLastWinsFrom(cal, year, cols, 0, m, i);
  }

  lemma {:induction false} FillBlockSameColumns(cal: YearMap, year: string, cols: Grid, cols': Grid, m: nat, i: nat)
    requires BlockStarts(cols, m) && HasDevColumn(cols, m)
    requires BlockStarts(cols', m) && HasDevColumn(cols', m)
    requires cols[2 * m] == cols'[2 * m] && cols[2 * m + 1] == cols'[2 * m + 1]
    ensures FillBlock(cal, year, cols, m, i) == FillBlock(cal, year, cols', m, i)
    decreases |cols[2 * m]| - i
  {
    if i < |cols[2 * m]| {
      var date := cols[2 * m][i];
      var dev := CellAt(cols[2 * m + 1], i);
      var next := if Truthy(date) && Truthy(dev) then WriteDay(cal, year, Header(cols, m), date.value, dev.value) else cal;
      FillBlockSameColumns(next, year, cols, cols', m, i + 1);
    }
  }

  lemma {:induction false} FillMonthsPrefixFrom(cal: YearMap, year: string, cols: Grid, k: nat, j: nat)
    requires j <= k <= 12 && 2 * k <= |cols| && !BlockStarts(cols, k)
    ensures FillMonths(cal, year, cols, j) == FillMonths(cal, year, cols[..2 * k], j)
    decreases k - j
  {
    var cut := cols[..2 * k];
    if j < k {
      assert cut[2 * j] == cols[2 * j] && cut[2 * j + 1] == cols[2 * j + 1];
      assert BlockStarts(cols, j) == BlockStarts(cut, j);
      if BlockStarts(cols, j) {
        FillBlockSameColumns(cal, year, cols, cut, j, 2);
        FillMonthsPrefixFrom(FillBlock(cal, year, cols, j, 2), year, cols, k, j + 1);
      }
    } else {
      assert !BlockStarts(cut, j);
    }
  }

  /**
   * The month loop stops at the first block that does not start: if block
   * `k` does not start, the columns from `2k` on are never read.
   */
  lemma FillMonthsStopsAtFirstEmptyHeader(cal: YearMap, year: string, cols: Grid, k: nat)
    requires k <= 12 && 2 * k <= |cols| && !BlockStarts(cols, k)
    ensures FillMonths(cal, year, cols, 0) == FillMonths(cal, year, cols[..2 * k], 0)
  {
    FillMonthsPrefixFrom(cal, year, cols, k, 0);
  }

  /* ====================== one timetable's calendar ====================== */

  /** What `updateTimetableData` ends with; it does not depend on the cache. */
  function TimetableOutcome(t: TimetableConfig, year: string, fetch: Fetch): Outcome
  {
    match fetch(t.spreadsheetId, TimetableRange(t.prefix, year))
    case ApiError => Threw(SheetsApiError)
    case NoValues => Returned(false)
    case Values(rows) =>
      if |rows| == 0 then Returned(false)
      else if LacksDevColumn(Transpose(rows), 0) then Threw(MissingDevColumn)
      else Returned(true)
  }

  /** The calendar cache entry with the hash ensured, as line 54-56 does first. */
  function WithEntry<V>(cache: map<string, V>, hash: string, empty: V): map<string, V>
  {
    if hash in cache then cache else cache[hash := empty]
  }

  /** `updateTimetableData(timetable)` on the calendar cache. */
  function TimetableData(cache: map<string, YearMap>, t: TimetableConfig, year: string, fetch: Fetch): (r: Refresh<YearMap>)
    ensures r.outcome == TimetableOutcome(t, year, fetch)
    ensures TimeTableHash(t) in r.cache
    ensures forall h :: h != TimeTableHash(t) ==>
      (h in r.cache <==> h in cache) && (h in cache ==> r.cache[h] == cache[h])
    ensures r.outcome.Returned? && !r.outcome.value ==> r.cache == WithEntry(cache, TimeTableHash(t), map[])
    ensures r.outcome == Threw(SheetsApiError) ==> r.cache == WithEntry(cache, TimeTableHash(t), map[])
    ensures TimeTableHash(t) in cache ==> Keeps(cache[TimeTableHash(t)], r.cache[TimeTableHash(t)], year)
  {
    var hash := TimeTableHash(t);
    var base := WithEntry(cache, hash, map[]);
    match fetch(t.spreadsheetId, TimetableRange(t.prefix, year))
    case ApiError => Refresh(base, Threw(SheetsApiError))
    case NoValues => Refresh(base, Returned(false))
    case Values(rows) =>
      if |rows| == 0 then Refresh(base, Returned(false))
      else
        var parse := FillMonths(base[hash], year, Transpose(rows), 0);
        FillMonthsMerges(base[hash], year, Transpose(rows), 0);
        Refresh(base[hash := parse.cal], if parse.failed then Threw(MissingDevColumn) else Returned(true))
  }

  /** The loop of `updateTimeTables` over the unique timetables from `i` on. */
  function RefreshCalendars(cache: map<string, YearMap>, ts: seq<TimetableConfig>, i: nat, acc: bool,
                            year: string, fetch: Fetch): Refresh<YearMap>
    requires i <= |ts|
    decreases |ts| - i
  {
    if i == |ts| then Refresh(cache, Returned(acc))
    else
      var step := TimetableData(cache, ts[i], year, fetch);
      if step.outcome.Threw? then step
      else RefreshCalendars(step.cache, ts, i + 1, acc && step.outcome.value, year, fetch)
  }

  function CalendarOutcomes(ts: seq<TimetableConfig>, year: string, fetch: Fetch): (outs: seq<Outcome>)
    ensures |outs| == |ts|
  {
    seq(|ts|, k requires 0 <= k < |ts| => TimetableOutcome(ts[k], year, fetch))
  }

  /**
   * The refresh returns the conjunction of the per-timetable results, or the
   * first error thrown.
   */
  lemma {:induction false} RefreshCalendarsResult(cache: map<string, YearMap>, ts: seq<TimetableConfig>, i: nat, acc: bool,
                                                  year: string, fetch: Fetch)
    requires i <= |ts|
    ensures RefreshCalendars(cache, ts, i, acc, year, fetch).outcome ==
            AndThen(acc, Conjoin(CalendarOutcomes(ts, year, fetch)[i..]))
    decreases |ts| - i
  {
    var outs := CalendarOutcomes(ts, year, fetch);
    if i < |ts| {
      var step := TimetableData(cache, ts[i], year, fetch);
      assert outs[i..][0] == outs[i] && outs[i..][1..] == outs[i + 1..];
      if !step.outcome.Threw? {
        RefreshCalendarsResult(step.cache, ts, i + 1, acc && step.outcome.value, year, fetch);
      }
    }
  }

  /**
   * When the refresh throws nothing, no calendar entry was dropped and every
   * timetable it processed has one.
   */
  lemma {:induction false} RefreshCalendarsCovers(cache: map<string, YearMap>, ts: seq<TimetableConfig>, i: nat, acc: bool,
                                                  year: string, fetch: Fetch)
    requires i <= |ts|
    ensures var r := RefreshCalendars(cache, ts, i, acc, year, fetch);
      !r.outcome.Threw? ==>
        cache.Keys <= r.cache.Keys && forall k :: i <= k < |ts| ==> TimeTableHash(ts[k]) in r.cache
    decreases |ts| - i
  {
    if i < |ts| {
      var step := TimetableData(cache, ts[i], year, fetch);
      if !step.outcome.Threw? {
        RefreshCalendarsCovers(step.cache, ts, i + 1, acc && step.outcome.value, year, fetch);
        assert cache.Keys <= step.cache.Keys;
      }
    }
  }

  /**
   * After a refresh that threw nothing, every configured timetable (not
   * only the de-duplicated ones) finds its calendar entry.
   */
  lemma RefreshCalendarsCoversConfig(cache: map<string, YearMap>, timetables: seq<TimetableConfig>,
                                     year: string, fetch: Fetch)
    ensures var r := RefreshCalendars(cache, UniqueBy(timetables, TimeTableHash), 0, true, year, fetch);
      !r.outcome.Threw? ==> forall t :: t in timetables ==> TimeTableHash(t) in r.cache
  {
    var unique := UniqueBy(timetables, TimeTableHash);
    var r := RefreshCalendars(cache, unique, 0, true, year, fetch);
    RefreshCalendarsCovers(cache, unique, 0, true, year, fetch);
    UniqueByKeepsFirstOfEachKey(timetables, TimeTableHash);
    if !r.outcome.Threw? {
      forall t | t in timetables ensures TimeTableHash(t) in r.cache {
        var j :| 0 <= j < |timetables| && timetables[j] == t;
        assert TimeTableHash(t) in KeySet(timetables, TimeTableHash);
        var a :| 0 <= a < |unique| && TimeTableHash(unique[a]) == TimeTableHash(t);
      }
    }
  }

  /* ============================ roster sheet ============================ */

  /** A roster row ends the table when its name or Slack name is falsy. */
  predicate IsSentinel(row: seq<Cell>)
  {
    !Truthy(CellAt(row, 0)) || !Truthy(CellAt(row, 1))
  }

  /** The index of the first sentinel row from `i` on, or `|rows|`. */
  function SentinelIndex(rows: Grid, i: nat): (s: nat)
    requires i <= |rows|
    ensures i <= s <= |rows|
    ensures s < |rows| ==> IsSentinel(rows[s])
    ensures forall k :: i <= k < s ==> !IsSentinel(rows[k])
    decreases |rows| - i
  {
    if i == |rows| || IsSentinel(rows[i]) then i else SentinelIndex(rows, i + 1)
  }

  /** The (name, slackName) pairs of rows that precede the sentinel. */
  function RosterPairs(rows: Grid): seq<(string, string)>
    requires forall k :: 0 <= k < |rows| ==> !IsSentinel(rows[k])
  {
    seq(|rows|, k requires 0 <= k < |rows| && !IsSentinel(rows[k]) => (CellAt(rows[k], 0).value, CellAt(rows[k], 1).value))
  }

  /** The roster loop of `updateTimetableUsers`. */
  function FillRoster(users: Roster, rows: Grid): Roster
  {
    AssignAll(users, RosterPairs(rows[..SentinelIndex(rows, 0)]))
  }

  /**
   * Reading a roster records the names of exactly the rows before the
   * sentinel (nothing from the sentinel on), each with the Slack name of its
   * last row before the sentinel, and leaves every other name as it was.
   */
  lemma RosterRecordsRowsBeforeSentinel(users: Roster, rows: Grid)
    ensures var r := FillRoster(users, rows); var s := SentinelIndex(rows, 0);
      r.Keys == users.Keys + (set k | 0 <= k < s :: CellAt(rows[k], 0).value) &&
      (forall k :: 0 <= k < s && (forall j :: k < j < s ==> CellAt(rows[j], 0) != CellAt(rows[k], 0)) ==>
         r[CellAt(rows[k], 0).value] == CellAt(rows[k], 1).value) &&
      (forall n :: n !in (set k | 0 <= k < s :: CellAt(rows[k], 0).value) ==>
         (n in r <==> n in users) && (n in users ==> r[n] == users[n]))
  {
    var s := SentinelIndex(rows, 0);
    var pairs := RosterPairs(rows[..s]);
    var names := set k | 0 <= k < s :: CellAt(rows[k], 0).value;
    assert KeysOf(pairs) == names by {
      forall n | n in names ensures n in KeysOf(pairs) {
        var k :| 0 <= k < s && CellAt(rows[k], 0).value == n;
        assert pairs[k].0 == n;
      }
    }
    AssignAllKeys(users, pairs);
    forall k | 0 <= k < s && (forall j :: k < j < s ==> CellAt(rows[j], 0) != CellAt(rows[k], 0))
      ensures FillRoster(users, rows)[CellAt(rows[k], 0).value] == CellAt(rows[k], 1).value
    {
      AssignAllLastWins(users, pairs, k);
    }
    forall n | n !in names
      ensures (n in FillRoster(users, rows) <==> n in users) && (n in users ==> FillRoster(users, rows)[n] == users[n])
    {
      AssignAllUntouched(users, pairs, n);
    }
  }

  /** What `updateTimetableUsers` ends with; it does not depend on the cache. */
  function TimetableUsersOutcome(t: TimetableConfig, fetch: Fetch): Outcome
  {
    match fetch(t.spreadsheetId, UsersRange)
    case ApiError => Threw(SheetsApiError)
    case NoValues => Returned(false)
    case Values(rows) => Returned(|rows| > 0)
  }

  /** `updateTimetableUsers(timetable)` on the roster cache. */
  function TimetableUsers(cache: map<string, Roster>, t: TimetableConfig, fetch: Fetch): (r: Refresh<Roster>)
    ensures r.outcome == TimetableUsersOutcome(t, fetch)
    ensures UserTimeTableHash(t) in r.cache
    ensures forall h :: h != UserTimeTableHash(t) ==>
      (h in r.cache <==> h in cache) && (h in cache ==> r.cache[h] == cache[h])
    ensures !(r.outcome == Returned(true)) ==> r.cache == WithEntry(cache, UserTimeTableHash(t), map[])
  {
    var hash := UserTimeTableHash(t);
    var base := WithEntry(cache, hash, map[]);
    match fetch(t.spreadsheetId, UsersRange)
    case ApiError => Refresh(base, Threw(SheetsApiError))
    case NoValues => Refresh(base, Returned(false))
    case Values(rows) =>
      if |rows| == 0 then Refresh(base, Returned(false))
      else Refresh(base[hash := FillRoster(base[hash], rows)], Returned(true))
  }

  /** The loop of `updateUsers` over the unique timetables from `i` on. */
  function RefreshRosters(cache: map<string, Roster>, ts: seq<TimetableConfig>, i: nat, acc: bool,
                          fetch: Fetch): Refresh<Roster>
    requires i <= |ts|
    decreases |ts| - i
  {
    if i == |ts| then Refresh(cache, Returned(acc))
    else
      var step := TimetableUsers(cache, ts[i], fetch);
      if step.outcome.Threw? then step
      else RefreshRosters(step.cache, ts, i + 1, acc && step.outcome.value, fetch)
  }

  function RosterOutcomes(ts: seq<TimetableConfig>, fetch: Fetch): (outs: seq<Outcome>)
    ensures |outs| == |ts|
  {
    seq(|ts|, k requires 0 <= k < |ts| => TimetableUsersOutcome(ts[k], fetch))
  }

  /**
   * The roster refresh returns the conjunction of the per-spreadsheet
   * results, or the first error thrown.
   */
  lemma {:induction false} RefreshRostersResult(cache: map<string, Roster>, ts: seq<TimetableConfig>, i: nat, acc: bool,
                                                fetch: Fetch)
    requires i <= |ts|
    ensures RefreshRosters(cache, ts, i, acc, fetch).outcome == AndThen(acc, Conjoin(RosterOutcomes(ts, fetch)[i..]))
    decreases |ts| - i
  {
    var outs := RosterOutcomes(ts, fetch);
    if i < |ts| {
      var step := TimetableUsers(cache, ts[i], fetch);
      assert outs[i..][0] == outs[i] && outs[i..][1..] == outs[i + 1..];
      if !step.outcome.Threw? {
        RefreshRostersResult(step.cache, ts, i + 1, acc && step.outcome.value, fetch);
      }
    }
  }

  /**
   * When the roster refresh throws nothing, no roster was dropped and every
   * spreadsheet it processed has one.
   */
  lemma {:induction false} RefreshRostersCovers(cache: map<string, Roster>, ts: seq<TimetableConfig>, i: nat, acc: bool,
                                                fetch: Fetch)
    requires i <= |ts|
    ensures var r := RefreshRosters(cache, ts, i, acc, fetch);
      !r.outcome.Threw? ==>
        cache.Keys <= r.cache.Keys && forall k :: i <= k < |ts| ==> UserTimeTableHash(ts[k]) in r.cache
    decreases |ts| - i
  {
    if i < |ts| {
      var step := TimetableUsers(cache, ts[i], fetch);
      if !step.outcome.Threw? {
        RefreshRostersCovers(step.cache, ts, i + 1, acc && step.outcome.value, fetch);
        assert cache.Keys <= step.cache.Keys;
      }
    }
  }

  /**
   * After a roster refresh that threw nothing, every configured timetable
   * finds the roster of its spreadsheet.
   */
  lemma RefreshRostersCoversConfig(cache: map<string, Roster>, timetables: seq<TimetableConfig>, fetch: Fetch)
    ensures var r := RefreshRosters(cache, UniqueBy(timetables, UserTimeTableHash), 0, true, fetch);
      !r.outcome.Threw? ==> forall t :: t in timetables ==> UserTimeTableHash(t) in r.cache
  {
    var unique := UniqueBy(timetables, UserTimeTableHash);
    var r := RefreshRosters(cache, unique, 0, true, fetch);
    RefreshRostersCovers(cache, unique, 0, true, fetch);
    UniqueByKeepsFirstOfEachKey(timetables, UserTimeTableHash);
    if !r.outcome.Threw? {
      forall t | t in timetables ensures UserTimeTableHash(t) in r.cache {
        var j :| 0 <= j < |timetables| && timetables[j] == t;
        assert UserTimeTableHash(t) in KeySet(timetables, UserTimeTableHash);
        var a :| 0 <= a < |unique| && UserTimeTableHash(unique[a]) == UserTimeTableHash(t);
      }
    }
  }

  /* ============================== the caches ============================== */

  /** `timeTableCache`: calendars by timetable hash, and the last refresh. */
  class TimetableCache {
    var calendars: map<string, YearMap>
    var lastUpdate: Option<int>

    constructor ()
      ensures calendars == map[] && lastUpdate == None
    {
      calendars := map[];
      lastUpdate := None;
    }

    /** `updateTimetableData`: fetch one timetable's sheet and merge it in. */
    method UpdateTimetableData(t: TimetableConfig, year: string, fetch: Fetch) returns (o: Outcome)
      modifies this`calendars
      ensures Refresh(calendars, o) == TimetableData(old(calendars), t, year, fetch)
    {
      var hash := TimeTableHash(t);
      if hash !in calendars {
        calendars := calendars[hash := map[]];
      }
      var reply := fetch(t.spreadsheetId, TimetableRange(t.prefix, year));
      if reply.ApiError? {
        return Threw(SheetsApiError);
      }
      if reply.NoValues? || |reply.rows| == 0 {
        return Returned(false);
      }
      var cols := Transpose(reply.rows);
      var years := calendars[hash];
      ghost var start := years;
      var month := 0;
      while month < 12 && 2 * month < |cols| && Truthy(CellAt(cols[2 * month], 0))
        invariant 0 <= month <= 12
        invariant FillMonths(years, year, cols, month) == FillMonths(start, year, cols, 0)
        decreases 12 - month
      {
        if 2 * month + 1 >= |cols| {
          calendars := calendars[hash := years];
          return Threw(MissingDevColumn);
        }
        var realMonth := CellAt(cols[2 * month], 0).value;
        var dateColumn := cols[2 * month];
        var devColumn := cols[2 * month + 1];
        ghost var blockStart := years;
        var row := 2;
        while row < |dateColumn|
          invariant FillBlock(years, year, cols, month, row) == FillBlock(blockStart, year, cols, month, 2)
          decreases |dateColumn| - row
        {
          var date := dateColumn[row];
          var dev := CellAt(devColumn, row);
          if Truthy(date) && Truthy(dev) {
            var months := if year in years then years[year] else map[];
            var days := if realMonth in months then months[realMonth] else map[];
            years := years[year := months[realMonth := days[date.value := dev.value]]];
          }
          row := row + 1;
        }
        month := month + 1;
      }
      calendars := calendars[hash := years];
      return Returned(true);
    }

    /**
     * `updateTimeTables`: unless refreshed within the last 30 minutes,
     * refresh each distinct timetable hash once, in configuration order, and
     * stamp `lastUpdate` only if every one of them returned true.
     */
    method UpdateTimeTables(timetables: seq<TimetableConfig>, now: int, year: string, fetch: Fetch) returns (o: Outcome)
      modifies this
      ensures Fresh(old(lastUpdate), now, RefreshWindow) ==>
        o == Returned(true) && calendars == old(calendars) && lastUpdate == old(lastUpdate)
      ensures !Fresh(old(lastUpdate), now, RefreshWindow) ==>
        Refresh(calendars, o) == RefreshCalendars(old(calendars), UniqueBy(timetables, TimeTableHash), 0, true, year, fetch) &&
        lastUpdate == (if o == Returned(true) then Some(now) else old(lastUpdate))
    {
      if lastUpdate.Some? && lastUpdate.value > now - RefreshWindow {
        return Returned(true);
      }
      var unique := UniqueBy(timetables, TimeTableHash);
      var success := true;
      var i := 0;
      while i < |unique|
        invariant 0 <= i <= |unique| && lastUpdate == old(lastUpdate)
        invariant RefreshCalendars(calendars, unique, i, success, year, fetch) ==
                  RefreshCalendars(old(calendars), unique, 0, true, year, fetch)
      {
        var res := UpdateTimetableData(unique[i], year, fetch);
        if res.Threw? {
          return res;
        }
        success := success && res.value;
        i := i + 1;
      }
      if success {
        lastUpdate := Some(now);
      }
      o := Returned(success);
    }
  }

  /** `userCache`: rosters by spreadsheet, and the last refresh. */
  class UserCache {
    var rosters: map<string, Roster>
    var lastUpdate: Option<int>

    constructor ()
      ensures rosters == map[] && lastUpdate == None
    {
      rosters := map[];
      lastUpdate := None;
    }

    /** `updateTimetableUsers`: fetch one roster sheet and merge it in. */
    method UpdateTimetableUsers(t: TimetableConfig, fetch: Fetch) returns (o: Outcome)
      modifies this`rosters
      ensures Refresh(rosters, o) == TimetableUsers(old(rosters), t, fetch)
    {
      var hash := UserTimeTableHash(t);
      if hash !in rosters {
        rosters := rosters[hash := map[]];
      }
      var reply := fetch(t.spreadsheetId, UsersRange);
      if reply.ApiError? {
        return Threw(SheetsApiError);
      }
      if reply.NoValues? || |reply.rows| == 0 {
        return Returned(false);
      }
      var rows := reply.rows;
      var roster := rosters[hash];
      ghost var start := roster;
      var i := 0;
      while i < |rows|
        invariant 0 <= i <= |rows|
        invariant forall k :: 0 <= k < i ==> !IsSentinel(rows[k])
        invariant roster == AssignAll(start, RosterPairs(rows[..i]))
      {
        var user := CellAt(rows[i], 0);
        var slackName := CellAt(rows[i], 1);
        if !Truthy(user) || !Truthy(slackName) {
          break;
        }
        assert RosterPairs(rows[..i + 1])[..i] == RosterPairs(rows[..i]);
        roster := roster[user.value := slackName.value];
        i := i + 1;
      }
      assert i == SentinelIndex(rows, 0);
      rosters := rosters[hash := roster];
      return Returned(true);
    }

    /**
     * `updateUsers`: unless refreshed within the last 30 minutes, read the
     * roster of each distinct spreadsheet once, and stamp `lastUpdate` only
     * if every read returned true.
     */
    method UpdateUsers(timetables: seq<TimetableConfig>, now: int, fetch: Fetch) returns (o: Outcome)
      modifies this
      ensures Fresh(old(lastUpdate), now, RefreshWindow) ==>
        o == Returned(true) && rosters == old(rosters) && lastUpdate == old(lastUpdate)
      ensures !Fresh(old(lastUpdate), now, RefreshWindow) ==>
        Refresh(rosters, o) == RefreshRosters(old(rosters), UniqueBy(timetables, UserTimeTableHash), 0, true, fetch) &&
        lastUpdate == (if o == Returned(true) then Some(now) else old(lastUpdate))
    {
      if lastUpdate.Some? && lastUpdate.value > now - RefreshWindow {
        return Returned(true);
      }
      var unique := UniqueBy(timetables, UserTimeTableHash);
      var success := true;
      var i := 0;
      while i < |unique|
        invariant 0 <= i <= |unique| && lastUpdate == old(lastUpdate)
        invariant RefreshRosters(rosters, unique, i, success, fetch) ==
                  RefreshRosters(old(rosters), unique, 0, true, fetch)
      {
        var res := UpdateTimetableUsers(unique[i], fetch);
        if res.Threw? {
          return res;
        }
        success := success && res.value;
        i := i + 1;
      }
      if success {
        lastUpdate := Some(now);
      }
      o := Returned(success);
    }
  }
}

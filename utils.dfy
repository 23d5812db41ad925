/**
 * The helpers of modules/utils.js: the grid transposition used to read a
 * calendar sheet column by column, and the two cache keys derived from a
 * configured timetable.
 */
module Utils {
  import opened Common

  /**
   * One configured timetable (an entry of `config.timetables`).
   * `updateTime` is the "HH:mm:ss" text of the daily update instant;
   * `devIndex` is absent when the configuration leaves it out.
   */
  datatype TimetableConfig = TimetableConfig(
    name: string,
    spreadsheetId: string,
    prefix: string,
    updateTime: string,
    devIndex: Option<int>,
    group: Option<string>,
    channel: Option<string>)

  /** `row[c]` in JavaScript: the cell, or `undefined` past the end of the row. */
  function CellAt<T>(row: seq<Option<T>>, c: int): Option<T>
  {
    if 0 <= c < |row| then row[c] else None
  }

  /**
   * `transpose(a)`: one column per index of the first row, each column one
   * entry per row of `a`. JavaScript throws on an empty `a`, hence the
   * precondition (both callers check `rows.length` first).
   */
  function Transpose<T>(a: seq<seq<Option<T>>>): (t: seq<seq<Option<T>>>)
    requires |a| > 0
    ensures |t| == |a[0]|
    ensures forall c :: 0 <= c < |t| ==> |t[c]| == |a|
    ensures forall c, r :: 0 <= c < |t| && 0 <= r < |a| ==>
      t[c][r] == (if c < |a[r]| then a[r][c] else None)
  {
    seq(|a[0]|, c => seq(|a|, r requires 0 <= r < |a| => CellAt(a[r], c)))
  }

  /** Every row has the length of the first one. */
  predicate Rectangular<T>(a: seq<seq<T>>)
  {
    forall r :: 0 <= r < |a| ==> |a[r]| == |a[0]|
  }

  /** Transposing a non-empty rectangular grid twice gives the grid back. */
  lemma TransposeTwice<T>(a: seq<seq<Option<T>>>)
    requires |a| > 0 && |a[0]| > 0 && Rectangular(a)
    ensures Transpose(Transpose(a)) == a
  {
    var t := Transpose(a);
    var tt := Transpose(t);
    assert |tt| == |a|;
    forall r | 0 <= r < |a| ensures tt[r] == a[r] {
      assert |tt[r]| == |t| == |a[r]|;
      forall c | 0 <= c < |a[r]| ensures tt[r][c] == a[r][c] {
        assert tt[r][c] == t[c][r];
      }
    }
  }

  /** `timeTableHash`: the key of a timetable's calendar, the spreadsheet id followed by the prefix. */
  function TimeTableHash(t: TimetableConfig): (r: string)
    ensures |r| == |t.spreadsheetId| + |t.prefix|
    ensures r[..|t.spreadsheetId|] == t.spreadsheetId && r[|t.spreadsheetId|..] == t.prefix
  {
    t.spreadsheetId + t.prefix
  }

  /** `userTimeTableHash`: the key of a timetable's roster, the part of the calendar key before the prefix. */
  function UserTimeTableHash(t: TimetableConfig): (r: string)
    ensures r == TimeTableHash(t)[..|t.spreadsheetId|]
  {
    t.spreadsheetId
  }

  /**
   * The calendar key extends the roster key by the prefix, so timetables of
   * one spreadsheet share a roster, and the two keys coincide exactly when
   * the prefix is empty.
   */
  lemma HashesOfOneSpreadsheet(t: TimetableConfig, u: TimetableConfig)
    requires t.spreadsheetId == u.spreadsheetId
    ensures UserTimeTableHash(t) == UserTimeTableHash(u)
    ensures TimeTableHash(t) == TimeTableHash(u) <==> t.prefix == u.prefix
    ensures TimeTableHash(t) == UserTimeTableHash(t) <==> t.prefix == ""
  {
  }

  /**
   * The calendar key is a plain concatenation, so two timetables of
   * different spreadsheets can share it (here "ab" + "c" and "a" + "bc").
   */
  lemma TimeTableHashCollides()
    ensures exists t: TimetableConfig, u: TimetableConfig ::
      t.spreadsheetId != u.spreadsheetId && TimeTableHash(t) == TimeTableHash(u)
  {
    var t := TimetableConfig("t", "ab", "c", "09:00:00", None, None, None);
    var u := TimetableConfig("u", "a", "bc", "09:00:00", None, None, None);
    assert TimeTableHash(t) == "abc" == TimeTableHash(u);
  }
}

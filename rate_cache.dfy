/** `get_rate`'s same-day cache: the store is the list of CSV records of the
    rates file, header first; each further record is `src, target, rate, date`.
    A record for the requested pair dated today answers the request; failing
    that the fetched rate is appended, dated today, and the file rewritten
    without the pair's older records. */
module RateCache {
  import opened Results

  /** One CSV record, as the reader yields it: a list of fields, possibly
      fewer than four (a blank line is the empty list). */
  type Row = seq<string>

  /** What the scan does with one record. */
  datatype RowKind =
    | Other              // another pair: kept for the rewrite
    | Stale              // the pair, dated another day: skipped
    | Fresh(rate: string) // the pair, dated today: the answer
    | Short              // a field the scan reads is missing: IndexError

  /** The fields are read as Python's `and` reads them: `row[1]` only when
      `row[0]` is the source, `row[3]` only when the pair matches. */
  function Classify(row: Row, src: string, target: string, today: string): (k: RowKind)
    ensures k.Fresh? <==> |row| >= 4 && row[0] == src && row[1] == target && row[3] == today
    ensures k.Fresh? ==> k.rate == row[2]
    ensures k.Other? <==> |row| >= 1 && (row[0] != src || (|row| >= 2 && row[1] != target))
    ensures k.Stale? <==> |row| >= 4 && row[0] == src && row[1] == target && row[3] != today
  {
    if |row| < 1 then Short
    else if row[0] != src then Other
    else if |row| < 2 then Short
    else if row[1] != target then Other
    else if |row| < 4 then Short
    else if row[3] == today then Fresh(row[2])
    else Stale
  }

  /** A record the scan goes past. */
  predicate Passes(k: RowKind) {
    k.Other? || k.Stale?
  }

  /** The outcome of scanning the records after the header. */
  datatype ScanResult =
    | Hit(rate: string)    // a fresh record was found
    | Miss(kept: seq<Row>) // none was: the records kept for the rewrite
    | Broken(row: Row)     // the scan stopped at a short record

  function Scan(rows: seq<Row>, src: string, target: string, today: string): (r: ScanResult)
    ensures r.Miss? ==> |r.kept| <= |rows|
    ensures r.Broken? ==> r.row in rows && |r.row| < 4
  {
    if rows == [] then Miss([])
    else match Classify(rows[0], src, target, today)
      case Short => Broken(rows[0])
      case Fresh(rate) => Hit(rate)
      case Stale => Scan(rows[1..], src, target, today)
      case Other => Extend([rows[0]], Scan(rows[1..], src, target, today))
  }

  /** The records kept before a scan goes on, put in front of what it keeps after. */
  function Extend(kept: seq<Row>, r: ScanResult): ScanResult {
    match r
    case Miss(rest) => Miss(kept + rest)
    case _ => r
  }

  lemma ExtendExtend(a: seq<Row>, b: seq<Row>, r: ScanResult)
    ensures Extend(a, Extend(b, r)) == Extend(a + b, r)
  {
    if r.Miss? {
      assert a + (b + r.kept) == (a + b) + r.kept;
    }
  }

  datatype CacheError =
    | NoHeader           // the file is empty: `next` raises StopIteration
    | MalformedRow(row: Row) // a record too short for the fields read
    | FetchFailed        // the network or JSON lookup failed

  /** What `get_rate(src, target)` returns and what the file holds afterwards,
      given the file's records, today's date and what the rate service
      would answer (`None` when the fetch raises). */
  function GetRateSpec(records: seq<Row>, src: string, target: string, today: string, fetched: Option<string>)
    : (r: (Result<string, CacheError>, seq<Row>))
    ensures r.0.Err? ==> r.1 == records
    ensures records != [] ==> r.1 != [] && r.1[0] == records[0]
  {
    if records == [] then (Err(NoHeader), records)
    else match Scan(records[1..], src, target, today)
      case Hit(rate) => (Ok(rate), records)
      case Broken(row) => (Err(MalformedRow(row)), records)
      case Miss(kept) =>
        match fetched
        case None => (Err(FetchFailed), records)
        case Some(rate) => (Ok(rate), [records[0]] + kept + [[src, target, rate, today]])
  }

  // ---------------------------------------------------------------------
  // Properties of the scan

  /** The records of other pairs among `rows`, in their order. */
  function OtherRows(rows: seq<Row>, src: string, target: string, today: string): (r: seq<Row>)
    ensures forall k :: 0 <= k < |r| ==> Classify(r[k], src, target, today).Other?
    ensures |r| <= |rows|
  {
    if rows == [] then []
    else (if Classify(rows[0], src, target, today).Other? then [rows[0]] else [])
         + OtherRows(rows[1..], src, target, today)
  }

  /** Record `i` is the first one the scan does not go past, and it is a
      record for the pair dated today with the given rate. */
  predicate FreshAt(rows: seq<Row>, i: int, src: string, target: string, today: string, rate: string) {
    0 <= i < |rows| && Classify(rows[i], src, target, today) == Fresh(rate)
    && forall j :: 0 <= j < i ==> Passes(Classify(rows[j], src, target, today))
  }

  lemma FreshAtTail(rows: seq<Row>, i: int, src: string, target: string, today: string, rate: string)
    requires rows != [] && Passes(Classify(rows[0], src, target, today))
    ensures FreshAt(rows, i, src, target, today, rate) <==> i >= 1 && FreshAt(rows[1..], i - 1, src, target, today, rate)
  {
    if i >= 1 && FreshAt(rows[1..], i - 1, src, target, today, rate) {
      forall j | 0 <= j < i ensures Passes(Classify(rows[j], src, target, today)) {
        if j > 0 { assert rows[j] == rows[1..][j - 1]; }
      }
    }
    if FreshAt(rows, i, src, target, today, rate) {
      assert i != 0;
      forall j | 0 <= j < i - 1 ensures Passes(Classify(rows[1..][j], src, target, today)) {
        assert rows[1..][j] == rows[j + 1];
      }
    }
  }

  /** A hit: the scan answers `rate` exactly when the first record it does
      not go past is the pair's record for today carrying `rate`. */
  lemma {:induction false} ScanHit(rows: seq<Row>, src: string, target: string, today: string, rate: string)
    ensures Scan(rows, src, target, today) == Hit(rate) <==> exists i :: FreshAt(rows, i, src, target, today, rate)
    decreases |rows|
  {
    if rows != [] {
      var k := Classify(rows[0], src, target, today);
      if Passes(k) {
        ScanHit(rows[1..], src, target, today, rate);
        forall i ensures FreshAt(rows, i, src, target, today, rate) <==> i >= 1 && FreshAt(rows[1..], i - 1, src, target, today, rate) {
          FreshAtTail(rows, i, src, target, today, rate);
        }
        if Scan(rows[1..], src, target, today) == Hit(rate) {
          var i' :| FreshAt(rows[1..], i', src, target, today, rate);
          assert FreshAt(rows, i' + 1, src, target, today, rate);
        }
      } else if k.Fresh? && k.rate == rate {
        assert FreshAt(rows, 0, src, target, today, rate);
      }
    }
  }

  /** A miss: the scan goes past every record exactly when it misses, and
      then it keeps the records of the other pairs, in order, and nothing else. */
  lemma {:induction false} ScanMiss(rows: seq<Row>, src: string, target: string, today: string)
    ensures Scan(rows, src, target, today).Miss? <==> forall k :: 0 <= k < |rows| ==> Passes(Classify(rows[k], src, target, today))
    ensures Scan(rows, src, target, today).Miss? ==> Scan(rows, src, target, today).kept == OtherRows(rows, src, target, today)
    decreases |rows|
  {
    if rows != [] {
      ScanMiss(rows[1..], src, target, today);
      if Passes(Classify(rows[0], src, target, today)) {
        forall k | 0 < k < |rows| ensures rows[k] == rows[1..][k - 1] { }
      }
    }
  }

  /** A stop: when record `i` is too short for a field the scan reads and
      the scan goes past every record before it, the scan stops there. */
  lemma {:induction false} ScanBroken(rows: seq<Row>, i: int, src: string, target: string, today: string)
    requires 0 <= i < |rows| && Classify(rows[i], src, target, today).Short?
    requires forall j :: 0 <= j < i ==> Passes(Classify(rows[j], src, target, today))
    ensures Scan(rows, src, target, today) == Broken(rows[i])
    decreases i
  {
    if i > 0 {
      forall j | 0 <= j < i - 1 ensures Passes(Classify(rows[1..][j], src, target, today)) {
        assert rows[1..][j] == rows[j + 1];
      }
      assert rows[1..][i - 1] == rows[i];
      ScanBroken(rows[1..], i - 1, src, target, today);
      assert Passes(Classify(rows[0], src, target, today));
    }
  }

  /** On a hit the rate is the first fresh record's, whatever the service
      would answer, and the file is left as it was. */
  lemma CacheHit(records: seq<Row>, src: string, target: string, today: string, i: int, rate: string, fetched: Option<string>)
    requires records != [] && FreshAt(records[1..], i, src, target, today, rate)
    ensures GetRateSpec(records, src, target, today, fetched) == (Ok(rate), records)
  {
    ScanHit(records[1..], src, target, today, rate);
  }

  /** On a miss the file becomes the header, the other pairs' records in
      their order, and one new record for the pair dated today. */
  lemma CacheMiss(records: seq<Row>, src: string, target: string, today: string, rate: string)
    requires records != []
    requires forall k :: 0 <= k < |records| - 1 ==> Passes(Classify(records[1..][k], src, target, today))
    ensures GetRateSpec(records, src, target, today, Some(rate))
         == (Ok(rate), [records[0]] + OtherRows(records[1..], src, target, today) + [[src, target, rate, today]])
  {
    ScanMiss(records[1..], src, target, today);
  }

  /** On a miss whose fetch fails the request fails and the file is left as
      it was: nothing is written. */
  lemma CacheMissFetchFails(records: seq<Row>, src: string, target: string, today: string)
    requires records != []
    requires forall k :: 0 <= k < |records| - 1 ==> Passes(Classify(records[1..][k], src, target, today))
    ensures GetRateSpec(records, src, target, today, None) == (Err(FetchFailed), records)
  {
    ScanMiss(records[1..], src, target, today);
  }

  /** A record too short for a field read, before any fresh record, makes
      the request fail with that record, whatever the service would answer,
      and the file is left as it was. */
  lemma CacheBroken(records: seq<Row>, i: int, src: string, target: string, today: string, fetched: Option<string>)
    requires records != [] && 0 <= i < |records| - 1
    requires Classify(records[1..][i], src, target, today).Short?
    requires forall j :: 0 <= j < i ==> Passes(Classify(records[1..][j], src, target, today))
    ensures GetRateSpec(records, src, target, today, fetched) == (Err(MalformedRow(records[1..][i])), records)
  {
    ScanBroken(records[1..], i, src, target, today);
  }

  /** After a miss the pair has exactly one record, the new one, last. */
  lemma OnePairRecordAfterMiss(records: seq<Row>, src: string, target: string, today: string, rate: string)
    requires records != []
    requires Scan(records[1..], src, target, today).Miss?
    ensures var after := GetRateSpec(records, src, target, today, Some(rate)).1;
      after[|after| - 1] == [src, target, rate, today]
      && forall k :: 1 <= k < |after| - 1 ==> Classify(after[k], src, target, today).Other?
  {
    ScanMiss(records[1..], src, target, today);
    var kept := OtherRows(records[1..], src, target, today);
    var after := [records[0]] + kept + [[src, target, rate, today]];
    forall k | 1 <= k < |after| - 1 ensures Classify(after[k], src, target, today).Other? {
      assert after[k] == kept[k - 1];
    }
  }

  lemma ScanAfterOthers(kept: seq<Row>, row: Row, src: string, target: string, today: string, rate: string)
    requires forall k :: 0 <= k < |kept| ==> Classify(kept[k], src, target, today).Other?
    requires Classify(row, src, target, today) == Fresh(rate)
    ensures Scan(kept + [row], src, target, today) == Hit(rate)
  {
    var rows := kept + [row];
    assert rows[|kept|] == row;
    assert FreshAt(rows, |kept|, src, target, today, rate) by {
      forall j | 0 <= j < |kept| ensures Passes(Classify(rows[j], src, target, today)) {
        assert rows[j] == kept[j];
      }
    }
    ScanHit(rows, src, target, today, rate);
  }

  /** A second request for the pair on the same day is answered from the
      file just written: the fetched rate again, nothing fetched, nothing
      written. */
  lemma SameDayRepeatHits(records: seq<Row>, src: string, target: string, today: string, rate: string, again: Option<string>)
    requires GetRateSpec(records, src, target, today, Some(rate)).0 == Ok(rate)
    requires Scan(records[1..], src, target, today).Miss?
    ensures var after := GetRateSpec(records, src, target, today, Some(rate)).1;
      GetRateSpec(after, src, target, today, again) == (Ok(rate), after)
  {
    ScanMiss(records[1..], src, target, today);
    var kept := OtherRows(records[1..], src, target, today);
    var after := [records[0]] + kept + [[src, target, rate, today]];
    assert after[1..] == kept + [[src, target, rate, today]];
    ScanAfterOthers(kept, [src, target, rate, today], src, target, today, rate);
  }

  const Header: Row := ["src", "target", "rate", "date"]

  /** A file holding only the header gains the fetched record. */
  lemma FirstFetchExample()
    ensures GetRateSpec([Header], "eur", "jpy", "2024-05-02", Some("161.5"))
         == (Ok("161.5"), [Header, ["eur", "jpy", "161.5", "2024-05-02"]])
  {
    assert [Header][1..] == [];
    assert [Header] + [] + [["eur", "jpy", "161.5", "2024-05-02"]] == [Header, ["eur", "jpy", "161.5", "2024-05-02"]];
  }

  /** Yesterday's record for the pair is dropped; other pairs stay, in order. */
  lemma StaleRecordExample()
    ensures GetRateSpec([Header, ["eur", "jpy", "160", "2024-05-01"], ["usd", "jpy", "150", "2024-05-01"]],
                        "eur", "jpy", "2024-05-02", Some("161.5"))
         == (Ok("161.5"), [Header, ["usd", "jpy", "150", "2024-05-01"], ["eur", "jpy", "161.5", "2024-05-02"]])
  {
    var old1: Row := ["eur", "jpy", "160", "2024-05-01"];
    var other: Row := ["usd", "jpy", "150", "2024-05-01"];
    var records := [Header, old1, other];
    assert records[1..] == [old1, other];
    assert [old1, other][1..] == [other] && [other][1..] == [];
    assert Scan([other], "eur", "jpy", "2024-05-02") == Miss([other]);
    assert Scan(records[1..], "eur", "jpy", "2024-05-02") == Miss([other]);
    var today: Row := ["eur", "jpy", "161.5", "2024-05-02"];
    assert [records[0]] + [other] + [today] == [Header, other, today];
  }

  /** Today's record answers without a fetch; a blank line before it is an error. */
  lemma HitAndBlankLineExamples()
    ensures GetRateSpec([Header, ["eur", "jpy", "161.5", "2024-05-02"]], "eur", "jpy", "2024-05-02", None)
         == (Ok("161.5"), [Header, ["eur", "jpy", "161.5", "2024-05-02"]])
    ensures GetRateSpec([Header, [], ["eur", "jpy", "161.5", "2024-05-02"]], "eur", "jpy", "2024-05-02", None)
         == (Err(MalformedRow([])), [Header, [], ["eur", "jpy", "161.5", "2024-05-02"]])
  {
  }

  /** The rates file. */
  class RateStore {
    var records: seq<Row>

    constructor(initial: seq<Row>)
      ensures records == initial
    {
      records := initial;
    }

    /** `get_rate` as written: read the header, scan the records keeping
        the other pairs, return on a fresh record; otherwise fetch, append
        the new record and write the header and the kept records back. */
    method GetRate(src: string, target: string, today: string, fetched: Option<string>)
      returns (r: Result<string, CacheError>)
      modifies this
      ensures (r, records) == GetRateSpec(old(records), src, target, today, fetched)
    {
      if records == [] {
        return Err(NoHeader);
      }
      var header := records[0];
      var rows: seq<Row> := [];
      var i := 1;
      while i < |records|
        invariant records == old(records)
        invariant 1 <= i <= |records|
        invariant Scan(records[1..], src, target, today) == Extend(rows, Scan(records[i..], src, target, today))
        decreases |records| - i
      {
        var row := records[i];
        assert records[i..] == [row] + records[i + 1..];
        if |row| < 1 {
          return Err(MalformedRow(row));
        }
        if row[0] == src {
          if |row| < 2 {
            return Err(MalformedRow(row));
          }
          if row[1] == target {
            if |row| < 4 {
              return Err(MalformedRow(row));
            }
            if row[3] == today {
              return Ok(row[2]);
            }
            i := i + 1;
            continue;
          }
        }
        ExtendExtend(rows, [row], Scan(records[i + 1..], src, target, today));
        rows := rows + [row];
        i := i + 1;
      }
      assert records[i..] == [] && rows + [] == rows;
      assert Scan(records[1..], src, target, today) == Miss(rows);
      if fetched.None? {
        return Err(FetchFailed);
      }
      var rate := fetched.value;
      ghost var kept := rows;
      rows := rows + [[src, target, rate, today]];
      records := [header] + rows;
      r := Ok(rate);
      assert records == [header] + kept + [[src, target, rate, today]];
    }
  }
}

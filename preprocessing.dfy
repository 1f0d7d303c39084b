/**
 * `InsuranceDataPreprocessor`: the column-wise cleaning pass
 * (`process_data`), its transpose into row dictionaries
 * (`get_cleaned_data`) and the summary fold (`get_statistics`).
 * Reading the CSV file is replaced by `Load`, which is handed the header
 * line and the data rows directly.
 */
module Preprocessing {
  import opened Wrappers
  import opened FieldCleaning

  /** `next(iter(cleaned_dict.values()))` on a table with no columns raises StopIteration. */
  datatype Error = NoColumns

  /** The dictionary `get_statistics` returns; `cities` is kept as a set. */
  datatype Statistics = Statistics(
    totalRecords: nat,
    cities: set<Value>,
    totalClaimAmount: real,
    totalPremium: real,
    missingValues: map<string, nat>,
    invalidRecords: nat)

  /** Every row has one cell per header and no header repeats. */
  predicate WellFormed(headers: seq<string>, data: seq<seq<string>>)
  {
    DistinctHeaders(headers) && forall i :: 0 <= i < |data| ==> |data[i]| == |headers|
  }

  /** Column `j` of the raw table. */
  function RawColumn(data: seq<seq<string>>, j: nat): (col: seq<string>)
    requires forall i :: 0 <= i < |data| ==> j < |data[i]|
    ensures |col| == |data|
  {
    seq(|data|, i requires 0 <= i < |data| => data[i][j])
  }

  /** `[f(x) for x in s]`. */
  function MapSeq<A, B>(f: A -> B, s: seq<A>): (r: seq<B>)
  {
    seq(|s|, i requires 0 <= i < |s| => f(s[i]))
  }

  lemma MapSeqSnoc<A, B>(f: A -> B, s: seq<A>, i: nat)
    requires i < |s|
    ensures MapSeq(f, s[..i + 1]) == MapSeq(f, s[..i]) + [f(s[i])]
  {
  }

  /** The cleaner `process_data` applies under `header`. */
  function Cleaner(header: string): string -> Value
  {
    value => CleanField(header, value)
  }

  /** The cleaned cells of one raw column under `header`, in row order. */
  function CleanColumn(header: string, col: seq<string>): seq<Value>
  {
    MapSeq(Cleaner(header), col)
  }

  /** Cleaning one more raw cell appends exactly its cleaned value to the column. */
  lemma CleanColumnSnoc(header: string, col: seq<string>, i: nat)
    requires i < |col|
    ensures CleanColumn(header, col[..i + 1]) == CleanColumn(header, col[..i]) + [CleanField(header, col[i])]
  {
    MapSeqSnoc(Cleaner(header), col, i);
  }

  /** The row dictionaries of a well-formed table. */
  function CleanRows(headers: seq<string>, data: seq<seq<string>>): (rows: seq<Record>)
    requires WellFormed(headers, data)
    ensures |rows| == |data|
  {
    seq(|data|, i requires 0 <= i < |data| => CleanRecord(headers, data[i]))
  }

  lemma PrefixSnoc<T>(s: seq<T>, i: nat)
    requires i < |s|
    ensures s[..i + 1] == s[..i] + [s[i]]
  {
  }

  /** Number of rows `validate_row` accepts. */
  function ValidCount(rows: seq<Record>): (n: nat)
    ensures n <= |rows|
  {
    if rows == [] then 0
    else ValidCount(rows[..|rows| - 1]) + (if ValidateRow(rows[|rows| - 1]) then 1 else 0)
  }

  /** The CITY values of the valid rows. */
  function ValidCities(rows: seq<Record>): set<Value>
  {
    if rows == [] then {}
    else
      var last := rows[|rows| - 1];
      ValidCities(rows[..|rows| - 1]) + (if ValidateRow(last) then {last[CityField]} else {})
  }

  /** One of the two amount columns `get_statistics` totals. */
  predicate AmountField(f: string)
  {
    f == ClaimAmountField || f == PremiumField
  }

  /** Sum of column `f` over the valid rows. */
  function ValidSum(rows: seq<Record>, f: string): real
    requires AmountField(f)
  {
    if rows == [] then 0.0
    else
      var last := rows[|rows| - 1];
      ValidSum(rows[..|rows| - 1], f) + (if ValidateRow(last) then last[f].x else 0.0)
  }

  /** Number of rows holding a falsy value under `key`. */
  function MissingCount(rows: seq<Record>, key: string): nat
  {
    if rows == [] then 0
    else
      var last := rows[|rows| - 1];
      MissingCount(rows[..|rows| - 1], key) + (if key in last && !Truthy(last[key]) then 1 else 0)
  }

  /** `d.get(key, 0)` on a counter dictionary. */
  function Get(m: map<string, nat>, key: string): nat
  {
    if key in m then m[key] else 0
  }

  /** Every valid row adds a strictly positive amount, so the totals are positive exactly when some row is valid. */
  lemma {:induction false} ValidSumPositive(rows: seq<Record>, f: string)
    requires AmountField(f)
    ensures ValidSum(rows, f) >= 0.0
    ensures ValidSum(rows, f) > 0.0 <==> ValidCount(rows) > 0
    decreases |rows|
  {
    if rows != [] {
      ValidSumPositive(rows[..|rows| - 1], f);
    }
  }

  /** Every recorded city is a non-empty value, and there are no more of them than valid rows. */
  lemma {:induction false} ValidCitiesBound(rows: seq<Record>)
    ensures forall c :: c in ValidCities(rows) ==> Truthy(c)
    ensures |ValidCities(rows)| <= ValidCount(rows)
    decreases |rows|
  {
    if rows != [] {
      ValidCitiesBound(rows[..|rows| - 1]);
    }
  }

  /** A row with a falsy claim amount, premium or city is never valid, so such rows are all counted as invalid. */
  lemma {:induction false} MissingRequiredInvalid(rows: seq<Record>, f: string)
    requires f in RequiredFields
    ensures MissingCount(rows, f) + ValidCount(rows) <= |rows|
    decreases |rows|
  {
    if rows != [] {
      MissingRequiredInvalid(rows[..|rows| - 1], f);
    }
  }

  class InsuranceDataPreprocessor {
    const filePath: string
    var headers: seq<string>
    var data: seq<seq<string>>

    /** `__init__`: no table has been read yet. */
    constructor (filePath: string)
      ensures this.filePath == filePath && headers == [] && data == []
    {
      this.filePath := filePath;
      headers := [];
      data := [];
    }

    /** Stands in for `read_csv`: the first CSV record becomes the headers, the rest the data. */
    method Load(headerLine: seq<string>, rows: seq<seq<string>>)
      modifies this
      ensures headers == headerLine && data == rows
    {
      headers := headerLine;
      data := rows;
    }

    /**
     * `process_data`: one list per header, holding that column's cleaned
     * cells in row order.
     */
    method ProcessData() returns (columns: map<string, seq<Value>>)
      requires WellFormed(headers, data)
      ensures forall h :: h in columns <==> h in headers
      ensures forall j :: 0 <= j < |headers| ==> columns[headers[j]] == CleanColumn(headers[j], RawColumn(data, j))
    {
      columns := map h | h in headers :: [];
      var i := 0;
      while i < |data|
        invariant 0 <= i <= |data|
        invariant forall h :: h in columns <==> h in headers
        invariant forall j :: 0 <= j < |headers| ==> columns[headers[j]] == CleanColumn(headers[j], RawColumn(data, j)[..i])
      {
        columns := AppendRow(columns, i);
        i := i + 1;
      }
      forall j | 0 <= j < |headers| ensures RawColumn(data, j)[..i] == RawColumn(data, j) { }
    }

    /** The body of the row loop of `process_data`: each cell of row `i`, cleaned, is appended to its header's list. */
    method AppendRow(columns: map<string, seq<Value>>, i: nat) returns (next: map<string, seq<Value>>)
      requires WellFormed(headers, data) && i < |data|
      requires forall h :: h in columns <==> h in headers
      requires forall j :: 0 <= j < |headers| ==> columns[headers[j]] == CleanColumn(headers[j], RawColumn(data, j)[..i])
      ensures forall h :: h in next <==> h in headers
      ensures forall j :: 0 <= j < |headers| ==> next[headers[j]] == CleanColumn(headers[j], RawColumn(data, j)[..i + 1])
    {
      next := columns;
      var row := data[i];
      var k := 0;
      while k < |row|
        invariant 0 <= k <= |row|
        invariant forall h :: h in next <==> h in headers
        invariant forall j :: 0 <= j < |headers| ==>
          next[headers[j]] == CleanColumn(headers[j], RawColumn(data, j)[..if j < k then i + 1 else i])
      {
        var header := headers[k];
        var cleaned := CleanField(header, row[k]);
        CleanColumnSnoc(header, RawColumn(data, k), i);
        ghost var prev := next;
        next := next[header := next[header] + [cleaned]];
        forall j | 0 <= j < |headers|
          ensures next[headers[j]] == CleanColumn(headers[j], RawColumn(data, j)[..if j < k + 1 then i + 1 else i])
        {
          if j != k {
            assert headers[j] != header;
            assert next[headers[j]] == prev[headers[j]];
          }
        }
        k := k + 1;
      }
    }

    /**
     * `get_cleaned_data`: row `i` maps every header to that column's
     * cleaned cell in row `i`. A table without columns has no first column
     * to take the row count from.
     */
    method GetCleanedData() returns (r: Result<seq<Record>, Error>)
      requires WellFormed(headers, data)
      ensures r.Failure? <==> headers == []
      ensures r.Success? ==> r.value == CleanRows(headers, data)
    {
      var columns := ProcessData();
      if headers == [] {
        return Failure(NoColumns);
      }
      var numRows := |columns[headers[0]]|;
      var cleaned: seq<Record> := [];
      var i := 0;
      while i < numRows
        invariant 0 <= i <= numRows == |data|
        invariant cleaned == CleanRows(headers, data)[..i]
      {
        var rowDict := RowDict(columns, i);
        PrefixSnoc(CleanRows(headers, data), i);
        cleaned := cleaned + [rowDict];
        i := i + 1;
      }
      return Success(cleaned);
    }

    /** The inner loop of `get_cleaned_data`: the dictionary of row `i`, read off the column lists. */
    method RowDict(columns: map<string, seq<Value>>, i: nat) returns (rowDict: Record)
      requires WellFormed(headers, data) && i < |data|
      requires forall h :: h in columns <==> h in headers
      requires forall j :: 0 <= j < |headers| ==> columns[headers[j]] == CleanColumn(headers[j], RawColumn(data, j))
      ensures rowDict == CleanRecord(headers, data[i])
    {
      rowDict := map[];
      var j := 0;
      while j < |headers|
        invariant 0 <= j <= |headers|
        invariant rowDict == CleanRecord(headers[..j], data[i][..j])
      {
        CleanRecordSnoc(headers, data[i], j);
        assert columns[headers[j]][i] == CleanField(headers[j], data[i][j]);
        rowDict := rowDict[headers[j] := columns[headers[j]][i]];
        j := j + 1;
      }
      assert headers[..j] == headers && data[i][..j] == data[i];
    }

    /**
     * `get_statistics`: the record count, the cities and amount totals of
     * the valid rows, the number of invalid rows and, per column, the
     * number of falsy cells (columns with none are absent).
     */
    method GetStatistics() returns (r: Result<Statistics, Error>)
      requires WellFormed(headers, data)
      ensures r.Failure? <==> headers == []
      ensures r.Success? ==> Summarizes(r.value, CleanRows(headers, data))
    {
      var cleanedData := GetCleanedData();
      if cleanedData.Failure? {
        return Failure(cleanedData.error);
      }
      var rows := cleanedData.value;
      forall i | 0 <= i < |rows| ensures forall k :: k in rows[i] <==> k in headers {
        CleanRecordKeys(headers, data[i]);
      }
      var stats := Summarize(rows, headers);
      return Success(stats);
    }
  }

  /**
   * What `get_statistics` reports about `rows`: the record count, the
   * cities and amount totals of the valid rows, the number of invalid
   * rows and, per column, the number of falsy cells (columns with none
   * are absent).
   */
  ghost predicate Summarizes(s: Statistics, rows: seq<Record>)
  {
    && s.totalRecords == |rows|
    && s.invalidRecords == |rows| - ValidCount(rows)
    && s.cities == ValidCities(rows)
    && s.totalClaimAmount == ValidSum(rows, ClaimAmountField)
    && s.totalPremium == ValidSum(rows, PremiumField)
    && (forall k :: k in s.missingValues <==> MissingCount(rows, k) > 0)
    && (forall k :: k in s.missingValues ==> s.missingValues[k] == MissingCount(rows, k))
  }

  /** The counting loop of `get_statistics` over the cleaned rows, whose keys are `keys` in order. */
  method Summarize(rows: seq<Record>, keys: seq<string>) returns (s: Statistics)
    requires DistinctHeaders(keys)
    requires forall i :: 0 <= i < |rows| ==> forall k :: k in rows[i] <==> k in keys
    ensures Summarizes(s, rows)
  {
    var cities: set<Value> := {};
    var totalClaimAmount := 0.0;
    var totalPremium := 0.0;
    var missing: map<string, nat> := map[];
    var invalid := 0;
    var i := 0;
    while i < |rows|
      invariant 0 <= i <= |rows|
      invariant invalid == i - ValidCount(rows[..i])
      invariant cities == ValidCities(rows[..i])
      invariant totalClaimAmount == ValidSum(rows[..i], ClaimAmountField)
      invariant totalPremium == ValidSum(rows[..i], PremiumField)
      invariant forall k :: k in missing ==> missing[k] > 0
      invariant forall k :: Get(missing, k) == MissingCount(rows[..i], k)
    {
      var row := rows[i];
      assert rows[..i + 1][..i] == rows[..i] && rows[..i + 1][i] == row;
      if ValidateRow(row) {
        cities := cities + {row[CityField]};
        totalClaimAmount := totalClaimAmount + row[ClaimAmountField].x;
        totalPremium := totalPremium + row[PremiumField].x;
      } else {
        invalid := invalid + 1;
      }
      missing := CountMissing(missing, row, keys);
      i := i + 1;
    }
    assert rows[..i] == rows;
    s := Statistics(|rows|, cities, totalClaimAmount, totalPremium, missing, invalid);
  }

  /**
   * The `for key, value in row.items()` loop of `get_statistics`: every key
   * whose value is falsy has its counter raised by one.
   */
  method CountMissing(missing: map<string, nat>, row: Record, keys: seq<string>) returns (next: map<string, nat>)
    requires DistinctHeaders(keys) && forall k :: k in row <==> k in keys
    requires forall k :: k in missing ==> missing[k] > 0
    ensures forall k :: k in next ==> next[k] > 0
    ensures forall k :: Get(next, k) == Get(missing, k) + (if k in row && !Truthy(row[k]) then 1 else 0)
  {
    next := missing;
    var j := 0;
    while j < |keys|
      invariant 0 <= j <= |keys|
      invariant forall k :: k in next ==> next[k] > 0
      invariant forall k ::
        Get(next, k) == Get(missing, k) + (if k in keys[..j] && k in row && !Truthy(row[k]) then 1 else 0)
    {
      var key := keys[j];
      assert keys[..j + 1] == keys[..j] + [key];
      assert key !in keys[..j];
      if !Truthy(row[key]) {
        next := next[key := Get(next, key) + 1];
      }
      j := j + 1;
    }
    assert keys[..j] == keys;
  }
}

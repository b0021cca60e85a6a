/**
 * The payload builder: each dataset row becomes a record
 * `{main_item, children}`; the first failing row aborts the whole build.
 */
module Records {
  import opened Wrappers
  import opened Rows

  /** The label of the column whose value becomes `main_item`. */
  const ResultCode: string := "result_code"

  /** A decoded table: the column labels in order, and the rows. */
  datatype Dataset<V> = Dataset(columns: seq<string>, rows: seq<Row<V>>)

  /**
   * What a data frame guarantees: column labels are unique and every row
   * carries exactly the dataset's columns, in the same order.
   */
  ghost predicate WellFormed<V>(ds: Dataset<V>)
  {
    && (forall i, j :: 0 <= i < j < |ds.columns| ==> ds.columns[i] != ds.columns[j])
    && (forall k :: 0 <= k < |ds.rows| ==> Names(ds.rows[k]) == ds.columns)
  }

  /** One entry of the payload. */
  datatype Record<V> = Record(mainItem: V, children: Row<V>)

  /** The payload: one record per row, in row order. */
  type Payload<V> = seq<Record<V>>

  /** `df.columns[i]`: the label at position i, or an IndexError. */
  function Column(columns: seq<string>, i: nat): Result<string, Error>
  {
    if i < |columns| then Success(columns[i]) else Failure(IndexError(i))
  }

  /** The labels removed from a row to form its children. */
  function Excluded(columns: seq<string>): seq<string>
    requires |columns| >= 2
  {
    [columns[0], columns[1], ResultCode]
  }

  /**
   * The body of the build loop for one row: look up `result_code` (a
   * KeyError if absent, raised first), then evaluate `df.columns[0]` and
   * `df.columns[1]` (an IndexError at the first position past the end),
   * then drop those three labels, ignoring the absent ones.
   */
  function MakeRecord<V>(columns: seq<string>, row: Row<V>): (r: Result<Record<V>, Error>)
    ensures r.Success? <==> ResultCode in Names(row) && |columns| >= 2
    ensures ResultCode !in Names(row) ==> r == Failure(KeyError(ResultCode))
    ensures ResultCode in Names(row) && |columns| < 2 ==> r == Failure(IndexError(|columns|))
    ensures r.Success? ==> Lookup(row, ResultCode) == Success(r.value.mainItem)
  {
    match Lookup(row, ResultCode)
    case Failure(e) => Failure(e)
    case Success(mainItem) =>
      match Column(columns, 0)
      case Failure(e) => Failure(e)
      case Success(_) =>
        match Column(columns, 1)
        case Failure(e) => Failure(e)
        case Success(_) =>
          Success(Record(mainItem, Drop(row, Excluded(columns))))
  }

  /** The rows processed in order; the first failing row's error is the result. */
  function TransformRows<V>(columns: seq<string>, rows: seq<Row<V>>): Result<Payload<V>, Error>
  {
    if rows == [] then Success([])
    else
      match MakeRecord(columns, rows[0])
      case Failure(e) => Failure(e)
      case Success(record) =>
        match TransformRows(columns, rows[1..])
        case Failure(e) => Failure(e)
        case Success(records) => Success([record] + records)
  }

  /** The payload prepared from a dataset, or the error that aborts it. */
  function Transform<V>(ds: Dataset<V>): Result<Payload<V>, Error>
  {
    TransformRows(ds.columns, ds.rows)
  }

  /** `prefix` in front of a successful result; errors pass through. */
  function Prepend<V>(prefix: Payload<V>, r: Result<Payload<V>, Error>): Result<Payload<V>, Error>
  {
    match r
    case Failure(e) => Failure(e)
    case Success(records) => Success(prefix + records)
  }

  lemma PrependNil<V>(r: Result<Payload<V>, Error>)
    ensures Prepend([], r) == r
  {
    if r.Success? {
      assert [] + r.value == r.value;
    }
  }

  lemma PrependAppend<V>(prefix: Payload<V>, record: Record<V>, r: Result<Payload<V>, Error>)
    ensures Prepend(prefix, Prepend([record], r)) == Prepend(prefix + [record], r)
  {
    if r.Success? {
      assert prefix + ([record] + r.value) == (prefix + [record]) + r.value;
    }
  }

  /**
   * The build loop itself: appends one record per row to `dataList`, and
   * stops at the first row that raises.
   */
  method BuildPayload<V>(ds: Dataset<V>) returns (r: Result<Payload<V>, Error>)
    ensures r == Transform(ds)
  {
    var dataList: Payload<V> := [];
    var i := 0;
    assert ds.rows[0..] == ds.rows;
    PrependNil(Transform(ds));
    while i < |ds.rows|
      invariant 0 <= i <= |ds.rows|
      invariant Transform(ds) == Prepend(dataList, TransformRows(ds.columns, ds.rows[i..]))
    {
      assert ds.rows[i..][0] == ds.rows[i];
      assert ds.rows[i..][1..] == ds.rows[i + 1..];
      var record := MakeRecord(ds.columns, ds.rows[i]);
      if record.Failure? {
        return Failure(record.error);
      }
      assert TransformRows(ds.columns, ds.rows[i..])
        == Prepend([record.value], TransformRows(ds.columns, ds.rows[i + 1..]));
      PrependAppend(dataList, record.value, TransformRows(ds.columns, ds.rows[i + 1..]));
      dataList := dataList + [record.value];
      i := i + 1;
    }
    assert ds.rows[i..] == [];
    assert dataList + [] == dataList;
    r := Success(dataList);
  }

  /** One record per row, in row order, each built from its own row. */
  lemma {:induction false} TransformPerRow<V>(columns: seq<string>, rows: seq<Row<V>>)
    requires TransformRows(columns, rows).Success?
    ensures |TransformRows(columns, rows).value| == |rows|
    ensures forall k :: 0 <= k < |rows| ==>
      MakeRecord(columns, rows[k]) == Success(TransformRows(columns, rows).value[k])
  {
    if rows != [] {
      TransformPerRow(columns, rows[1..]);
      var p := TransformRows(columns, rows).value;
      forall k | 0 <= k < |rows|
        ensures MakeRecord(columns, rows[k]) == Success(p[k])
      {
        if k > 0 {
          assert rows[1..][k - 1] == rows[k];
        }
      }
    }
  }

  /** The build succeeds exactly when every row yields a record. */
  lemma {:induction false} TransformSucceedsIff<V>(columns: seq<string>, rows: seq<Row<V>>)
    ensures TransformRows(columns, rows).Success? <==>
      forall k :: 0 <= k < |rows| ==> MakeRecord(columns, rows[k]).Success?
  {
    if rows != [] {
      TransformSucceedsIff(columns, rows[1..]);
      if forall k :: 0 <= k < |rows| ==> MakeRecord(columns, rows[k]).Success? {
        forall k | 0 <= k < |rows[1..]| ensures MakeRecord(columns, rows[1..][k]).Success? {
          assert rows[1..][k] == rows[k + 1];
        }
      } else if MakeRecord(columns, rows[0]).Success? {
        var k :| 0 <= k < |rows| && MakeRecord(columns, rows[k]).Failure?;
        assert rows[1..][k - 1] == rows[k];
      }
    }
  }

  /**
   * The position of the first row that raises, or the number of rows when
   * none does.
   */
  function FirstFailure<V>(columns: seq<string>, rows: seq<Row<V>>): (k: nat)
    ensures k <= |rows|
    ensures forall m :: 0 <= m < k ==> MakeRecord(columns, rows[m]).Success?
    ensures k < |rows| ==> MakeRecord(columns, rows[k]).Failure?
  {
    if rows == [] then 0
    else if MakeRecord(columns, rows[0]).Failure? then 0
    else 1 + FirstFailure(columns, rows[1..])
  }

  /**
   * The build fails exactly when some row raises, and then with the error
   * of the first such row: no partial payload is returned.
   */
  lemma {:induction false} TransformFirstError<V>(columns: seq<string>, rows: seq<Row<V>>)
    ensures TransformRows(columns, rows).Failure? <==> FirstFailure(columns, rows) < |rows|
    ensures FirstFailure(columns, rows) < |rows| ==>
      TransformRows(columns, rows) == Failure(MakeRecord(columns, rows[FirstFailure(columns, rows)]).error)
  {
    if rows != [] && MakeRecord(columns, rows[0]).Success? {
      TransformFirstError(columns, rows[1..]);
      var k := FirstFailure(columns, rows[1..]);
      if k < |rows[1..]| {
        assert rows[1..][k] == rows[k + 1];
      }
    }
  }

  /**
   * What a record's children are: no field labelled like column 0, column
   * 1 or `result_code`; every other field of the row, with its value; and
   * nothing that is not a field of the row, in the row's column order.
   */
  lemma RecordChildren<V>(columns: seq<string>, row: Row<V>)
    requires MakeRecord(columns, row).Success?
    ensures var children := MakeRecord(columns, row).value.children;
      && (forall i :: 0 <= i < |children| ==>
            children[i].name != columns[0] && children[i].name != columns[1] && children[i].name != ResultCode)
      && (forall i :: 0 <= i < |children| ==> children[i] in row)
      && (forall i :: 0 <= i < |row| && row[i].name !in Excluded(columns) ==> row[i] in children)
      && Subsequence(children, row)
  {
    DropSubsequence(row, Excluded(columns));
  }

  /**
   * On a row with unique labels the children are determined by the
   * properties above: any order-preserving selection of exactly the
   * non-excluded fields equals them.
   */
  lemma RecordChildrenDetermined<V>(columns: seq<string>, row: Row<V>, s: Row<V>)
    requires MakeRecord(columns, row).Success?
    requires UniqueNames(row)
    requires Subsequence(s, row)
    requires forall f :: f in s <==> f in row && f.name !in Excluded(columns)
    ensures MakeRecord(columns, row).value.children == s
  {
    DropCharacterized(row, Excluded(columns), s);
  }

  /**
   * When `result_code` is one of the first two columns, dropping it by
   * name adds nothing: the children are the row without its first two
   * columns' labels.
   */
  lemma ResultCodeAmongFirstTwo<V>(columns: seq<string>, row: Row<V>)
    requires MakeRecord(columns, row).Success?
    requires columns[0] == ResultCode || columns[1] == ResultCode
    ensures MakeRecord(columns, row).value.children == Drop(row, [columns[0], columns[1]])
  {
    DropLabelSet(row, Excluded(columns), [columns[0], columns[1]]);
  }

  /** In a well-formed dataset every row has unique labels. */
  lemma WellFormedRowUnique<V>(ds: Dataset<V>, k: nat)
    requires WellFormed(ds)
    requires k < |ds.rows|
    ensures UniqueNames(ds.rows[k])
  {
    var row := ds.rows[k];
    assert Names(row) == ds.columns;
    forall i, j | 0 <= i < j < |row| ensures row[i].name != row[j].name {
      assert Names(row)[i] == row[i].name && Names(row)[j] == row[j].name;
    }
  }

  /**
   * Each record's `main_item` is the row's value in the column labelled
   * `result_code`.
   */
  lemma MainItemIsResultCode<V>(ds: Dataset<V>, k: nat, j: nat)
    requires WellFormed(ds)
    requires Transform(ds).Success?
    requires k < |ds.rows|
    requires j < |ds.columns| && ds.columns[j] == ResultCode
    ensures |Transform(ds).value| == |ds.rows|
    ensures Transform(ds).value[k].mainItem == ds.rows[k][j].value
  {
    TransformPerRow(ds.columns, ds.rows);
    WellFormedRowUnique(ds, k);
    var row := ds.rows[k];
    assert Names(row) == ds.columns;
    assert Names(row)[j] == row[j].name;
    LookupAt(row, j);
  }

  /**
   * For a well-formed dataset the outcome depends only on its columns:
   * with no rows the payload is empty; otherwise a missing `result_code`
   * column raises KeyError, fewer than two columns raise IndexError, and
   * anything else succeeds.
   */
  lemma {:induction false} WellFormedOutcome<V>(ds: Dataset<V>)
    requires WellFormed(ds)
    ensures ds.rows == [] ==> Transform(ds) == Success([])
    ensures ds.rows != [] && ResultCode !in ds.columns ==> Transform(ds) == Failure(KeyError(ResultCode))
    ensures ds.rows != [] && ResultCode in ds.columns && |ds.columns| < 2 ==>
      Transform(ds) == Failure(IndexError(|ds.columns|))
    ensures ResultCode in ds.columns && |ds.columns| >= 2 ==> Transform(ds).Success?
  {
    TransformSucceedsIff(ds.columns, ds.rows);
    if ds.rows != [] {
      assert Names(ds.rows[0]) == ds.columns;
    }
    forall k | 0 <= k < |ds.rows| ensures Names(ds.rows[k]) == ds.columns { }
  }

  /** Columns `id, name, result_code, qty` and the row `1, widget, OK, 5`. */
  lemma ExampleWidget()
    ensures Transform(Dataset(["id", "name", "result_code", "qty"],
                              [[Field("id", "1"), Field("name", "widget"), Field("result_code", "OK"), Field("qty", "5")]]))
         == Success([Record("OK", [Field("qty", "5")])])
  {
    var columns := ["id", "name", "result_code", "qty"];
    var row := [Field("id", "1"), Field("name", "widget"), Field("result_code", "OK"), Field("qty", "5")];
    var labels := ["id", "name", ResultCode];
    var tail1 := [Field("name", "widget"), Field("result_code", "OK"), Field("qty", "5")];
    var tail2 := [Field("result_code", "OK"), Field("qty", "5")];
    var tail3 := [Field("qty", "5")];
    assert row[1..] == tail1 && tail1[1..] == tail2 && tail2[1..] == tail3 && tail3[1..] == [];
    assert Lookup(tail2, ResultCode) == Success("OK");
    assert Lookup(row, ResultCode) == Success("OK");
    assert Drop(tail3, labels) == tail3;
    assert Drop(tail2, labels) == tail3;
    assert Drop(tail1, labels) == tail3;
    assert Drop(row, labels) == tail3;
    assert MakeRecord(columns, row) == Success(Record("OK", tail3));
    var rows := [row];
    assert rows[1..] == [];
    assert TransformRows(columns, rows[1..]) == Success([]);
    assert [Record("OK", tail3)] + [] == [Record("OK", tail3)];
    assert Transform(Dataset(columns, rows)) == Success([Record("OK", tail3)]);
  }

  /** Columns `result_code, b, c` and the row `X, 1, 2`: only `c` survives. */
  lemma ExampleResultCodeFirst()
    ensures Transform(Dataset(["result_code", "b", "c"],
                              [[Field("result_code", "X"), Field("b", "1"), Field("c", "2")]]))
         == Success([Record("X", [Field("c", "2")])])
  {
    var columns := ["result_code", "b", "c"];
    var row := [Field("result_code", "X"), Field("b", "1"), Field("c", "2")];
    var labels := ["result_code", "b", ResultCode];
    var tail1 := [Field("b", "1"), Field("c", "2")];
    var tail2 := [Field("c", "2")];
    assert row[1..] == tail1 && tail1[1..] == tail2 && tail2[1..] == [];
    assert Lookup(row, ResultCode) == Success("X");
    assert Drop(tail2, labels) == tail2;
    assert Drop(tail1, labels) == tail2;
    assert Drop(row, labels) == tail2;
    assert MakeRecord(columns, row) == Success(Record("X", tail2));
    var rows := [row];
    assert rows[1..] == [];
    assert TransformRows(columns, rows[1..]) == Success([]);
    assert [Record("X", tail2)] + [] == [Record("X", tail2)];
    assert Transform(Dataset(columns, rows)) == Success([Record("X", tail2)]);
  }

  /** A dataset without a `result_code` column raises KeyError. */
  lemma ExampleMissingResultCode()
    ensures Transform(Dataset(["a", "b"], [[Field("a", "1"), Field("b", "2")]]))
         == Failure(KeyError(ResultCode))
  {
    var row := [Field("a", "1"), Field("b", "2")];
    assert Names(row) == ["a", "b"];
  }
}

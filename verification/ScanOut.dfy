/** Handing the bound rows to DuckDB: column types from the first non-null value, batches of at most
    2048 rows, and typed writes into the output vectors. */
module ScanOut {
  import opened Wrappers
  import opened Bags

  /** A cell as the backends decode it.  Floats are carried as bit patterns; dates, times and documents
      are opaque here, since only their printed form is used. */
  datatype Value =
    | Null
    | Bool(b: bool)
    | Int8(i: int) | Int16(i: int) | Int32(i: int) | Int64(i: int)
    | UInt8(u: nat) | UInt16(u: nat) | UInt32(u: nat) | UInt64(u: nat)
    | Float32(bits: nat) | Float64(bits: nat)
    | Text(text: string)
    | Bytes(bytes: seq<nat>)
    | Date(ticks: int) | Time(ticks: int) | DateTime(ticks: int) | DateTimeUtc(ticks: int)
    | Uuid(id: nat)
    | Json(doc: string)

  datatype Row = Row(columns: seq<string>, values: seq<Value>)

  datatype LogicalType =
    | Boolean | Tinyint | Smallint | Integer | Bigint
    | UTinyint | USmallint | UInteger | UBigint
    | Float | Double | Varchar | Blob

  /** What a vector slot holds: a fixed-width number of the type it was written as, or a string or
      byte string. */
  datatype Slot = Fixed(ty: LogicalType, number: int) | Str(s: string) | Raw(bytes: seq<nat>)

  const VECTOR_SIZE: nat := 2048

  /** `row.get(col).unwrap_or(&Value::Null)`. */
  function Cell(row: Row, col: nat): Value {
    if col < |row.values| then row.values[col] else Null
  }

  /** The column type a non-null value calls for. */
  function TypeOf(v: Value): LogicalType {
    match v
    case Bool(_) => Boolean
    case Int8(_) => Tinyint
    case Int16(_) => Smallint
    case Int32(_) => Integer
    case Int64(_) => Bigint
    case UInt8(_) => UTinyint
    case UInt16(_) => USmallint
    case UInt32(_) => UInteger
    case UInt64(_) => UBigint
    case Float32(_) => Float
    case Float64(_) => Double
    case Bytes(_) => Blob
    case _ => Varchar
  }

  /** `infer_col_type`: the type of the first non-null value, or Varchar if there is none. */
  method InferColType(rows: seq<Row>, col: nat) returns (ty: LogicalType)
    ensures ty == InferredType(rows, col)
    ensures (forall i :: 0 <= i < |rows| && col < |rows[i].values| ==> rows[i].values[col].Null?) ==> ty == Varchar
    ensures forall i ::
      && 0 <= i < |rows| && col < |rows[i].values| && !rows[i].values[col].Null?
      && (forall j :: 0 <= j < i && col < |rows[j].values| ==> rows[j].values[col].Null?)
      ==> ty == TypeOf(rows[i].values[col])
  {
    for k := 0 to |rows|
      invariant forall j :: 0 <= j < k && col < |rows[j].values| ==> rows[j].values[col].Null?
      invariant InferredType(rows, col) == InferredType(rows[k..], col)
    {
      var cell := Cell(rows[k], col);
      assert rows[k..][0] == rows[k] && rows[k..][1..] == rows[k + 1..];
      if !cell.Null? {
        return TypeOf(cell);
      }
    }
    return Varchar;
  }

  function InferredType(rows: seq<Row>, col: nat): LogicalType {
    if rows == [] then Varchar
    else if Cell(rows[0], col).Null? then InferredType(rows[1..], col)
    else TypeOf(Cell(rows[0], col))
  }

  // ----- Slots ---------------------------------------------------------------------------------

  /** What `write_value` leaves behind for a value; `None` is the null flag. */
  function Stored(show: Value -> string, v: Value): Option<Slot> {
    match v
    case Null => None
    case Bool(b) => Some(Fixed(Boolean, if b then 1 else 0))
    case Int8(n) => Some(Fixed(Tinyint, n))
    case Int16(n) => Some(Fixed(Smallint, n))
    case Int32(n) => Some(Fixed(Integer, n))
    case Int64(n) => Some(Fixed(Bigint, n))
    case UInt8(n) => Some(Fixed(UTinyint, n))
    case UInt16(n) => Some(Fixed(USmallint, n))
    case UInt32(n) => Some(Fixed(UInteger, n))
    case UInt64(n) => Some(Fixed(UBigint, n))
    case Float32(n) => Some(Fixed(Float, n))
    case Float64(n) => Some(Fixed(Double, n))
    case Bytes(b) => Some(Raw(b))
    case other => Some(Str(show(other)))
  }

  /** A slot is usable in a column only if it was written as the column's type. */
  predicate FitsColumn(ty: LogicalType, s: Option<Slot>) {
    match s
    case None => true
    case Some(Fixed(t, _)) => t == ty
    case Some(Str(_)) => ty == Varchar
    case Some(Raw(_)) => ty == Blob
  }

  /** DuckDB's reading of a slot of a column. */
  function ReadBack(ty: LogicalType, s: Option<Slot>): Value
    requires FitsColumn(ty, s)
  {
    match s
    case None => Null
    case Some(Str(text)) => Text(text)
    case Some(Raw(bytes)) => Bytes(bytes)
    case Some(Fixed(t, n)) =>
      match t
      case Boolean => Bool(n != 0)
      case Tinyint => Int8(n)
      case Smallint => Int16(n)
      case Integer => Int32(n)
      case Bigint => Int64(n)
      case UTinyint => UInt8(Natural(n))
      case USmallint => UInt16(Natural(n))
      case UInteger => UInt32(Natural(n))
      case UBigint => UInt64(Natural(n))
      case Float => Float32(Natural(n))
      case Double => Float64(Natural(n))
      case _ => Null
  }

  function Natural(n: int): nat {
    if n < 0 then 0 else n
  }

  /** What the reader of a column should get for a value: nulls, numbers and byte strings themselves,
      everything else in its printed form. */
  function Delivered(show: Value -> string, v: Value): (r: Value)
    ensures r == v || r == Text(show(v))
    ensures v.Null? || v.Bool? || v.Int8? || v.Int16? || v.Int32? || v.Int64? || v.Bytes? ==> r == v
    ensures v.UInt8? || v.UInt16? || v.UInt32? || v.UInt64? || v.Float32? || v.Float64? ==> r == v
  {
    if v.Null? || TypeOf(v) != Varchar then v else Text(show(v))
  }

  /** The non-null values of a column all call for one type. */
  ghost predicate Homogeneous(rows: seq<Row>, col: nat) {
    forall i, j :: 0 <= i < |rows| && col < |rows[i].values| && !rows[i].values[col].Null?
                   && 0 <= j < |rows| && col < |rows[j].values| && !rows[j].values[col].Null?
                   ==> TypeOf(rows[i].values[col]) == TypeOf(rows[j].values[col])
  }

  /** Each fixed-width variant has a type of its own; text, and whatever is printed, shares Varchar. */
  lemma TypeTable(v: Value)
    ensures TypeOf(v) == Boolean <==> v.Bool?
    ensures TypeOf(v) == Tinyint <==> v.Int8?
    ensures TypeOf(v) == Smallint <==> v.Int16?
    ensures TypeOf(v) == Integer <==> v.Int32?
    ensures TypeOf(v) == Bigint <==> v.Int64?
    ensures TypeOf(v) == UTinyint <==> v.UInt8?
    ensures TypeOf(v) == USmallint <==> v.UInt16?
    ensures TypeOf(v) == UInteger <==> v.UInt32?
    ensures TypeOf(v) == UBigint <==> v.UInt64?
    ensures TypeOf(v) == Float <==> v.Float32?
    ensures TypeOf(v) == Double <==> v.Float64?
    ensures TypeOf(v) == Blob <==> v.Bytes?
  {
  }

  lemma {:induction false} InferredIsSomeonesType(rows: seq<Row>, col: nat, i: nat) returns (k: nat)
    requires i < |rows| && !Cell(rows[i], col).Null?
    ensures k < |rows| && !Cell(rows[k], col).Null? && InferredType(rows, col) == TypeOf(Cell(rows[k], col))
  {
    if !Cell(rows[0], col).Null? {
      k := 0;
    } else {
      var m := InferredIsSomeonesType(rows[1..], col, i - 1);
      k := m + 1;
    }
  }

  /** Every slot of a column fits the inferred type just when all non-null values of the column call for
      one type; nothing else is required of the data. */
  lemma SlotsFitIffHomogeneous(show: Value -> string, rows: seq<Row>, col: nat)
    ensures (forall i :: 0 <= i < |rows| ==> FitsColumn(InferredType(rows, col), Stored(show, Cell(rows[i], col))))
            <==> Homogeneous(rows, col)
  {
    var ty := InferredType(rows, col);
    forall i | 0 <= i < |rows|
      ensures FitsColumn(ty, Stored(show, Cell(rows[i], col)))
              <==> Cell(rows[i], col).Null? || TypeOf(Cell(rows[i], col)) == ty
    {
    }
    if i :| 0 <= i < |rows| && !Cell(rows[i], col).Null? {
      var k := InferredIsSomeonesType(rows, col, i);
    }
  }

  /** A slot that fits its column reads back as the value itself, or in its printed form if it has no type
      of its own. */
  lemma ReadBackDelivers(show: Value -> string, ty: LogicalType, v: Value)
    requires FitsColumn(ty, Stored(show, v))
    requires forall s :: show(Text(s)) == s
    ensures ReadBack(ty, Stored(show, v))
            == if v.Date? || v.Time? || v.DateTime? || v.DateTimeUtc? || v.Uuid? || v.Json? then Text(show(v)) else v
    ensures ReadBack(ty, Stored(show, v)) == Delivered(show, v)
  {
  }

  // ----- The cursor ----------------------------------------------------------------------------

  /** DuckDB's output chunk: data and validity for each column vector. */
  class DataChunk {
    const columns: nat
    const cells: array2<Slot>
    const nulls: array2<bool>
    var len: nat

    ghost predicate Valid() {
      && cells.Length0 == nulls.Length0 == columns
      && cells.Length1 == nulls.Length1 == VECTOR_SIZE
    }

    /** A chunk as DuckDB hands it over: reset, with every slot valid. */
    constructor (columns: nat)
      ensures Valid() && this.columns == columns
      ensures fresh(cells) && fresh(nulls)
      ensures forall c, r :: 0 <= c < columns && 0 <= r < VECTOR_SIZE ==> !nulls[c, r]
    {
      this.columns := columns;
      cells := new Slot[columns, VECTOR_SIZE]((_, _) => Str(""));
      nulls := new bool[columns, VECTOR_SIZE]((_, _) => false);
      len := 0;
    }

    function At(c: nat, r: nat): Option<Slot>
      requires Valid() && c < columns && r < VECTOR_SIZE
      reads cells, nulls
    {
      if nulls[c, r] then None else Some(cells[c, r])
    }

    /** `write_value`: a null sets the validity bit, anything else only the data. */
    method WriteValue(show: Value -> string, c: nat, r: nat, v: Value)
      requires Valid() && c < columns && r < VECTOR_SIZE && !nulls[c, r]
      modifies cells, nulls
      ensures At(c, r) == Stored(show, v)
      ensures forall i, j :: 0 <= i < columns && 0 <= j < VECTOR_SIZE && (i != c || j != r) ==>
        nulls[i, j] == old(nulls[i, j]) && At(i, j) == old(At(i, j))
    {
      match v
      case Null => nulls[c, r] := true;
      case Bool(b) => cells[c, r] := Fixed(Boolean, if b then 1 else 0);
      case Int8(n) => cells[c, r] := Fixed(Tinyint, n);
      case Int16(n) => cells[c, r] := Fixed(Smallint, n);
      case Int32(n) => cells[c, r] := Fixed(Integer, n);
      case Int64(n) => cells[c, r] := Fixed(Bigint, n);
      case UInt8(n) => cells[c, r] := Fixed(UTinyint, n);
      case UInt16(n) => cells[c, r] := Fixed(USmallint, n);
      case UInt32(n) => cells[c, r] := Fixed(UInteger, n);
      case UInt64(n) => cells[c, r] := Fixed(UBigint, n);
      case Float32(n) => cells[c, r] := Fixed(Float, n);
      case Float64(n) => cells[c, r] := Fixed(Double, n);
      case Bytes(b) => cells[c, r] := Raw(b);
      case other => cells[c, r] := Str(show(other));
    }

    /** The rows the chunk holds, as DuckDB takes them. */
    function Contents(): seq<seq<Option<Slot>>>
      requires Valid() && len <= VECTOR_SIZE
      reads this, cells, nulls
    {
      seq(len, r requires 0 <= r < VECTOR_SIZE requires Valid() reads cells, nulls => RowAt(r))
    }

    function RowAt(r: nat): (row: seq<Option<Slot>>)
      requires Valid() && r < VECTOR_SIZE
      reads cells, nulls
      ensures |row| == columns
    {
      seq(columns, c requires 0 <= c < columns requires Valid() && r < VECTOR_SIZE reads cells, nulls => At(c, r))
    }
  }

  /** A row as the scan hands it out. */
  function StoredRow(show: Value -> string, colCount: nat, row: Row): seq<Option<Slot>> {
    seq(colCount, c requires 0 <= c => Stored(show, Cell(row, c)))
  }

  function StoreWith(show: Value -> string, colCount: nat): Row -> seq<Option<Slot>> {
    row => StoredRow(show, colCount, row)
  }

  function StoredRows(show: Value -> string, colCount: nat, rows: seq<Row>): (out: seq<seq<Option<Slot>>>)
    ensures |out| == |rows|
  {
    Mapped(StoreWith(show, colCount), rows)
  }

  /** `bind` takes the number of columns from the first row. */
  function ColCount(rows: seq<Row>): nat {
    if rows == [] then 0 else |rows[0].columns|
  }

  function BatchSize(remaining: nat): nat {
    if remaining < VECTOR_SIZE then remaining else VECTOR_SIZE
  }

  /** The bound rows and the scan position. */
  class Scan {
    const rows: seq<Row>
    const colCount: nat
    const show: Value -> string
    var pos: nat

    ghost predicate Valid()
      reads this
    {
      pos <= |rows| && colCount == ColCount(rows)
    }

    constructor (rows: seq<Row>, show: Value -> string)
      ensures Valid() && pos == 0 && this.rows == rows && this.show == show
    {
      this.rows, this.show := rows, show;
      colCount := ColCount(rows);
      pos := 0;
    }

    /** `func`: fills the chunk with the next batch, or leaves it empty when there is none. */
    method Func(output: DataChunk)
      requires Valid() && output.Valid() && output.columns == colCount
      requires forall c, r :: 0 <= c < colCount && 0 <= r < VECTOR_SIZE ==> !output.nulls[c, r]
      modifies this`pos, output`len, output.cells, output.nulls
      ensures Valid()
      ensures output.len == BatchSize(|rows| - old(pos)) && pos == old(pos) + output.len
      ensures output.Contents() == StoredRows(show, colCount, rows[old(pos)..pos])
    {
      if pos >= |rows| {
        output.len := 0;
        return;
      }
      var start := pos;
      var batch := BatchSize(|rows| - start);
      for c := 0 to colCount
        invariant pos == start
        invariant forall i, r :: 0 <= i < c && 0 <= r < batch ==>
          output.At(i, r) == Stored(show, Cell(rows[start + r], i))
        invariant forall i, r :: c <= i < colCount && 0 <= r < VECTOR_SIZE ==> !output.nulls[i, r]
      {
        FillColumn(output, c, batch);
      }
      forall r | 0 <= r < batch
        ensures output.RowAt(r) == StoredRow(show, colCount, rows[start + r])
      {
      }
      output.len := batch;
      pos := start + batch;
    }

    /** The inner loop of `func`: one column of the batch. */
    method FillColumn(output: DataChunk, c: nat, batch: nat)
      requires Valid() && output.Valid() && output.columns == colCount && c < colCount
      requires batch <= VECTOR_SIZE && pos + batch <= |rows|
      requires forall r :: 0 <= r < VECTOR_SIZE ==> !output.nulls[c, r]
      modifies output.cells, output.nulls
      ensures forall r :: 0 <= r < batch ==> output.At(c, r) == Stored(show, Cell(rows[pos + r], c))
      ensures forall i, r :: 0 <= i < colCount && 0 <= r < VECTOR_SIZE && i != c ==>
        output.nulls[i, r] == old(output.nulls[i, r]) && output.At(i, r) == old(output.At(i, r))
    {
      for r := 0 to batch
        invariant forall k :: 0 <= k < r ==> output.At(c, k) == Stored(show, Cell(rows[pos + k], c))
        invariant forall k :: r <= k < VECTOR_SIZE ==> !output.nulls[c, k]
        invariant forall i, k :: 0 <= i < colCount && 0 <= k < VECTOR_SIZE && i != c ==>
          output.nulls[i, k] == old(output.nulls[i, k]) && output.At(i, k) == old(output.At(i, k))
      {
        output.WriteValue(show, c, r, Cell(rows[pos + r], c));
      }
    }
  }

  /** DuckDB's side of a single-threaded scan: call `func` with a fresh chunk until it comes back empty.
      The batches put together are exactly the bound rows; all but the last are full. */
  method RunScan(rows: seq<Row>, show: Value -> string)
    returns (out: seq<seq<Option<Slot>>>, batches: seq<nat>)
    ensures out == StoredRows(show, ColCount(rows), rows)
    ensures |out| == |rows|
    ensures forall i :: 0 <= i < |rows| ==>
      && |out[i]| == |rows[0].columns|
      && forall c :: 0 <= c < |out[i]| ==>
           out[i][c] == if c < |rows[i].values| then Stored(show, rows[i].values[c]) else None
    ensures |batches| == (|rows| + 2047) / 2048
    ensures forall i :: 0 <= i < |batches| - 1 ==> batches[i] == 2048
    ensures |batches| > 0 ==> batches[|batches| - 1] == |rows| - 2048 * (|batches| - 1) > 0
  {
    var scan := new Scan(rows, show);
    out, batches := [], [];
    var done := false;
    while !done
      invariant scan.Valid() && scan.rows == rows && scan.show == show && fresh(scan)
      invariant out == StoredRows(show, ColCount(rows), rows[..scan.pos])
      invariant done ==> scan.pos == |rows|
      invariant scan.pos < |rows| ==> scan.pos == VECTOR_SIZE * |batches|
      invariant scan.pos == |rows| ==> |batches| == (|rows| + 2047) / 2048
      invariant |batches| > 0 ==> batches[|batches| - 1] == scan.pos - 2048 * (|batches| - 1) > 0
      invariant forall i :: 0 <= i < |batches| - 1 ==> batches[i] == VECTOR_SIZE
      invariant |batches| > 0 && scan.pos < |rows| ==> batches[|batches| - 1] == VECTOR_SIZE
      invariant forall i :: 0 <= i < |batches| ==> 0 < batches[i] <= VECTOR_SIZE
      decreases !done, |rows| - scan.pos
    {
      var chunk := new DataChunk(scan.colCount);
      ghost var before := scan.pos;
      scan.Func(chunk);
      assert rows[..scan.pos] == rows[..before] + rows[before..scan.pos];
      if chunk.len == 0 {
        done := true;
      } else {
        out := out + chunk.Contents();
        batches := batches + [chunk.len];
      }
    }
    assert rows[..|rows|] == rows;
  }

  // ----- Bind and scan ---------------------------------------------------------------------------

  /** One column per column of the first row, named after it. */
  function Declared(rows: seq<Row>): (columns: seq<(string, LogicalType)>)
    ensures |columns| == ColCount(rows)
  {
    seq(ColCount(rows), c requires 0 <= c < ColCount(rows) => (rows[0].columns[c], InferredType(rows, c)))
  }

  /** The loop of `bind` that declares the result columns. */
  method BindColumns(rows: seq<Row>) returns (columns: seq<(string, LogicalType)>)
    ensures columns == Declared(rows)
    ensures rows == [] ==> columns == []
    ensures rows != [] ==> |columns| == |rows[0].columns|
    ensures forall c :: 0 <= c < |columns| ==> columns[c] == (rows[0].columns[c], InferredType(rows, c))
  {
    columns := [];
    for c := 0 to ColCount(rows)
      invariant |columns| == c
      invariant forall k :: 0 <= k < c ==> columns[k] == (rows[0].columns[k], InferredType(rows, k))
    {
      var ty := InferColType(rows, c);
      columns := columns + [(rows[0].columns[c], ty)];
    }
  }

  /** Every slot of every row fits its column. */
  ghost predicate FitsTable(columns: seq<(string, LogicalType)>, out: seq<seq<Option<Slot>>>) {
    forall i :: 0 <= i < |out| ==> FitsRow(columns, out[i])
  }

  ghost predicate FitsRow(columns: seq<(string, LogicalType)>, row: seq<Option<Slot>>) {
    |row| == |columns| && forall c :: 0 <= c < |columns| ==> FitsColumn(columns[c].1, row[c])
  }

  ghost function ReadRow(columns: seq<(string, LogicalType)>, row: seq<Option<Slot>>): seq<Value>
    requires FitsRow(columns, row)
  {
    seq(|columns|, c requires 0 <= c < |columns| => ReadBack(columns[c].1, row[c]))
  }

  ghost function ReadTable(columns: seq<(string, LogicalType)>, out: seq<seq<Option<Slot>>>): seq<seq<Value>>
    requires FitsTable(columns, out)
  {
    seq(|out|, i requires 0 <= i < |out| => ReadRow(columns, out[i]))
  }

  function DeliverWith(show: Value -> string, width: nat): Row -> seq<Value> {
    row => seq(width, c requires 0 <= c => Delivered(show, Cell(row, c)))
  }

  /** The rows a reader should get. */
  function DeliveredRows(show: Value -> string, width: nat, rows: seq<Row>): seq<seq<Value>> {
    Mapped(DeliverWith(show, width), rows)
  }

  ghost predicate AllHomogeneous(rows: seq<Row>) {
    rows != [] ==> forall c :: 0 <= c < |rows[0].columns| ==> Homogeneous(rows, c)
  }

  lemma SlotFits(show: Value -> string, rows: seq<Row>, c: nat, i: nat)
    requires Homogeneous(rows, c) && i < |rows|
    ensures FitsColumn(InferredType(rows, c), Stored(show, Cell(rows[i], c)))
  {
    SlotsFitIffHomogeneous(show, rows, c);
  }

  lemma RowReadsBack(show: Value -> string, rows: seq<Row>, i: nat)
    requires AllHomogeneous(rows) && i < |rows| && forall s :: show(Text(s)) == s
    ensures FitsRow(Declared(rows), StoredRow(show, ColCount(rows), rows[i]))
    ensures ReadRow(Declared(rows), StoredRow(show, ColCount(rows), rows[i]))
            == DeliverWith(show, ColCount(rows))(rows[i])
  {
    forall c | 0 <= c < ColCount(rows)
      ensures FitsColumn(InferredType(rows, c), Stored(show, Cell(rows[i], c)))
      ensures ReadBack(InferredType(rows, c), Stored(show, Cell(rows[i], c))) == Delivered(show, Cell(rows[i], c))
    {
      SlotFits(show, rows, c, i);
      ReadBackDelivers(show, InferredType(rows, c), Cell(rows[i], c));
    }
  }

  lemma TableReadsBack(show: Value -> string, rows: seq<Row>)
    requires AllHomogeneous(rows) && forall s :: show(Text(s)) == s
    ensures FitsTable(Declared(rows), StoredRows(show, ColCount(rows), rows))
    ensures ReadTable(Declared(rows), StoredRows(show, ColCount(rows), rows))
            == DeliveredRows(show, ColCount(rows), rows)
  {
    forall i | 0 <= i < |rows|
      ensures FitsRow(Declared(rows), StoredRows(show, ColCount(rows), rows)[i])
      ensures ReadRow(Declared(rows), StoredRows(show, ColCount(rows), rows)[i])
              == DeliveredRows(show, ColCount(rows), rows)[i]
    {
      RowReadsBack(show, rows, i);
    }
  }

  lemma FittingTableIsHomogeneous(show: Value -> string, rows: seq<Row>, c: nat)
    requires FitsTable(Declared(rows), StoredRows(show, ColCount(rows), rows)) && c < ColCount(rows)
    ensures Homogeneous(rows, c)
  {
    var out := StoredRows(show, ColCount(rows), rows);
    forall i | 0 <= i < |rows|
      ensures FitsColumn(InferredType(rows, c), Stored(show, Cell(rows[i], c)))
    {
      assert FitsRow(Declared(rows), out[i]);
      assert out[i][c] == Stored(show, Cell(rows[i], c));
    }
    SlotsFitIffHomogeneous(show, rows, c);
  }

  /** What DuckDB reads off a bound and scanned result: every slot fits its declared column just when the
      non-null values of each column all call for one type, and then the table reads back as every value
      or its printed form. */
  method BindAndRead(rows: seq<Row>, show: Value -> string)
    returns (columns: seq<(string, LogicalType)>, out: seq<seq<Option<Slot>>>)
    requires forall s :: show(Text(s)) == s
    ensures columns == Declared(rows) && out == StoredRows(show, ColCount(rows), rows)
    ensures if rows == [] then columns == []
            else |columns| == |rows[0].columns| && forall c :: 0 <= c < |columns| ==> columns[c].0 == rows[0].columns[c]
    ensures FitsTable(columns, out) <==> AllHomogeneous(rows)
    ensures FitsTable(columns, out) ==>
      && ReadTable(columns, out) == DeliveredRows(show, ColCount(rows), rows)
      && |ReadTable(columns, out)| == |rows|
      && forall i, c :: 0 <= i < |rows| && 0 <= c < |columns| ==>
           ReadTable(columns, out)[i][c]
           == if c >= |rows[i].values| then Null else Delivered(show, rows[i].values[c])
  {
    columns := BindColumns(rows);
    var batches;
    out, batches := RunScan(rows, show);
    if AllHomogeneous(rows) {
      TableReadsBack(show, rows);
    }
    if FitsTable(columns, out) {
      forall c | 0 <= c < ColCount(rows)
        ensures Homogeneous(rows, c)
      {
        FittingTableIsHomogeneous(show, rows, c);
      }
    }
  }

  // ----- The same rows in another order ----------------------------------------------------------

  /** Every row of a result has the same columns. */
  ghost predicate UniformColumns(rows: seq<Row>, names: seq<string>) {
    forall r :: r in rows ==> r.columns == names
  }

  /** A homogeneous column's type does not depend on the order of the rows. */
  lemma InferredTypeOfBag(rows: seq<Row>, plain: seq<Row>, c: nat)
    requires multiset(rows) == multiset(plain) && Homogeneous(plain, c)
    ensures Homogeneous(rows, c) && InferredType(rows, c) == InferredType(plain, c)
  {
    SameMembers(rows, plain);
    assert forall i :: 0 <= i < |rows| ==> rows[i] in plain;
    assert forall i :: 0 <= i < |plain| ==> plain[i] in rows;
    if i :| 0 <= i < |rows| && !Cell(rows[i], c).Null? {
      var k := InferredIsSomeonesType(rows, c, i);
      var j :| 0 <= j < |plain| && plain[j] == rows[k];
      var m := InferredIsSomeonesType(plain, c, j);
    } else {
      AllNull(rows, c);
      AllNull(plain, c);
    }
  }

  lemma {:induction false} AllNull(rows: seq<Row>, c: nat)
    requires forall i :: 0 <= i < |rows| ==> Cell(rows[i], c).Null?
    ensures InferredType(rows, c) == Varchar
  {
    if rows != [] {
      AllNull(rows[1..], c);
    }
  }

  /** Reordering a result changes only the order in which its rows are handed over: the bag of slots and,
      if each column calls for one type, the declared columns and the bag of rows read stay the same. */
  lemma SameRowsReadAlike(show: Value -> string, names: seq<string>, rows: seq<Row>, plain: seq<Row>)
    requires multiset(rows) == multiset(plain) && UniformColumns(plain, names)
    ensures ColCount(rows) == ColCount(plain)
    ensures multiset(StoredRows(show, ColCount(rows), rows)) == multiset(StoredRows(show, ColCount(plain), plain))
    ensures AllHomogeneous(plain) ==>
      && AllHomogeneous(rows)
      && Declared(rows) == Declared(plain)
      && multiset(DeliveredRows(show, ColCount(rows), rows)) == multiset(DeliveredRows(show, ColCount(plain), plain))
  {
    SameMembers(rows, plain);
    if rows != [] {
      assert rows[0] in plain && plain[0] in plain;
    }
    MappedBags(StoreWith(show, ColCount(rows)), rows, plain);
    MappedBags(DeliverWith(show, ColCount(rows)), rows, plain);
    if AllHomogeneous(plain) {
      forall c | 0 <= c < ColCount(rows)
        ensures Homogeneous(rows, c) && InferredType(rows, c) == InferredType(plain, c)
      {
        InferredTypeOfBag(rows, plain, c);
      }
    }
  }
}

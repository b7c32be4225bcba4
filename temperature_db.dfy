/** Storing a reading and checking what the database echoes back
    (`store_temperature` in server/services/temperature_db.py).

    The database client is a parameter: a function from the insert request
    to what executing it gave, either an exception or a response. Only the
    first returned row is examined; it must validate as a reading and agree
    with what was sent to within 0.01 in both scales. */
module TemperatureDb {
  import opened Wrappers
  import opened TemperatureModel

  const Table: string := "temperature_readings"
  const CelsiusColumn: string := "celsius"
  const FahrenheitColumn: string := "fahrenheit"
  /** Stored values must differ from the sent ones by strictly less than this. */
  const Tolerance: real := 0.01

  /** A column value as the reading's validator sees it: a number it accepts
      as a float, or anything it rejects. */
  datatype Value = Number(x: real) | NonNumeric

  /** One row of a response: column name to value. */
  type Row = map<string, Value>

  /** `supabase.table(table).insert(record)`. */
  datatype Insert = Insert(table: string, record: Row)

  /** The response of `execute()`: without a `data` attribute, or with a list of rows. */
  datatype Response = NoData | Rows(data: seq<Row>)

  /** Executing the request either raised or gave a response. */
  datatype Execution = Raised | Executed(response: Response)

  /** The request `store_temperature` sends: one row with both scales. */
  function InsertFor(celsius: real, fahrenheit: real): (q: Insert)
    ensures q.table == Table
    ensures q.record.Keys == {CelsiusColumn, FahrenheitColumn}
    ensures q.record[CelsiusColumn] == Number(celsius) && q.record[FahrenheitColumn] == Number(fahrenheit)
  {
    Insert(Table, map[CelsiusColumn := Number(celsius), FahrenheitColumn := Number(fahrenheit)])
  }

  /** `TemperatureReading(**row)`: both columns present and numeric; other
      columns (an id, a timestamp) are ignored. None where validation raises. */
  function Validate(row: Row): (r: Option<TemperatureReading>)
    ensures r.Some? <==> CelsiusColumn in row && FahrenheitColumn in row
                         && row[CelsiusColumn].Number? && row[FahrenheitColumn].Number?
    ensures r.Some? ==> r.value.celsius == row[CelsiusColumn].x && r.value.fahrenheit == row[FahrenheitColumn].x
  {
    if CelsiusColumn in row && FahrenheitColumn in row
       && row[CelsiusColumn].Number? && row[FahrenheitColumn].Number?
    then Some(TemperatureReading(row[CelsiusColumn].x, row[FahrenheitColumn].x))
    else None
  }

  /** The verification test: `abs(stored - sent) < 0.01`. */
  predicate Close(stored: real, sent: real) {
    Abs(stored - sent) < Tolerance
  }

  /** What a response's first row must satisfy for the store to succeed. */
  predicate Verified(row: Row, celsius: real, fahrenheit: real) {
    Validate(row).Some?
    && Close(Validate(row).value.celsius, celsius)
    && Close(Validate(row).value.fahrenheit, fahrenheit)
  }

  /** Lines 36-58: the validated first row when it is close to what was
      sent; None when execution raised, no row came back, the row does not
      validate, or it differs. */
  function Verify(e: Execution, celsius: real, fahrenheit: real): (r: Option<TemperatureReading>)
    ensures r.Some? <==> e.Executed? && e.response.Rows? && |e.response.data| > 0
                         && Verified(e.response.data[0], celsius, fahrenheit)
    ensures r.Some? ==> r == Validate(e.response.data[0])
  {
    match e
    case Raised => None
    case Executed(NoData) => None
    case Executed(Rows(data)) =>
      if |data| == 0 then None
      else match Validate(data[0])
        case None => None
        case Some(reading) =>
          if Close(reading.celsius, celsius) && Close(reading.fahrenheit, fahrenheit) then Some(reading)
          else None
  }

  /** `store_temperature`: what it returns is always within the tolerance
      of what it was given, in both scales. */
  function StoreTemperature(client: Insert -> Execution, celsius: real, fahrenheit: real)
    : (r: Option<TemperatureReading>)
    ensures r.Some? ==> Abs(r.value.celsius - celsius) < Tolerance
                        && Abs(r.value.fahrenheit - fahrenheit) < Tolerance
  {
    Verify(client(InsertFor(celsius, fahrenheit)), celsius, fahrenheit)
  }

  /** The row sent validates as the reading that was stored. */
  lemma ValidateSentRecord(celsius: real, fahrenheit: real)
    ensures Validate(InsertFor(celsius, fahrenheit).record) == Some(TemperatureReading(celsius, fahrenheit))
  {
  }

  /** A database that echoes the row it stored, with any columns of its own
      added and any rows after it, makes the store succeed with exactly the
      values sent. */
  lemma EchoedRowVerifies(client: Insert -> Execution, celsius: real, fahrenheit: real,
                          added: Row, later: seq<Row>)
    requires CelsiusColumn !in added && FahrenheitColumn !in added
    requires client(InsertFor(celsius, fahrenheit))
             == Executed(Rows([added + InsertFor(celsius, fahrenheit).record] + later))
    ensures StoreTemperature(client, celsius, fahrenheit) == Some(TemperatureReading(celsius, fahrenheit))
  {
    var row := added + InsertFor(celsius, fahrenheit).record;
    assert row[CelsiusColumn] == Number(celsius);
    assert row[FahrenheitColumn] == Number(fahrenheit);
  }

  /** An exception from the client, a response without data, and an empty
      list of rows all make the store return None. */
  lemma NothingBackGivesNone(celsius: real, fahrenheit: real)
    ensures Verify(Raised, celsius, fahrenheit).None?
    ensures Verify(Executed(NoData), celsius, fahrenheit).None?
    ensures Verify(Executed(Rows([])), celsius, fahrenheit).None?
  {
  }

  /** Only the first row counts: rows after it never change the outcome. */
  lemma OnlyFirstRowMatters(first: Row, later1: seq<Row>, later2: seq<Row>, celsius: real, fahrenheit: real)
    ensures Verify(Executed(Rows([first] + later1)), celsius, fahrenheit)
            == Verify(Executed(Rows([first] + later2)), celsius, fahrenheit)
  {
  }

  /** A stored value off by exactly the tolerance fails verification: the
      comparison is strict. */
  lemma OffByToleranceFails(celsius: real, fahrenheit: real)
    ensures Verify(Executed(Rows([InsertFor(celsius + Tolerance, fahrenheit).record])), celsius, fahrenheit).None?
    ensures Verify(Executed(Rows([InsertFor(celsius, fahrenheit - Tolerance).record])), celsius, fahrenheit).None?
  {
    ValidateSentRecord(celsius + Tolerance, fahrenheit);
    ValidateSentRecord(celsius, fahrenheit - Tolerance);
  }

  /** A stored value within the tolerance passes: the test accepts whatever
      the database rounded, as long as neither scale moved by 0.01 or more. */
  lemma WithinToleranceVerifies(celsius: real, fahrenheit: real, storedC: real, storedF: real)
    requires Abs(storedC - celsius) < Tolerance && Abs(storedF - fahrenheit) < Tolerance
    ensures Verify(Executed(Rows([InsertFor(storedC, storedF).record])), celsius, fahrenheit)
            == Some(TemperatureReading(storedC, storedF))
  {
    ValidateSentRecord(storedC, storedF);
  }

  /** A first row that does not validate (a missing or non-numeric column)
      makes the store return None, whatever the rest of the response. */
  lemma InvalidRowGivesNone(first: Row, later: seq<Row>, celsius: real, fahrenheit: real)
    requires CelsiusColumn !in first || first[CelsiusColumn] == NonNumeric
    ensures Verify(Executed(Rows([first] + later)), celsius, fahrenheit).None?
  {
  }
}

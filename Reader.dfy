/** The JDBC objects a Reader wraps, as far as the Reader uses them.  Whether
    a driver call throws `SQLException` is an input of each method (`fails`),
    answered by `threw`. */
module Jdbc {
  import opened ReaderModel

  /** A `java.sql.Statement`: only its `close()` is used. */
  class Statement {
    var closed: bool
    ghost var closeCalls: nat

    constructor ()
      ensures State() == StatementState(false, 0)
    {
      closed := false;
      closeCalls := 0;
    }

    ghost function State(): StatementState
      reads this
    {
      StatementState(closed, closeCalls)
    }

    /** `Statement.close()`. */
    method Close(fails: bool) returns (threw: bool)
      modifies this
      ensures threw == fails
      ensures State() == CloseStatement(old(State()), fails)
    {
      closeCalls := closeCalls + 1;
      threw := fails;
      if !fails {
        closed := true;
      }
    }
  }

  /** A forward-only `java.sql.ResultSet` over a finite sequence of rows. */
  class ResultSet {
    const statement: Statement
    const rows: seq<RawRow>
    var pos: nat
    var closed: bool
    ghost var closeCalls: nat

    constructor (rows: seq<RawRow>, statement: Statement)
      ensures this.statement == statement
      ensures State() == ResultSetState(rows, 0, false, 0)
    {
      this.statement := statement;
      this.rows := rows;
      pos := 0;
      closed := false;
      closeCalls := 0;
    }

    ghost function State(): ResultSetState
      reads this
    {
      ResultSetState(rows, pos, closed, closeCalls)
    }

    /** `ResultSet.next()`. */
    method Next(fails: bool) returns (r: Fetch)
      modifies this
      ensures (State(), r) == FetchNext(old(State()), fails)
    {
      if fails || closed {
        return Threw;
      }
      if pos < |rows| {
        pos := pos + 1;
        return Advanced(true);
      }
      return Advanced(false);
    }

    /** The row the cursor is on, which the column conversion reads. */
    function CurrentRow(): (raw: RawRow)
      reads this
      requires 0 < pos <= |rows|
    {
      rows[pos - 1]
    }

    /** `ResultSet.getStatement()`; it throws on a closed result set too. */
    method GetStatement(fails: bool) returns (threw: bool, st: Statement)
      ensures threw == (fails || closed)
      ensures st == statement
    {
      threw := fails || closed;
      st := statement;
    }

    /** `ResultSet.close()`. */
    method Close(fails: bool) returns (threw: bool)
      modifies this
      ensures threw == fails
      ensures State() == CloseSet(old(State()), fails)
    {
      closeCalls := closeCalls + 1;
      threw := fails;
      if !fails {
        closed := true;
      }
    }
  }
}

/** The JRuby `Reader` class of do_jdbc: its instance variables become
    fields, its four Ruby methods become methods proved against the
    functions of module ReaderModel. */
module DataObjects {
  import opened ReaderModel
  import opened Jdbc

  class Reader {
    /** `@reader`: the wrapped result set, or null for nil. */
    var reader: ResultSet?
    /** `@state`: nil, true or false. */
    var state: Option<bool>
    /** `@values`: the current row. */
    var values: Option<seq<Value>>
    /** `@fields`: the column names. */
    const fields: seq<string>
    /** `@field_count`. */
    const fieldCount: Int32
    /** The result set the Reader was created around; `@reader` is it or nil. */
    ghost const source: ResultSet

    ghost function Model(): ReaderState
      reads this, source, source.statement
    {
      ReaderState(reader != null, source.State(), source.statement.State(), state, values, fields, fieldCount)
    }

    ghost predicate Valid()
      reads this, source, source.statement
    {
      (reader == null || reader == source) && Inv(Model())
    }

    /** A Reader around an unread, open result set, as the code that runs a
        query sets it up. */
    constructor (rs: ResultSet, fields: seq<string>, fieldCount: Int32)
      requires rs.State() == ResultSetState(rs.rows, 0, false, 0)
      requires rs.statement.State() == StatementState(false, 0)
      ensures Valid()
      ensures source == rs && reader == rs
      ensures Model() == Initial(rs.rows, fields, fieldCount)
    {
      reader := rs;
      source := rs;
      state := None;
      values := None;
      this.fields := fields;
      this.fieldCount := fieldCount;
    }

    /** `close`: releases the result set and its statement and sets
        `@reader` to nil; a release that throws is swallowed. */
    method Close(fault: CloseFault) returns (released: bool)
      requires Valid()
      modifies this, source, source.statement
      ensures Valid()
      ensures (Model(), released) == CloseSpec(old(Model()), fault)
    {
      if reader == null {
        return false;
      }
      var rs := reader;
      var threw, st := rs.GetStatement(fault == GetStatementThrows);
      if !threw {
        threw := rs.Close(fault == SetCloseThrows);
        if !threw {
          threw := st.Close(fault == StatementCloseThrows);
        }
      }
      // the SQLException, if any, is only logged; the `finally` block runs
      reader := null;
      return true;
    }

    /** `next!`: advances the cursor and, on a row, builds `@values` from
        `@field_count` converted columns. */
    method Next(fetchFails: bool, convert: Converter) returns (answer: NextAnswer)
      requires Valid()
      modifies this, source
      ensures Valid()
      ensures (Model(), answer) == NextSpec(old(Model()), fetchFails, convert)
    {
      var rs := reader;
      if rs == null {
        return AnswersFalse;
      }
      var fetched := rs.Next(fetchFails);
      if fetched.Threw? {
        return RaisesSqlException;
      }
      state := Some(fetched.hasNext);
      if !fetched.hasNext {
        return AnswersNil;
      }
      var raw := rs.CurrentRow();
      var row: seq<Value> := [];
      var i: int := 0;
      while i < fieldCount
        invariant 0 <= i <= Width(fieldCount)
        invariant row == Row(convert, i, raw)
      {
        row := row + [convert(i, raw)];
        i := i + 1;
      }
      values := Some(row);
      return AnswersTrue;
    }

    /** `values`: the current row, or the driver error when `@state` is not
        true. */
    method Values() returns (r: Result<seq<Value>>)
      requires Valid()
      ensures r == ValuesSpec(Model())
    {
      if state != Some(true) {
        return DriverError(NotInitialized);
      }
      return Ok(values.value);
    }

    /** `fields`: `@fields`, in every state. */
    method Fields() returns (names: seq<string>)
      ensures names == fields
    {
      return fields;
    }
  }
}

/** Value-level model of the do_jdbc `Reader`: the JRuby object that wraps a
    JDBC `ResultSet` and exposes it to Ruby as `close`, `next!`, `values` and
    `fields`.  A `ReaderState` is a snapshot of the Reader's instance
    variables together with the result set and statement it was created
    around; `CloseSpec`, `NextSpec` and `ValuesSpec` say what each Ruby call
    does to such a snapshot, and the classes in module DataObjects are proved
    against these functions.

    Driver failures (a JDBC call that throws `SQLException`) are inputs: the
    caller of a specification function says which call throws.  The column
    conversion `DataObjectsUtils.java_types_to_ruby_types` is not part of this
    model and is an input function `convert` from a column index and the raw
    current row to a Ruby value. */
module ReaderModel {

  /** One row of a JDBC result set, as the driver holds it. */
  type RawRow

  /** A Ruby value produced by converting one column of a raw row. */
  type Value

  datatype Option<T> = None | Some(value: T)

  /** A Ruby call that either answers or raises the driver's error class. */
  datatype Result<T> = Ok(value: T) | DriverError(message: string)

  /** The message `values` raises when no row is positioned. */
  const NotInitialized: string := "Reader is not initialized"

  /** Java's `int`, the type `RubyNumeric.fix2int` gives `@field_count`. */
  type Int32 = n: int | -0x8000_0000 <= n < 0x8000_0000

  /** The column conversion foreign to this model: column index, raw row. */
  type Converter = (nat, RawRow) -> Value

  // ---------------------------------------------------------------- JDBC side

  /** A forward-only JDBC result set: its rows, how many of them the cursor
      has moved onto (`pos`; the current row is `rows[pos - 1]`), whether it
      is closed, and how many times `close()` was called on it. */
  datatype ResultSetState = ResultSetState(rows: seq<RawRow>, pos: nat, closed: bool, closeCalls: nat)

  /** The JDBC statement a result set came from. */
  datatype StatementState = StatementState(closed: bool, closeCalls: nat)

  /** What `ResultSet.next()` does: it throws, or it reports whether it moved
      onto another row. */
  datatype Fetch = Advanced(hasNext: bool) | Threw

  /** `ResultSet.next()`: throws when the driver fails or the set is closed;
      otherwise moves onto the next row if there is one. */
  function FetchNext(rs: ResultSetState, fails: bool): (r: (ResultSetState, Fetch))
    ensures r.1.Threw? <==> fails || rs.closed
    ensures r.1 == Advanced(true) <==> !fails && !rs.closed && rs.pos < |rs.rows|
    ensures r.1 == Advanced(true) ==> r.0 == rs.(pos := rs.pos + 1) && r.0.pos <= |rs.rows|
    ensures r.1 != Advanced(true) ==> r.0 == rs
  {
    if fails || rs.closed then (rs, Threw)
    else if rs.pos < |rs.rows| then (rs.(pos := rs.pos + 1), Advanced(true))
    else (rs, Advanced(false))
  }

  /** `ResultSet.close()`: one more call; the set is closed unless it threw. */
  function CloseSet(rs: ResultSetState, fails: bool): ResultSetState {
    rs.(closed := rs.closed || !fails, closeCalls := rs.closeCalls + 1)
  }

  /** `Statement.close()`: one more call; closed unless it threw. */
  function CloseStatement(st: StatementState, fails: bool): StatementState {
    st.(closed := st.closed || !fails, closeCalls := st.closeCalls + 1)
  }

  // -------------------------------------------------------------- Ruby side

  /** The Reader's instance variables and the JDBC objects behind them. */
  datatype ReaderState = ReaderState(
    attached: bool,              // `@reader` wraps `rs` (false: `@reader` is nil)
    rs: ResultSetState,          // the result set the Reader was created around
    st: StatementState,          // the statement `rs` came from
    state: Option<bool>,         // `@state`: nil, true or false
    values: Option<seq<Value>>,  // `@values`: the current row, or nil
    fields: seq<string>,         // `@fields`: the column names
    fieldCount: Int32)           // `@field_count`

  /** A Reader as it is created: attached to an unread, open result set and
      statement, with `@state` and `@values` still nil. */
  function Initial(rows: seq<RawRow>, fields: seq<string>, fieldCount: Int32): (m: ReaderState)
    ensures Inv(m)
  {
    ReaderState(true, ResultSetState(rows, 0, false, 0), StatementState(false, 0), None, None, fields, fieldCount)
  }

  /** The number of times the row loop of `next!` runs: `for (i = 0; i < n; i++)`. */
  function Width(n: int): nat {
    if n < 0 then 0 else n
  }

  /** The row `next!` builds: columns `0 .. n-1` of `raw`, converted one by
      one and pushed onto an initially empty array. */
  function Row(convert: Converter, n: int, raw: RawRow): (r: seq<Value>)
    decreases Width(n)
    ensures |r| == Width(n)
    ensures forall i :: 0 <= i < |r| ==> r[i] == convert(i, raw)
  {
    if n <= 0 then [] else Row(convert, n - 1, raw) + [convert(n - 1, raw)]
  }

  /** What holds of every Reader reachable from `Initial` by the four calls:
      while `@reader` is set, its result set is open and nothing has been
      released; each JDBC object is released at most once; and whenever
      `@state` is true, `@values` is a row of exactly `@field_count` values. */
  ghost predicate Inv(m: ReaderState) {
    && m.rs.pos <= |m.rs.rows|
    && (m.attached ==> !m.rs.closed && m.rs.closeCalls == 0 && m.st.closeCalls == 0)
    && m.rs.closeCalls <= 1
    && m.st.closeCalls <= 1
    && (m.state == Some(true) ==> m.values.Some? && |m.values.value| == Width(m.fieldCount))
  }

  /** Which JDBC call inside `close`'s try block throws, if any. */
  datatype CloseFault = NoFault | GetStatementThrows | SetCloseThrows | StatementCloseThrows

  /** `close`: with `@reader` nil, answers false and changes nothing.
      Otherwise looks up the statement, closes the result set, then the
      statement; the first one that throws ends the try block, the error is
      only logged, and in every case `@reader` becomes nil and the answer is
      true. */
  function CloseSpec(m: ReaderState, fault: CloseFault): (r: (ReaderState, bool))
    ensures r.1 <==> m.attached
    ensures !m.attached ==> r.0 == m
    ensures !r.0.attached
    ensures r.0.state == m.state && r.0.values == m.values
    ensures r.0.fields == m.fields && r.0.fieldCount == m.fieldCount
    ensures r.0.rs.rows == m.rs.rows && r.0.rs.pos == m.rs.pos
    ensures r.0.rs.closed == (m.rs.closed || (m.attached && (fault == NoFault || fault == StatementCloseThrows)))
    ensures r.0.st.closed == (m.st.closed || (m.attached && !m.rs.closed && fault == NoFault))
    ensures r.0.rs.closeCalls == m.rs.closeCalls + (if m.attached && !m.rs.closed && fault != GetStatementThrows then 1 else 0)
    ensures r.0.st.closeCalls == m.st.closeCalls + (if m.attached && !m.rs.closed && (fault == NoFault || fault == StatementCloseThrows) then 1 else 0)
  {
    if !m.attached then (m, false)
    else
      // `rs.getStatement()` throws on a closed result set as well
      var lookupThrows := fault == GetStatementThrows || m.rs.closed;
      var rs' := if lookupThrows then m.rs else CloseSet(m.rs, fault == SetCloseThrows);
      var st' := if lookupThrows || fault == SetCloseThrows then m.st
                 else CloseStatement(m.st, fault == StatementCloseThrows);
      (m.(attached := false, rs := rs', st := st'), true)
  }

  /** What a `next!` call answers in Ruby. */
  datatype NextAnswer = AnswersFalse | AnswersNil | AnswersTrue | RaisesSqlException

  /** `next!`: with no result set, answers false and changes nothing.  A
      fetch that throws propagates before `@state` is written.  Otherwise
      `@state` becomes exactly what the fetch returned; at the end of the rows
      the answer is nil and `@values` is kept; on a row, `@values` becomes a
      fresh row of `@field_count` converted columns and the answer is true. */
  function NextSpec(m: ReaderState, fetchFails: bool, convert: Converter): (r: (ReaderState, NextAnswer))
    ensures !m.attached ==> r == (m, AnswersFalse)
    ensures r.1 == AnswersFalse <==> !m.attached
    ensures r.1 == RaisesSqlException <==> m.attached && (fetchFails || m.rs.closed)
    ensures r.1 == RaisesSqlException ==> r.0 == m
    ensures r.1 == AnswersNil <==> m.attached && !fetchFails && !m.rs.closed && m.rs.pos >= |m.rs.rows|
    ensures r.1 == AnswersNil ==> r.0 == m.(state := Some(false))
    ensures r.1 == AnswersTrue <==> m.attached && !fetchFails && !m.rs.closed && m.rs.pos < |m.rs.rows|
    ensures r.1 == AnswersTrue ==>
              && r.0.rs == m.rs.(pos := m.rs.pos + 1)
              && r.0.state == Some(true)
              && r.0.values.Some?
              && |r.0.values.value| == Width(m.fieldCount)
              && (forall i :: 0 <= i < |r.0.values.value| ==> r.0.values.value[i] == convert(i, m.rs.rows[m.rs.pos]))
              && r.0 == m.(rs := r.0.rs, state := r.0.state, values := r.0.values)
  {
    if !m.attached then (m, AnswersFalse)
    else
      var (rs', fetched) := FetchNext(m.rs, fetchFails);
      match fetched
      case Threw => (m, RaisesSqlException)
      case Advanced(hasNext) =>
        var m' := m.(rs := rs', state := Some(hasNext));
        if !hasNext then (m', AnswersNil)
        else (m'.(values := Some(Row(convert, m.fieldCount, rs'.rows[rs'.pos - 1]))), AnswersTrue)
  }

  /** `values`: raises "Reader is not initialized" unless `@state` is true;
      otherwise answers `@values`, a row of `@field_count` values. */
  function ValuesSpec(m: ReaderState): (r: Result<seq<Value>>)
    requires Inv(m)
    ensures r.Ok? <==> m.state == Some(true)
    ensures r.Ok? ==> m.values == Some(r.value) && |r.value| == Width(m.fieldCount)
    ensures r.DriverError? ==> r.message == NotInitialized
  {
    if m.state == Some(true) then Ok(m.values.value) else DriverError(NotInitialized)
  }

  // ------------------------------------------------------- sequences of calls

  /** One Ruby call on a Reader, with the driver's behaviour during it. */
  datatype Call =
    | CloseCall(fault: CloseFault)
    | NextCall(fetchFails: bool, convert: Converter)
    | ValuesCall
    | FieldsCall

  /** The state after one call; `values` and `fields` only read. */
  function Step(m: ReaderState, c: Call): ReaderState {
    match c
    case CloseCall(fault) => CloseSpec(m, fault).0
    case NextCall(fails, convert) => NextSpec(m, fails, convert).0
    case ValuesCall => m
    case FieldsCall => m
  }

  /** The state after a sequence of calls, first call first. */
  function Run(m: ReaderState, calls: seq<Call>): ReaderState
    decreases |calls|
  {
    if calls == [] then m else Run(Step(m, calls[0]), calls[1..])
  }

  /** Every single call keeps the invariant. */
  lemma StepKeepsInv(m: ReaderState, c: Call)
    requires Inv(m)
    ensures Inv(Step(m, c))
  {
  }

  /** The invariant holds after every sequence of calls: in particular the
      result set and the statement each receive `close()` at most once. */
  lemma {:induction false} RunKeepsInv(m: ReaderState, calls: seq<Call>)
    requires Inv(m)
    ensures Inv(Run(m, calls))
    decreases |calls|
  {
    if calls != [] {
      StepKeepsInv(m, calls[0]);
      RunKeepsInv(Step(m, calls[0]), calls[1..]);
    }
  }

  /** Started from a fresh Reader, no call sequence releases the result set
      or its statement twice. */
  lemma ReleasedAtMostOnce(rows: seq<RawRow>, fields: seq<string>, fieldCount: Int32, calls: seq<Call>)
    ensures Run(Initial(rows, fields, fieldCount), calls).rs.closeCalls <= 1
    ensures Run(Initial(rows, fields, fieldCount), calls).st.closeCalls <= 1
  {
    RunKeepsInv(Initial(rows, fields, fieldCount), calls);
  }

  /** `fields` answers the same column names in every state: no call
      changes `@fields` or `@field_count`. */
  lemma {:induction false} FieldsNeverChange(m: ReaderState, calls: seq<Call>)
    ensures Run(m, calls).fields == m.fields
    ensures Run(m, calls).fieldCount == m.fieldCount
    decreases |calls|
  {
    if calls != [] {
      FieldsNeverChange(Step(m, calls[0]), calls[1..]);
    }
  }

  /** Once `@reader` is nil, no call sequence touches the JDBC objects again,
      `@state` and `@values` stay as they were, and every `next!` and `close`
      in the sequence answers false in the state that call finds. */
  lemma {:induction false} DetachedIsInert(m: ReaderState, calls: seq<Call>)
    requires !m.attached
    ensures Run(m, calls) == m
    ensures forall k :: 0 <= k < |calls| && calls[k].CloseCall? ==>
              !CloseSpec(Run(m, calls[..k]), calls[k].fault).1
    ensures forall k :: 0 <= k < |calls| && calls[k].NextCall? ==>
              NextSpec(Run(m, calls[..k]), calls[k].fetchFails, calls[k].convert).1 == AnswersFalse
    decreases |calls|
  {
    if calls != [] {
      assert Step(m, calls[0]) == m;
      DetachedIsInert(m, calls[1..]);
      forall k | 0 <= k < |calls|
        ensures Run(m, calls[..k]) == m
      {
        DetachedIsInert(m, calls[..k]);
      }
    }
  }

  /** When `rs.getStatement()` or `rs.close()` throws, `st.close()` is never
      reached, yet `@reader` becomes nil: no later call can close the
      statement, so it stays open and is never released. */
  lemma {:induction false} StatementLeaksAfterFailedClose(m: ReaderState, fault: CloseFault, calls: seq<Call>)
    requires Inv(m) && m.attached && !m.st.closed
    requires fault == GetStatementThrows || fault == SetCloseThrows
    ensures CloseSpec(m, fault).1
    ensures !Run(CloseSpec(m, fault).0, calls).st.closed
    ensures Run(CloseSpec(m, fault).0, calls).st.closeCalls == 0
  {
    DetachedIsInert(CloseSpec(m, fault).0, calls);
  }

  /** A second `close` answers false and changes nothing. */
  lemma CloseTwice(m: ReaderState, first: CloseFault, second: CloseFault)
    ensures CloseSpec(CloseSpec(m, first).0, second) == (CloseSpec(m, first).0, false)
  {
  }

  /** `next!` after `close` answers false, whether or not the release threw. */
  lemma NextAfterClose(m: ReaderState, fault: CloseFault, fetchFails: bool, convert: Converter)
    ensures NextSpec(CloseSpec(m, fault).0, fetchFails, convert).1 == AnswersFalse
  {
  }

  /** After `next!` answers nil, `values` raises; after it answers true,
      `values` answers the row just converted. */
  lemma ValuesAfterNext(m: ReaderState, fetchFails: bool, convert: Converter)
    requires Inv(m)
    ensures Inv(NextSpec(m, fetchFails, convert).0)
    ensures NextSpec(m, fetchFails, convert).1 == AnswersNil ==>
              ValuesSpec(NextSpec(m, fetchFails, convert).0) == DriverError(NotInitialized)
    ensures NextSpec(m, fetchFails, convert).1 == AnswersTrue ==>
              ValuesSpec(NextSpec(m, fetchFails, convert).0) == Ok(Row(convert, m.fieldCount, m.rs.rows[m.rs.pos]))
  {
  }

  /** `values` on a fresh Reader raises: `@state` is still nil. */
  lemma ValuesBeforeFirstNext(rows: seq<RawRow>, fields: seq<string>, fieldCount: Int32)
    ensures ValuesSpec(Initial(rows, fields, fieldCount)) == DriverError(NotInitialized)
  {
  }

  /** Two rows read to the end: true, true, then nil on every further call,
      with `values` answering each row while it is current and raising once
      the end is reached. */
  lemma TwoRows(a: RawRow, b: RawRow, fields: seq<string>, fieldCount: Int32, convert: Converter)
    ensures var m0 := Initial([a, b], fields, fieldCount);
            var s1 := NextSpec(m0, false, convert);
            var s2 := NextSpec(s1.0, false, convert);
            var s3 := NextSpec(s2.0, false, convert);
            var s4 := NextSpec(s3.0, false, convert);
            && s1.1 == AnswersTrue && ValuesSpec(s1.0) == Ok(Row(convert, fieldCount, a))
            && s2.1 == AnswersTrue && ValuesSpec(s2.0) == Ok(Row(convert, fieldCount, b))
            && s3.1 == AnswersNil && ValuesSpec(s3.0) == DriverError(NotInitialized)
            && s4 == s3
  {
  }

  /** A fetch that throws leaves the Reader as it was, and a `close` after it
      still releases the result set and the statement, once each. */
  lemma FailedFetchThenClose(m: ReaderState, convert: Converter)
    requires Inv(m) && m.attached
    ensures NextSpec(m, true, convert) == (m, RaisesSqlException)
    ensures var c := CloseSpec(NextSpec(m, true, convert).0, NoFault);
            && c.1 && !c.0.attached
            && c.0.rs.closed && c.0.st.closed
            && c.0.rs.closeCalls == 1 && c.0.st.closeCalls == 1
  {
  }
}

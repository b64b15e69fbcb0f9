# do_jdbc Reader: a verified model

The do_jdbc `Reader` is a JRuby object that wraps a JDBC `ResultSet` and gives Ruby
four calls: `close`, `next!`, `values` and `fields`. This project models that object
and its state, which is held in instance variables:

- `@reader` wraps the result set, or is nil;
- `@state` is nil, true or false;
- `@values` is the current row;
- `@fields` holds the column names;
- `@field_count` holds the number of columns.

The project proves how the four calls change that state.

- `ReaderModel.dfy` (module `ReaderModel`) holds the value-level model. A
  `ReaderState` is a snapshot of the instance variables, together with the result set
  and the statement behind them. The result set is a finite sequence of raw rows, a
  cursor, a closed flag and a count of `close()` calls. The statement is a closed flag
  and a count of `close()` calls. `CloseSpec`, `NextSpec` and `ValuesSpec` say what
  each Ruby call does. `Inv` is the invariant every reachable Reader keeps. Lemmas
  prove the properties of single calls and of any sequence of calls (`Run`).
- `Reader.dfy` holds the imperative model. Module `Jdbc` has classes `Statement` and
  `ResultSet` for the JDBC objects, limited to the calls the Reader makes. Module
  `DataObjects` has class `Reader`, whose fields are the instance variables. Its
  `Close`, `Next`, `Values` and `Fields` methods follow the Java bodies step by step.
  `Next` builds the row with the same `for` loop. Each method is proved against the
  function of the same call, through `Model()`.

Inputs in place of foreign code:

- Whether a JDBC call throws `SQLException` is a parameter: `CloseFault` for the try
  block of `close`, and `fetchFails` for `ResultSet.next()`.
- `DataObjectsUtils.java_types_to_ruby_types` is not part of this model. It is a
  parameter `convert` from a column index and the current raw row to a value.
- `DataObjectsUtils.newDriverError` is not part of this model. It becomes the outcome
  `DriverError(message)`.

Behaviour as the code has it, which the model follows:

- The Reader has no separate "closed" state. After `close`, `next!` answers false
  because `@reader` is nil; it does not raise. `values` still answers the last row if
  the last `next!` answered true, since `close` leaves `@state` and `@values` alone.
- At the end of the rows `next!` answers nil, not false. It sets `@state` to false
  and keeps the old `@values`. Further calls answer nil again.
- `close` answers true when it found a result set and false otherwise. A second
  `close` therefore answers false and releases nothing.
- A negative `@field_count` makes the row loop run zero times.
- When `rs.getStatement()` or `rs.close()` throws, `st.close()` is never reached, yet
  `@reader` still becomes nil. After that no call can close the statement, so it is
  left open (`StatementLeaksAfterFailedClose`).

## Model

| member | source | states |
|---|---|---|
| `ReaderModel.CloseSpec` | do_jdbc-support/src/java/data_objects/Reader.java:73-91 | answers true exactly when `@reader` was set; with `@reader` nil it changes nothing; afterwards `@reader` is always nil; `@state`, `@values`, `@fields`, `@field_count` and the cursor are kept; a set or statement already closed stays closed; the set ends closed exactly when no fault or only the statement's `close()` threw; the statement ends closed exactly when there was no fault; each receives at most one more `close()`, and none once a step before it threw |
| `ReaderModel.NextSpec` | do_jdbc-support/src/java/data_objects/Reader.java:103-135 | false with nothing changed when `@reader` is nil; raises with nothing changed when the fetch throws; nil with `@state` false and `@values` kept at the end of the rows; true on a row, with `@state` true, the cursor one row on, and `@values` a fresh row of exactly `@field_count` values where column i is `convert(i, row)`; nothing else changes |
| `ReaderModel.ValuesSpec` | do_jdbc-support/src/java/data_objects/Reader.java:141-147 | answers exactly when `@state` is true, and then answers `@values`, a row of `@field_count` values; otherwise raises "Reader is not initialized" |
| `ReaderModel.FetchNext` | do_jdbc-support/src/java/data_objects/Reader.java:116 | `ResultSet.next()` throws exactly when the driver fails or the set is closed; it moves exactly one row on when a row is left; otherwise nothing moves |
| `ReaderModel.Row` | do_jdbc-support/src/java/data_objects/Reader.java:112-132 | the row built by the loop has `max(0, @field_count)` entries, and entry i is column i converted, in column order |
| `ReaderModel.Initial` | do_jdbc-support/src/java/data_objects/Reader.java:62-64 | a new Reader, attached to an unread open result set with `@state` and `@values` nil, satisfies the invariant |
| `ReaderModel.StepKeepsInv` | do_jdbc-support/src/java/data_objects/Reader.java:68-153 | each of the four calls keeps the invariant: while `@reader` is set its set is open and unreleased, each JDBC object is released at most once, and `@state` true means `@values` is a full row |
| `ReaderModel.RunKeepsInv` | do_jdbc-support/src/java/data_objects/Reader.java:68-153 | every sequence of calls keeps the invariant |
| `ReaderModel.ReleasedAtMostOnce` | do_jdbc-support/src/java/data_objects/Reader.java:73-88 | from a fresh Reader, no sequence of calls closes the result set or the statement twice |
| `ReaderModel.FieldsNeverChange` | do_jdbc-support/src/java/data_objects/Reader.java:150-153 | no sequence of the Reader's own calls changes `@fields` or `@field_count`, so `fields` answers the same in every state unless a caller changes the array it was handed |
| `ReaderModel.DetachedIsInert` | do_jdbc-support/src/java/data_objects/Reader.java:104-108 | once `@reader` is nil, no sequence of calls changes anything, and every `close` and `next!` in it answers false in the state it finds |
| `ReaderModel.StatementLeaksAfterFailedClose` | do_jdbc-support/src/java/data_objects/Reader.java:76-85 | when `rs.getStatement()` or `rs.close()` throws, `close` still answers true and clears `@reader`, and after any further calls the statement is still open and has never received `close()` |
| `ReaderModel.CloseTwice` | do_jdbc-support/src/java/data_objects/Reader.java:73-90 | a second `close` answers false and changes nothing, whichever fault the first one met |
| `ReaderModel.NextAfterClose` | do_jdbc-support/src/java/data_objects/Reader.java:85-108 | `next!` after `close` answers false, even when the release threw |
| `ReaderModel.ValuesAfterNext` | do_jdbc-support/src/java/data_objects/Reader.java:117-147 | after `next!` answers nil, `values` raises; after it answers true, `values` answers the row just converted |
| `ReaderModel.ValuesBeforeFirstNext` | do_jdbc-support/src/java/data_objects/Reader.java:141-145 | `values` on a fresh Reader raises "Reader is not initialized" |
| `ReaderModel.TwoRows` | do_jdbc-support/src/java/data_objects/Reader.java:100-147 | over two rows, `next!` answers true, true, then nil, and nil again without any change; `values` answers each converted row while it is current and raises at the end |
| `ReaderModel.FailedFetchThenClose` | do_jdbc-support/src/java/data_objects/Reader.java:73-117 | a fetch that throws leaves the Reader as it was; a `close` after it still closes the set and the statement, once each |
| `Jdbc.Statement.Close` | do_jdbc-support/src/java/data_objects/Reader.java:80 | `st.close()` counts one call and closes the statement unless it throws |
| `Jdbc.ResultSet.Next` | do_jdbc-support/src/java/data_objects/Reader.java:116 | `rs.next()` changes the set and answers as `FetchNext` says |
| `Jdbc.ResultSet.GetStatement` | do_jdbc-support/src/java/data_objects/Reader.java:77 | `rs.getStatement()` gives the set's own statement; it throws when the driver fails or the set is closed |
| `Jdbc.ResultSet.Close` | do_jdbc-support/src/java/data_objects/Reader.java:78 | `rs.close()` counts one call and closes the set unless it throws |
| `DataObjects.Reader.constructor` | do_jdbc-support/src/java/data_objects/Reader.java:62-64 | a Reader made around an unread open result set is valid and in the initial state |
| `DataObjects.Reader.Close` | do_jdbc-support/src/java/data_objects/Reader.java:68-92 | keeps the invariant; the new state and the answer are those of `CloseSpec` |
| `DataObjects.Reader.Next` | do_jdbc-support/src/java/data_objects/Reader.java:100-136 | keeps the invariant; the new state and the answer are those of `NextSpec`, with the row built column by column in the loop |
| `DataObjects.Reader.Values` | do_jdbc-support/src/java/data_objects/Reader.java:138-148 | answers as `ValuesSpec` says: `@values` when `@state` is true, the driver error otherwise |
| `DataObjects.Reader.Fields` | do_jdbc-support/src/java/data_objects/Reader.java:150-153 | answers `@fields` unchanged |

## Left out

- Class registration and wiring are left out: `createReaderClass`, `READER_ALLOCATOR`
  and the static `api`, `driver`, `moduleName` and `errorName` fields (Reader.java:33-60).
  They are JRuby runtime plumbing.
- The code that creates a Reader and sets its instance variables is not part of this
  model. The constructor takes an unread, open result set with its column names and
  count; `@state` and `@values` start as nil.
- The internals of `java_types_to_ruby_types` are left out (see `convert` above). A
  conversion that throws is not modelled. In the code it would leave `@state` true
  with the old `@values`, because `@state` is written before the loop.
- The logging of a swallowed `SQLException` (Reader.java:83) is not recorded. It is a
  side channel.
- `@types` and `fieldTypesCount` (Reader.java:110, 114) and the commented-out branch
  (Reader.java:124-130) are left out. The count is never used. The model assumes
  `@types` holds an array: otherwise `convertToArray()` at Reader.java:114 raises on
  every `next!` that finds a result set, before anything is fetched.
- A non-nil `@reader` that wraps no result set is not modelled. In the code `close`
  would then throw `NullPointerException` after clearing `@reader`, and `next!` would
  answer false.
- Unset instance variables are not modelled. `close` treats an unset `@reader` like
  nil (the test at Reader.java:73 covers null) and answers false, as `CloseSpec` does
  for a detached Reader. `next!` with `@reader` unset (Reader.java:104), `next!` with
  `@types` or `@field_count` unset (Reader.java:114, 123), and `values`
  with `@state` unset (Reader.java:143) end in `NullPointerException`.
- `values` and `fields` hand out the Ruby arrays stored in `@values` and `@fields`
  by reference, not copies (Reader.java:146-147, 152). A caller that changes such an
  array changes what later `values` or `fields` calls answer. The model treats rows
  and column names as immutable sequences, so this aliasing is not captured.
- Conversion of `@field_count` is not modelled. The model takes it as a Java `int`
  (`Int32`), so a non-integer, or one too large for `fix2int`, is out of scope.
- JDBC driver behaviour is modelled only as far as the Reader sees it: a next row or
  none, or a throw; and a close that may throw. After the last row, `next()` answers
  false again. A `close()` that throws leaves the object not closed.
- Concurrent calls on one Reader are not modelled. The source does not synchronise them.

/**
  The console front end's core: the three-way result of `execute_query`, the
  shaping of result rows into a table by `display_results`, the statement
  splitting of `initialize_database`, and the input checks of
  `view_transaction_history` (account id, transaction type, date range).

  The database is represented by what the driver did with a statement
  (`DriverOutcome`); rows are lists of (column, value) pairs, as the
  driver's dictionary cursor returns them, with the column order kept.
 */
module BankingApp {
  import opened Wrappers
  import opened Strings

  // ---------------------------------------------------------------------
  // execute_query

  /** What the driver did with the statement: raised an error, or ran it. */
  datatype DriverOutcome<R> = Raised(message: string) | Completed(rows: seq<R>, rowCount: int)

  /** The three shapes of `execute_query`'s result: the rows, the affected-row count, or `None`. */
  datatype QueryResult<R> = Rows(rows: seq<R>) | RowCount(count: int) | NoResult

  /** What `execute_query` prints before it returns `None`. */
  const QueryErrorPrefix := "Error executing query: "

  /** One call of `execute_query`: what it returns, whether it committed, and the lines it printed. */
  datatype QueryCall<R> = QueryCall(result: QueryResult<R>, committed: bool, printed: seq<string>)

  /**
    `execute_query`: a fetching query returns its rows, any other returns the
    affected-row count after a commit, and a driver error prints the error
    and returns `None` without a commit.
   */
  function ExecuteQuery<R>(fetch: bool, driver: DriverOutcome<R>): (r: QueryCall<R>)
    ensures r.result == NoResult <==> driver.Raised?
    ensures r.committed <==> !fetch && driver.Completed?
    ensures r.result.Rows? <==> fetch && driver.Completed?
    ensures r.result.Rows? ==> r.result.rows == driver.rows
    ensures r.result.RowCount? ==> r.result.count == driver.rowCount
    ensures |r.printed| <= 1 && (r.printed != [] <==> driver.Raised?)
    ensures driver.Raised? ==> r.printed[0] == QueryErrorPrefix + driver.message
  {
    match driver
    case Raised(message) => QueryCall(NoResult, false, [QueryErrorPrefix + message])
    case Completed(rows, count) =>
      if fetch then QueryCall(Rows(rows), false, []) else QueryCall(RowCount(count), true, [])
  }

  /** The rows handed to `display_results`: the fetched list, or `None` after an error. */
  function FetchedRows<R>(r: QueryResult<R>): Option<seq<R>> {
    match r
    case Rows(rows) => Some(rows)
    case _ => None
  }

  // ---------------------------------------------------------------------
  // display_results

  /** A result row: (column, value) pairs in the order the driver returns them. */
  type Row<V> = seq<(string, V)>

  function Columns<V>(row: Row<V>): (names: seq<string>)
    ensures |names| == |row| && forall j :: 0 <= j < |row| ==> names[j] == row[j].0
  {
    if row == [] then [] else [row[0].0] + Columns(row[1..])
  }

  /** `row[col]`: the value of the first pair named `col`, or `None` (a `KeyError`). */
  function Lookup<V>(row: Row<V>, col: string): (v: Option<V>)
    ensures v.None? <==> forall j :: 0 <= j < |row| ==> row[j].0 != col
    ensures v.Some? ==> exists j :: 0 <= j < |row| && row[j].0 == col && row[j].1 == v.value
  {
    if row == [] then None
    else if row[0].0 == col then Some(row[0].1)
    else
      var v := Lookup(row[1..], col);
      assert forall j :: 1 <= j < |row| ==> row[j] == row[1..][j - 1];
      v
  }

  /** A dictionary's keys are distinct. */
  predicate DistinctColumns<V>(row: Row<V>) {
    forall j, k :: 0 <= j < k < |row| ==> row[j].0 != row[k].0
  }

  /** The row has no value for some header: reading it raises `KeyError`. */
  predicate CellMissing<V>(headers: seq<string>, row: Row<V>) {
    exists j :: 0 <= j < |headers| && Lookup(row, headers[j]).None?
  }

  /** Some row has no value for some header. */
  predicate SomeCellMissing<V>(headers: seq<string>, rows: seq<Row<V>>) {
    exists i :: 0 <= i < |rows| && CellMissing(headers, rows[i])
  }

  /** The value table: one line per row, one cell per header, or `None` if some row lacks a header. */
  function Cells<V>(headers: seq<string>, rows: seq<Row<V>>): (data: Option<seq<seq<V>>>)
    ensures data.None? <==> SomeCellMissing(headers, rows)
    ensures data.Some? ==>
              && |data.value| == |rows|
              && forall i :: 0 <= i < |rows| ==>
                   && |data.value[i]| == |headers|
                   && forall j :: 0 <= j < |headers| ==> Lookup(rows[i], headers[j]) == Some(data.value[i][j])
  {
    if rows == [] then Some([])
    else
      CellMissingSplit(headers, rows);
      match (Line(headers, rows[0]), Cells(headers, rows[1..]))
      case (Some(line), Some(rest)) =>
        assert forall i :: 1 <= i < |rows| ==> rows[i] == rows[1..][i - 1];
        Some([line] + rest)
      case (None, _) => None
      case (_, None) => None
  }

  lemma CellMissingSplit<V>(headers: seq<string>, rows: seq<Row<V>>)
    requires rows != []
    ensures SomeCellMissing(headers, rows) <==>
              CellMissing(headers, rows[0]) || SomeCellMissing(headers, rows[1..])
  {
    if SomeCellMissing(headers, rows[1..]) {
      var i :| 0 <= i < |rows[1..]| && CellMissing(headers, rows[1..][i]);
      assert rows[i + 1] == rows[1..][i];
    }
    if SomeCellMissing(headers, rows) {
      var i :| 0 <= i < |rows| && CellMissing(headers, rows[i]);
      if i > 0 {
        assert rows[1..][i - 1] == rows[i];
      }
    }
  }

  /** `[row[col] for col in headers]` for one row. */
  function Line<V>(headers: seq<string>, row: Row<V>): (line: Option<seq<V>>)
    ensures line.None? <==> CellMissing(headers, row)
    ensures line.Some? ==> |line.value| == |headers|
                           && forall j :: 0 <= j < |headers| ==> Lookup(row, headers[j]) == Some(line.value[j])
  {
    if headers == [] then Some([])
    else
      assert forall j :: 1 <= j < |headers| ==> headers[j] == headers[1..][j - 1];
      match (Lookup(row, headers[0]), Line(headers[1..], row))
      case (Some(v), Some(rest)) => Some([v] + rest)
      case (None, _) => None
      case (_, None) => None
  }

  /** What `display_results` shows. */
  datatype Display<V> =
    | NoResultsFound                                        // "No results found."
    | Table(title: string, headers: seq<string>, data: seq<seq<V>>)
    | MissingColumn                                         // a KeyError escapes

  /**
    `display_results`: nothing to show for `None` or an empty list;
    otherwise the first row's columns are the headers and every row is read
    in that column order.
   */
  function DisplayResults<V>(results: Option<seq<Row<V>>>, title: string): (d: Display<V>)
    ensures d == NoResultsFound <==> results.None? || results.value == []
    ensures d.Table? ==>
              && results.Some? && results.value != []
              && var rows := results.value;
                 && d.title == title
                 && d.headers == Columns(rows[0])
                 && |d.data| == |rows|
                 && forall i :: 0 <= i < |rows| ==>
                      && |d.data[i]| == |d.headers|
                      && forall j :: 0 <= j < |d.headers| ==> Lookup(rows[i], d.headers[j]) == Some(d.data[i][j])
    ensures d == MissingColumn <==>
              && results.Some? && results.value != []
              && var rows := results.value;
                 SomeCellMissing(Columns(rows[0]), rows)
  {
    match results
    case None => NoResultsFound
    case Some(rows) =>
      if rows == [] then NoResultsFound
      else
        var headers := Columns(rows[0]);
        match Cells(headers, rows)
        case None => MissingColumn
        case Some(data) => Table(title, headers, data)
  }

  /** In a row with distinct columns, looking up the j-th column gives the j-th value. */
  lemma LookupDistinct<V>(row: Row<V>, j: nat)
    requires DistinctColumns(row) && j < |row|
    ensures Lookup(row, row[j].0) == Some(row[j].1)
  {
    if j > 0 {
      assert row[1..][j - 1] == row[j];
      LookupDistinct(row[1..], j - 1);
    }
  }

  /**
    When every row has the first row's columns, in any order, the table is
    shown and its first line is the first row's values as returned.
   */
  lemma UniformRowsDisplayed<V>(rows: seq<Row<V>>, title: string)
    requires rows != [] && DistinctColumns(rows[0])
    requires forall i, j :: 0 <= i < |rows| && 0 <= j < |rows[0]| ==>
               Lookup(rows[i], rows[0][j].0).Some?
    ensures DisplayResults(Some(rows), title).Table?
    ensures forall j :: 0 <= j < |rows[0]| ==> DisplayResults(Some(rows), title).data[0][j] == rows[0][j].1
  {
    var d := DisplayResults(Some(rows), title);
    var headers := Columns(rows[0]);
    assert d.Table? by {
      forall i, j | 0 <= i < |rows| && 0 <= j < |headers|
        ensures Lookup(rows[i], headers[j]).Some?
      {
        assert headers[j] == rows[0][j].0;
      }
    }
    forall j | 0 <= j < |rows[0]|
      ensures d.data[0][j] == rows[0][j].1
    {
      LookupDistinct(rows[0], j);
    }
  }

  /**
    `display_results` shows a failed query and a query that found nothing
    alike, "No results found."; only the error line `execute_query` printed
    first tells them apart.
   */
  lemma ErrorDisplaysAsEmpty<V>(message: string, rowCount: int, title: string)
    ensures var failed := ExecuteQuery<Row<V>>(true, Raised(message));
            var empty := ExecuteQuery<Row<V>>(true, Completed([], rowCount));
            && DisplayResults(FetchedRows(failed.result), title)
               == DisplayResults(FetchedRows(empty.result), title) == NoResultsFound
            && failed.printed == [QueryErrorPrefix + message] && empty.printed == []
  {
  }

  // ---------------------------------------------------------------------
  // initialize_database

  /** Every piece stripped, `statement.strip()`. */
  function StripAll(pieces: seq<string>): (r: seq<string>)
    ensures |r| == |pieces| && forall i :: 0 <= i < |pieces| ==> r[i] == Strip(pieces[i])
  {
    seq(|pieces|, i requires 0 <= i < |pieces| => Strip(pieces[i]))
  }

  /** The non-blank texts of a list, in order: `if statement:`. */
  function NonBlank(texts: seq<string>): (r: seq<string>)
    ensures |r| <= |texts|
    ensures forall k :: 0 <= k < |r| ==> r[k] != [] && r[k] in texts
  {
    if texts == [] then []
    else
      var last := texts[|texts| - 1];
      NonBlank(texts[..|texts| - 1]) + (if last == [] then [] else [last])
  }

  /** The statements a list of pieces yields: each piece stripped, blank ones dropped, order kept. */
  function Statements(pieces: seq<string>): seq<string> {
    NonBlank(StripAll(pieces))
  }

  /** The statements the script is cut into: `split(';')`, `strip()`, blanks skipped. */
  function ScriptStatements(script: string): seq<string> {
    Statements(Split(script, ';'))
  }

  /**
    The statements the driver runs without raising, in order. Whether the
    driver raises on a statement is `rejects(earlier, statement)`: it may
    depend on every statement tried before it (`earlier`), so the same text
    can succeed once and fail later, as a repeated `INSERT` does.
   */
  function Accepted(stmts: seq<string>, rejects: (seq<string>, string) -> bool): (ok: seq<string>)
    ensures |ok| <= |stmts|
    ensures forall k :: 0 <= k < |ok| ==> ok[k] in stmts
  {
    if stmts == [] then []
    else
      var n := |stmts| - 1;
      Accepted(stmts[..n], rejects) + (if rejects(stmts[..n], stmts[n]) then [] else [stmts[n]])
  }

  /**
    The loop of `initialize_database`: every non-blank statement is tried,
    a driver error on one is ignored and the loop goes on.
   */
  method ExecuteScript(script: string, rejects: (seq<string>, string) -> bool)
    returns (attempted: seq<string>, committed: seq<string>)
    ensures attempted == ScriptStatements(script)
    ensures committed == Accepted(attempted, rejects)
  {
    var pieces := Split(script, ';');
    attempted, committed := [], [];
    var i := 0;
    while i < |pieces|
      invariant 0 <= i <= |pieces|
      invariant attempted == Statements(pieces[..i])
      invariant committed == Accepted(attempted, rejects)
    {
      var statement := Strip(pieces[i]);
      StatementsPrefix(pieces, i);
      if statement != [] {
        AcceptedSnoc(attempted, statement, rejects);
        var failed := rejects(attempted, statement);
        attempted := attempted + [statement];
        if !failed {
          committed := committed + [statement];
        }
      }
      i := i + 1;
    }
    assert pieces[..|pieces|] == pieces;
  }

  /** The loop's view of `StatementsSnoc`: the statements of one more prefix piece. */
  lemma StatementsPrefix(pieces: seq<string>, i: nat)
    requires i < |pieces|
    ensures var t := Strip(pieces[i]);
            Statements(pieces[..i + 1]) == Statements(pieces[..i]) + (if t == [] then [] else [t])
  {
    assert pieces[..i + 1] == pieces[..i] + [pieces[i]];
    StatementsSnoc(pieces[..i], pieces[i]);
  }

  /** One more piece adds its stripped text, unless that is blank. */
  lemma StatementsSnoc(pieces: seq<string>, piece: string)
    ensures var t := Strip(piece);
            Statements(pieces + [piece]) == Statements(pieces) + (if t == [] then [] else [t])
  {
    StatementsConcat(pieces, [piece]);
    assert StripAll([piece]) == [] + [Strip(piece)];
    NonBlankSnoc([], Strip(piece));
  }

  lemma NonBlankSnoc(texts: seq<string>, t: string)
    ensures NonBlank(texts + [t]) == NonBlank(texts) + (if t == [] then [] else [t])
  {
    assert (texts + [t])[..|texts|] == texts;
  }

  lemma AcceptedSnoc(stmts: seq<string>, s: string, rejects: (seq<string>, string) -> bool)
    ensures Accepted(stmts + [s], rejects) == Accepted(stmts, rejects) + (if rejects(stmts, s) then [] else [s])
  {
    assert (stmts + [s])[..|stmts|] == stmts;
  }

  /** Every committed statement was tried at some point and the driver did not raise on it then. */
  lemma {:induction false} AcceptedWereAllowed(stmts: seq<string>, rejects: (seq<string>, string) -> bool, k: nat)
    requires k < |Accepted(stmts, rejects)|
    ensures exists j :: 0 <= j < |stmts| && stmts[j] == Accepted(stmts, rejects)[k]
                        && !rejects(stmts[..j], stmts[j])
  {
    var n := |stmts| - 1;
    var prev := Accepted(stmts[..n], rejects);
    if k < |prev| {
      AcceptedWereAllowed(stmts[..n], rejects, k);
      var j :| 0 <= j < n && stmts[..n][j] == prev[k] && !rejects(stmts[..n][..j], stmts[..n][j]);
      assert stmts[..n][..j] == stmts[..j];
      assert stmts[j] == Accepted(stmts, rejects)[k];
    } else {
      assert stmts[n] == Accepted(stmts, rejects)[k] && !rejects(stmts[..n], stmts[n]);
    }
  }

  /** When the driver never raises, every statement is committed. */
  lemma {:induction false} AcceptedAllWhenNoneRejected(stmts: seq<string>, rejects: (seq<string>, string) -> bool)
    requires forall earlier, t :: !rejects(earlier, t)
    ensures Accepted(stmts, rejects) == stmts
  {
    if stmts != [] {
      var n := |stmts| - 1;
      AcceptedAllWhenNoneRejected(stmts[..n], rejects);
      assert stmts[..n] + [stmts[n]] == stmts;
    }
  }

  /** A statement refused only because it already ran is committed once: the first time. */
  lemma RepeatedStatementCommittedOnce(t: string)
    ensures Accepted([t, t], (earlier: seq<string>, x: string) => x in earlier) == [t]
  {
    var rejects := (earlier: seq<string>, x: string) => x in earlier;
    assert [t, t][..1] == [t];
    assert [t][..0] == [];
    assert Accepted([t], rejects) == [t];
  }

  lemma {:induction false} NonBlankConcat(p: seq<string>, q: seq<string>)
    ensures NonBlank(p + q) == NonBlank(p) + NonBlank(q)
  {
    if q == [] {
      assert p + q == p;
    } else {
      var n := |q| - 1;
      NonBlankConcat(p, q[..n]);
      assert (p + q)[..|p + q| - 1] == p + q[..n];
      assert (p + q)[|p + q| - 1] == q[n];
    }
  }

  lemma StripAllConcat(p: seq<string>, q: seq<string>)
    ensures StripAll(p + q) == StripAll(p) + StripAll(q)
  {
    var whole, parts := StripAll(p + q), StripAll(p) + StripAll(q);
    forall i | 0 <= i < |whole|
      ensures whole[i] == parts[i]
    {
      if i < |p| {
        assert (p + q)[i] == p[i];
        assert parts[i] == StripAll(p)[i];
      } else {
        assert (p + q)[i] == q[i - |p|];
        assert parts[i] == StripAll(q)[i - |p|];
      }
    }
  }

  lemma StatementsConcat(p: seq<string>, q: seq<string>)
    ensures Statements(p + q) == Statements(p) + Statements(q)
  {
    StripAllConcat(p, q);
    NonBlankConcat(StripAll(p), StripAll(q));
  }

  /** Every statement is non-blank, holds no `;` and is already stripped. */
  lemma StatementsClean(pieces: seq<string>)
    requires forall i :: 0 <= i < |pieces| ==> ';' !in pieces[i]
    ensures forall k :: 0 <= k < |Statements(pieces)| ==>
              var s := Statements(pieces)[k];
              s != [] && ';' !in s && !IsSpace(s[0]) && !IsSpace(s[|s| - 1])
  {
    var stripped := StripAll(pieces);
    forall k | 0 <= k < |Statements(pieces)|
      ensures var s := Statements(pieces)[k];
              s != [] && ';' !in s && !IsSpace(s[0]) && !IsSpace(s[|s| - 1])
    {
      var s := Statements(pieces)[k];
      assert s in stripped;
      var i :| 0 <= i < |stripped| && stripped[i] == s;
      assert s == Strip(pieces[i]);
      StripHasNoNewChar(pieces[i], ';');
    }
  }

  /** What the script yields holds no blank statement and no `;`. */
  lemma ScriptStatementsClean(script: string)
    ensures forall k :: 0 <= k < |ScriptStatements(script)| ==>
              var s := ScriptStatements(script)[k];
              s != [] && ';' !in s && !IsSpace(s[0]) && !IsSpace(s[|s| - 1])
  {
    var pieces := Split(script, ';');
    SplitPiecesFree(script, ';');
    StatementsClean(pieces);
    assert ScriptStatements(script) == Statements(pieces);
  }

  /** Cutting two scripts joined by `;` gives the statements of each, in order. */
  lemma ScriptStatementsConcat(a: string, b: string)
    ensures ScriptStatements(a + ";" + b) == ScriptStatements(a) + ScriptStatements(b)
  {
    SplitConcat(a, b, ';');
    StatementsConcat(Split(a, ';'), Split(b, ';'));
  }

  /** Clean statements are kept as they are. */
  lemma StatementsOfClean(stmts: seq<string>)
    requires forall k :: 0 <= k < |stmts| ==>
               stmts[k] != [] && !IsSpace(stmts[k][0]) && !IsSpace(stmts[k][|stmts[k]| - 1])
    ensures Statements(stmts) == stmts
  {
    assert StripAll(stmts) == stmts by {
      forall k | 0 <= k < |stmts|
        ensures StripAll(stmts)[k] == stmts[k]
      {
        StripUnchanged(stmts[k]);
      }
    }
    NonBlankOfNonBlank(stmts);
  }

  lemma {:induction false} NonBlankOfNonBlank(texts: seq<string>)
    requires forall k :: 0 <= k < |texts| ==> texts[k] != []
    ensures NonBlank(texts) == texts
  {
    if texts != [] {
      NonBlankOfNonBlank(texts[..|texts| - 1]);
    }
  }

  /** A script written as clean statements joined by `;` is cut back into those statements. */
  lemma ScriptOfStatements(stmts: seq<string>)
    requires |stmts| >= 1
    requires forall k :: 0 <= k < |stmts| ==>
               && stmts[k] != [] && ';' !in stmts[k]
               && !IsSpace(stmts[k][0]) && !IsSpace(stmts[k][|stmts[k]| - 1])
    ensures ScriptStatements(Join(stmts, ';')) == stmts
  {
    SplitJoin(stmts, ';');
    StatementsOfClean(stmts);
  }

  /** How `initialize_database` ends. */
  datatype InitOutcome =
    | CountUnavailable  // the count query failed: indexing `None` raises TypeError
    | AlreadyPopulated  // tables exist: nothing is done
    | ScriptUnreadable  // "Error initializing database: ..." and exit status 1
    | Initialized(attempted: seq<string>, committed: seq<string>)

  /**
    `initialize_database`, given the result of the table-count query and
    the contents of the script file (`None` when it cannot be read).
   */
  method InitializeDatabase(tableCount: Option<int>, script: Option<string>,
                            rejects: (seq<string>, string) -> bool)
    returns (outcome: InitOutcome)
    ensures outcome == CountUnavailable <==> tableCount.None?
    ensures outcome == AlreadyPopulated <==> tableCount.Some? && tableCount.value != 0
    ensures outcome == ScriptUnreadable <==> tableCount == Some(0) && script.None?
    ensures outcome.Initialized? ==>
              && tableCount == Some(0) && script.Some?
              && outcome.attempted == ScriptStatements(script.value)
              && outcome.committed == Accepted(outcome.attempted, rejects)
  {
    match tableCount
    case None =>
      return CountUnavailable;
    case Some(count) =>
      if count != 0 {
        return AlreadyPopulated;
      }
      match script
      case None =>
        return ScriptUnreadable;
      case Some(text) =>
        var attempted, committed := ExecuteScript(text, rejects);
        return Initialized(attempted, committed);
  }

  // ---------------------------------------------------------------------
  // view_transaction_history

  /** The filter a transaction query is run with; values are bound, not spliced. */
  datatype TxQuery =
    | AllTransactions
    | ByAccount(accountId: int)
    | ByType(txType: string)
    | ByDateRange(start: string, end: string)

  /** Either a query to run, with the title of its table, or the message printed instead. */
  datatype HistoryStep = Run(query: TxQuery, title: string) | Reject(message: string)

  const InvalidChoice := "Invalid choice."
  const AccountIdNotNumber := "Error: Account ID must be a number."
  const BadDateFormat := "Error: Invalid date format. Please use YYYY-MM-DD format."

  /** The transaction-type menu: '1', '2' and '3'. */
  function TransactionType(choice: string): (t: Option<string>)
    ensures t.Some? <==> choice == "1" || choice == "2" || choice == "3"
    ensures choice == "1" ==> t == Some("Deposit")
    ensures choice == "2" ==> t == Some("Withdrawal")
    ensures choice == "3" ==> t == Some("Transfer")
  {
    if choice == "1" then Some("Deposit")
    else if choice == "2" then Some("Withdrawal")
    else if choice == "3" then Some("Transfer")
    else None
  }

  /** A calendar date. */
  datatype Date = Date(year: int, month: int, day: int)

  predicate IsLeapYear(y: int) {
    y % 4 == 0 && (y % 100 != 0 || y % 400 == 0)
  }

  function DaysInMonth(y: int, m: int): int
    requires 1 <= m <= 12
  {
    if m == 2 then (if IsLeapYear(y) then 29 else 28)
    else if m == 4 || m == 6 || m == 9 || m == 11 then 30
    else 31
  }

  /** A date `datetime` can hold: years 1 to 9999, a real day of the month. */
  predicate ValidDate(d: Date) {
    1 <= d.year <= 9999 && 1 <= d.month <= 12 && 1 <= d.day <= DaysInMonth(d.year, d.month)
  }

  /** `%Y`: exactly four digits. */
  predicate YearText(t: string) {
    |t| == 4 && AllDigits(t)
  }

  /** `%m`: `1[0-2]|0[1-9]|[1-9]`. */
  predicate MonthText(t: string) {
    || (|t| == 2 && t[0] == '1' && '0' <= t[1] <= '2')
    || (|t| == 2 && t[0] == '0' && '1' <= t[1] <= '9')
    || (|t| == 1 && '1' <= t[0] <= '9')
  }

  /** `%d`: `3[01]|[12]\d|0[1-9]|[1-9]| [1-9]`. */
  predicate DayText(t: string) {
    || (|t| == 2 && t[0] == '3' && (t[1] == '0' || t[1] == '1'))
    || (|t| == 2 && (t[0] == '1' || t[0] == '2') && IsDigit(t[1]))
    || (|t| == 2 && t[0] == '0' && '1' <= t[1] <= '9')
    || (|t| == 1 && '1' <= t[0] <= '9')
    || (|t| == 2 && t[0] == ' ' && '1' <= t[1] <= '9')
  }

  /** The number a month or day field denotes; a leading blank counts for nothing. */
  function FieldValue(t: string): nat
    requires MonthText(t) || DayText(t)
  {
    if |t| == 1 then DigitValue(t[0])
    else if t[0] == ' ' then DigitValue(t[1])
    else 10 * DigitValue(t[0]) + DigitValue(t[1])
  }

  /** The three fields of a text shaped `Y-m-d`, none of which holds a `-`. */
  function DateFields(s: string): (r: Option<(string, string, string)>)
    ensures r.Some? ==> s == r.value.0 + "-" + r.value.1 + "-" + r.value.2
    ensures r.Some? ==> |r.value.0| == 4 && '-' !in r.value.1 && '-' !in r.value.2
  {
    if |s| < 5 || s[4] != '-' then None
    else
      var parts := Split(s[5..], '-');
      if |parts| != 2 then None
      else
        SplitPiecesFree(s[5..], '-');
        JoinSplit(s[5..], '-');
        assert Join(parts, '-') == parts[0] + "-" + parts[1];
        if '-' in s[..4] then None
        else
          assert s == s[..4] + "-" + s[5..];
          Some((s[..4], parts[0], parts[1]))
  }

  /** Three `-`-free fields joined by `-` are given back by `DateFields`. */
  lemma DateFieldsOf(y: string, m: string, d: string)
    requires |y| == 4 && '-' !in y && '-' !in m && '-' !in d
    ensures DateFields(y + "-" + m + "-" + d) == Some((y, m, d))
  {
    var s := y + "-" + m + "-" + d;
    assert s[4] == '-' && s[..4] == y;
    assert s[5..] == m + ['-'] + d;
    SplitConcat(m, d, '-');
    SplitWithoutSeparator(m, '-');
    SplitWithoutSeparator(d, '-');
  }

  /**
    `datetime.strptime(s, '%Y-%m-%d')`: the whole text must match the three
    field patterns, and the fields must name a real date.
   */
  function ParseIsoDate(s: string): (r: Option<Date>)
    ensures r.Some? ==> ValidDate(r.value)
    ensures r.Some? ==> DateFields(s).Some?
                        && var (y, m, d) := DateFields(s).value;
                           YearText(y) && MonthText(m) && DayText(d)
                           && r.value == Date(GroupValue(y), FieldValue(m), FieldValue(d))
  {
    match DateFields(s)
    case None => None
    case Some((y, m, d)) =>
      if YearText(y) && MonthText(m) && DayText(d) then
        var date := Date(GroupValue(y), FieldValue(m), FieldValue(d));
        if ValidDate(date) then Some(date) else None
      else None
  }

  /** Any text made of the three field patterns parses exactly when it names a real date. */
  lemma ParseIsoDateOfFields(y: string, m: string, d: string)
    requires YearText(y) && MonthText(m) && DayText(d)
    ensures var date := Date(GroupValue(y), FieldValue(m), FieldValue(d));
            ParseIsoDate(y + "-" + m + "-" + d) == if ValidDate(date) then Some(date) else None
  {
    assert '-' !in y && '-' !in m && '-' !in d;
    DateFieldsOf(y, m, d);
  }

  /** Unpadded one-digit months and days are accepted too, as `%m` and `%d` allow. */
  lemma UnpaddedFieldsAccepted(y: string, month: nat, day: nat)
    requires YearText(y) && 1 <= month <= 9 && 1 <= day <= 9
    requires ValidDate(Date(GroupValue(y), month, day))
    ensures ParseIsoDate(y + "-" + [DigitChar(month)] + "-" + [DigitChar(day)])
            == Some(Date(GroupValue(y), month, day))
  {
    ParseIsoDateOfFields(y, [DigitChar(month)], [DigitChar(day)]);
  }

  /** The 29th of February is accepted exactly in leap years (and year 0000 never). */
  lemma February29OnlyInLeapYears(y: string)
    requires YearText(y)
    ensures ParseIsoDate(y + "-02-29").Some? <==> 1 <= GroupValue(y) && IsLeapYear(GroupValue(y))
  {
    assert GroupValue(y) <= 9999 by {
      GroupValueBound(y);
      DigitCountAllDigits(y);
    }
    var m, d := "02", "29";
    assert MonthText(m) && DayText(d);
    assert FieldValue(m) == 2 && FieldValue(d) == 29;
    assert y + "-02-29" == y + "-" + m + "-" + d;
    ParseIsoDateOfFields(y, m, d);
  }

  /** `n` written with exactly `width` digits, zero-padded on the left. */
  function Padded(n: nat, width: nat): (t: string)
    ensures |t| == width && AllDigits(t)
  {
    if width == 0 then [] else Padded(n / 10, width - 1) + [DigitChar(n % 10)]
  }

  lemma {:induction false} PaddedValue(n: nat, width: nat)
    requires n < Power10(width)
    ensures GroupValue(Padded(n, width)) == n
  {
    if width > 0 {
      PaddedValue(n / 10, width - 1);
      var t := Padded(n, width);
      assert t[..|t| - 1] == Padded(n / 10, width - 1);
    }
  }

  /** The canonical text of a date: `YYYY-MM-DD`. */
  function FormatDate(d: Date): string
    requires ValidDate(d)
  {
    Padded(d.year, 4) + "-" + Padded(d.month, 2) + "-" + Padded(d.day, 2)
  }

  /** A month or day number written with two digits matches its field pattern and reads back. */
  lemma TwoDigitField(n: nat)
    requires 1 <= n <= 31
    ensures DayText(Padded(n, 2)) && FieldValue(Padded(n, 2)) == n
    ensures n <= 12 ==> MonthText(Padded(n, 2))
  {
    var t := Padded(n, 2);
    assert Padded(n / 10, 1) == [DigitChar(n / 10 % 10)];
    assert t == [DigitChar(n / 10)] + [DigitChar(n % 10)];
  }

  /** Every real date, written `YYYY-MM-DD`, is read back as itself. */
  lemma ParseFormatDate(d: Date)
    requires ValidDate(d)
    ensures ParseIsoDate(FormatDate(d)) == Some(d)
  {
    var y, m, dd := Padded(d.year, 4), Padded(d.month, 2), Padded(d.day, 2);
    assert Power10(4) == 10000;
    PaddedValue(d.year, 4);
    TwoDigitField(d.month);
    TwoDigitField(d.day);
    ParseIsoDateOfFields(y, m, dd);
  }

  /**
    `view_transaction_history` from the menu choice and the lines read after
    it; only the lines the chosen option asks for are looked at.
   */
  function TransactionHistory(choice: string, accountText: string, typeChoice: string,
                              startText: string, endText: string): (step: HistoryStep)
    ensures choice == "1" ==> step == Run(AllTransactions, "All Transactions")
    ensures choice == "2" ==>
              if ParseInt(accountText).Some?
              then step == Run(ByAccount(ParseInt(accountText).value),
                               "Transactions for Account " + IntToString(ParseInt(accountText).value))
              else step == Reject(AccountIdNotNumber)
    ensures choice == "3" ==>
              if TransactionType(typeChoice).Some?
              then step == Run(ByType(TransactionType(typeChoice).value),
                               TransactionType(typeChoice).value + " Transactions")
              else step == Reject(InvalidChoice)
    ensures choice == "4" ==>
              if ParseIsoDate(startText).Some? && ParseIsoDate(endText).Some?
              then step == Run(ByDateRange(startText, endText),
                               "Transactions from " + startText + " to " + endText)
              else step == Reject(BadDateFormat)
    ensures choice !in {"1", "2", "3", "4"} ==> step == Reject(InvalidChoice)
  {
    if choice == "1" then Run(AllTransactions, "All Transactions")
    else if choice == "2" then
      match ParseInt(accountText)
      case Some(id) => Run(ByAccount(id), "Transactions for Account " + IntToString(id))
      case None => Reject(AccountIdNotNumber)
    else if choice == "3" then
      match TransactionType(typeChoice)
      case Some(t) => Run(ByType(t), t + " Transactions")
      case None => Reject(InvalidChoice)
    else if choice == "4" then
      if ParseIsoDate(startText).Some? && ParseIsoDate(endText).Some? then
        Run(ByDateRange(startText, endText), "Transactions from " + startText + " to " + endText)
      else Reject(BadDateFormat)
    else Reject(InvalidChoice)
  }

  /** Every account id typed as `str(n)` selects the transactions of account `n`. */
  lemma AccountFilterAcceptsEveryId(n: int, typeChoice: string, startText: string, endText: string)
    requires WithinStrLimit(n)
    ensures TransactionHistory("2", IntToString(n), typeChoice, startText, endText)
            == Run(ByAccount(n), "Transactions for Account " + IntToString(n))
  {
    ParseIntOfIntToString(n);
  }

  /**
    An account id preceded by one of the separators U+001C-U+001F is refused
    with the account error, as `int()` does not skip those characters.
   */
  lemma AccountFilterRefusesSeparatorControl(c: char, digits: string, typeChoice: string,
                                             startText: string, endText: string)
    requires 0x1C <= c as int <= 0x1F && IsDigitGroup(digits)
    ensures TransactionHistory("2", [c] + digits, typeChoice, startText, endText) == Reject(AccountIdNotNumber)
  {
    ParseIntRefusesSeparatorControl(c, digits);
  }

  /** An account id of more than 4300 digits is refused with the account error. */
  lemma AccountFilterRefusesTooManyDigits(digits: string, typeChoice: string,
                                          startText: string, endText: string)
    requires IsDigitGroup(digits) && DigitCount(digits) > MaxStrDigits
    ensures TransactionHistory("2", digits, typeChoice, startText, endText) == Reject(AccountIdNotNumber)
  {
    ParseIntRefusesTooManyDigits(digits);
  }

  /** A date range is filtered on the texts as typed, even when it runs backwards. */
  lemma DateRangeKeepsTexts(first: Date, second: Date, accountText: string, typeChoice: string)
    requires ValidDate(first) && ValidDate(second)
    ensures var start, end := FormatDate(second), FormatDate(first);
            TransactionHistory("4", accountText, typeChoice, start, end)
            == Run(ByDateRange(start, end), "Transactions from " + start + " to " + end)
  {
    ParseFormatDate(first);
    ParseFormatDate(second);
  }
}

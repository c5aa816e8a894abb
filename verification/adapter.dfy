/**
  The query layer of `lib/db.js`: what a statement's result looks like to the handlers.

  The program talks to PostgreSQL when it can reach one and otherwise to a SQLite file through
  a small adapter. The adapter classifies each statement by the first word of its trimmed,
  lower-cased text and shapes the engine's answer accordingly; the PostgreSQL driver returns
  the same shape for every statement. Which backend is in use is decided at start-up from the
  environment, so it is a parameter here.
*/
module Adapter {
  import opened Wrappers
  import opened JsText
  import Placeholders

  /** A JavaScript value as it appears in a result row or a token claim. */
  datatype Value = Undefined | Null | Int(i: int) | Text(s: string)

  /** A result row: a JavaScript object from column name to value. */
  type Record = map<string, Value>

  /** Property access `row.key`: a missing property reads as `undefined`. */
  function Field(row: Record, key: string): Value {
    if key in row then row[key] else Undefined
  }

  datatype Backend = Postgres | Sqlite

  /** How the SQLite adapter treats a statement. */
  datatype Kind = Select | Insert(returning: bool) | Other

  /**
    What the engine itself produced for a statement: the rows it selected or returned, the
    number of rows it selected or changed, and the row id of the last insert.
  */
  datatype EngineAnswer = EngineAnswer(rows: seq<Record>, count: nat, lastInsertRowid: int)

  /** The object a `query` call resolves to; an absent field reads as `undefined`. */
  datatype QueryResult = QueryResult(rows: Option<seq<Record>>, rowCount: Option<nat>)

  /** `returning` in any ASCII case starts at index `i`. */
  predicate KeywordAt(s: string, i: int) {
    0 <= i && i + 9 <= |s| && Lower(s[i..i + 9]) == "returning"
  }

  /** `/returning\s+/i.test(s)`. */
  predicate HasReturning(s: string) {
    exists i | 0 <= i && i + 10 <= |s| :: KeywordAt(s, i) && IsSpace(s[i + 9])
  }

  /** The statement classification of `query`, lines 73-79 of `lib/db.js`. */
  function Classify(sql: string): Kind {
    var lower := Lower(Trim(sql));
    if StartsWith(lower, "select") then Select
    else if StartsWith(lower, "insert") then Insert(HasReturning(lower))
    else Other
  }

  /** A character of the class `[\w\*,\s]`. */
  predicate InColumnList(c: char) {
    IsWordChar(c) || c == '*' || c == ',' || IsSpace(c)
  }

  /** Length of the run of `[\w\*,\s]` characters at the front of `s`. */
  function ColumnListRun(s: string): (n: nat)
    ensures n <= |s|
    ensures forall i :: 0 <= i < n ==> InColumnList(s[i])
    ensures n == |s| || !InColumnList(s[n])
    decreases |s|
  {
    if |s| > 0 && InColumnList(s[0]) then 1 + ColumnListRun(s[1..]) else 0
  }

  /**
    `/returning\s+[\w\*,\s]+/i` matches at index `i`. Because `\s` is part of the column-list
    class, the pattern needs a white-space character right after the keyword and at least two
    class characters in all, and a match always runs to the end of the class run.
  */
  predicate ClauseAt(s: string, i: int) {
    KeywordAt(s, i) && i + 10 <= |s| && IsSpace(s[i + 9]) && ColumnListRun(s[i + 9..]) >= 2
  }

  /** The leftmost index at or after `from` where the RETURNING pattern matches. */
  function FirstClause(s: string, from: nat): (r: Option<nat>)
    ensures r.Some? ==> from <= r.value && ClauseAt(s, r.value)
    ensures r.Some? ==> forall j :: from <= j < r.value ==> !ClauseAt(s, j)
    ensures r.None? ==> forall j :: from <= j ==> !ClauseAt(s, j)
    decreases |s| - from
  {
    if from + 10 > |s| then None
    else if ClauseAt(s, from) then Some(from)
    else FirstClause(s, from + 1)
  }

  /** `s.replace(/returning\s+[\w\*,\s]+/i, '')`: the first RETURNING clause is cut out. */
  function StripReturning(s: string): (r: string)
    ensures FirstClause(s, 0).None? ==> r == s
    ensures FirstClause(s, 0).Some? ==>
      var i := FirstClause(s, 0).value;
      var n := 9 + ColumnListRun(s[i + 9..]);
      && 11 <= n && i + n <= |s|
      && r == s[..i] + s[i + n..]
      && (i + n == |s| || !InColumnList(s[i + n]))
  {
    match FirstClause(s, 0)
    case None => s
    case Some(i) => s[..i] + s[i + 9 + ColumnListRun(s[i + 9..])..]
  }

  /**
    The cut is made exactly when the RETURNING pattern matches somewhere, and it never joins a
    `$` to a digit: the character after the cut is outside the column-list class.
  */
  lemma StripReturningShortensIff(s: string)
    ensures |StripReturning(s)| < |s| <==> exists i :: ClauseAt(s, i)
  {
    if i :| ClauseAt(s, i) {
      assert FirstClause(s, 0).Some?;
    }
  }

  lemma StripReturningKeepsNoPlaceholder(s: string)
    requires Placeholders.NoPlaceholder(s)
    ensures Placeholders.NoPlaceholder(StripReturning(s))
  {
    var r := StripReturning(s);
    if FirstClause(s, 0).Some? {
      var i := FirstClause(s, 0).value;
      var n := 9 + ColumnListRun(s[i + 9..]);
      forall k | 0 <= k < |r| - 1
        ensures !(r[k] == '$' && IsDigit(r[k + 1]))
      {
        if k + 1 < i {
          assert r[k] == s[k] && r[k + 1] == s[k + 1];
        } else if k >= i {
          assert r[k] == s[k + n] && r[k + 1] == s[k + 1 + n];
        } else {
          assert r[k + 1] == s[i + n] && !InColumnList(s[i + n]);
        }
      }
    }
  }

  /**
    The text the SQLite adapter hands to the engine for `sql`: no `$n` parameter is left in it,
    and only an insert loses anything besides the parameters' digits.
  */
  function Prepared(sql: string): (r: string)
    ensures Placeholders.NoPlaceholder(r)
    ensures |r| <= |sql|
    ensures !Classify(sql).Insert? ==> r == Placeholders.ToSqlite(sql)
  {
    var s := Placeholders.ToSqlite(sql);
    if Classify(sql).Insert? then StripReturningKeepsNoPlaceholder(s); StripReturning(s) else s
  }

  /**
    The result `query` resolves to. SQLite: a select yields only `rows`; an insert with a
    RETURNING clause yields one row holding only the new row id; every other statement yields
    only `rowCount`. PostgreSQL: `rows` and `rowCount` for every statement.
  */
  function Shape(b: Backend, k: Kind, a: EngineAnswer): (q: QueryResult)
    ensures q.rows.Some? || q.rowCount.Some?
    ensures b == Postgres ==> q.rows == Some(a.rows) && q.rowCount == Some(a.count)
    ensures b == Sqlite ==> (q.rows.Some? <==> k.Select? || k == Insert(true))
    ensures b == Sqlite ==> (q.rowCount.Some? <==> !q.rows.Some?)
    ensures b == Sqlite && k.Select? ==> q.rows == Some(a.rows)
    ensures b == Sqlite && q.rowCount.Some? ==> q.rowCount == Some(a.count)
    ensures b == Sqlite && k == Insert(true) ==>
      && q.rows.Some? && |q.rows.value| == 1
      && q.rows.value[0].Keys == {"id"} && q.rows.value[0]["id"] == Int(a.lastInsertRowid)
  {
    match b
    case Postgres => QueryResult(Some(a.rows), Some(a.count))
    case Sqlite =>
      match k
      case Select => QueryResult(Some(a.rows), None)
      case Insert(true) => QueryResult(Some([map["id" := Int(a.lastInsertRowid)]]), None)
      case _ => QueryResult(None, Some(a.count))
  }

  /** The result of running `sql` on backend `b`, given the engine's answer. */
  function Query(b: Backend, sql: string, a: EngineAnswer): QueryResult {
    Shape(b, Classify(sql), a)
  }

  /**
    Under SQLite a select never reports how many rows it found, so `result.rowCount === 0`
    is false even for an empty result.
  */
  lemma SqliteSelectHasNoRowCount(sql: string, a: EngineAnswer)
    requires Classify(sql) == Select
    ensures Query(Sqlite, sql, a) == QueryResult(Some(a.rows), None)
    ensures Query(Sqlite, sql, a).rowCount != Some(0)
  {
  }

  /**
    Under SQLite an insert with RETURNING loses every returned column except the row id: a
    column the statement asked for reads as `undefined`.
  */
  lemma SqliteReturningKeepsOnlyId(sql: string, a: EngineAnswer, column: string)
    requires Classify(sql) == Insert(true)
    requires column != "id"
    ensures Query(Sqlite, sql, a).rows.Some?
    ensures Field(Query(Sqlite, sql, a).rows.value[0], column) == Undefined
    ensures Field(Query(Sqlite, sql, a).rows.value[0], "id") == Int(a.lastInsertRowid)
  {
  }

  /** Leading and trailing white space in `s + post` and `pre + s` is what trimming removes. */
  lemma {:induction false} TrimStartPadded(pre: string, s: string)
    requires forall i :: 0 <= i < |pre| ==> IsSpace(pre[i])
    ensures TrimStart(pre + s) == TrimStart(s)
    decreases |pre|
  {
    if |pre| > 0 {
      assert (pre + s)[1..] == pre[1..] + s;
      TrimStartPadded(pre[1..], s);
    } else {
      assert pre + s == s;
    }
  }

  lemma {:induction false} TrimEndPadded(s: string, post: string)
    requires forall i :: 0 <= i < |post| ==> IsSpace(post[i])
    ensures TrimEnd(s + post) == TrimEnd(s)
    decreases |post|
  {
    if |post| > 0 {
      assert (s + post)[..|s + post| - 1] == s + post[..|post| - 1];
      TrimEndPadded(s, post[..|post| - 1]);
    } else {
      assert s + post == s;
    }
  }

  lemma {:induction false} TrimStartThenPad(s: string, post: string)
    requires forall i :: 0 <= i < |post| ==> IsSpace(post[i])
    ensures TrimEnd(TrimStart(s + post)) == TrimEnd(TrimStart(s))
    decreases |s|
  {
    if |s| == 0 {
      assert s + post == post;
      TrimStartPadded(post, "");
      assert post + "" == post;
    } else if IsSpace(s[0]) {
      assert (s + post)[1..] == s[1..] + post;
      TrimStartThenPad(s[1..], post);
    } else {
      assert TrimStart(s + post) == s + post;
      TrimEndPadded(s, post);
    }
  }

  /** White space around a statement does not change how the adapter treats it. */
  lemma ClassifyIgnoresPadding(pre: string, sql: string, post: string)
    requires forall i :: 0 <= i < |pre| ==> IsSpace(pre[i])
    requires forall i :: 0 <= i < |post| ==> IsSpace(post[i])
    ensures Classify(pre + sql + post) == Classify(sql)
  {
    TrimPadded(pre, sql, post);
  }

  /** Trimming removes exactly the padding around a statement. */
  lemma TrimPadded(pre: string, sql: string, post: string)
    requires forall i :: 0 <= i < |pre| ==> IsSpace(pre[i])
    requires forall i :: 0 <= i < |post| ==> IsSpace(post[i])
    ensures Trim(pre + sql + post) == Trim(sql)
  {
    assert pre + sql + post == pre + (sql + post);
    TrimStartPadded(pre, sql + post);
    TrimStartThenPad(sql, post);
  }

  /** A statement whose first and last characters are not white space is its own trim. */
  lemma TrimOfUnpadded(s: string)
    requires |s| > 0 && !IsSpace(s[0]) && !IsSpace(s[|s| - 1])
    ensures Trim(s) == s
  {
  }

  /**
    A statement that does not start with white space loses only trailing white space to trimming,
    so its trim is a prefix of it.
  */
  lemma TrimOfUnpaddedStart(sql: string)
    requires |sql| > 0 ==> !IsSpace(sql[0])
    ensures Trim(sql) == TrimEnd(sql)
  {
    TrimStartUnpadded(sql);
  }

  lemma TrimStartUnpadded(sql: string)
    requires |sql| > 0 ==> !IsSpace(sql[0])
    ensures TrimStart(sql) == sql
  {
  }

  /**
    The first six characters of a statement decide whether it is a select, in any case, whatever
    follows them.
  */
  lemma ClassifySelect(sql: string)
    requires |sql| >= 6 && !IsSpace(sql[0])
    requires Lower(sql[..6]) == "select"
    ensures Classify(sql) == Select
  {
    TrimOfUnpaddedStart(sql);
    var t := Trim(sql);
    assert Lower(sql[..6])[5] == 't';
    assert !IsSpace(sql[5]);
    assert t[..6] == sql[..6];
    LowerSlice(t, 0, 6);
  }

  /** An insert whose text has `returning` and a space at index `i` is a RETURNING insert. */
  lemma ClassifyInsertReturning(sql: string, i: nat)
    requires |sql| >= 6 && !IsSpace(sql[0]) && !IsSpace(sql[|sql| - 1])
    requires Lower(sql[..6]) == "insert"
    requires i + 10 <= |sql| && Lower(sql[i..i + 9]) == "returning" && IsSpace(sql[i + 9])
    ensures Classify(sql) == Insert(true)
  {
    TrimOfUnpadded(sql);
    var lower := Lower(sql);
    LowerSlice(sql, 0, 6);
    LowerSlice(sql, i, i + 9);
    LowerIdempotent(sql[i..i + 9]);
    assert KeywordAt(lower, i) && IsSpace(lower[i + 9]);
  }

  /**
    An insert with no surrounding white space in which `returning`, in any case, is nowhere
    followed by a white-space character is a plain insert, run for its row count.
  */
  lemma ClassifyInsertPlain(sql: string)
    requires |sql| >= 6 && !IsSpace(sql[0]) && !IsSpace(sql[|sql| - 1])
    requires Lower(sql[..6]) == "insert"
    requires forall i :: KeywordAt(sql, i) && i + 10 <= |sql| ==> !IsSpace(sql[i + 9])
    ensures Classify(sql) == Insert(false)
  {
    TrimOfUnpadded(sql);
    var lower := Lower(sql);
    LowerSlice(sql, 0, 6);
    forall i | 0 <= i && i + 10 <= |lower| ensures !(KeywordAt(lower, i) && IsSpace(lower[i + 9])) {
      LowerSlice(sql, i, i + 9);
      LowerIdempotent(sql[i..i + 9]);
      assert KeywordAt(lower, i) ==> KeywordAt(sql, i);
    }
  }

  /**
    A statement starting with neither keyword, in any case, is run for its row count; so is any
    statement shorter than six characters.
  */
  lemma ClassifyOther(sql: string)
    requires |sql| > 0 ==> !IsSpace(sql[0])
    requires |sql| < 6 || (Lower(sql[..6]) != "select" && Lower(sql[..6]) != "insert")
    ensures Classify(sql) == Other
  {
    TrimOfUnpaddedStart(sql);
    var t := Trim(sql);
    if |t| >= 6 {
      assert t[..6] == sql[..6];
      LowerSlice(t, 0, 6);
    }
  }
}

/** `execute_query` of `app.py`: the query text is rewritten for PostgreSQL
    when that backend is in use, and the rewritten text decides whether rows
    are fetched or a row count is returned. The database engine is a
    parameter. */
module SqlCompat {
  import opened Wrappers
  import Text

  /** `DATABASE_URL and POSTGRES_AVAILABLE` picks PostgreSQL; otherwise SQLite. */
  datatype Backend = Sqlite | Postgres

  /** The three replacements, in the order `execute_query` makes them. */
  function RewriteForPostgres(q: string): string {
    var q1 := Text.ReplaceAll(q, "?", "%s");
    var q2 := Text.ReplaceAll(q1, "INSERT OR REPLACE", "INSERT");
    Text.ReplaceAll(q2, "BLOB", "BYTEA")
  }

  /** `query.strip().upper().startswith('SELECT')`. */
  predicate IsSelect(q: string) {
    Text.StartsWith(Text.Upper(Text.Strip(q)), "SELECT")
  }

  /** What the engine answers to a statement: the rows `fetchall` would give
      and the `rowcount` it would report. */
  datatype EngineAnswer<Row> = EngineAnswer(rows: seq<Row>, rowCount: int)

  datatype QueryResult<Row> = Rows(rows: seq<Row>) | RowCount(count: int)

  /** `execute_query`: sends the query, rewritten on PostgreSQL, and returns
      the fetched rows exactly when the sent text is a SELECT, the row count
      otherwise. An engine error propagates. */
  method ExecuteQuery<Row>(query: string, backend: Backend, engine: string -> Outcome<EngineAnswer<Row>>)
    returns (sent: string, result: Outcome<QueryResult<Row>>)
    ensures backend == Sqlite ==> sent == query
    ensures backend == Postgres ==> sent == RewriteForPostgres(query) && '?' !in sent
    ensures engine(sent).Raised? ==> result == Raised(engine(sent).exception)
    ensures engine(sent).Returned? ==> result.Returned? && (result.value.Rows? <==> IsSelect(query))
    ensures engine(sent).Returned? && IsSelect(query) ==> result.value == Rows(engine(sent).value.rows)
    ensures engine(sent).Returned? && !IsSelect(query) ==> result.value == RowCount(engine(sent).value.rowCount)
  {
    sent := query;
    if backend == Postgres {
      sent := Text.ReplaceAll(sent, "?", "%s");
      sent := Text.ReplaceAll(sent, "INSERT OR REPLACE", "INSERT");
      sent := Text.ReplaceAll(sent, "BLOB", "BYTEA");
      RewriteLeavesNoPlaceholder(query);
      RewriteKeepsSelect(query);
    }
    var answer := engine(sent);
    if answer.Raised? {
      return sent, Raised(answer.exception);
    }
    if IsSelect(sent) {
      result := Returned(Rows(answer.value.rows));
    } else {
      result := Returned(RowCount(answer.value.rowCount));
    }
  }

  /** On PostgreSQL no `?` placeholder survives the rewrite. */
  lemma RewriteLeavesNoPlaceholder(q: string)
    ensures '?' !in RewriteForPostgres(q)
  {
    var q1 := Text.ReplaceAll(q, "?", "%s");
    Text.ReplaceCharRemovesIt(q, '?', "%s");
    var q2 := Text.ReplaceAll(q1, "INSERT OR REPLACE", "INSERT");
    Text.ReplaceKeepsCharOut(q1, "INSERT OR REPLACE", "INSERT", '?');
    Text.ReplaceKeepsCharOut(q2, "BLOB", "BYTEA", '?');
  }

  /** A query with none of the three patterns is sent unchanged. */
  lemma RewriteIdentity(q: string)
    requires '?' !in q && !Text.Contains(q, "INSERT OR REPLACE") && !Text.Contains(q, "BLOB")
    ensures RewriteForPostgres(q) == q
  {
    Text.ReplaceCharAbsent(q, '?', "%s");
    Text.ReplaceAbsent(q, "INSERT OR REPLACE", "INSERT");
    Text.ReplaceAbsent(q, "BLOB", "BYTEA");
  }

  /** The first `|w|` characters of `s` upper-case to `w`. */
  predicate UpperPrefix(s: string, w: string) {
    |w| <= |s| && forall j :: 0 <= j < |w| ==> Text.UpperChar(s[j]) == w[j]
  }

  /** A replacement is harmless for a keyword test when neither the pattern
      nor its replacement starts with whitespace or with a letter of the
      keyword. */
  predicate Harmless(p: string, t: string, w: string) {
    |p| > 0 && |t| > 0
    && !Text.IsSpace(p[0]) && !Text.IsSpace(t[0])
    && Text.UpperChar(p[0]) !in w && Text.UpperChar(t[0]) !in w
  }

  lemma {:induction false} ReplaceKeepsUpperPrefix(s: string, p: string, t: string, w: string)
    requires Harmless(p, t, w)
    ensures UpperPrefix(Text.ReplaceAll(s, p, t), w) == UpperPrefix(s, w)
    decreases |s|
  {
    var r := Text.ReplaceAll(s, p, t);
    if |w| == 0 {
    } else if Text.StartsWith(s, p) {
      assert r[0] == t[0];
      assert s[0] == p[0];
    } else if |s| > 0 {
      assert Harmless(p, t, w[1..]) by {
        assert forall c :: c in w[1..] ==> c in w;
      }
      ReplaceKeepsUpperPrefix(s[1..], p, t, w[1..]);
      var tail := Text.ReplaceAll(s[1..], p, t);
      assert r == [s[0]] + tail;
      assert UpperPrefix(r, w) <==> Text.UpperChar(s[0]) == w[0] && UpperPrefix(tail, w[1..]) by {
        if UpperPrefix(r, w) {
          forall j | 0 <= j < |w| - 1 ensures Text.UpperChar(tail[j]) == w[1..][j] {
            assert tail[j] == r[j + 1];
          }
        }
        if Text.UpperChar(s[0]) == w[0] && UpperPrefix(tail, w[1..]) {
          forall j | 0 <= j < |w| ensures Text.UpperChar(r[j]) == w[j] {
            if j > 0 { assert r[j] == tail[j - 1]; }
          }
        }
      }
      assert UpperPrefix(s, w) <==> Text.UpperChar(s[0]) == w[0] && UpperPrefix(s[1..], w[1..]) by {
        if Text.UpperChar(s[0]) == w[0] && UpperPrefix(s[1..], w[1..]) {
          forall j | 0 <= j < |w| ensures Text.UpperChar(s[j]) == w[j] {
            if j > 0 { assert s[j] == s[1..][j - 1]; }
          }
        }
      }
    }
  }

  /** A replacement whose pattern and text start with non-whitespace keeps the
      leading whitespace where it was. */
  lemma {:induction false} ReplaceCommutesWithLStrip(s: string, p: string, t: string)
    requires |p| > 0 && |t| > 0 && !Text.IsSpace(p[0]) && !Text.IsSpace(t[0])
    ensures Text.LStrip(Text.ReplaceAll(s, p, t)) == Text.ReplaceAll(Text.LStrip(s), p, t)
    decreases |s|
  {
    var r := Text.ReplaceAll(s, p, t);
    if |s| > 0 && Text.IsSpace(s[0]) {
      assert !Text.StartsWith(s, p);
      ReplaceCommutesWithLStrip(s[1..], p, t);
      assert r == [s[0]] + Text.ReplaceAll(s[1..], p, t);
      assert r[1..] == Text.ReplaceAll(s[1..], p, t);
    } else if |s| > 0 {
      assert Text.StartsWith(s, p) ==> r[0] == t[0];
      assert !Text.StartsWith(s, p) ==> r[0] == s[0];
    }
  }

  /** Right-stripping keeps a keyword prefix, and cannot create one. */
  lemma UpperPrefixRStrip(l: string, w: string)
    requires forall c :: c in w ==> !Text.IsSpace(c)
    ensures UpperPrefix(Text.RStrip(l), w) <==> UpperPrefix(l, w)
  {
    var s := Text.RStrip(l);
    if UpperPrefix(l, w) && |w| > 0 {
      var c := l[|w| - 1];
      assert Text.UpperChar(c) == w[|w| - 1];
      assert w[|w| - 1] in w;
      assert !Text.IsSpace(c);
      assert |w| <= |s|;
      forall j | 0 <= j < |w| ensures Text.UpperChar(s[j]) == w[j] {
        assert s[j] == l[j];
      }
    }
    if UpperPrefix(s, w) {
      forall j | 0 <= j < |w| ensures Text.UpperChar(l[j]) == w[j] {
        assert s[j] == l[j];
      }
    }
  }

  lemma StartsWithUpper(s: string, w: string)
    ensures Text.StartsWith(Text.Upper(s), w) <==> UpperPrefix(s, w)
  {
    var u := Text.Upper(s);
    if UpperPrefix(s, w) {
      assert u[..|w|] == w;
    }
    if Text.StartsWith(u, w) {
      forall j | 0 <= j < |w| ensures Text.UpperChar(s[j]) == w[j] {
        assert u[..|w|][j] == u[j];
      }
    }
  }

  /** The SELECT test, read on the left-stripped text. */
  lemma IsSelectOnLStrip(q: string)
    ensures IsSelect(q) <==> UpperPrefix(Text.LStrip(q), "SELECT")
  {
    var w := "SELECT";
    assert forall c :: c in w ==> !Text.IsSpace(c);
    assert Text.Strip(q) == Text.RStrip(Text.LStrip(q));
    StartsWithUpper(Text.Strip(q), w);
    UpperPrefixRStrip(Text.LStrip(q), w);
  }

  /** Each replacement of the rewrite keeps the SELECT test's verdict. */
  lemma ReplaceKeepsSelect(q: string, p: string, t: string)
    requires Harmless(p, t, "SELECT")
    ensures IsSelect(Text.ReplaceAll(q, p, t)) == IsSelect(q)
  {
    IsSelectOnLStrip(q);
    IsSelectOnLStrip(Text.ReplaceAll(q, p, t));
    ReplaceCommutesWithLStrip(q, p, t);
    ReplaceKeepsUpperPrefix(Text.LStrip(q), p, t, "SELECT");
  }

  lemma RewriteStepsHarmless()
    ensures Harmless("?", "%s", "SELECT")
    ensures Harmless("INSERT OR REPLACE", "INSERT", "SELECT")
    ensures Harmless("BLOB", "BYTEA", "SELECT")
  {
    assert "INSERT OR REPLACE"[0] == 'I' && "INSERT"[0] == 'I';
    assert "BLOB"[0] == 'B' && "BYTEA"[0] == 'B';
  }

  /** The PostgreSQL rewrite never changes whether a query counts as a SELECT,
      so both backends fetch rows for the same queries. */
  lemma RewriteKeepsSelect(q: string)
    ensures IsSelect(RewriteForPostgres(q)) == IsSelect(q)
  {
    var q1 := Text.ReplaceAll(q, "?", "%s");
    var q2 := Text.ReplaceAll(q1, "INSERT OR REPLACE", "INSERT");
    RewriteStepsHarmless();
    ReplaceKeepsSelect(q, "?", "%s");
    ReplaceKeepsSelect(q1, "INSERT OR REPLACE", "INSERT");
    ReplaceKeepsSelect(q2, "BLOB", "BYTEA");
  }
}

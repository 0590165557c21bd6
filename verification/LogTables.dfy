/** What the upserts of a session log leave in the tables. */
module LogTables {
  import opened Outcomes
  import opened LogSync

  function LastRow<K(==), V>(rows: seq<(K, V)>, k: K): Option<V> {
    if rows == [] then None
    else if rows[|rows| - 1].0 == k then Some(rows[|rows| - 1].1)
    else LastRow(rows[..|rows| - 1], k)
  }

  function Lookup<K, V>(m: map<K, V>, k: K): Option<V> { if k in m then Some(m[k]) else None }

  lemma PutSnoc<K, V>(m: map<K, V>, rows: seq<(K, V)>)
    requires rows != []
    ensures PutAll(m, rows) == PutAll(m, rows[..|rows| - 1])[rows[|rows| - 1].0 := rows[|rows| - 1].1]
  {
    var init, last := rows[..|rows| - 1], rows[|rows| - 1];
    assert rows == init + [last] && [last][1..] == [];
    PutConcat(m, init, [last]);
  }

  /** INSERT OR REPLACE leaves the last row of each key, and keeps keys it was not given. */
  lemma {:induction false} LastRowWins<K, V>(m: map<K, V>, rows: seq<(K, V)>, k: K)
    ensures Lookup(PutAll(m, rows), k) == Coalesce(LastRow(rows, k), Lookup(m, k))
  {
    if rows != [] {
      PutSnoc(m, rows);
      LastRowWins(m, rows[..|rows| - 1], k);
    }
  }

  function LastStub(stubs: seq<Stub>, k: string): Option<Stub> {
    if stubs == [] then None
    else if stubs[|stubs| - 1].callId == k then Some(stubs[|stubs| - 1])
    else LastStub(stubs[..|stubs| - 1], k)
  }

  function LastVerdict(verdicts: seq<Verdict>, k: string): Option<Verdict> {
    if verdicts == [] then None
    else if verdicts[|verdicts| - 1].callId == k then Some(verdicts[|verdicts| - 1])
    else LastVerdict(verdicts[..|verdicts| - 1], k)
  }

  /** The row that the last call and the last result of an id make together. */
  function Paired(stub: Option<Stub>, verdict: Option<Verdict>): Option<EditRow> {
    match (stub, verdict)
    case (None, None) => None
    case (Some(s), None) => Some(EditRow(s.line, s.ts, s.rawLength, None, [], EDIT_PARSER_VERSION))
    case (None, Some(v)) => Some(EditRow(0, 0, 0, Some(v.success), v.warnings, EDIT_PARSER_VERSION))
    case (Some(s), Some(v)) => Some(EditRow(s.line, s.ts, s.rawLength, Some(v.success), v.warnings, EDIT_PARSER_VERSION))
  }

  lemma {:induction false} StubsLookup(stubs: seq<Stub>, k: string)
    ensures Lookup(PutStubs(map[], stubs), k) == Paired(LastStub(stubs, k), None)
  {
    if stubs != [] {
      var init, last := stubs[..|stubs| - 1], stubs[|stubs| - 1];
      assert stubs == init + [last] && [last][1..] == [];
      StubsConcat(map[], init, [last]);
      StubsLookup(init, k);
    }
  }

  lemma {:induction false} VerdictsLookup(stubs: seq<Stub>, verdicts: seq<Verdict>, k: string)
    ensures Lookup(PutVerdicts(PutStubs(map[], stubs), verdicts), k) == Paired(LastStub(stubs, k), LastVerdict(verdicts, k))
    decreases |verdicts|
  {
    if verdicts == [] {
      StubsLookup(stubs, k);
    } else {
      var init, last := verdicts[..|verdicts| - 1], verdicts[|verdicts| - 1];
      assert verdicts == init + [last] && [last][1..] == [];
      VerdictsConcat(PutStubs(map[], stubs), init, [last]);
      VerdictsLookup(stubs, init, k);
    }
  }

  /**
   Call/result pairing. In a rebuilt `ss_edit_calls` table the row of an id is exactly what its last
   call and its last result say, in whichever order the log holds them, and there is no other row.
   */
  lemma EditRowIsPaired(b: Batch, k: string)
    ensures Lookup(Write(NO_TABLES, b).edits, k) == Paired(LastStub(b.stubs, k), LastVerdict(b.verdicts, k))
  {
    VerdictsLookup(b.stubs, b.verdicts, k);
  }
}

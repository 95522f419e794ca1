/**
 * prewalkSnomedGraph (importer/snomed.go): for every concept of the is-a
 * graph, query its ancestors and descendants with the two recursive
 * expressions, encode both lists as blobs and insert one row, committing a
 * transaction every 20000 concepts.
 *
 * The database is the part this code talks to but does not contain. It is a
 * class whose state is what the loop can change (the batches committed so far,
 * whether a transaction is open and the rows it holds) and whose methods
 * promise what SQLite promises and no more: every call may fail, and result
 * sets may be cut short by a scan or iteration error. Each call also appends
 * to a ghost trace what it was asked and what it answered, so the walk's
 * contracts can say how its outcome and the stored rows follow from the
 * database's answers.
 */
module Prewalk {
  import opened Wrappers
  import opened Words
  import opened Closure
  import opened Blob
  import opened Batching

  /** One value of a one-column result row, as Scan sees it. */
  datatype Cell = Value(v: int64) | Unscannable

  /** A result set: its rows in delivery order, and whether Err reports a failure afterwards. */
  datatype Rows = Rows(cells: seq<Cell>, failed: bool)

  datatype QueryResult = QueryFailed | Answer(rows: Rows)

  /** A row of snomed_ancestors_descendants. */
  datatype Record = Record(conceptId: int64, ancestors: seq<uint8>, descendants: seq<uint8>)

  /** Returned nil, returned an error, or panicked on a nil transaction or statement. */
  datatype Outcome = Done | Failed | Crashed

  /**
   * Whether the rows of the two closure queries for one concept all scanned.
   * rowsToIntSlice's error is discarded, so a failed scan still leaves a row
   * behind, with an empty blob.
   */
  datatype Scan = Scan(ancestorsIntact: bool, descendantsIntact: bool)

  /** Every row scans and iteration ends without error. */
  predicate Intact(rows: Rows) {
    !rows.failed && forall k :: 0 <= k < |rows.cells| ==> rows.cells[k].Value?
  }

  function Values(cells: seq<Cell>): (r: seq<int64>)
    requires forall k :: 0 <= k < |cells| ==> cells[k].Value?
    ensures |r| == |cells|
    ensures forall k :: 0 <= k < |cells| ==> r[k] == cells[k].v
    decreases |cells|
  {
    if cells == [] then [] else Values(cells[..|cells| - 1]) + [cells[|cells| - 1].v]
  }

  /** What rowsToIntSlice leaves in an emptied slice: the scanned values, or nil on any error. */
  function Collected(rows: Rows): seq<int64> {
    if Intact(rows) then Values(rows.cells) else []
  }

  /** The rows that list the members of s, once each. */
  function Listing(xs: seq<int64>): (cells: seq<Cell>)
    ensures |cells| == |xs|
    ensures forall k :: 0 <= k < |xs| ==> cells[k] == Value(xs[k])
  {
    seq(|xs|, k requires 0 <= k < |xs| => Value(xs[k]))
  }

  /**
   * rowsToIntSlice: appends every scanned value to slice. Any scan error, or an
   * error reported once the rows run out, discards the lot and gives nil.
   */
  method RowsToIntSlice(rows: Rows, slice: seq<int64>) returns (r: seq<int64>, err: bool)
    ensures err <==> !Intact(rows)
    ensures !err ==> r == slice + Values(rows.cells)
    ensures err ==> r == []
  {
    r := slice;
    var k := 0;
    while k < |rows.cells|
      invariant 0 <= k <= |rows.cells|
      invariant forall j :: 0 <= j < k ==> rows.cells[j].Value?
      invariant r == slice + Values(rows.cells[..k])
    {
      match rows.cells[k]
      case Unscannable =>
        return [], true;
      case Value(i) =>
        assert rows.cells[..k + 1][..k] == rows.cells[..k];
        r := r + [i];
        k := k + 1;
    }
    assert rows.cells[..k] == rows.cells;
    if rows.failed {
      return [], true;
    }
    err := false;
  }

  /** The members of a finite set in some order, each once: the order of a result set is unspecified. */
  method Enumerate(s: set<int64>) returns (xs: seq<int64>)
    ensures Distinct(xs)
    ensures Elements(xs) == s
  {
    xs := [];
    var rest := s;
    while rest != {}
      invariant rest <= s
      invariant Distinct(xs)
      invariant Elements(xs) == s - rest
      decreases rest
    {
      var x :| x in rest;
      assert Elements(xs + [x]) == Elements(xs) + {x};
      xs := xs + [x];
      rest := rest - {x};
    }
  }

  /**
   * What a blob column holds: when the query's rows all scanned, it decodes,
   * without repeats, to exactly the expected set; otherwise rowsToIntSlice gave
   * a nil list, which encodes to the empty blob.
   */
  predicate BlobOf(blob: seq<uint8>, expected: set<int64>, intact: bool) {
    if intact then
      var d := Decode(blob);
      d.Some? && Distinct(d.value) && Elements(d.value) == expected
    else
      blob == []
  }

  /** A row holds its own concept's ancestors and descendants, each unless its scan failed. */
  predicate RecordOf(isA: set<IsA>, rec: Record, scan: Scan) {
    BlobOf(rec.ancestors, Ancestors(isA, rec.conceptId), scan.ancestorsIntact)
    && BlobOf(rec.descendants, Descendants(isA, rec.conceptId), scan.descendantsIntact)
  }

  /** A stored ancestors blob whose rows scanned lists exactly the concepts reachable along is-a edges. */
  lemma StoredAncestorsReach(isA: set<IsA>, rec: Record, scan: Scan, x: int64)
    requires RecordOf(isA, rec, scan) && scan.ancestorsIntact
    ensures Decode(rec.ancestors).Some?
    ensures x in Decode(rec.ancestors).value <==> Reaches(isA, rec.conceptId, x)
  {
    AncestorsAreReachable(isA, rec.conceptId, x);
    assert x in Decode(rec.ancestors).value <==> x in Elements(Decode(rec.ancestors).value);
  }

  /** A stored descendants blob whose rows scanned lists exactly the concepts that reach the row's concept. */
  lemma StoredDescendantsReach(isA: set<IsA>, rec: Record, scan: Scan, x: int64)
    requires RecordOf(isA, rec, scan) && scan.descendantsIntact
    ensures Decode(rec.descendants).Some?
    ensures x in Decode(rec.descendants).value <==> Reaches(isA, x, rec.conceptId)
  {
    DescendantsReachThere(isA, rec.conceptId, x);
    assert x in Decode(rec.descendants).value <==> x in Elements(Decode(rec.descendants).value);
  }


  /** The three statements prepared in every transaction. */
  datatype Statement = InsertStmt | AncestorsStmt | DescendantsStmt

  /** One call into the database and what it answered. */
  datatype Event =
    | ConceptsQueried(res: QueryResult)
    | AncestorsQueried(concept: int64, res: QueryResult)
    | DescendantsQueried(concept: int64, res: QueryResult)
    | Began(ok: bool)
    | Prepared(stmt: Statement, ok: bool)
    | Inserted(rec: Record, ok: bool)
    | Committed(ok: bool)

  class Database {
    /** The rows of snomed_is_a_relationships; nothing here writes to that table. */
    const isA: set<IsA>
    /** The transactions committed into snomed_ancestors_descendants, oldest first. */
    var committed: seq<seq<Record>>
    /** Whether a transaction is open: begun, and neither committed nor abandoned since. */
    var open: bool
    /** The rows inserted by the open transaction. */
    var pending: seq<Record>
    /** Every call made so far, oldest first, with its answer. */
    ghost var trace: seq<Event>

    constructor (edges: set<IsA>)
      ensures isA == edges && committed == [] && !open && pending == [] && trace == []
    {
      isA := edges;
      committed := [];
      open := false;
      pending := [];
      trace := [];
    }

    /** SELECT source_id ... UNION SELECT destination_id: every concept once. */
    method QueryConcepts() returns (res: QueryResult)
      modifies this
      ensures trace == old(trace) + [ConceptsQueried(res)]
      ensures committed == old(committed) && open == old(open) && pending == old(pending)
      ensures res.Answer? && Intact(res.rows) ==>
        Distinct(Values(res.rows.cells)) && Elements(Values(res.rows.cells)) == Concepts(isA)
    {
      var fails: bool :| true;
      if fails {
        res := QueryFailed;
      } else {
        var xs := Enumerate(Concepts(isA));
        res := Answer(Rows(Listing(xs), false));
        assert Values(res.rows.cells) == xs;
      }
      trace := trace + [ConceptsQueried(res)];
    }

    /** The ancestor expression run for one concept. */
    method QueryAncestors(concept: int64) returns (res: QueryResult)
      modifies this
      ensures trace == old(trace) + [AncestorsQueried(concept, res)]
      ensures committed == old(committed) && open == old(open) && pending == old(pending)
      ensures res.Answer? && Intact(res.rows) ==>
        Distinct(Values(res.rows.cells)) && Elements(Values(res.rows.cells)) == Ancestors(isA, concept)
    {
      var fails: bool :| true;
      if fails {
        res := QueryFailed;
      } else {
        var xs := Enumerate(Ancestors(isA, concept));
        res := Answer(Rows(Listing(xs), false));
        assert Values(res.rows.cells) == xs;
      }
      trace := trace + [AncestorsQueried(concept, res)];
    }

    /** The descendant expression run for one concept. */
    method QueryDescendants(concept: int64) returns (res: QueryResult)
      modifies this
      ensures trace == old(trace) + [DescendantsQueried(concept, res)]
      ensures committed == old(committed) && open == old(open) && pending == old(pending)
      ensures res.Answer? && Intact(res.rows) ==>
        Distinct(Values(res.rows.cells)) && Elements(Values(res.rows.cells)) == Descendants(isA, concept)
    {
      var fails: bool :| true;
      if fails {
        res := QueryFailed;
      } else {
        var xs := Enumerate(Descendants(isA, concept));
        res := Answer(Rows(Listing(xs), false));
        assert Values(res.rows.cells) == xs;
      }
      trace := trace + [DescendantsQueried(concept, res)];
    }

    /** Begin: on success a new transaction with no rows is open; a failure changes nothing. */
    method Begin() returns (ok: bool)
      modifies this
      ensures trace == old(trace) + [Began(ok)]
      ensures committed == old(committed)
      ensures ok ==> open && pending == []
      ensures !ok ==> open == old(open) && pending == old(pending)
    {
      ok :| true;
      if ok {
        open := true;
        pending := [];
      }
      trace := trace + [Began(ok)];
    }

    /** Prepare a statement in the transaction; it may fail, and it does when no transaction is open. */
    method Prepare(stmt: Statement) returns (ok: bool)
      modifies this
      ensures trace == old(trace) + [Prepared(stmt, ok)]
      ensures committed == old(committed) && open == old(open) && pending == old(pending)
      ensures ok ==> open
    {
      ok :| true;
      ok := ok && open;
      trace := trace + [Prepared(stmt, ok)];
    }

    /** Exec of the insert statement: on success the row joins the open transaction. */
    method Insert(rec: Record) returns (ok: bool)
      modifies this
      ensures trace == old(trace) + [Inserted(rec, ok)]
      ensures committed == old(committed) && open == old(open)
      ensures ok ==> open
      ensures pending == old(pending) + (if ok then [rec] else [])
    {
      ok :| true;
      ok := ok && open;
      if ok {
        pending := pending + [rec];
      }
      trace := trace + [Inserted(rec, ok)];
    }

    /**
     * Commit: the open transaction's rows become a committed batch if it
     * succeeds, and are lost otherwise; either way the transaction is over.
     */
    method Commit() returns (ok: bool)
      modifies this
      ensures trace == old(trace) + [Committed(ok)]
      ensures ok ==> old(open)
      ensures committed == old(committed) + (if ok then [old(pending)] else [])
      ensures !open && pending == []
    {
      ok :| true;
      ok := ok && open;
      if ok {
        committed := committed + [pending];
      }
      open := false;
      pending := [];
      trace := trace + [Committed(ok)];
    }
  }

  /**
   * A failed call whose error prewalkSnomedGraph returns. The errors of Begin,
   * Commit and the two closure Prepares are discarded.
   */
  predicate Fatal(e: Event) {
    match e
    case ConceptsQueried(res) => res.QueryFailed?
    case AncestorsQueried(_, res) => res.QueryFailed?
    case DescendantsQueried(_, res) => res.QueryFailed?
    case Prepared(stmt, ok) => stmt == InsertStmt && !ok
    case Inserted(_, ok) => !ok
    case Began(_) => false
    case Committed(_) => false
  }

  function Last(events: seq<Event>): Event
    requires events != []
  {
    events[|events| - 1]
  }

  /** The rows of the successful inserts, in order. */
  function Inserts(events: seq<Event>): seq<Record> {
    if events == [] then []
    else (if events[0].Inserted? && events[0].ok then [events[0].rec] else []) + Inserts(events[1..])
  }

  /** The outcomes of the commits, in order. */
  function Commits(events: seq<Event>): seq<bool> {
    if events == [] then []
    else (if events[0].Committed? then [events[0].ok] else []) + Commits(events[1..])
  }

  /** Whether the last Prepare of stmt succeeded, that is, whether its variable holds a statement rather than nil. */
  function StmtReady(events: seq<Event>, stmt: Statement): bool {
    if events == [] then false
    else if Last(events).Prepared? && Last(events).stmt == stmt then Last(events).ok
    else StmtReady(events[..|events| - 1], stmt)
  }

  lemma AppendAssoc(a: seq<Event>, b: seq<Event>, c: seq<Event>)
    ensures (a + b) + c == a + (b + c)
  {
  }

  lemma {:induction false} InsertsAppend(a: seq<Event>, b: seq<Event>)
    ensures Inserts(a + b) == Inserts(a) + Inserts(b)
    decreases |a|
  {
    if a == [] {
      assert a + b == b;
    } else {
      var head := if a[0].Inserted? && a[0].ok then [a[0].rec] else [];
      assert (a + b)[0] == a[0] && (a + b)[1..] == a[1..] + b;
      assert Inserts(a + b) == head + Inserts(a[1..] + b);
      InsertsAppend(a[1..], b);
      assert head + (Inserts(a[1..]) + Inserts(b)) == (head + Inserts(a[1..])) + Inserts(b);
    }
  }

  lemma {:induction false} CommitsAppend(a: seq<Event>, b: seq<Event>)
    ensures Commits(a + b) == Commits(a) + Commits(b)
    decreases |a|
  {
    if a == [] {
      assert a + b == b;
    } else {
      var head := if a[0].Committed? then [a[0].ok] else [];
      assert (a + b)[0] == a[0] && (a + b)[1..] == a[1..] + b;
      assert Commits(a + b) == head + Commits(a[1..] + b);
      CommitsAppend(a[1..], b);
      assert head + (Commits(a[1..]) + Commits(b)) == (head + Commits(a[1..])) + Commits(b);
    }
  }

  /** Calls none of which inserts or commits contribute no rows and no commit outcomes. */
  lemma {:induction false} NoInsertsNoCommits(events: seq<Event>)
    requires forall k :: 0 <= k < |events| ==> !events[k].Inserted? && !events[k].Committed?
    ensures Inserts(events) == [] && Commits(events) == []
    decreases |events|
  {
    if events != [] {
      NoInsertsNoCommits(events[1..]);
    }
  }

  /** Calls that prepare nothing leave both statement variables as they were. */
  lemma {:induction false} StmtReadyAppend(a: seq<Event>, b: seq<Event>, stmt: Statement)
    requires forall k :: 0 <= k < |b| ==> !b[k].Prepared?
    ensures StmtReady(a + b, stmt) == StmtReady(a, stmt)
    decreases |b|
  {
    if b != [] {
      assert (a + b)[..|a + b| - 1] == a + b[..|b| - 1];
      StmtReadyAppend(a, b[..|b| - 1], stmt);
    } else {
      assert a + b == a;
    }
  }

  /** Calls made before any successful Prepare of stmt do not matter to it. */
  lemma {:induction false} StmtReadyAfter(a: seq<Event>, b: seq<Event>, stmt: Statement)
    requires !StmtReady(a, stmt)
    ensures StmtReady(a + b, stmt) == StmtReady(b, stmt)
    decreases |b|
  {
    if b != [] {
      assert (a + b)[..|a + b| - 1] == a + b[..|b| - 1];
      StmtReadyAfter(a, b[..|b| - 1], stmt);
    } else {
      assert a + b == a;
    }
  }

  /**
   * An insert at position k of the trace stores what the two closure queries
   * just before it answered for its concept: the blobs of the collected lists,
   * which hold the closures as far as the rows scanned.
   */
  ghost predicate BuiltAt(isA: set<IsA>, events: seq<Event>, k: int)
    requires 0 <= k < |events|
  {
    events[k].Inserted? ==>
      && 2 <= k
      && events[k - 2].AncestorsQueried? && events[k - 2].res.Answer?
      && events[k - 1].DescendantsQueried? && events[k - 1].concept == events[k - 2].concept
      && events[k - 1].res.Answer?
      && var ra, rd := events[k - 2].res.rows, events[k - 1].res.rows;
         && events[k].rec == Record(events[k - 2].concept, Encode(Collected(ra)), Encode(Collected(rd)))
         && RecordOf(isA, events[k].rec, Scan(Intact(ra), Intact(rd)))
  }

  ghost predicate Built(isA: set<IsA>, events: seq<Event>) {
    forall k :: 0 <= k < |events| ==> BuiltAt(isA, events, k)
  }

  lemma BuiltAppend(isA: set<IsA>, a: seq<Event>, b: seq<Event>)
    requires Built(isA, a) && Built(isA, b)
    ensures Built(isA, a + b)
  {
    forall k | 0 <= k < |a + b|
      ensures BuiltAt(isA, a + b, k)
    {
      if k < |a| {
        assert BuiltAt(isA, a, k);
      } else {
        assert BuiltAt(isA, b, k - |a|);
      }
    }
  }

  /** The walk stopped at a Prepare on the nil transaction a failed Begin left behind. */
  predicate BeginFailed(events: seq<Event>) {
    events != [] && Last(events) == Began(false)
  }

  /**
   * The walk stopped where a closure query was due and its statement is nil:
   * the ancestors query after the batch's statements were prepared or a row
   * was inserted, or the descendants query after the ancestors query answered.
   */
  predicate StatementMissing(events: seq<Event>) {
    events != [] &&
    var e := Last(events);
    || (((e.Prepared? && e.stmt == DescendantsStmt) || (e.Inserted? && e.ok)) && !StmtReady(events, AncestorsStmt))
    || (e.AncestorsQueried? && e.res.Answer? && !StmtReady(events, DescendantsStmt))
  }

  /** The concept query answered and nothing followed: the final Commit ran on a nil transaction. */
  predicate NoConcepts(events: seq<Event>) {
    |events| == 1 && events[0].ConceptsQueried? && events[0].res.Answer?
  }

  /**
   * One blob column for one concept: truncate the reused slice, collect the
   * query's rows into it, reset the buffer and write the slice into it.
   * binary.Write cannot fail on an []int64, so its error branch is never taken.
   */
  method ClosureBlob(rows: Rows, slice: seq<int64>, ghost expected: set<int64>)
    returns (list: seq<int64>, buf: seq<uint8>)
    requires Intact(rows) ==> Distinct(Values(rows.cells)) && Elements(Values(rows.cells)) == expected
    ensures list == Collected(rows)
    ensures buf == Encode(list)
    ensures BlobOf(buf, expected, Intact(rows))
  {
    var truncated := slice[..0];
    var err;
    list, err := RowsToIntSlice(rows, truncated);
    if Intact(rows) {
      assert [] + Values(rows.cells) == Values(rows.cells);
    }
    buf := [];
    buf := buf + Encode(list);
    assert buf == Encode(list);
    DecodeEncode(list);
  }

  /** The calls one concept makes: each closure query while its statement exists and the previous call answered, then the insert. */
  ghost function ConceptEvents(concept: int64, hasAncestorsStmt: bool, hasDescendantsStmt: bool,
                               ra: QueryResult, rd: QueryResult, rec: Record, inserted: bool): seq<Event>
  {
    if !hasAncestorsStmt then []
    else if ra.QueryFailed? || !hasDescendantsStmt then [AncestorsQueried(concept, ra)]
    else if rd.QueryFailed? then [AncestorsQueried(concept, ra), DescendantsQueried(concept, rd)]
    else [AncestorsQueried(concept, ra), DescendantsQueried(concept, rd), Inserted(rec, inserted)]
  }

  /**
   * The body of the loop after the batch bookkeeping, for one concept: both
   * closure queries, both blobs, and the insert. A nil statement panics; a
   * failed query or insert returns its error. Done means the row went into the
   * open transaction. ra, rd and inserted are the database's answers, fixed by
   * the trace.
   */
  method WalkConcept(db: Database, concept: int64, hasAncestorsStmt: bool, hasDescendantsStmt: bool,
                     ancestors: seq<int64>, descendants: seq<int64>)
    returns (status: Outcome, ancestors': seq<int64>, descendants': seq<int64>, rec: Record,
             ghost ra: QueryResult, ghost rd: QueryResult, ghost inserted: bool)
    modifies db
    ensures db.trace == old(db.trace) + ConceptEvents(concept, hasAncestorsStmt, hasDescendantsStmt, ra, rd, rec, inserted)
    ensures db.committed == old(db.committed) && db.open == old(db.open)
    ensures db.pending == old(db.pending) + (if status == Done then [rec] else [])
    ensures status == Crashed <==> !hasAncestorsStmt || (ra.Answer? && !hasDescendantsStmt)
    ensures status == Done <==> hasAncestorsStmt && hasDescendantsStmt && ra.Answer? && rd.Answer? && inserted
    ensures hasAncestorsStmt && hasDescendantsStmt && ra.Answer? && rd.Answer? ==>
      && rec == Record(concept, Encode(Collected(ra.rows)), Encode(Collected(rd.rows)))
      && RecordOf(db.isA, rec, Scan(Intact(ra.rows), Intact(rd.rows)))
  {
    ancestors', descendants' := ancestors, descendants;
    rec := Record(concept, [], []);
    ra, rd, inserted := QueryFailed, QueryFailed, false;
    if !hasAncestorsStmt {
      return Crashed, ancestors', descendants', rec, ra, rd, inserted;
    }
    var rows := db.QueryAncestors(concept);
    ra := rows;
    if rows.QueryFailed? {
      return Failed, ancestors', descendants', rec, ra, rd, inserted;
    }
    var ancestorsBuf;
    ancestors', ancestorsBuf := ClosureBlob(rows.rows, ancestors, Ancestors(db.isA, concept));

    if !hasDescendantsStmt {
      return Crashed, ancestors', descendants', rec, ra, rd, inserted;
    }
    rows := db.QueryDescendants(concept);
    rd := rows;
    if rows.QueryFailed? {
      return Failed, ancestors', descendants', rec, ra, rd, inserted;
    }
    var descendantsBuf;
    descendants', descendantsBuf := ClosureBlob(rows.rows, descendants, Descendants(db.isA, concept));

    rec := Record(concept, ancestorsBuf, descendantsBuf);
    var ok := db.Insert(rec);
    inserted := ok;
    status := if ok then Done else Failed;
  }

  /** One concept's calls insert its row exactly when every call answered, commit nothing and prepare nothing. */
  lemma ConceptRows(concept: int64, hasAncestorsStmt: bool, hasDescendantsStmt: bool,
                    ra: QueryResult, rd: QueryResult, rec: Record, inserted: bool)
    ensures
      var step := ConceptEvents(concept, hasAncestorsStmt, hasDescendantsStmt, ra, rd, rec, inserted);
      && Inserts(step) == (if hasAncestorsStmt && hasDescendantsStmt && ra.Answer? && rd.Answer? && inserted then [rec] else [])
      && Commits(step) == []
      && forall k :: 0 <= k < |step| ==> !step[k].Prepared?
  {
    var step := ConceptEvents(concept, hasAncestorsStmt, hasDescendantsStmt, ra, rd, rec, inserted);
    if |step| == 3 {
      assert step == step[..2] + [step[2]];
      InsertsAppend(step[..2], [step[2]]);
      CommitsAppend(step[..2], [step[2]]);
      NoInsertsNoCommits(step[..2]);
      assert [step[2]][1..] == [];
    } else {
      NoInsertsNoCommits(step);
    }
  }

  /** One concept's insert stores what its two queries answered. */
  lemma ConceptBuilt(isA: set<IsA>, concept: int64, hasAncestorsStmt: bool, hasDescendantsStmt: bool,
                     ra: QueryResult, rd: QueryResult, rec: Record, inserted: bool)
    requires hasAncestorsStmt && hasDescendantsStmt && ra.Answer? && rd.Answer? ==>
      && rec == Record(concept, Encode(Collected(ra.rows)), Encode(Collected(rd.rows)))
      && RecordOf(isA, rec, Scan(Intact(ra.rows), Intact(rd.rows)))
    ensures Built(isA, ConceptEvents(concept, hasAncestorsStmt, hasDescendantsStmt, ra, rd, rec, inserted))
  {
    var step := ConceptEvents(concept, hasAncestorsStmt, hasDescendantsStmt, ra, rd, rec, inserted);
    forall k | 0 <= k < |step|
      ensures BuiltAt(isA, step, k)
    {
    }
  }

  /**
   * How the walk ends within one concept: a nil statement is the panic, a
   * failed query or insert is the error it returns, and otherwise the row is in.
   */
  lemma ConceptEnd(events: seq<Event>, concept: int64, hasAncestorsStmt: bool,
                   hasDescendantsStmt: bool, ra: QueryResult, rd: QueryResult, rec: Record, inserted: bool)
    requires events != []
    requires Last(events) == Prepared(DescendantsStmt, hasDescendantsStmt) || (Last(events).Inserted? && Last(events).ok)
    requires hasAncestorsStmt == StmtReady(events, AncestorsStmt)
    requires hasDescendantsStmt == StmtReady(events, DescendantsStmt)
    requires StmtReady(events + ConceptEvents(concept, hasAncestorsStmt, hasDescendantsStmt, ra, rd, rec, inserted),
                       DescendantsStmt) == hasDescendantsStmt
    ensures
      var walked := events + ConceptEvents(concept, hasAncestorsStmt, hasDescendantsStmt, ra, rd, rec, inserted);
      && ((forall k :: 0 <= k < |events| ==> !Fatal(events[k])) ==>
            forall k :: 0 <= k < |walked| - 1 ==> !Fatal(walked[k]))
      && (!hasAncestorsStmt || (ra.Answer? && !hasDescendantsStmt) ==> StatementMissing(walked))
      && (hasAncestorsStmt && (ra.QueryFailed? || (hasDescendantsStmt && (rd.QueryFailed? || !inserted))) ==>
            Fatal(Last(walked)))
      && (hasAncestorsStmt && hasDescendantsStmt && ra.Answer? && rd.Answer? && inserted ==>
            Last(walked) == Inserted(rec, true))
  {
    if !hasAncestorsStmt {
      assert events + ConceptEvents(concept, hasAncestorsStmt, hasDescendantsStmt, ra, rd, rec, inserted) == events;
    }
  }

  /** What one concept's walk, ending in status with the row rec, adds to the calls made so far (events). */
  ghost predicate ConceptStepped(isA: set<IsA>, concept: int64, hasAncestorsStmt: bool, hasDescendantsStmt: bool,
                                 events: seq<Event>, walked: seq<Event>, status: Outcome, rec: Record)
  {
    && Inserts(walked) == Inserts(events) + (if status == Done then [rec] else [])
    && Commits(walked) == Commits(events) && Built(isA, walked)
    && walked != [] && (forall k :: 0 <= k < |walked| - 1 ==> !Fatal(walked[k]))
    && (status == Failed <==> Fatal(Last(walked)))
    && (status == Crashed ==> StatementMissing(walked))
    && (status == Done ==>
          && Last(walked) == Inserted(rec, true) && rec.conceptId == concept && Sound(isA, walked)
          && StmtReady(walked, AncestorsStmt) == hasAncestorsStmt
          && StmtReady(walked, DescendantsStmt) == hasDescendantsStmt)
  }

  /**
   * What the trace gains from one concept, given the two statement variables
   * the trace so far leaves behind and the outcome WalkConcept reports.
   */
  lemma ConceptFacts(isA: set<IsA>, events: seq<Event>, concept: int64, hasAncestorsStmt: bool,
                     hasDescendantsStmt: bool, ra: QueryResult, rd: QueryResult, rec: Record, inserted: bool,
                     status: Outcome)
    requires events != [] && Sound(isA, events)
    requires Last(events) == Prepared(DescendantsStmt, hasDescendantsStmt) || (Last(events).Inserted? && Last(events).ok)
    requires hasAncestorsStmt == StmtReady(events, AncestorsStmt)
    requires hasDescendantsStmt == StmtReady(events, DescendantsStmt)
    requires hasAncestorsStmt && hasDescendantsStmt && ra.Answer? && rd.Answer? ==>
      && rec == Record(concept, Encode(Collected(ra.rows)), Encode(Collected(rd.rows)))
      && RecordOf(isA, rec, Scan(Intact(ra.rows), Intact(rd.rows)))
    requires status == Crashed <==> !hasAncestorsStmt || (ra.Answer? && !hasDescendantsStmt)
    requires status == Done <==> hasAncestorsStmt && hasDescendantsStmt && ra.Answer? && rd.Answer? && inserted
    ensures ConceptStepped(isA, concept, hasAncestorsStmt, hasDescendantsStmt, events,
                           events + ConceptEvents(concept, hasAncestorsStmt, hasDescendantsStmt, ra, rd, rec, inserted),
                           status, rec)
  {
    var walked := events + ConceptEvents(concept, hasAncestorsStmt, hasDescendantsStmt, ra, rd, rec, inserted);
    ConceptCounted(isA, events, concept, hasAncestorsStmt, hasDescendantsStmt, ra, rd, rec, inserted);
    ConceptEnd(events, concept, hasAncestorsStmt, hasDescendantsStmt, ra, rd, rec, inserted);
    if status == Done {
      assert !Fatal(walked[|walked| - 1]);
    }
  }

  /** The rows, commits and statements one concept's calls leave behind. */
  lemma ConceptCounted(isA: set<IsA>, events: seq<Event>, concept: int64, hasAncestorsStmt: bool,
                       hasDescendantsStmt: bool, ra: QueryResult, rd: QueryResult, rec: Record, inserted: bool)
    requires Built(isA, events)
    requires hasAncestorsStmt && hasDescendantsStmt && ra.Answer? && rd.Answer? ==>
      && rec == Record(concept, Encode(Collected(ra.rows)), Encode(Collected(rd.rows)))
      && RecordOf(isA, rec, Scan(Intact(ra.rows), Intact(rd.rows)))
    ensures
      var walked := events + ConceptEvents(concept, hasAncestorsStmt, hasDescendantsStmt, ra, rd, rec, inserted);
      && Inserts(walked) == Inserts(events) +
           (if hasAncestorsStmt && hasDescendantsStmt && ra.Answer? && rd.Answer? && inserted then [rec] else [])
      && Commits(walked) == Commits(events) && Built(isA, walked)
      && StmtReady(walked, AncestorsStmt) == StmtReady(events, AncestorsStmt)
      && StmtReady(walked, DescendantsStmt) == StmtReady(events, DescendantsStmt)
  {
    var step := ConceptEvents(concept, hasAncestorsStmt, hasDescendantsStmt, ra, rd, rec, inserted);
    InsertsAppend(events, step);
    CommitsAppend(events, step);
    ConceptRows(concept, hasAncestorsStmt, hasDescendantsStmt, ra, rd, rec, inserted);
    StmtReadyAppend(events, step, AncestorsStmt);
    StmtReadyAppend(events, step, DescendantsStmt);
    ConceptBuilt(isA, concept, hasAncestorsStmt, hasDescendantsStmt, ra, rd, rec, inserted);
    BuiltAppend(isA, events, step);
  }

  /** The rows inserted so far are those of the first concepts, in order. */
  predicate Walked(concepts: seq<int64>, recs: seq<Record>) {
    |recs| <= |concepts| && forall j :: 0 <= j < |recs| ==> recs[j].conceptId == concepts[j]
  }

  lemma WalkedSnoc(concepts: seq<int64>, recs: seq<Record>, rec: Record)
    requires Walked(concepts, recs) && |recs| < |concepts| && rec.conceptId == concepts[|recs|]
    ensures Walked(concepts, recs + [rec])
  {
  }

  /** The calls that open a batch: the commit of the previous one if any, Begin, then the three Prepares while they succeed. */
  ghost function OpenEvents(hasTx: bool, committedOk: bool, began: bool, prepared: bool,
                            hasAncestorsStmt: bool, hasDescendantsStmt: bool): seq<Event>
  {
    (if hasTx then [Committed(committedOk)] else [])
    + if !began then [Began(false)]
      else if !prepared then [Began(true), Prepared(InsertStmt, false)]
      else [Began(true), Prepared(InsertStmt, true), Prepared(AncestorsStmt, hasAncestorsStmt),
            Prepared(DescendantsStmt, hasDescendantsStmt)]
  }

  /**
   * The start of a batch (index divisible by 20000): commit the open
   * transaction if there is one, begin a new one and prepare the three
   * statements. A failed Begin leaves a nil transaction, whose Prepare panics;
   * a failed insert Prepare returns its error; failed closure Prepares leave
   * nil statements behind, reported in the two flags. committedOk, began and
   * prepared are the database's answers, fixed by the trace.
   */
  method OpenBatch(db: Database, hasTx: bool)
    returns (status: Outcome, hasAncestorsStmt: bool, hasDescendantsStmt: bool,
             ghost committedOk: bool, ghost began: bool, ghost prepared: bool)
    modifies db
    ensures db.trace == old(db.trace) + OpenEvents(hasTx, committedOk, began, prepared, hasAncestorsStmt, hasDescendantsStmt)
    ensures db.committed == old(db.committed) + (if hasTx && committedOk then [old(db.pending)] else [])
    ensures status == Crashed <==> !began
    ensures status == Done <==> began && prepared
    ensures status == Done ==> db.open && db.pending == []
  {
    committedOk, prepared := false, false;
    hasAncestorsStmt, hasDescendantsStmt := false, false;
    if hasTx {
      committedOk := db.Commit();
    }
    var ok := db.Begin();
    began := ok;
    if !ok {
      return Crashed, hasAncestorsStmt, hasDescendantsStmt, committedOk, began, prepared;
    }
    ok := db.Prepare(InsertStmt);
    prepared := ok;
    if !ok {
      return Failed, hasAncestorsStmt, hasDescendantsStmt, committedOk, began, prepared;
    }
    hasAncestorsStmt := db.Prepare(AncestorsStmt);
    hasDescendantsStmt := db.Prepare(DescendantsStmt);
    status := Done;
  }

  /** Opening a batch inserts nothing and commits exactly when there was a transaction. */
  lemma OpenedRows(hasTx: bool, committedOk: bool, began: bool, prepared: bool,
                   hasAncestorsStmt: bool, hasDescendantsStmt: bool)
    ensures
      var step := OpenEvents(hasTx, committedOk, began, prepared, hasAncestorsStmt, hasDescendantsStmt);
      && Inserts(step) == []
      && Commits(step) == (if hasTx then [committedOk] else [])
  {
    var commit: seq<Event> := if hasTx then [Committed(committedOk)] else [];
    var step := OpenEvents(hasTx, committedOk, began, prepared, hasAncestorsStmt, hasDescendantsStmt);
    var rest := step[|commit|..];
    assert step == commit + rest;
    InsertsAppend(commit, rest);
    CommitsAppend(commit, rest);
    NoInsertsNoCommits(rest);
    if hasTx {
      assert commit[1..] == [];
    }
  }

  /** Opening a batch inserts no row, so nothing it adds needs a stored closure. */
  lemma OpenedBuilt(isA: set<IsA>, hasTx: bool, committedOk: bool, began: bool, prepared: bool,
                    hasAncestorsStmt: bool, hasDescendantsStmt: bool)
    ensures Built(isA, OpenEvents(hasTx, committedOk, began, prepared, hasAncestorsStmt, hasDescendantsStmt))
  {
    var step := OpenEvents(hasTx, committedOk, began, prepared, hasAncestorsStmt, hasDescendantsStmt);
    forall k | 0 <= k < |step|
      ensures BuiltAt(isA, step, k)
    {
    }
  }

  /**
   * How the walk ends within the opening of a batch: a failed Begin is the
   * nil-transaction panic, a failed insert Prepare the error it returns, and
   * otherwise both statement variables hold what their Prepares answered.
   */
  lemma OpenedEnd(events: seq<Event>, hasTx: bool, committedOk: bool, began: bool,
                  prepared: bool, hasAncestorsStmt: bool, hasDescendantsStmt: bool)
    ensures
      var started := events + OpenEvents(hasTx, committedOk, began, prepared, hasAncestorsStmt, hasDescendantsStmt);
      && started != []
      && ((forall k :: 0 <= k < |events| ==> !Fatal(events[k])) ==>
            forall k :: 0 <= k < |started| - 1 ==> !Fatal(started[k]))
      && (!began ==> BeginFailed(started))
      && (began && !prepared ==> Fatal(Last(started)))
      && (began && prepared ==>
            && Last(started) == Prepared(DescendantsStmt, hasDescendantsStmt)
            && StmtReady(started, AncestorsStmt) == hasAncestorsStmt
            && StmtReady(started, DescendantsStmt) == hasDescendantsStmt)
  {
    var started := events + OpenEvents(hasTx, committedOk, began, prepared, hasAncestorsStmt, hasDescendantsStmt);
    if began && prepared {
      assert started[..|started| - 1][|started| - 2] == Prepared(AncestorsStmt, hasAncestorsStmt);
    }
  }

  /** What opening a batch, ending in status, adds to the calls made so far (events). */
  ghost predicate OpenStepped(isA: set<IsA>, hasAncestorsStmt: bool, hasDescendantsStmt: bool,
                              events: seq<Event>, started: seq<Event>, status: Outcome)
  {
    && Inserts(started) == Inserts(events) && Built(isA, started)
    && started != [] && (forall k :: 0 <= k < |started| - 1 ==> !Fatal(started[k]))
    && (status == Failed <==> Fatal(Last(started)))
    && (status == Crashed ==> BeginFailed(started))
    && (status == Done ==>
          && Last(started) == Prepared(DescendantsStmt, hasDescendantsStmt) && Sound(isA, started)
          && StmtReady(started, AncestorsStmt) == hasAncestorsStmt
          && StmtReady(started, DescendantsStmt) == hasDescendantsStmt)
  }

  /** What the trace gains from opening a batch, given the outcome OpenBatch reports. */
  lemma OpenedFacts(isA: set<IsA>, events: seq<Event>, hasTx: bool, committedOk: bool, began: bool,
                    prepared: bool, hasAncestorsStmt: bool, hasDescendantsStmt: bool, status: Outcome)
    requires Sound(isA, events)
    requires status == Crashed <==> !began
    requires status == Done <==> began && prepared
    ensures
      var started := events + OpenEvents(hasTx, committedOk, began, prepared, hasAncestorsStmt, hasDescendantsStmt);
      && OpenStepped(isA, hasAncestorsStmt, hasDescendantsStmt, events, started, status)
      && Commits(started) == Commits(events) + (if hasTx then [committedOk] else [])
  {
    var started := events + OpenEvents(hasTx, committedOk, began, prepared, hasAncestorsStmt, hasDescendantsStmt);
    OpenedCounted(isA, events, hasTx, committedOk, began, prepared, hasAncestorsStmt, hasDescendantsStmt);
    OpenedEnd(events, hasTx, committedOk, began, prepared, hasAncestorsStmt, hasDescendantsStmt);
    if status == Done {
      assert !Fatal(started[|started| - 1]);
    }
  }

  /** The rows and commits the opening of a batch leaves behind. */
  lemma OpenedCounted(isA: set<IsA>, events: seq<Event>, hasTx: bool, committedOk: bool, began: bool,
                      prepared: bool, hasAncestorsStmt: bool, hasDescendantsStmt: bool)
    requires Built(isA, events)
    ensures
      var started := events + OpenEvents(hasTx, committedOk, began, prepared, hasAncestorsStmt, hasDescendantsStmt);
      && Inserts(started) == Inserts(events) && Built(isA, started)
      && Commits(started) == Commits(events) + (if hasTx then [committedOk] else [])
  {
    var step := OpenEvents(hasTx, committedOk, began, prepared, hasAncestorsStmt, hasDescendantsStmt);
    InsertsAppend(events, step);
    CommitsAppend(events, step);
    OpenedRows(hasTx, committedOk, began, prepared, hasAncestorsStmt, hasDescendantsStmt);
    OpenedBuilt(isA, hasTx, committedOk, began, prepared, hasAncestorsStmt, hasDescendantsStmt);
    BuiltAppend(isA, events, step);
  }

  /**
   * The commit bookkeeping after the rows recs: the batches before upTo (a
   * multiple of 20000) have had their commits, with outcomes oks, and log
   * holds log0 followed by those that succeeded. At most 20000 rows follow upTo.
   */
  ghost predicate Batched(log0: seq<seq<Record>>, log: seq<seq<Record>>,
                          recs: seq<Record>, upTo: nat, oks: seq<bool>) {
    && upTo % BatchSize == 0
    && upTo <= |recs| <= upTo + BatchSize
    && |oks| == |Batches(recs[..upTo])|
    && log == log0 + Kept(Batches(recs[..upTo]), oks)
  }

  /** Once any row exists, the open transaction holds the rows from upTo on, and at least one. */
  ghost predicate Open(pending: seq<Record>, recs: seq<Record>, upTo: nat) {
    |recs| > 0 ==> upTo < |recs| && pending == recs[upTo..]
  }

  /** Commit at a batch boundary: the open rows become one more batch, kept if the commit succeeded. */
  lemma BatchedCommit(log0: seq<seq<Record>>, log: seq<seq<Record>>, pending: seq<Record>,
                      recs: seq<Record>, upTo: nat, oks: seq<bool>, ok: bool)
    requires Batched(log0, log, recs, upTo, oks) && Open(pending, recs, upTo)
    requires |recs| > 0 && |recs| % BatchSize == 0
    ensures Batched(log0, log + (if ok then [pending] else []), recs, |recs|, oks + [ok])
  {
    CommitNext(recs, upTo, oks, ok);
    assert recs[..|recs|] == recs;
  }

  /** One more row inserted into an open transaction that is not yet full. */
  lemma BatchedInsert(log0: seq<seq<Record>>, log: seq<seq<Record>>, pending: seq<Record>,
                      recs: seq<Record>, upTo: nat, oks: seq<bool>, rec: Record)
    requires Batched(log0, log, recs, upTo, oks) && pending == recs[upTo..]
    requires |recs| < upTo + BatchSize
    ensures Batched(log0, log, recs + [rec], upTo, oks)
    ensures Open(pending + [rec], recs + [rec], upTo)
  {
    assert (recs + [rec])[..upTo] == recs[..upTo];
    assert (recs + [rec])[upTo..] == recs[upTo..] + [rec];
  }

  /** The final Commit after the loop: every row is now in a batch that had its commit. */
  lemma BatchedFinal(log0: seq<seq<Record>>, log: seq<seq<Record>>, pending: seq<Record>,
                     recs: seq<Record>, upTo: nat, oks: seq<bool>, ok: bool)
    requires Batched(log0, log, recs, upTo, oks) && Open(pending, recs, upTo)
    requires |recs| > 0
    ensures |oks + [ok]| == |Batches(recs)|
    ensures log + (if ok then [pending] else []) == log0 + Kept(Batches(recs), oks + [ok])
  {
    CommitNext(recs, upTo, oks, ok);
  }

  /** The calls made so far leave no row without its stored closures, and no checked failure. */
  ghost predicate Sound(isA: set<IsA>, events: seq<Event>) {
    Built(isA, events) && forall k :: 0 <= k < |events| ==> !Fatal(events[k])
  }

  /**
   * What the database answered in one pass of the loop: to the calls that open
   * a batch (consulted only at an index divisible by 20000) and to the
   * concept's calls. Answers to calls the pass does not make are ignored.
   */
  datatype Answers = Answers(committedOk: bool, began: bool, prepared: bool,
                             ancestorsReady: bool, descendantsReady: bool,
                             ra: QueryResult, rd: QueryResult, inserted: bool)

  /** The calls of one or more passes, how they ended, and the statement variables they leave. */
  datatype Pass = Pass(calls: seq<Event>, status: Outcome, ancestorsReady: bool, descendantsReady: bool)

  /** The row a concept's two answers make: its id and the blobs of the collected lists. */
  function RowOf(concept: int64, ra: QueryResult, rd: QueryResult): Record {
    if ra.Answer? && rd.Answer? then Record(concept, Encode(Collected(ra.rows)), Encode(Collected(rd.rows)))
    else Record(concept, [], [])
  }

  /** How one concept's walk ends: a nil statement panics, a failed query or insert is an error. */
  function ConceptStatus(hasAncestorsStmt: bool, hasDescendantsStmt: bool,
                         ra: QueryResult, rd: QueryResult, inserted: bool): Outcome
  {
    if !hasAncestorsStmt || (ra.Answer? && !hasDescendantsStmt) then Crashed
    else if ra.QueryFailed? || rd.QueryFailed? || !inserted then Failed
    else Done
  }

  /** The concept's part of a pass, after the calls that opened the batch (if any). */
  ghost function ConceptPass(opening: seq<Event>, concept: int64, hasAncestorsStmt: bool,
                             hasDescendantsStmt: bool, a: Answers): Pass
  {
    Pass(opening + ConceptEvents(concept, hasAncestorsStmt, hasDescendantsStmt, a.ra, a.rd,
                                 RowOf(concept, a.ra, a.rd), a.inserted),
         ConceptStatus(hasAncestorsStmt, hasDescendantsStmt, a.ra, a.rd, a.inserted),
         hasAncestorsStmt, hasDescendantsStmt)
  }

  /**
   * One pass of the loop at index, entered with the two statement variables,
   * when the database answers a: the batch is opened first at a multiple of
   * 20000 (with a commit when index > 0, that is, when a transaction exists).
   */
  ghost function Step(index: nat, concept: int64, hasAncestorsStmt: bool, hasDescendantsStmt: bool,
                      a: Answers): Pass
  {
    if index % BatchSize == 0 then
      var opening := OpenEvents(index > 0, a.committedOk, a.began, a.prepared, a.ancestorsReady, a.descendantsReady);
      if !a.began then Pass(opening, Crashed, hasAncestorsStmt, hasDescendantsStmt)
      else if !a.prepared then Pass(opening, Failed, hasAncestorsStmt, hasDescendantsStmt)
      else ConceptPass(opening, concept, a.ancestorsReady, a.descendantsReady, a)
    else ConceptPass([], concept, hasAncestorsStmt, hasDescendantsStmt, a)
  }

  /**
   * The loop over the first |answers| concepts, pass k answered by answers[k]:
   * the calls it makes and how it ends. It stops at the first pass that does
   * not complete; later answers are ignored.
   */
  ghost function Run(concepts: seq<int64>, answers: seq<Answers>): Pass
    requires |answers| <= |concepts|
    decreases |answers|
  {
    if answers == [] then Pass([], Done, false, false)
    else
      var n := |answers| - 1;
      var before := Run(concepts, answers[..n]);
      if before.status != Done then before
      else
        var p := Step(n, concepts[n], before.ancestorsReady, before.descendantsReady, answers[n]);
        Pass(before.calls + p.calls, p.status, p.ancestorsReady, p.descendantsReady)
  }

  /**
   * The loop followed by the final Commit, answered finalOk. With no concept
   * walked the transaction is nil and that Commit panics.
   */
  ghost function Completed(concepts: seq<int64>, answers: seq<Answers>, finalOk: bool): Pass
    requires |answers| <= |concepts|
  {
    var run := Run(concepts, answers);
    if run.status != Done then run
    else if concepts == [] then Pass(run.calls, Crashed, run.ancestorsReady, run.descendantsReady)
    else Pass(run.calls + [Committed(finalOk)], Done, run.ancestorsReady, run.descendantsReady)
  }

  lemma RunSnoc(concepts: seq<int64>, answers: seq<Answers>, a: Answers)
    requires |answers| < |concepts|
    ensures
      var before := Run(concepts, answers);
      var p := Step(|answers|, concepts[|answers|], before.ancestorsReady, before.descendantsReady, a);
      Run(concepts, answers + [a]) ==
        if before.status != Done then before
        else Pass(before.calls + p.calls, p.status, p.ancestorsReady, p.descendantsReady)
  {
    assert (answers + [a])[..|answers|] == answers;
  }

  /** A call the database refused: a failed query, Begin, Prepare or insert. */
  predicate Refused(e: Event) {
    match e
    case ConceptsQueried(res) => res.QueryFailed?
    case AncestorsQueried(_, res) => res.QueryFailed?
    case DescendantsQueried(_, res) => res.QueryFailed?
    case Began(ok) => !ok
    case Prepared(_, ok) => !ok
    case Inserted(_, ok) => !ok
    case Committed(_) => false
  }

  ghost predicate NoneRefused(events: seq<Event>) {
    forall k :: 0 <= k < |events| ==> !Refused(events[k])
  }

  lemma NoneRefusedSplit(a: seq<Event>, b: seq<Event>)
    requires NoneRefused(a + b)
    ensures NoneRefused(a) && NoneRefused(b)
  {
    forall k | 0 <= k < |a|
      ensures !Refused(a[k])
    {
      assert a[k] == (a + b)[k];
    }
    forall k | 0 <= k < |b|
      ensures !Refused(b[k])
    {
      assert b[k] == (a + b)[|a| + k];
    }
  }

  /** Opening a batch with nothing refused begins the transaction and prepares all three statements. */
  lemma OpenSucceeds(hasTx: bool, a: Answers)
    requires NoneRefused(OpenEvents(hasTx, a.committedOk, a.began, a.prepared, a.ancestorsReady, a.descendantsReady))
    ensures a.began && a.prepared && a.ancestorsReady && a.descendantsReady
  {
    var opening := OpenEvents(hasTx, a.committedOk, a.began, a.prepared, a.ancestorsReady, a.descendantsReady);
    var c := if hasTx then 1 else 0;
    assert !Refused(opening[c]);
    if a.began {
      assert !Refused(opening[c + 1]);
      if a.prepared {
        assert !Refused(opening[c + 2]) && !Refused(opening[c + 3]);
      }
    }
  }

  /** A concept's calls, both statements prepared and nothing refused, insert its row. */
  lemma ConceptSucceeds(concept: int64, a: Answers)
    requires NoneRefused(ConceptEvents(concept, true, true, a.ra, a.rd, RowOf(concept, a.ra, a.rd), a.inserted))
    ensures ConceptStatus(true, true, a.ra, a.rd, a.inserted) == Done
  {
    var calls := ConceptEvents(concept, true, true, a.ra, a.rd, RowOf(concept, a.ra, a.rd), a.inserted);
    assert !Refused(calls[0]);
    if a.ra.Answer? {
      assert !Refused(calls[1]);
      if a.rd.Answer? {
        assert !Refused(calls[2]);
      }
    }
  }

  /**
   * A pass in which the database refuses nothing completes and leaves both
   * statements prepared, provided they were prepared when no batch opens.
   */
  lemma StepSucceeds(index: nat, concept: int64, hasAncestorsStmt: bool, hasDescendantsStmt: bool, a: Answers)
    requires index % BatchSize != 0 ==> hasAncestorsStmt && hasDescendantsStmt
    requires NoneRefused(Step(index, concept, hasAncestorsStmt, hasDescendantsStmt, a).calls)
    ensures var p := Step(index, concept, hasAncestorsStmt, hasDescendantsStmt, a);
      p.status == Done && p.ancestorsReady && p.descendantsReady
  {
    ghost var opening: seq<Event> := [];
    if index % BatchSize == 0 {
      opening := OpenEvents(index > 0, a.committedOk, a.began, a.prepared, a.ancestorsReady, a.descendantsReady);
    }
    var p := Step(index, concept, hasAncestorsStmt, hasDescendantsStmt, a);
    var rest := p.calls[|opening|..];
    assert p.calls == opening + rest;
    NoneRefusedSplit(opening, rest);
    if index % BatchSize == 0 {
      OpenSucceeds(index > 0, a);
    }
    ConceptSucceeds(concept, a);
  }

  /** A loop in which the database refuses nothing completes every pass. */
  lemma {:induction false} RunSucceeds(concepts: seq<int64>, answers: seq<Answers>)
    requires |answers| <= |concepts| && NoneRefused(Run(concepts, answers).calls)
    ensures Run(concepts, answers).status == Done
    ensures answers != [] ==> Run(concepts, answers).ancestorsReady && Run(concepts, answers).descendantsReady
    decreases |answers|
  {
    if answers != [] {
      var n := |answers| - 1;
      var before := Run(concepts, answers[..n]);
      RunSnoc(concepts, answers[..n], answers[n]);
      assert answers[..n] + [answers[n]] == answers;
      if before.status == Done {
        var p := Step(n, concepts[n], before.ancestorsReady, before.descendantsReady, answers[n]);
        NoneRefusedSplit(before.calls, p.calls);
      }
      RunSucceeds(concepts, answers[..n]);
      var p := Step(n, concepts[n], before.ancestorsReady, before.descendantsReady, answers[n]);
      StepSucceeds(n, concepts[n], before.ancestorsReady, before.descendantsReady, answers[n]);
    }
  }

  /**
   * The batch bookkeeping of the loop at an index divisible by 20000: OpenBatch,
   * with what it adds to the calls made so far (events, which the trace holds
   * after trace0) and to the commit bookkeeping.
   */
  method OpenStep(db: Database, hasTx: bool, ghost trace0: seq<Event>, ghost events: seq<Event>,
                  ghost log0: seq<seq<Record>>, ghost recs: seq<Record>, ghost upTo: nat)
    returns (status: Outcome, hasAncestorsStmt: bool, hasDescendantsStmt: bool,
             ghost started: seq<Event>, ghost upTo': nat,
             ghost committedOk: bool, ghost began: bool, ghost prepared: bool)
    modifies db
    requires db.trace == trace0 + events && Sound(db.isA, events)
    requires |recs| % BatchSize == 0 && (hasTx <==> |recs| > 0)
    requires Batched(log0, db.committed, recs, upTo, Commits(events)) && Open(db.pending, recs, upTo)
    ensures db.trace == trace0 + started
    ensures started == events + OpenEvents(hasTx, committedOk, began, prepared, hasAncestorsStmt, hasDescendantsStmt)
    ensures status == if !began then Crashed else if !prepared then Failed else Done
    ensures Batched(log0, db.committed, recs, upTo', Commits(started))
    ensures OpenStepped(db.isA, hasAncestorsStmt, hasDescendantsStmt, events, started, status)
    ensures status != Done ==> |recs| < upTo' + BatchSize
    ensures status == Done ==> db.open && db.pending == [] && upTo' == |recs|
  {
    ghost var log, pending := db.committed, db.pending;
    status, hasAncestorsStmt, hasDescendantsStmt, committedOk, began, prepared := OpenBatch(db, hasTx);
    OpenedFacts(db.isA, events, hasTx, committedOk, began, prepared, hasAncestorsStmt, hasDescendantsStmt, status);
    upTo' := upTo;
    if hasTx {
      BatchedCommit(log0, log, pending, recs, upTo, Commits(events), committedOk);
      upTo' := |recs|;
    }
    ghost var step := OpenEvents(hasTx, committedOk, began, prepared, hasAncestorsStmt, hasDescendantsStmt);
    AppendAssoc(trace0, events, step);
    started := events + step;
  }

  /** One concept's walk, with what it adds to the calls made so far (events, which the trace holds after trace0). */
  method ConceptStep(db: Database, concept: int64, hasAncestorsStmt: bool, hasDescendantsStmt: bool,
                     ancestors: seq<int64>, descendants: seq<int64>, ghost trace0: seq<Event>, ghost events: seq<Event>)
    returns (status: Outcome, ancestors': seq<int64>, descendants': seq<int64>, rec: Record, ghost walked: seq<Event>,
             ghost ra: QueryResult, ghost rd: QueryResult, ghost inserted: bool)
    modifies db
    requires db.trace == trace0 + events && Sound(db.isA, events) && events != []
    requires Last(events) == Prepared(DescendantsStmt, hasDescendantsStmt) || (Last(events).Inserted? && Last(events).ok)
    requires hasAncestorsStmt == StmtReady(events, AncestorsStmt)
    requires hasDescendantsStmt == StmtReady(events, DescendantsStmt)
    ensures db.trace == trace0 + walked
    ensures walked == events + ConceptEvents(concept, hasAncestorsStmt, hasDescendantsStmt, ra, rd,
                                             RowOf(concept, ra, rd), inserted)
    ensures status == ConceptStatus(hasAncestorsStmt, hasDescendantsStmt, ra, rd, inserted)
    ensures db.committed == old(db.committed) && db.open == old(db.open)
    ensures db.pending == old(db.pending) + (if status == Done then [rec] else [])
    ensures ConceptStepped(db.isA, concept, hasAncestorsStmt, hasDescendantsStmt, events, walked, status, rec)
  {
    status, ancestors', descendants', rec, ra, rd, inserted :=
      WalkConcept(db, concept, hasAncestorsStmt, hasDescendantsStmt, ancestors, descendants);
    ConceptFacts(db.isA, events, concept, hasAncestorsStmt, hasDescendantsStmt, ra, rd, rec, inserted, status);
    ghost var step := ConceptEvents(concept, hasAncestorsStmt, hasDescendantsStmt, ra, rd, rec, inserted);
    assert step == ConceptEvents(concept, hasAncestorsStmt, hasDescendantsStmt, ra, rd, RowOf(concept, ra, rd), inserted);
    AppendAssoc(trace0, events, step);
    walked := events + step;
  }

  /**
   * The state at the head of the loop, before the concept at index: a row for
   * each earlier concept is in, events are the calls made so far, and the
   * statement variables and the commit bookkeeping are what those calls left.
   */
  ghost predicate Walking(isA: set<IsA>, open: bool, pending: seq<Record>, committed: seq<seq<Record>>,
                          log0: seq<seq<Record>>, concepts: seq<int64>, index: nat, hasTx: bool,
                          hasAncestorsStmt: bool, hasDescendantsStmt: bool, events: seq<Event>,
                          recs: seq<Record>, upTo: nat)
  {
    && index <= |concepts| && |recs| == index
    && (hasTx <==> index > 0) && (hasTx ==> open)
    && (events == [] <==> index == 0)
    && (index > 0 ==> Last(events).Inserted? && Last(events).ok)
    && hasAncestorsStmt == StmtReady(events, AncestorsStmt)
    && hasDescendantsStmt == StmtReady(events, DescendantsStmt)
    && recs == Inserts(events) && Walked(concepts, recs) && Sound(isA, events)
    && Batched(log0, committed, recs, upTo, Commits(events))
    && Open(pending, recs, upTo)
  }

  /** The state once the loop has stopped early: the last call is where and why it stopped. */
  ghost predicate Stopped(isA: set<IsA>, committed: seq<seq<Record>>, log0: seq<seq<Record>>,
                          concepts: seq<int64>, outcome: Outcome, events: seq<Event>, recs: seq<Record>, upTo: nat)
  {
    && outcome != Done && events != []
    && (forall k :: 0 <= k < |events| - 1 ==> !Fatal(events[k]))
    && (outcome == Failed <==> Fatal(Last(events)))
    && (outcome == Crashed ==> BeginFailed(events) || StatementMissing(events))
    && recs == Inserts(events) && Walked(concepts, recs) && Built(isA, events)
    && Batched(log0, committed, recs, upTo, Commits(events))
    && |recs| < |concepts| && |recs| < upTo + BatchSize
  }

  /** The state just before a concept is walked: a transaction is open and the statement variables are set. */
  ghost predicate Ready(isA: set<IsA>, open: bool, pending: seq<Record>, committed: seq<seq<Record>>,
                        log0: seq<seq<Record>>, concepts: seq<int64>, index: nat,
                        hasAncestorsStmt: bool, hasDescendantsStmt: bool, events: seq<Event>,
                        recs: seq<Record>, upTo: nat)
  {
    && index < |concepts| && |recs| == index && open
    && events != []
    && (Last(events) == Prepared(DescendantsStmt, hasDescendantsStmt) || (Last(events).Inserted? && Last(events).ok))
    && hasAncestorsStmt == StmtReady(events, AncestorsStmt)
    && hasDescendantsStmt == StmtReady(events, DescendantsStmt)
    && recs == Inserts(events) && Walked(concepts, recs) && Sound(isA, events)
    && Batched(log0, committed, recs, upTo, Commits(events))
    && pending == recs[upTo..] && |recs| < upTo + BatchSize
  }

  /**
   * One pass of the loop: open a batch at a multiple of 20000, then walk the
   * concept at index. a is what the database answered during the pass.
   */
  method Iterate(db: Database, concepts: seq<int64>, index: nat, hasTx: bool,
                 hasAncestorsStmt: bool, hasDescendantsStmt: bool, ancestors: seq<int64>, descendants: seq<int64>,
                 ghost trace0: seq<Event>, ghost log0: seq<seq<Record>>, ghost events: seq<Event>,
                 ghost recs: seq<Record>, ghost upTo: nat)
    returns (status: Outcome, hasAncestorsStmt': bool, hasDescendantsStmt': bool,
             ancestors': seq<int64>, descendants': seq<int64>,
             ghost events': seq<Event>, ghost recs': seq<Record>, ghost upTo': nat, ghost a: Answers)
    modifies db
    requires index < |concepts| && db.trace == trace0 + events
    requires Walking(db.isA, db.open, db.pending, db.committed, log0, concepts, index, hasTx,
                     hasAncestorsStmt, hasDescendantsStmt, events, recs, upTo)
    ensures db.trace == trace0 + events'
    ensures var p := Step(index, concepts[index], hasAncestorsStmt, hasDescendantsStmt, a);
      && events' == events + p.calls && status == p.status
      && (status == Done ==> hasAncestorsStmt' == p.ancestorsReady && hasDescendantsStmt' == p.descendantsReady)
    ensures status == Done ==>
      Walking(db.isA, db.open, db.pending, db.committed, log0, concepts, index + 1, true,
              hasAncestorsStmt', hasDescendantsStmt', events', recs', upTo')
    ensures status != Done ==> Stopped(db.isA, db.committed, log0, concepts, status, events', recs', upTo')
  {
    if index % BatchSize == 0 {
      status, hasAncestorsStmt', hasDescendantsStmt', ancestors', descendants', events', recs', upTo', a :=
        OpenAndWalk(db, concepts, index, hasTx, hasAncestorsStmt, hasDescendantsStmt, ancestors, descendants, trace0, log0, events, recs, upTo);
    } else {
      status, hasAncestorsStmt', hasDescendantsStmt', ancestors', descendants', events', recs', upTo', a :=
        WalkWithin(db, concepts, index, hasTx, hasAncestorsStmt, hasDescendantsStmt, ancestors, descendants, trace0, log0, events, recs, upTo);
    }
  }

  /** A pass at a multiple of 20000: the batch is opened before the concept is walked. */
  method OpenAndWalk(db: Database, concepts: seq<int64>, index: nat, hasTx: bool,
                 hasAncestorsStmt: bool, hasDescendantsStmt: bool, ancestors: seq<int64>, descendants: seq<int64>,
                 ghost trace0: seq<Event>, ghost log0: seq<seq<Record>>, ghost events: seq<Event>,
                 ghost recs: seq<Record>, ghost upTo: nat)
    returns (status: Outcome, hasAncestorsStmt': bool, hasDescendantsStmt': bool,
             ancestors': seq<int64>, descendants': seq<int64>,
             ghost events': seq<Event>, ghost recs': seq<Record>, ghost upTo': nat, ghost a: Answers)
    modifies db
    requires index < |concepts| && db.trace == trace0 + events
    requires Walking(db.isA, db.open, db.pending, db.committed, log0, concepts, index, hasTx,
                     hasAncestorsStmt, hasDescendantsStmt, events, recs, upTo)
    requires index % BatchSize == 0
    ensures db.trace == trace0 + events'
    ensures var p := Step(index, concepts[index], hasAncestorsStmt, hasDescendantsStmt, a);
      && events' == events + p.calls && status == p.status
      && (status == Done ==> hasAncestorsStmt' == p.ancestorsReady && hasDescendantsStmt' == p.descendantsReady)
    ensures status == Done ==>
      Walking(db.isA, db.open, db.pending, db.committed, log0, concepts, index + 1, true,
              hasAncestorsStmt', hasDescendantsStmt', events', recs', upTo')
    ensures status != Done ==> Stopped(db.isA, db.committed, log0, concepts, status, events', recs', upTo')
  {
    ghost var committedOk, began, prepared;
    status, hasAncestorsStmt', hasDescendantsStmt', events', upTo', committedOk, began, prepared :=
      OpenStep(db, hasTx, trace0, events, log0, recs, upTo);
    ancestors', descendants', recs' := ancestors, descendants, recs;
    if status != Done {
      a := Answers(committedOk, began, prepared, hasAncestorsStmt', hasDescendantsStmt',
                   QueryFailed, QueryFailed, false);
      return;
    }
    assert recs[|recs|..] == [];
    ghost var opening := OpenEvents(hasTx, committedOk, began, prepared, hasAncestorsStmt', hasDescendantsStmt');
    ghost var ra, rd, inserted;
    status, ancestors', descendants', events', recs', ra, rd, inserted :=
      WalkStep(db, concepts, index, hasAncestorsStmt', hasDescendantsStmt', ancestors, descendants,
               trace0, log0, events', recs, upTo');
    a := Answers(committedOk, began, prepared, hasAncestorsStmt', hasDescendantsStmt', ra, rd, inserted);
    AppendAssoc(events, opening, ConceptEvents(concepts[index], hasAncestorsStmt', hasDescendantsStmt', ra, rd,
                                               RowOf(concepts[index], ra, rd), inserted));
  }

  /** A pass inside a batch: the concept is walked with the statements the batch prepared. */
  method WalkWithin(db: Database, concepts: seq<int64>, index: nat, hasTx: bool,
                 hasAncestorsStmt: bool, hasDescendantsStmt: bool, ancestors: seq<int64>, descendants: seq<int64>,
                 ghost trace0: seq<Event>, ghost log0: seq<seq<Record>>, ghost events: seq<Event>,
                 ghost recs: seq<Record>, ghost upTo: nat)
    returns (status: Outcome, hasAncestorsStmt': bool, hasDescendantsStmt': bool,
             ancestors': seq<int64>, descendants': seq<int64>,
             ghost events': seq<Event>, ghost recs': seq<Record>, ghost upTo': nat, ghost a: Answers)
    modifies db
    requires index < |concepts| && db.trace == trace0 + events
    requires Walking(db.isA, db.open, db.pending, db.committed, log0, concepts, index, hasTx,
                     hasAncestorsStmt, hasDescendantsStmt, events, recs, upTo)
    requires index % BatchSize != 0
    ensures db.trace == trace0 + events'
    ensures var p := Step(index, concepts[index], hasAncestorsStmt, hasDescendantsStmt, a);
      && events' == events + p.calls && status == p.status
      && (status == Done ==> hasAncestorsStmt' == p.ancestorsReady && hasDescendantsStmt' == p.descendantsReady)
    ensures status == Done ==>
      Walking(db.isA, db.open, db.pending, db.committed, log0, concepts, index + 1, true,
              hasAncestorsStmt', hasDescendantsStmt', events', recs', upTo')
    ensures status != Done ==> Stopped(db.isA, db.committed, log0, concepts, status, events', recs', upTo')
  {
    assert index != upTo;
    BatchBoundary(upTo, index);
    hasAncestorsStmt', hasDescendantsStmt', upTo' := hasAncestorsStmt, hasDescendantsStmt, upTo;
    ghost var ra, rd, inserted;
    status, ancestors', descendants', events', recs', ra, rd, inserted :=
      WalkStep(db, concepts, index, hasAncestorsStmt, hasDescendantsStmt, ancestors, descendants,
               trace0, log0, events, recs, upTo);
    a := Answers(false, false, false, false, false, ra, rd, inserted);
  }

  /** The second half of a pass: walk the concept at index inside the open batch. */
  method WalkStep(db: Database, concepts: seq<int64>, index: nat,
                  hasAncestorsStmt: bool, hasDescendantsStmt: bool, ancestors: seq<int64>, descendants: seq<int64>,
                  ghost trace0: seq<Event>, ghost log0: seq<seq<Record>>, ghost events: seq<Event>,
                  ghost recs: seq<Record>, ghost upTo: nat)
    returns (status: Outcome, ancestors': seq<int64>, descendants': seq<int64>,
             ghost events': seq<Event>, ghost recs': seq<Record>,
             ghost ra: QueryResult, ghost rd: QueryResult, ghost inserted: bool)
    modifies db
    requires db.trace == trace0 + events
    requires Ready(db.isA, db.open, db.pending, db.committed, log0, concepts, index,
                   hasAncestorsStmt, hasDescendantsStmt, events, recs, upTo)
    ensures db.trace == trace0 + events'
    ensures events' == events + ConceptEvents(concepts[index], hasAncestorsStmt, hasDescendantsStmt, ra, rd,
                                              RowOf(concepts[index], ra, rd), inserted)
    ensures status == ConceptStatus(hasAncestorsStmt, hasDescendantsStmt, ra, rd, inserted)
    ensures status == Done ==>
      Walking(db.isA, db.open, db.pending, db.committed, log0, concepts, index + 1, true,
              hasAncestorsStmt, hasDescendantsStmt, events', recs', upTo)
    ensures status != Done ==> Stopped(db.isA, db.committed, log0, concepts, status, events', recs', upTo)
  {
    ghost var pending := db.pending;
    var rec;
    status, ancestors', descendants', rec, events', ra, rd, inserted :=
      ConceptStep(db, concepts[index], hasAncestorsStmt, hasDescendantsStmt, ancestors, descendants, trace0, events);
    recs' := recs;
    if status != Done {
      return;
    }
    BatchedInsert(log0, db.committed, pending, recs, upTo, Commits(events'), rec);
    WalkedSnoc(concepts, recs, rec);
    recs' := recs + [rec];
  }

  /**
   * The loop of prewalkSnomedGraph over the concept list. It stops early, with
   * the error or panic, when a batch cannot be started or a concept cannot be
   * walked; otherwise it ends with the last batch still open (hasTx tells
   * whether any transaction was begun at all). events are the calls it made;
   * the rows it inserted and the commits' outcomes are read off them.
   */
  method WalkAll(db: Database, concepts: seq<int64>)
    returns (outcome: Outcome, hasTx: bool, ghost events: seq<Event>, ghost recs: seq<Record>, ghost upTo: nat,
             ghost answers: seq<Answers>)
    modifies db
    ensures db.trace == old(db.trace) + events
    ensures |answers| <= |concepts| && (outcome == Done ==> |answers| == |concepts|)
    ensures events == Run(concepts, answers).calls && outcome == Run(concepts, answers).status
    ensures events == [] <==> concepts == []
    ensures forall k :: 0 <= k < |events| - 1 ==> !Fatal(events[k])
    ensures outcome == Failed <==> events != [] && Fatal(Last(events))
    ensures outcome == Crashed ==> BeginFailed(events) || StatementMissing(events)
    ensures outcome == Done && concepts != [] ==> Last(events).Inserted? && Last(events).ok
    ensures recs == Inserts(events) && Walked(concepts, recs) && Built(db.isA, events)
    ensures Batched(old(db.committed), db.committed, recs, upTo, Commits(events))
    ensures outcome == Done ==> |recs| == |concepts| && (hasTx <==> |recs| > 0) && Open(db.pending, recs, upTo)
    ensures outcome == Done && hasTx ==> db.open
    ensures outcome != Done ==> |recs| < |concepts| && |recs| < upTo + BatchSize
  {
    events, recs, upTo, answers := [], [], 0, [];
    hasTx := false;
    var hasAncestorsStmt, hasDescendantsStmt := false, false;
    var ancestors: seq<int64> := [];
    var descendants: seq<int64> := [];
    var index := 0;
    while index < |concepts|
      invariant db.trace == old(db.trace) + events
      invariant Walking(db.isA, db.open, db.pending, db.committed, old(db.committed), concepts, index, hasTx,
                        hasAncestorsStmt, hasDescendantsStmt, events, recs, upTo)
      invariant |answers| == index && Run(concepts, answers) == Pass(events, Done, hasAncestorsStmt, hasDescendantsStmt)
    {
      var status;
      ghost var a;
      status, hasAncestorsStmt, hasDescendantsStmt, ancestors, descendants, events, recs, upTo, a :=
        Iterate(db, concepts, index, hasTx, hasAncestorsStmt, hasDescendantsStmt, ancestors, descendants,
                old(db.trace), old(db.committed), events, recs, upTo);
      RunSnoc(concepts, answers, a);
      answers := answers + [a];
      if status != Done {
        return status, hasTx, events, recs, upTo, answers;
      }
      hasTx := true;
      index := index + 1;
    }
    outcome := Done;
  }

  /** What the concept query's event in front of the walk's calls changes: nothing but the length. */
  lemma HeadFacts(isA: set<IsA>, head: Event, walk: seq<Event>)
    requires head.ConceptsQueried? && head.res.Answer? && Built(isA, walk)
    requires forall k :: 0 <= k < |walk| - 1 ==> !Fatal(walk[k])
    ensures Inserts([head] + walk) == Inserts(walk)
    ensures Commits([head] + walk) == Commits(walk)
    ensures Built(isA, [head] + walk)
    ensures forall k :: 0 <= k < |[head] + walk| - 1 ==> !Fatal(([head] + walk)[k])
    ensures NoConcepts([head] + walk) <==> walk == []
    ensures walk != [] ==> Last([head] + walk) == Last(walk)
    ensures BeginFailed([head] + walk) <==> BeginFailed(walk)
    ensures StatementMissing([head] + walk) <==> StatementMissing(walk)
    ensures NoneRefused([head] + walk) ==> NoneRefused(walk)
  {
    if NoneRefused([head] + walk) {
      NoneRefusedSplit([head], walk);
    }
    forall k | 0 <= k < |[head] + walk| - 1
      ensures !Fatal(([head] + walk)[k])
    {
      if k > 0 {
        assert ([head] + walk)[k] == walk[k - 1];
      }
    }
    InsertsAppend([head], walk);
    CommitsAppend([head], walk);
    assert [head][1..] == [];
    assert Built(isA, [head]) by {
      assert BuiltAt(isA, [head], 0);
    }
    BuiltAppend(isA, [head], walk);
    assert [head][..0] == [];
    StmtReadyAfter([head], walk, AncestorsStmt);
    StmtReadyAfter([head], walk, DescendantsStmt);
  }

  /** A call after calls none of which failed leaves only the new one possibly failed. */
  lemma SafeSnoc(events: seq<Event>, e: Event)
    requires events != [] && !Fatal(Last(events))
    requires forall k :: 0 <= k < |events| - 1 ==> !Fatal(events[k])
    ensures forall k :: 0 <= k < |events + [e]| - 1 ==> !Fatal((events + [e])[k])
    ensures Last(events + [e]) == e
  {
    forall k | 0 <= k < |events + [e]| - 1
      ensures !Fatal((events + [e])[k])
    {
      assert (events + [e])[k] == events[k];
    }
  }

  /** The final Commit appended to the calls. */
  lemma FinalFacts(isA: set<IsA>, events: seq<Event>, ok: bool)
    requires Built(isA, events) && events != [] && !Fatal(Last(events))
    requires forall k :: 0 <= k < |events| - 1 ==> !Fatal(events[k])
    ensures Inserts(events + [Committed(ok)]) == Inserts(events)
    ensures Commits(events + [Committed(ok)]) == Commits(events) + [ok]
    ensures Built(isA, events + [Committed(ok)])
    ensures forall k :: 0 <= k < |events + [Committed(ok)]| - 1 ==> !Fatal((events + [Committed(ok)])[k])
    ensures Last(events + [Committed(ok)]) == Committed(ok)
  {
    SafeSnoc(events, Committed(ok));
    InsertsAppend(events, [Committed(ok)]);
    CommitsAppend(events, [Committed(ok)]);
    assert [Committed(ok)][1..] == [];
    assert Built(isA, [Committed(ok)]) by {
      assert BuiltAt(isA, [Committed(ok)], 0);
    }
    BuiltAppend(isA, events, [Committed(ok)]);
  }

  /**
   * The walk over the concept list followed by the final Commit, which runs on
   * a nil transaction (and panics) when the list was empty.
   */
  method WalkAndCommit(db: Database, concepts: seq<int64>)
    returns (outcome: Outcome, ghost events: seq<Event>, ghost recs: seq<Record>, ghost upTo: nat,
             ghost answers: seq<Answers>, ghost finalOk: bool)
    modifies db
    ensures db.trace == old(db.trace) + events
    ensures |answers| <= |concepts| && (outcome == Done ==> |answers| == |concepts|)
    ensures events == Completed(concepts, answers, finalOk).calls
    ensures outcome == Completed(concepts, answers, finalOk).status
    ensures NoneRefused(events) ==> outcome == Done || concepts == []
    ensures events == [] <==> concepts == []
    ensures forall k :: 0 <= k < |events| - 1 ==> !Fatal(events[k])
    ensures outcome == Done <==> events != [] && Last(events).Committed?
    ensures outcome == Failed <==> events != [] && Fatal(Last(events))
    ensures outcome == Crashed <==> events == [] || BeginFailed(events) || StatementMissing(events)
    ensures recs == Inserts(events) && Walked(concepts, recs) && Built(db.isA, events)
    ensures upTo <= |recs| && |Commits(events)| == |Batches(recs[..upTo])|
    ensures db.committed == old(db.committed) + Kept(Batches(recs[..upTo]), Commits(events))
    ensures outcome == Done <==> 0 < upTo == |recs| == |concepts|
    ensures outcome != Done ==> upTo % BatchSize == 0 && |recs| - upTo < BatchSize
    ensures outcome == Done ==> !db.open
  {
    var hasTx;
    finalOk := false;
    outcome, hasTx, events, recs, upTo, answers := WalkAll(db, concepts);
    if events != [] {
      EndsApart(events);
    }
    if outcome != Done {
      if NoneRefused(events) {
        RunSucceeds(concepts, answers);
      }
      return;
    }
    if !hasTx {
      // The final Commit on a transaction that was never begun.
      return Crashed, events, recs, upTo, answers, finalOk;
    }
    ghost var log, pending := db.committed, db.pending;
    var ok := db.Commit();
    finalOk := ok;
    BatchedFinal(old(db.committed), log, pending, recs, upTo, Commits(events), ok);
    FinalFacts(db.isA, events, ok);
    AppendAssoc(old(db.trace), events, [Committed(ok)]);
    events := events + [Committed(ok)];
    EndsApart(events);
    assert recs[..|recs|] == recs;
    upTo := |recs|;
  }

  /** The ways a call sequence can end exclude each other. */
  lemma EndsApart(events: seq<Event>)
    requires events != []
    ensures Fatal(Last(events)) ==> !NoConcepts(events) && !BeginFailed(events) && !StatementMissing(events)
    ensures Last(events).Committed? ==> !Fatal(Last(events))
    ensures Last(events).Committed? ==> !NoConcepts(events) && !BeginFailed(events) && !StatementMissing(events)
  {
  }

  /**
   * The whole prewalk. Besides its outcome and the concept list it walked, the
   * method yields (as ghost results) the calls it made, the rows it inserted,
   * and the index upTo at which the last committed batch ends.
   */
  method PrewalkSnomedGraph(db: Database)
    returns (outcome: Outcome, concepts: seq<int64>, ghost events: seq<Event>, ghost recs: seq<Record>,
             ghost upTo: nat, ghost answers: seq<Answers>, ghost finalOk: bool)
    modifies db
    ensures db.trace == old(db.trace) + events
    ensures events != [] && events[0].ConceptsQueried?
    ensures events[0].res.QueryFailed? ==> events == [events[0]] && concepts == [] && outcome == Failed
    ensures events[0].res.Answer? ==>
      && |answers| <= |concepts| && (outcome == Done ==> |answers| == |concepts|)
      && events == [events[0]] + Completed(concepts, answers, finalOk).calls
      && outcome == Completed(concepts, answers, finalOk).status
    ensures NoneRefused(events) ==> outcome == Done || NoConcepts(events)
    ensures events[0].res.Answer? ==> concepts == Collected(events[0].res.rows)
    ensures events[0].res.Answer? && Intact(events[0].res.rows) ==>
      Distinct(concepts) && Elements(concepts) == Concepts(db.isA)
    ensures forall k :: 0 <= k < |events| - 1 ==> !Fatal(events[k])
    ensures outcome == Done <==> Last(events).Committed?
    ensures outcome == Failed <==> Fatal(Last(events))
    ensures outcome == Crashed <==> NoConcepts(events) || BeginFailed(events) || StatementMissing(events)
    ensures NoConcepts(events) <==> events[0].res.Answer? && concepts == []
    ensures recs == Inserts(events) && Walked(concepts, recs) && Built(db.isA, events)
    ensures upTo <= |recs| && |Commits(events)| == |Batches(recs[..upTo])|
    ensures db.committed == old(db.committed) + Kept(Batches(recs[..upTo]), Commits(events))
    ensures outcome == Done <==> 0 < upTo == |recs| == |concepts|
    ensures outcome != Done ==> upTo % BatchSize == 0 && |recs| - upTo < BatchSize
    ensures outcome == Done ==> !db.open
  {
    concepts, recs, upTo, answers, finalOk := [], [], 0, [], false;
    var res := db.QueryConcepts();
    events := [ConceptsQueried(res)];
    if res.QueryFailed? {
      return Failed, concepts, events, recs, upTo, answers, finalOk;
    }
    var scanErr;
    concepts, scanErr := RowsToIntSlice(res.rows, []);
    if Intact(res.rows) {
      assert [] + Values(res.rows.cells) == Values(res.rows.cells);
    }

    ghost var walk;
    outcome, walk, recs, upTo, answers, finalOk := WalkAndCommit(db, concepts);
    HeadFacts(db.isA, ConceptsQueried(res), walk);
    AppendAssoc(old(db.trace), events, walk);
    events := events + walk;
  }
}

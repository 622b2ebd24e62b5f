/**
 * Payload bytes attributed to sessions, subtrees, projects and age buckets: two queries that
 * aggregate in different orders, and the totals they share.
 */
module Attribution {
  import opened Basics
  import opened Forest
  import opened Recursion
  import opened Schema
  import opened Ages
  import opened Sums

  /** The tables whose payload columns are attributed to sessions. */
  predicate IsPayload(t: Table) {
    t.Messages? || t.Parts? || t.ContextEpochs? || t.SessionMessages? || t.Events?
  }

  /** A payload row: the session it names, and the bytes of its payload columns. */
  datatype Entry = Entry(session: Id, bytes: nat)

  type Ledger = map<Ref, Entry>

  function LedgerOf(db: Database): Ledger {
    (map r: Ref | r in db.owned && IsPayload(r.table) :: Entry(db.owned[r].owner, db.owned[r].bytes))
    + (map id | id in db.parts :: Ref(Parts, id) := Entry(db.parts[id].session, db.parts[id].bytes))
  }

  function Weights(l: Ledger): map<Ref, nat> {
    map r | r in l :: l[r].bytes
  }

  function RowsOf(l: Ledger, t: Table, session: Id): set<Ref> {
    set r | r in l && r.table == t && l[r].session == session
  }

  /** One rollup, joined to a session: the bytes of its rows, zero when it has none. */
  ghost function TableBytes(l: Ledger, t: Table, session: Id): nat {
    Sum(RowsOf(l, t, session), Weights(l))
  }

  /** The attribution query adds five rollups per session. */
  ghost function SelfBytes(l: Ledger, session: Id): nat {
    TableBytes(l, Messages, session) + TableBytes(l, Parts, session) + TableBytes(l, ContextEpochs, session)
    + TableBytes(l, SessionMessages, session) + TableBytes(l, Events, session)
  }

  /** A row of the age query's union. Context epochs enter it already summed by session. */
  datatype UnionRow = Row(ref: Ref) | EpochSum(session: Id)

  ghost function UnionRows(l: Ledger): set<UnionRow> {
    (set r | r in l && IsPayload(r.table) && !r.table.ContextEpochs? :: Row(r))
    + (set r | r in l && r.table.ContextEpochs? :: EpochSum(l[r].session))
  }

  ghost function UnionWeights(l: Ledger): map<UnionRow, nat> {
    map u | u in UnionRows(l) :: match u case Row(r) => l[r].bytes case EpochSum(s) => TableBytes(l, ContextEpochs, s)
  }

  ghost function UnionSessions(l: Ledger): map<UnionRow, Id> {
    map u | u in UnionRows(l) :: match u case Row(r) => l[r].session case EpochSum(s) => s
  }

  /** The age query sums the union of all payload rows by session. */
  ghost function UnionBytes(l: Ledger, session: Id): nat {
    Sum(Group(UnionRows(l), UnionSessions(l), session), UnionWeights(l))
  }

  ghost function PartOf(l: Ledger, t: Table, session: Id): set<UnionRow> {
    if t.ContextEpochs? then (if RowsOf(l, t, session) == {} then {} else {EpochSum(session)})
    else set r | r in RowsOf(l, t, session) :: Row(r)
  }

  /** One table's share of a session's rows in the union. */
  lemma TablePart(l: Ledger, t: Table, session: Id)
    requires IsPayload(t)
    ensures PartOf(l, t, session) <= UnionRows(l)
    ensures Sum(PartOf(l, t, session), UnionWeights(l)) == TableBytes(l, t, session)
  {
    var rows, part := RowsOf(l, t, session), PartOf(l, t, session);
    if !t.ContextEpochs? {
      var name := map u | u in part :: u.ref;
      forall r <- rows ensures exists u <- part :: name[u] == r { assert name[Row(r)] == r; }
      SumRenamed(part, UnionWeights(l), rows, Weights(l), name);
    } else if rows != {} {
      var r := Pick(rows);
      assert EpochSum(l[r].session) in UnionRows(l);
      SumRemove(part, UnionWeights(l), EpochSum(session));
      assert part - {EpochSum(session)} == {};
    }
  }

  lemma GroupSplits(l: Ledger, session: Id)
    ensures Group(UnionRows(l), UnionSessions(l), session) ==
            PartOf(l, Messages, session) + PartOf(l, Parts, session) + PartOf(l, ContextEpochs, session)
            + PartOf(l, SessionMessages, session) + PartOf(l, Events, session)
  {
    var group := Group(UnionRows(l), UnionSessions(l), session);
    forall u ensures u in group <==>
      u in PartOf(l, Messages, session) || u in PartOf(l, Parts, session) || u in PartOf(l, ContextEpochs, session)
      || u in PartOf(l, SessionMessages, session) || u in PartOf(l, Events, session)
    {
      if u.EpochSum? && u in group {
        var r :| r in l && r.table.ContextEpochs? && l[r].session == u.session;
        assert r in RowsOf(l, ContextEpochs, session);
      }
      if u.EpochSum? && u in PartOf(l, ContextEpochs, session) {
        var r := Pick(RowsOf(l, ContextEpochs, session));
      }
    }
  }

  lemma PartsApart(l: Ledger, session: Id)
    ensures Apart(PartOf(l, Messages, session), PartOf(l, Parts, session), PartOf(l, ContextEpochs, session),
                  PartOf(l, SessionMessages, session), PartOf(l, Events, session))
  {
  }

  ghost predicate Apart<T>(a: set<T>, b: set<T>, c: set<T>, d: set<T>, e: set<T>) {
    a !! b && a + b !! c && a + b + c !! d && a + b + c + d !! e
  }

  lemma SumFive<T>(a: set<T>, b: set<T>, c: set<T>, d: set<T>, e: set<T>, w: map<T, nat>)
    requires a <= w.Keys && b <= w.Keys && c <= w.Keys && d <= w.Keys && e <= w.Keys
    requires Apart(a, b, c, d, e)
    ensures Sum(a + b + c + d + e, w) == Sum(a, w) + Sum(b, w) + Sum(c, w) + Sum(d, w) + Sum(e, w)
  {
    SumUnion(a, b, w);
    SumUnion(a + b, c, w);
    SumUnion(a + b + c, d, w);
    SumUnion(a + b + c + d, e, w);
  }

  /** Aggregating each table and joining agrees with joining all rows and aggregating. */
  lemma AccountingAgrees(l: Ledger, session: Id)
    ensures UnionBytes(l, session) == SelfBytes(l, session)
  {
    GroupSplits(l, session);
    PartsApart(l, session);
    TablePart(l, Messages, session);
    TablePart(l, Parts, session);
    TablePart(l, ContextEpochs, session);
    TablePart(l, SessionMessages, session);
    TablePart(l, Events, session);
    SumFive(PartOf(l, Messages, session), PartOf(l, Parts, session), PartOf(l, ContextEpochs, session),
            PartOf(l, SessionMessages, session), PartOf(l, Events, session), UnionWeights(l));
  }

  /** The bytes of every session. */
  ghost function SelfWeights(l: Ledger, sessions: set<Id>): map<Id, nat> {
    map id | id in sessions :: SelfBytes(l, id)
  }

  ghost function Sizes(db: Database): map<Id, nat> {
    SelfWeights(LedgerOf(db), db.sessions.Keys)
  }

  /** The rows whose payload counts for some sessions: messages, parts, context epochs, session messages and events. */
  ghost function PayloadRows(db: Database, sessions: set<Id>): set<Ref> {
    (set r: Ref | r in db.owned && db.owned[r].owner in sessions
                  && (r.table.Messages? || r.table.ContextEpochs? || r.table.SessionMessages? || r.table.Events?))
    + (set id | id in db.parts && db.parts[id].session in sessions :: Ref(Parts, id))
  }

  ghost function RowBytes(db: Database): map<Ref, nat> {
    (map r: Ref | r in db.owned :: db.owned[r].bytes) + (map id | id in db.parts :: Ref(Parts, id) := db.parts[id].bytes)
  }

  ghost function RowSessions(db: Database): map<Ref, Id> {
    (map r: Ref | r in db.owned :: db.owned[r].owner) + (map id | id in db.parts :: Ref(Parts, id) := db.parts[id].session)
  }

  lemma LedgerRow(db: Database, r: Ref)
    ensures r in LedgerOf(db) <==> r in RowBytes(db) && IsPayload(r.table)
    ensures r in LedgerOf(db) ==> LedgerOf(db)[r] == Entry(RowSessions(db)[r], RowBytes(db)[r])
    ensures r in RowBytes(db) ==> r in RowSessions(db)
  {
  }

  lemma PayloadRow(db: Database, sessions: set<Id>, r: Ref)
    ensures r in PayloadRows(db, sessions) <==>
              && r in RowSessions(db) && r in RowBytes(db) && RowSessions(db)[r] in sessions
              && (r.table.Messages? || r.table.Parts? || r.table.ContextEpochs? || r.table.SessionMessages? || r.table.Events?)
  {
  }

  lemma TablesOf(l: Ledger, session: Id, a: set<Ref>, b: set<Ref>, c: set<Ref>, d: set<Ref>, e: set<Ref>)
    requires a == RowsOf(l, Messages, session) && b == RowsOf(l, Parts, session) && c == RowsOf(l, ContextEpochs, session)
    requires d == RowsOf(l, SessionMessages, session) && e == RowsOf(l, Events, session)
    ensures a + b + c + d + e <= l.Keys && SelfBytes(l, session) == Sum(a + b + c + d + e, Weights(l))
  {
    SumFive(a, b, c, d, e, Weights(l));
  }

  lemma AllTablesOf(l: Ledger, session: Id, a: set<Ref>, b: set<Ref>, c: set<Ref>, d: set<Ref>, e: set<Ref>)
    requires a == RowsOf(l, Messages, session) && b == RowsOf(l, Parts, session) && c == RowsOf(l, ContextEpochs, session)
    requires d == RowsOf(l, SessionMessages, session) && e == RowsOf(l, Events, session)
    ensures forall r :: r in a + b + c + d + e <==> r in l && l[r].session == session && IsPayload(r.table)
  {
  }

  /** A session's own bytes are those of its payload rows. */
  lemma SelfBytesExactly(db: Database, session: Id)
    ensures PayloadRows(db, {session}) <= RowBytes(db).Keys
    ensures SelfBytes(LedgerOf(db), session) == Sum(PayloadRows(db, {session}), RowBytes(db))
  {
    var l := LedgerOf(db);
    var a, b, c := RowsOf(l, Messages, session), RowsOf(l, Parts, session), RowsOf(l, ContextEpochs, session);
    var d, e := RowsOf(l, SessionMessages, session), RowsOf(l, Events, session);
    TablesOf(l, session, a, b, c, d, e);
    AllTablesOf(l, session, a, b, c, d, e);
    SameRows(db, session, a + b + c + d + e);
  }

  lemma RowWeight(db: Database, r: Ref)
    requires r in LedgerOf(db)
    ensures r in Weights(LedgerOf(db)) && r in RowBytes(db) && Weights(LedgerOf(db))[r] == RowBytes(db)[r]
  {
    LedgerRow(db, r);
  }

  lemma LedgerIsPayload(db: Database, session: Id, r: Ref)
    ensures r in LedgerOf(db) && LedgerOf(db)[r].session == session && IsPayload(r.table) <==> r in PayloadRows(db, {session})
  {
    LedgerRow(db, r);
    PayloadRow(db, {session}, r);
  }

  lemma SameRows(db: Database, session: Id, rows: set<Ref>)
    requires forall r :: r in rows <==> r in LedgerOf(db) && LedgerOf(db)[r].session == session && IsPayload(r.table)
    ensures rows == PayloadRows(db, {session}) && rows <= Weights(LedgerOf(db)).Keys && rows <= RowBytes(db).Keys
    ensures Sum(rows, Weights(LedgerOf(db))) == Sum(rows, RowBytes(db))
  {
    var payload := PayloadRows(db, {session});
    forall r ensures r in rows <==> r in payload { LedgerIsPayload(db, session, r); }
    WeightsAgree(db, rows);
  }

  lemma WeightsAgree(db: Database, rows: set<Ref>)
    requires rows <= LedgerOf(db).Keys
    ensures rows <= Weights(LedgerOf(db)).Keys && rows <= RowBytes(db).Keys
    ensures Sum(rows, Weights(LedgerOf(db))) == Sum(rows, RowBytes(db))
  {
    var w, v := Weights(LedgerOf(db)), RowBytes(db);
    forall r <- rows ensures r in w && r in v && w[r] == v[r] { RowWeight(db, r); }
    SumSame(rows, w, v);
  }

  /** A session's bytes with those of all its descendants. */
  ghost function SubtreeBytes(f: Parents, w: map<Id, nat>, id: Id): nat
    requires w.Keys == f.Keys
  {
    Sum(Descendants(f, {id}), w)
  }

  lemma RowsOfGroup(db: Database, sessions: set<Id>, session: Id, rows: set<Ref>)
    requires session in sessions && rows == PayloadRows(db, sessions) && rows <= RowSessions(db).Keys
    ensures Group(rows, RowSessions(db), session) == PayloadRows(db, {session})
  {
    forall r ensures r in Group(rows, RowSessions(db), session) <==> r in PayloadRows(db, {session}) {
      PayloadRow(db, sessions, r);
      PayloadRow(db, {session}, r);
    }
  }

  lemma SumOfSizes(db: Database, sessions: set<Id>, rows: set<Ref>)
    requires sessions <= db.sessions.Keys && rows == PayloadRows(db, sessions)
    ensures rows <= RowBytes(db).Keys && Sum(sessions, Sizes(db)) == Sum(rows, RowBytes(db))
  {
    forall r <- rows ensures r in RowSessions(db) && r in RowBytes(db) && RowSessions(db)[r] in sessions { PayloadRow(db, sessions, r); }
    forall d <- sessions ensures Sizes(db)[d] == Sum(Group(rows, RowSessions(db), d), RowBytes(db)) {
      RowsOfGroup(db, sessions, d, rows);
      SelfBytesExactly(db, d);
    }
    SumByKey(rows, RowBytes(db), RowSessions(db), sessions, Sizes(db));
  }

  /** The session and all sessions below it. */
  ghost function Below(db: Database, id: Id): set<Id> {
    set d | d in db.sessions && Above(ParentsOf(db), id, d)
  }

  lemma BelowIsSubtree(db: Database, id: Id)
    ensures Below(db, id) == Descendants(ParentsOf(db), {id})
  {
  }

  lemma PayloadWithin(db: Database, sessions: set<Id>)
    ensures PayloadRows(db, sessions) <= RowBytes(db).Keys
  {
    forall r <- PayloadRows(db, sessions) ensures r in RowBytes(db) { PayloadRow(db, sessions, r); }
  }

  /** The payload of a subtree: the bytes of all payload rows of its sessions. */
  ghost function PayloadBelow(db: Database, id: Id): nat {
    PayloadWithin(db, Below(db, id));
    Sum(PayloadRows(db, Below(db, id)), RowBytes(db))
  }

  /** Subtree bytes are the bytes of the payload rows of the session and of all sessions below it, each row once. */
  lemma SubtreeBytesExactly(db: Database, id: Id)
    ensures SubtreeBytes(ParentsOf(db), Sizes(db), id) == PayloadBelow(db, id)
  {
    BelowIsSubtree(db, id);
    SumOfSizes(db, Below(db, id), PayloadRows(db, Below(db, id)));
  }

  /** `SUM` over the rows of an acyclic root counts every descendant once. */
  lemma RowSum(f: Parents, w: map<Id, nat>, id: Id, rows: map<Path, nat>)
    requires w.Keys == f.Keys && !OnCycle(f, id) && rows.Keys == Subtree(f, {id})
    requires forall p <- rows :: Last(p) in f && rows[p] == w[Last(p)]
    ensures Sum(rows.Keys, rows) == SubtreeBytes(f, w, id)
  {
    SubtreeCovers(f, id);
    var t := Descendants(f, {id});
    var name := map p | p in rows :: Last(p);
    forall p <- rows ensures name[p] in t { assert Above(f, id, Last(p)); }
    forall d <- t ensures exists p <- rows :: name[p] == d {
      assert Above(f, id, d);
      var p :| p in Subtree(f, {id}) && Last(p) == d;
    }
    SumRenamed(rows.Keys, rows, t, w, name);
  }

  method Total<T(==)>(s: set<T>, w: map<T, nat>) returns (n: nat)
    requires s <= w.Keys
    ensures n == Sum(s, w)
  {
    n := 0;
    var rest := s;
    while rest != {}
      invariant rest <= s && n + Sum(rest, w) == Sum(s, w)
    {
      var x :| x in rest;
      SumRemove(rest, w, x);
      n, rest := n + w[x], rest - {x};
    }
  }

  method SessionBytes(l: Ledger, session: Id) returns (n: nat)
    ensures n == SelfBytes(l, session)
  {
    var w := Weights(l);
    var a := Total(RowsOf(l, Messages, session), w);
    var b := Total(RowsOf(l, Parts, session), w);
    var c := Total(RowsOf(l, ContextEpochs, session), w);
    var d := Total(RowsOf(l, SessionMessages, session), w);
    var e := Total(RowsOf(l, Events, session), w);
    n := a + b + c + d + e;
  }

  method SelfRollup(l: Ledger, sessions: set<Id>) returns (w: map<Id, nat>)
    ensures w == SelfWeights(l, sessions)
  {
    w := map[];
    var rest := sessions;
    ghost var done: set<Id> := {};
    while rest != {}
      invariant rest == sessions - done && done <= sessions && w == SelfWeights(l, done)
      decreases rest
    {
      var id :| id in rest;
      var n := SessionBytes(l, id);
      WeightsNext(l, done, id, n);
      w, rest, done := w[id := n], rest - {id}, done + {id};
    }
    assert done == sessions;
  }

  lemma WeightsNext(l: Ledger, done: set<Id>, id: Id, n: nat)
    requires n == SelfBytes(l, id)
    ensures SelfWeights(l, done + {id}) == SelfWeights(l, done)[id := n]
  {
    var w, v := SelfWeights(l, done), SelfWeights(l, done + {id});
    assert v.Keys == w[id := n].Keys;
  }

  /** One group of the subtree rollup, or none when one of its rows carries the cycle marker. */
  method GroupBytes(f: Parents, w: map<Id, nat>, rows: set<Path>, id: Id) returns (n: Option<nat>)
    requires w.Keys == f.Keys && rows == Subtree(f, f.Keys) && id in f
    ensures n.None? <==> OnCycle(f, id)
    ensures n.Some? ==> n.value == SubtreeBytes(f, w, id)
  {
    var group := set p | p in rows && p[0] == id;
    GroupExact(f, id);
    if exists p <- group :: Repeats(p) {
      return None;
    }
    SubtreeExact(f, {id});
    assert forall p <- group :: Last(p) in f;
    var bytes := map p | p in group :: w[Last(p)];
    RowSum(f, w, id, bytes);
    var total := Total(group, bytes);
    n := Some(total);
  }

  /** Every part's message exists and belongs to the session the part names. */
  predicate AllAttributed(db: Database) {
    forall id <- db.parts :: AttributedPart(db, id)
  }

  ghost function Large(f: Parents, w: map<Id, nat>, threshold: nat): set<Id>
    requires w.Keys == f.Keys
  {
    set id | id in f && SubtreeBytes(f, w, id) >= threshold
  }

  ghost function LargeSet(db: Database, threshold: nat): set<Id> {
    Large(ParentsOf(db), Sizes(db), threshold)
  }

  /** The groups of the subtree rollup that meet a threshold, or a session on a parent cycle. */
  method LargeGroups(f: Parents, w: map<Id, nat>, threshold: nat) returns (r: Result<set<Id>>)
    requires w.Keys == f.Keys
    ensures r.Success? <==> Acyclic(f)
    ensures r.Success? ==> r.value == Large(f, w, threshold)
    ensures r.Failure? ==> r.error.ParentCycle? && OnCycle(f, r.error.root)
  {
    var rows := Subtree(f, f.Keys);
    var large: set<Id> := {};
    var rest := f.Keys;
    while rest != {}
      invariant rest <= f.Keys && large <= f.Keys - rest
      invariant forall id | id in f.Keys - rest :: !OnCycle(f, id) && (id in large <==> SubtreeBytes(f, w, id) >= threshold)
    {
      var id :| id in rest;
      var n := GroupBytes(f, w, rows, id);
      if n.None? {
        return Failure(ParentCycle(id));
      }
      large, rest := if n.value >= threshold then large + {id} else large, rest - {id};
    }
    assert f.Keys - rest == f.Keys;
    r := Success(large);
  }

  /** Sessions whose subtree holds at least `threshold` bytes. */
  method LargerThan(db: Database, threshold: nat) returns (r: Result<set<Id>>)
    ensures r.Success? <==> AllAttributed(db) && Acyclic(ParentsOf(db))
    ensures r.Success? ==> r.value == LargeSet(db, threshold)
    ensures r.Success? ==> forall id :: id in r.value <==> id in db.sessions && PayloadBelow(db, id) >= threshold
    ensures !AllAttributed(db) ==> r == Failure(AttributionDiverges)
    ensures AllAttributed(db) && r.Failure? ==> r.error.ParentCycle? && OnCycle(ParentsOf(db), r.error.root)
  {
    if !AllAttributed(db) {
      return Failure(AttributionDiverges);
    }
    var self := SelfRollup(LedgerOf(db), db.sessions.Keys);
    r := LargeGroups(ParentsOf(db), self, threshold);
    LargeExactly(db, threshold);
  }

  lemma LargeExactly(db: Database, threshold: nat)
    ensures forall id :: id in LargeSet(db, threshold) <==> id in db.sessions && PayloadBelow(db, id) >= threshold
  {
    forall id ensures id in LargeSet(db, threshold) <==> id in db.sessions && PayloadBelow(db, id) >= threshold {
      SubtreeBytesExactly(db, id);
    }
  }

  /** A session's ancestors are at least as large. */
  lemma LargeAncestors(f: Parents, w: map<Id, nat>, threshold: nat)
    requires w.Keys == f.Keys
    ensures ParentClosed(f, Large(f, w, threshold))
  {
    forall c <- f | c in Large(f, w, threshold) && ParentPresent(f, c) ensures f[c].value in Large(f, w, threshold) {
      ParentAbove(f, c);
      forall d <- Descendants(f, {c}) ensures d in Descendants(f, {f[c].value}) { AboveTransitive(f, f[c].value, c, d); }
      SumSubset(Descendants(f, {c}), Descendants(f, {f[c].value}), w);
    }
  }

  lemma TreeGroup(f: Parents, key: map<Id, Id>, r: Id)
    requires Acyclic(f) && IsRoot(f, r) && key == map id | id in f :: Top(f, id)
    ensures Descendants(f, {r}) == Group(f.Keys, key, r)
  {
    forall d <- f ensures Above(f, r, d) <==> key[d] == r {
      if Above(f, r, d) { TopUnique(f, r, d); }
    }
  }

  /** The subtree totals of the forest roots add up to the bytes of all sessions. */
  lemma RootsTotal(f: Parents, w: map<Id, nat>, roots: set<Id>, sums: map<Id, nat>)
    requires Acyclic(f) && w.Keys == f.Keys
    requires roots == (set id | id in f && IsRoot(f, id)) && roots <= sums.Keys
    requires forall id <- roots :: sums[id] == SubtreeBytes(f, w, id)
    ensures Sum(roots, sums) == Sum(f.Keys, w)
  {
    var key := map id | id in f :: Top(f, id);
    forall r <- roots ensures Descendants(f, {r}) == Group(f.Keys, key, r) { TreeGroup(f, key, r); }
    SumByKey(f.Keys, w, key, roots, sums);
  }

  /** The sessions of every project, and those whose project row is gone. */
  ghost function SessionsOf(db: Database, project: Id): set<Id> {
    set id | id in db.sessions && db.sessions[id].project == project
  }

  ghost function Homeless(db: Database): set<Id> {
    set id | id in db.sessions && db.sessions[id].project !in db.projects
  }

  /** The project rollup accounts for every byte but those of sessions without a project row. */
  lemma ProjectsTotal(db: Database, w: map<Id, nat>, sums: map<Id, nat>)
    requires w.Keys == db.sessions.Keys && sums.Keys == db.projects.Keys
    requires forall p <- db.projects :: sums[p] == Sum(SessionsOf(db, p), w)
    ensures Sum(db.projects.Keys, sums) + Sum(Homeless(db), w) == Sum(db.sessions.Keys, w)
  {
    var housed := db.sessions.Keys - Homeless(db);
    var key := map id | id in db.sessions :: db.sessions[id].project;
    forall p <- db.projects ensures Group(housed, key, p) == SessionsOf(db, p) {}
    SumByKey(housed, w, key, db.projects.Keys, sums);
    SumUnion(housed, Homeless(db), w);
    assert housed + Homeless(db) == db.sessions.Keys;
  }

  const DAY_MS: int := 86_400_000

  /** The bucket of an update time: younger than 7, 30, 90 or 180 days, or older. */
  function Bucket(nowMs: int, time: int): nat {
    if time > nowMs - 7 * DAY_MS then 0
    else if time > nowMs - 30 * DAY_MS then 1
    else if time > nowMs - 90 * DAY_MS then 2
    else if time > nowMs - 180 * DAY_MS then 3
    else 4
  }

  datatype AgeBucket = AgeBucket(sessions: nat, bytes: nat)

  function InBucket(db: Database, nowMs: int, bucket: nat): set<Id> {
    set id | id in db.sessions && Bucket(nowMs, db.sessions[id].timeUpdated) == bucket
  }

  ghost function PayloadWeights(l: Ledger, sessions: set<Id>): map<Id, nat> {
    map id | id in sessions :: UnionBytes(l, id)
  }

  lemma SameWeights(l: Ledger, sessions: set<Id>)
    ensures PayloadWeights(l, sessions) == SelfWeights(l, sessions)
  {
    forall id <- sessions ensures UnionBytes(l, id) == SelfBytes(l, id) { AccountingAgrees(l, id); }
  }

  /** The age distribution. Its boundaries must be representable. */
  method AgeDistribution(db: Database, nowMs: int) returns (r: Result<seq<AgeBucket>>)
    ensures r.Success? <==> nowMs - 180 * DAY_MS >= MIN_EPOCH
    ensures r.Success? ==> |r.value| == 5
    ensures r.Success? ==>
              var w := PayloadWeights(LedgerOf(db), db.sessions.Keys);
              forall i: nat | i < 5 :: r.value[i] == AgeBucket(|InBucket(db, nowMs, i)|, Sum(InBucket(db, nowMs, i), w))
  {
    for n := 0 to 4
      invariant n > 3 ==> nowMs - 180 * DAY_MS >= MIN_EPOCH
    {
      if nowMs - [7, 30, 90, 180][n] * DAY_MS < MIN_EPOCH {
        return Failure(InvalidArgument);
      }
    }
    var payload := SelfRollup(LedgerOf(db), db.sessions.Keys);
    SameWeights(LedgerOf(db), db.sessions.Keys);
    var rows := BucketRows(db, nowMs, payload);
    r := BucketsFromRows(rows);
    assert r.Success?;
    forall i: nat | i < 5 ensures r.value[i] == AgeBucket(|InBucket(db, nowMs, i)|, Sum(InBucket(db, nowMs, i), payload)) {
      BucketFilled(db, nowMs, payload, rows, r.value, i);
    }
  }

  /** A row of the age query: one bucket with its sessions and bytes. */
  datatype BucketRow = BucketRow(bucket: int, sessions: int, bytes: int)

  /** A bucket number, and counts that are not negative. */
  predicate Readable(row: BucketRow) {
    0 <= row.bucket < 5 && row.sessions >= 0 && row.bytes >= 0
  }

  /** `GROUP BY bucket`: one row for every bucket that has sessions, in order. */
  method BucketRows(db: Database, nowMs: int, w: map<Id, nat>) returns (rows: seq<BucketRow>)
    requires w.Keys == db.sessions.Keys
    ensures forall k | 0 <= k < |rows| ::
              0 <= rows[k].bucket < 5 && InBucket(db, nowMs, rows[k].bucket) != {}
              && rows[k].sessions == |InBucket(db, nowMs, rows[k].bucket)| && rows[k].bytes == Sum(InBucket(db, nowMs, rows[k].bucket), w)
    ensures forall j, k | 0 <= j < k < |rows| :: rows[j].bucket < rows[k].bucket
    ensures forall b | 0 <= b < 5 && InBucket(db, nowMs, b) != {} :: exists k :: 0 <= k < |rows| && rows[k].bucket == b
  {
    rows := [];
    for i := 0 to 5
      invariant forall k | 0 <= k < |rows| ::
                  0 <= rows[k].bucket < i && InBucket(db, nowMs, rows[k].bucket) != {}
                  && rows[k].sessions == |InBucket(db, nowMs, rows[k].bucket)| && rows[k].bytes == Sum(InBucket(db, nowMs, rows[k].bucket), w)
      invariant forall j, k | 0 <= j < k < |rows| :: rows[j].bucket < rows[k].bucket
      invariant forall b | 0 <= b < i && InBucket(db, nowMs, b) != {} :: exists k :: 0 <= k < |rows| && rows[k].bucket == b
    {
      var members := InBucket(db, nowMs, i);
      if members != {} {
        var bytes := Total(members, w);
        ghost var had := rows;
        rows := rows + [BucketRow(i, |members|, bytes)];
        assert rows[|had|].bucket == i;
        forall b | 0 <= b < i && InBucket(db, nowMs, b) != {} ensures exists k :: 0 <= k < |rows| && rows[k].bucket == b {
          var k :| 0 <= k < |had| && had[k].bucket == b;
          assert rows[k].bucket == b;
        }
      }
    }
  }

  lemma BucketFilled(db: Database, nowMs: int, w: map<Id, nat>, rows: seq<BucketRow>, buckets: seq<AgeBucket>, i: nat)
    requires w.Keys == db.sessions.Keys && |buckets| == 5 && i < 5 && forall k | 0 <= k < |rows| :: rows[k].sessions >= 0 && rows[k].bytes >= 0
    requires forall k | 0 <= k < |rows| ::
               0 <= rows[k].bucket < 5 && InBucket(db, nowMs, rows[k].bucket) != {}
               && rows[k].sessions == |InBucket(db, nowMs, rows[k].bucket)| && rows[k].bytes == Sum(InBucket(db, nowMs, rows[k].bucket), w)
    requires forall j, k | 0 <= j < k < |rows| :: rows[j].bucket < rows[k].bucket
    requires InBucket(db, nowMs, i) != {} ==> exists k :: 0 <= k < |rows| && rows[k].bucket == i
    requires forall k | 0 <= k < |rows| ::
               (forall j | k < j < |rows| :: rows[j].bucket != rows[k].bucket) ==>
                 buckets[rows[k].bucket] == AgeBucket(rows[k].sessions, rows[k].bytes)
    requires (forall k | 0 <= k < |rows| :: rows[k].bucket != i) ==> buckets[i] == AgeBucket(0, 0)
    ensures buckets[i] == AgeBucket(|InBucket(db, nowMs, i)|, Sum(InBucket(db, nowMs, i), w))
  {
    if InBucket(db, nowMs, i) != {} {
      var k :| 0 <= k < |rows| && rows[k].bucket == i;
      assert buckets[rows[k].bucket] == AgeBucket(rows[k].sessions, rows[k].bytes);
    }
  }

  /** The intervals in milliseconds of age: they start at 0, 7, 30, 90 and 180 days, and their start belongs to them. */
  lemma BucketExactly(nowMs: int, time: int)
    ensures var age, bucket := nowMs - time, Bucket(nowMs, time);
            && (bucket == 0 <==> age < 604_800_000)
            && (bucket == 1 <==> 604_800_000 <= age < 2_592_000_000)
            && (bucket == 2 <==> 2_592_000_000 <= age < 7_776_000_000)
            && (bucket == 3 <==> 7_776_000_000 <= age < 15_552_000_000)
            && (bucket == 4 <==> 15_552_000_000 <= age)
  {
  }

  /** The five buckets from the rows of the query; a bucket without a row stays empty. */
  method BucketsFromRows(rows: seq<BucketRow>) returns (r: Result<seq<AgeBucket>>)
    ensures r.Success? <==> forall k | 0 <= k < |rows| :: Readable(rows[k])
    ensures r.Failure? ==> r.error == ColumnOutOfRange
    ensures r.Success? ==> |r.value| == 5
    ensures r.Success? ==> forall k | 0 <= k < |rows| ::
              (forall j | k < j < |rows| :: rows[j].bucket != rows[k].bucket) ==>
                r.value[rows[k].bucket] == AgeBucket(rows[k].sessions, rows[k].bytes)
    ensures r.Success? ==> forall b | 0 <= b < 5 ::
              (forall k | 0 <= k < |rows| :: rows[k].bucket != b) ==> r.value[b] == AgeBucket(0, 0)
  {
    var buckets := [AgeBucket(0, 0), AgeBucket(0, 0), AgeBucket(0, 0), AgeBucket(0, 0), AgeBucket(0, 0)];
    for i := 0 to |rows|
      invariant |buckets| == 5 && forall k | 0 <= k < i :: Readable(rows[k])
      invariant forall k | 0 <= k < i ::
                  (forall j | k < j < i :: rows[j].bucket != rows[k].bucket) ==>
                    buckets[rows[k].bucket] == AgeBucket(rows[k].sessions, rows[k].bytes)
      invariant forall b | 0 <= b < 5 :: (forall k | 0 <= k < i :: rows[k].bucket != b) ==> buckets[b] == AgeBucket(0, 0)
    {
      var row := rows[i];
      if !(0 <= row.bucket < 5) {
        return Failure(ColumnOutOfRange);
      }
      if row.sessions < 0 || row.bytes < 0 {
        return Failure(ColumnOutOfRange);
      }
      buckets := buckets[row.bucket := AgeBucket(row.sessions, row.bytes)];
    }
    r := Success(buckets);
  }

  lemma SizeFive<T>(a: set<T>, b: set<T>, c: set<T>, d: set<T>, e: set<T>)
    requires Apart(a, b, c, d, e)
    ensures |a + b + c + d + e| == |a| + |b| + |c| + |d| + |e|
  {
  }

  /** The buckets partition the sessions. */
  lemma BucketsPartition(db: Database, nowMs: int, b0: set<Id>, b1: set<Id>, b2: set<Id>, b3: set<Id>, b4: set<Id>)
    requires b0 == InBucket(db, nowMs, 0) && b1 == InBucket(db, nowMs, 1) && b2 == InBucket(db, nowMs, 2)
    requires b3 == InBucket(db, nowMs, 3) && b4 == InBucket(db, nowMs, 4)
    ensures Apart(b0, b1, b2, b3, b4) && b0 + b1 + b2 + b3 + b4 == db.sessions.Keys
    ensures |b0| + |b1| + |b2| + |b3| + |b4| == |db.sessions.Keys|
  {
    var key := Buckets(db, nowMs);
    FiveGroups(db.sessions.Keys, key);
    BucketGroup(db, nowMs, 0);
    BucketGroup(db, nowMs, 1);
    BucketGroup(db, nowMs, 2);
    BucketGroup(db, nowMs, 3);
    BucketGroup(db, nowMs, 4);
    SizeFive(b0, b1, b2, b3, b4);
  }

  ghost function Buckets(db: Database, nowMs: int): map<Id, nat> {
    map id | id in db.sessions :: Bucket(nowMs, db.sessions[id].timeUpdated)
  }

  lemma BucketGroup(db: Database, nowMs: int, bucket: nat)
    ensures InBucket(db, nowMs, bucket) == Group(db.sessions.Keys, Buckets(db, nowMs), bucket)
    ensures forall id <- Buckets(db, nowMs) :: Buckets(db, nowMs)[id] < 5
  {
  }

  lemma FiveGroups(s: set<Id>, key: map<Id, nat>)
    requires s == key.Keys && forall x <- s :: key[x] < 5
    ensures Apart(Group(s, key, 0), Group(s, key, 1), Group(s, key, 2), Group(s, key, 3), Group(s, key, 4))
    ensures Group(s, key, 0) + Group(s, key, 1) + Group(s, key, 2) + Group(s, key, 3) + Group(s, key, 4) == s
  {
  }

  /** Their bytes add up to the total of the attribution query. */
  lemma BucketsTotal(db: Database, nowMs: int, w: map<Id, nat>)
    requires w == PayloadWeights(LedgerOf(db), db.sessions.Keys)
    ensures Sum(InBucket(db, nowMs, 0), w) + Sum(InBucket(db, nowMs, 1), w) + Sum(InBucket(db, nowMs, 2), w)
            + Sum(InBucket(db, nowMs, 3), w) + Sum(InBucket(db, nowMs, 4), w) == Sum(db.sessions.Keys, Sizes(db))
  {
    var b0, b1, b2 := InBucket(db, nowMs, 0), InBucket(db, nowMs, 1), InBucket(db, nowMs, 2);
    var b3, b4 := InBucket(db, nowMs, 3), InBucket(db, nowMs, 4);
    BucketsPartition(db, nowMs, b0, b1, b2, b3, b4);
    SumFive(b0, b1, b2, b3, b4, w);
    SameWeights(LedgerOf(db), db.sessions.Keys);
  }
}

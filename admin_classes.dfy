/** The administrator's class page (app/admin/classes/page.tsx): creating a
    class with its teacher/subject assignments, reconciling a class's
    assignments against an edited list, the assignment form rows, and the
    teacher names shown beside each assignment. */
module AdminClasses {
  import opened Common
  import opened Records
  import opened Database

  // ---------------------------------------------------------------------
  // Assignment rows of one class

  /** `rows.some(c => c.teacher_id === p.teacher_id && c.subject === p.subject)`. */
  predicate HasPair(rows: seq<Assignment>, p: Pair)
  {
    exists a :: a in rows && PairOf(a) == p
  }

  /** The removals of the given rows, by id, in order. */
  function Removes(rows: seq<Assignment>): (ws: seq<AssignmentWrite>)
    ensures |ws| == |rows|
    ensures forall i :: 0 <= i < |rows| ==> ws[i] == RemoveAssignment(rows[i].id)
  {
    seq(|rows|, i requires 0 <= i < |rows| => RemoveAssignment(rows[i].id))
  }

  /** The insertions of the given pairs into class `classId`, in order. */
  function Adds(classId: Id, ps: seq<Pair>): (ws: seq<AssignmentWrite>)
    ensures |ws| == |ps|
    ensures forall i :: 0 <= i < |ps| ==> ws[i] == AddAssignment(classId, ps[i])
  {
    seq(|ps|, i requires 0 <= i < |ps| => AddAssignment(classId, ps[i]))
  }

  // ---------------------------------------------------------------------
  // Reconciling a class's assignments with an edit list

  /** The current rows whose pair is absent from the edit list: these are deleted. */
  function Doomed(current: seq<Assignment>, edits: seq<Pair>): seq<Assignment>
  {
    Filter((a: Assignment) => PairOf(a) !in edits, current)
  }

  /** The edit pairs that match no current row: these are inserted. */
  function Added(current: seq<Assignment>, edits: seq<Pair>): seq<Pair>
  {
    Filter((p: Pair) => !HasPair(current, p), edits)
  }

  /** The writes of a save, in the order they are issued: the deletions,
      then the insertions. */
  function Plan(current: seq<Assignment>, edits: seq<Pair>, classId: Id): seq<AssignmentWrite>
  {
    Removes(Doomed(current, edits)) + Adds(classId, Added(current, edits))
  }

  /** The save deletes exactly the current rows whose pair is not in the
      edit list, by row id, and inserts exactly the edit pairs that match no
      current row, each tagged with the edited class. A pair in both lists
      causes no write. */
  lemma PlanExact(current: seq<Assignment>, edits: seq<Pair>, classId: Id)
    requires UniqueIds(current, AssignmentId)
    ensures forall a :: a in current ==>
      (RemoveAssignment(a.id) in Plan(current, edits, classId) <==> PairOf(a) !in edits)
    ensures forall id :: RemoveAssignment(id) in Plan(current, edits, classId) ==>
      (exists a :: a in current && a.id == id)
    ensures forall c, p :: (AddAssignment(c, p) in Plan(current, edits, classId)
                            <==> c == classId && p in edits && !HasPair(current, p))
  {
    PlanRemovesDoomed(current, edits, classId);
    PlanRemovesExact(current, edits, classId);
    PlanAddsExact(current, edits, classId);
  }

  /** Every removal of the plan removes a doomed row. */
  lemma PlanRemovesDoomed(current: seq<Assignment>, edits: seq<Pair>, classId: Id)
    ensures forall w :: w in Plan(current, edits, classId) && w.RemoveAssignment? ==>
      exists a :: a in Doomed(current, edits) && a.id == w.id
  {
    var plan := Plan(current, edits, classId);
    var rs := Removes(Doomed(current, edits));
    forall w | w in plan && w.RemoveAssignment?
      ensures exists a :: a in Doomed(current, edits) && a.id == w.id
    {
      var i :| 0 <= i < |plan| && plan[i] == w;
      assert i < |rs|;
      assert Doomed(current, edits)[i].id == w.id;
    }
  }

  /** A current row's removal is planned exactly when its pair is not in
      the edit list. */
  lemma PlanRemovesExact(current: seq<Assignment>, edits: seq<Pair>, classId: Id)
    requires UniqueIds(current, AssignmentId)
    ensures forall a :: a in current ==>
      (RemoveAssignment(a.id) in Plan(current, edits, classId) <==> PairOf(a) !in edits)
  {
    var plan := Plan(current, edits, classId);
    PlanRemovesDoomed(current, edits, classId);
    forall a | a in current
      ensures RemoveAssignment(a.id) in plan <==> PairOf(a) !in edits
    {
      if PairOf(a) !in edits {
        var d := Doomed(current, edits);
        var i :| 0 <= i < |d| && d[i] == a;
        assert plan[i] == RemoveAssignment(a.id);
      }
      if RemoveAssignment(a.id) in plan {
        var b :| b in Doomed(current, edits) && b.id == a.id;
        UniqueIdsOwner(current, AssignmentId, a, b);
      }
    }
  }

  /** The plan's insertions are exactly those of the edit pairs that match
      no current row, into the edited class. */
  lemma PlanAddsExact(current: seq<Assignment>, edits: seq<Pair>, classId: Id)
    ensures forall c, p :: (AddAssignment(c, p) in Plan(current, edits, classId)
                            <==> c == classId && p in edits && !HasPair(current, p))
  {
    var plan := Plan(current, edits, classId);
    var rs := Removes(Doomed(current, edits));
    var as_ := Adds(classId, Added(current, edits));
    forall c, p | AddAssignment(c, p) in plan
      ensures c == classId && p in Added(current, edits)
    {
      var i :| 0 <= i < |plan| && plan[i] == AddAssignment(c, p);
      assert i >= |rs|;
      assert as_[i - |rs|] == AddAssignment(classId, Added(current, edits)[i - |rs|]);
    }
    forall p | p in Added(current, edits)
      ensures AddAssignment(classId, p) in plan
    {
      var ad := Added(current, edits);
      var i :| 0 <= i < |ad| && ad[i] == p;
      assert plan[|rs| + i] == as_[i];
    }
  }

  /** All deletions are issued before any insertion. */
  lemma DeletesPrecedeInserts(current: seq<Assignment>, edits: seq<Pair>, classId: Id)
    ensures var calls := AssignmentCalls(Plan(current, edits, classId));
      forall i, j :: 0 <= i < j < |calls| && calls[j].Delete? ==> calls[i].Delete?
  {
    var plan := Plan(current, edits, classId);
    var rs := Removes(Doomed(current, edits));
    var as_ := Adds(classId, Added(current, edits));
    assert forall j :: |rs| <= j < |plan| ==> plan[j] == as_[j - |rs|];
    assert forall j :: 0 <= j < |rs| ==> plan[j] == rs[j];
  }

  /** The rows of `t` that are not removed by `Removes(rows)`. */
  lemma {:induction false} RemovesMembership(t: seq<Assignment>, rows: seq<Assignment>)
    ensures forall a :: (a in ApplyAssignmentWrites(t, Removes(rows))
                         <==> a in t && a.id !in Ids(rows, AssignmentId))
    decreases |rows|
  {
    if rows != [] {
      var n := |rows| - 1;
      RemovesMembership(t, rows[..n]);
      assert Removes(rows)[..n] == Removes(rows[..n]);
      assert Ids(rows, AssignmentId) == Ids(rows[..n], AssignmentId) + [rows[n].id];
    }
  }

  /** Some row of `rows` belongs to `classId` and carries pair `p`. */
  predicate ClassHasPair(rows: seq<Assignment>, classId: Id, p: Pair)
  {
    exists a :: a in rows && a.classId == classId && PairOf(a) == p
  }

  /** One insertion appends one row of the class with the inserted pair. */
  lemma AddsStep(t: seq<Assignment>, classId: Id, ps: seq<Pair>)
    requires ps != []
    ensures var before := ApplyAssignmentWrites(t, Adds(classId, ps[..|ps| - 1]));
      ApplyAssignmentWrites(t, Adds(classId, ps)) == before + [NewAssignment(before, classId, ps[|ps| - 1])]
  {
    var n := |ps| - 1;
    assert Adds(classId, ps)[..n] == Adds(classId, ps[..n]);
  }

  /** Insertions keep every row and add only rows of the class with an inserted pair. */
  lemma {:induction false} AddsMembership(t: seq<Assignment>, classId: Id, ps: seq<Pair>)
    ensures forall a :: a in t ==> a in ApplyAssignmentWrites(t, Adds(classId, ps))
    ensures forall a :: a in ApplyAssignmentWrites(t, Adds(classId, ps)) ==>
      a in t || (a.classId == classId && PairOf(a) in ps)
    decreases |ps|
  {
    if ps != [] {
      var n := |ps| - 1;
      AddsMembership(t, classId, ps[..n]);
      AddsStep(t, classId, ps);
      assert forall p :: p in ps[..n] ==> p in ps;
    }
  }

  /** Every inserted pair ends up on a row of the class. */
  lemma {:induction false} AddsCover(t: seq<Assignment>, classId: Id, ps: seq<Pair>)
    ensures forall p :: p in ps ==> ClassHasPair(ApplyAssignmentWrites(t, Adds(classId, ps)), classId, p)
    decreases |ps|
  {
    if ps != [] {
      var n := |ps| - 1;
      AddsCover(t, classId, ps[..n]);
      AddsStep(t, classId, ps);
      var before := ApplyAssignmentWrites(t, Adds(classId, ps[..n]));
      CoverStep(before, NewAssignment(before, classId, ps[n]), classId, ps);
    }
  }

  lemma CoverStep(before: seq<Assignment>, row: Assignment, classId: Id, ps: seq<Pair>)
    requires ps != [] && row.classId == classId && PairOf(row) == ps[|ps| - 1]
    requires forall p :: p in ps[..|ps| - 1] ==> ClassHasPair(before, classId, p)
    ensures forall p :: p in ps ==> ClassHasPair(before + [row], classId, p)
  {
    var n := |ps| - 1;
    forall p | p in ps
      ensures ClassHasPair(before + [row], classId, p)
    {
      if p == ps[n] {
        assert row in before + [row];
      } else {
        var k :| 0 <= k < |ps| && ps[k] == p;
        assert k < n && ps[..n][k] == p;
        assert ClassHasPair(before, classId, p);
        var a :| a in before && a.classId == classId && PairOf(a) == p;
        assert a in before + [row];
      }
    }
  }

  /** Applying two runs of writes is applying their concatenation. */
  lemma {:induction false} ApplyWritesAppend(t: seq<Assignment>, ws1: seq<AssignmentWrite>,
                                             ws2: seq<AssignmentWrite>)
    ensures ApplyAssignmentWrites(t, ws1 + ws2)
         == ApplyAssignmentWrites(ApplyAssignmentWrites(t, ws1), ws2)
    decreases |ws2|
  {
    if ws2 == [] {
      assert ws1 + ws2 == ws1;
    } else {
      var n := |ws2| - 1;
      assert (ws1 + ws2)[..|ws1 + ws2| - 1] == ws1 + ws2[..n];
      ApplyWritesAppend(t, ws1, ws2[..n]);
    }
  }

  /** After a save whose writes all succeed, the class holds exactly the
      pairs of the edit list. */
  lemma SaveResult(t: seq<Assignment>, classId: Id, edits: seq<Pair>)
    requires UniqueIds(t, AssignmentId)
    ensures var after := ApplyAssignmentWrites(t, Plan(InClass(t, classId), edits, classId));
      forall p :: ClassHasPair(after, classId, p) <==> p in edits
  {
    var current := InClass(t, classId);
    var doomed := Doomed(current, edits);
    var added := Added(current, edits);
    var mid := ApplyAssignmentWrites(t, Removes(doomed));
    var after := ApplyAssignmentWrites(mid, Adds(classId, added));
    ApplyWritesAppend(t, Removes(doomed), Adds(classId, added));
    RemovesMembership(t, doomed);
    AddsMembership(mid, classId, added);
    AddsCover(mid, classId, added);
    forall p | ClassHasPair(after, classId, p)
      ensures p in edits
    {
      var a :| a in after && a.classId == classId && PairOf(a) == p;
      if a in mid {
        DoomedIds(t, classId, edits, a);
      }
    }
    forall p | p in edits
      ensures ClassHasPair(after, classId, p)
    {
      if HasPair(current, p) {
        var a :| a in current && PairOf(a) == p;
        KeptRowSurvives(t, classId, edits, a);
        assert a in after;
      } else {
        assert p in added;
      }
    }
  }

  /** A row of the class either carries an edit pair or is deleted. */
  lemma DoomedIds(t: seq<Assignment>, classId: Id, edits: seq<Pair>, a: Assignment)
    requires a in t && a.classId == classId
    ensures PairOf(a) in edits || a.id in Ids(Doomed(InClass(t, classId), edits), AssignmentId)
  {
    var doomed := Doomed(InClass(t, classId), edits);
    if PairOf(a) !in edits {
      assert a in doomed;
      var i :| 0 <= i < |doomed| && doomed[i] == a;
      assert Ids(doomed, AssignmentId)[i] == a.id;
    }
  }

  /** With unique ids, a row of the class whose pair is in the edit list
      is not deleted. */
  lemma KeptRowSurvives(t: seq<Assignment>, classId: Id, edits: seq<Pair>, a: Assignment)
    requires UniqueIds(t, AssignmentId)
    requires a in InClass(t, classId) && PairOf(a) in edits
    ensures a.id !in Ids(Doomed(InClass(t, classId), edits), AssignmentId)
  {
    var current := InClass(t, classId);
    var doomed := Doomed(current, edits);
    FilterUnique((x: Assignment) => x.classId == classId, t, AssignmentId);
    forall i | 0 <= i < |doomed|
      ensures Ids(doomed, AssignmentId)[i] != a.id
    {
      var d := doomed[i];
      assert d in current && PairOf(d) !in edits;
      if d.id == a.id {
        UniqueIdsOwner(current, AssignmentId, a, d);
      }
    }
  }

  /** Saving the same edit list again, after a save whose writes all
      succeeded, issues no write at all. */
  lemma SaveIdempotent(t: seq<Assignment>, classId: Id, edits: seq<Pair>)
    requires UniqueIds(t, AssignmentId)
    ensures var after := ApplyAssignmentWrites(t, Plan(InClass(t, classId), edits, classId));
      Plan(InClass(after, classId), edits, classId) == []
  {
    var after := ApplyAssignmentWrites(t, Plan(InClass(t, classId), edits, classId));
    var current := InClass(after, classId);
    SaveResult(t, classId, edits);
    forall a | a in current
      ensures PairOf(a) in edits
    {
      assert ClassHasPair(after, classId, PairOf(a));
    }
    forall p | p in edits
      ensures HasPair(current, p)
    {
      var a :| a in after && a.classId == classId && PairOf(a) == p;
      assert a in current;
    }
    FilterNone((a: Assignment) => PairOf(a) !in edits, current);
    FilterNone((p: Pair) => !HasPair(current, p), edits);
  }

  /** The edit path has no duplicate-subject check: an edit list naming two
      teachers for one subject leaves both assigned to that subject. */
  lemma EditAllowsSharedSubject(t: seq<Assignment>, classId: Id, edits: seq<Pair>,
                                subject: string, t1: Id, t2: Id)
    requires UniqueIds(t, AssignmentId)
    requires Pair(t1, subject) in edits && Pair(t2, subject) in edits && t1 != t2
    ensures var after := ApplyAssignmentWrites(t, Plan(InClass(t, classId), edits, classId));
      exists a, b :: a in after && b in after && a.classId == classId && b.classId == classId
                     && a.subject == subject && b.subject == subject && a.teacherId != b.teacherId
  {
    var after := ApplyAssignmentWrites(t, Plan(InClass(t, classId), edits, classId));
    SaveResult(t, classId, edits);
    assert ClassHasPair(after, classId, Pair(t1, subject));
    assert ClassHasPair(after, classId, Pair(t2, subject));
    var a :| a in after && a.classId == classId && PairOf(a) == Pair(t1, subject);
    var b :| b in after && b.classId == classId && PairOf(b) == Pair(t2, subject);
  }

  /** The pairs of the rows loaded into the edit form. */
  function PairsOf(rows: seq<Assignment>): (r: seq<Pair>)
    ensures |r| == |rows|
    ensures forall i :: 0 <= i < |rows| ==> r[i] == PairOf(rows[i])
  {
    seq(|rows|, i requires 0 <= i < |rows| => PairOf(rows[i]))
  }

  /** Opening the editor loads the class's own pairs, so saving it unchanged
      issues no write. */
  lemma UnchangedEditWritesNothing(t: seq<Assignment>, classId: Id)
    ensures var current := InClass(t, classId);
      Plan(current, PairsOf(current), classId) == []
  {
    var current := InClass(t, classId);
    var edits := PairsOf(current);
    forall a | a in current
      ensures PairOf(a) in edits
    {
      var i :| 0 <= i < |current| && current[i] == a;
      assert edits[i] == PairOf(a);
    }
    forall p | p in edits
      ensures HasPair(current, p)
    {
      var i :| 0 <= i < |edits| && edits[i] == p;
      assert current[i] in current;
    }
    FilterNone((a: Assignment) => PairOf(a) !in edits, current);
    FilterNone((p: Pair) => !HasPair(current, p), edits);
  }

  lemma RemovesSnoc(rows: seq<Assignment>, a: Assignment)
    ensures Removes(rows + [a]) == Removes(rows) + [RemoveAssignment(a.id)]
  {
  }

  lemma AddsSnoc(classId: Id, ps: seq<Pair>, p: Pair)
    ensures Adds(classId, ps + [p]) == Adds(classId, ps) + [AddAssignment(classId, p)]
  {
  }

  lemma ApplyWritesSnoc(t: seq<Assignment>, ws: seq<AssignmentWrite>, w: AssignmentWrite)
    ensures ApplyAssignmentWrites(t, ws + [w]) == ApplyAssignmentWrite(ApplyAssignmentWrites(t, ws), w)
  {
    assert (ws + [w])[..|ws|] == ws;
  }

  /** Issuing one more write of a run numbered from call 1: it is logged,
      and it takes effect unless its call fails. */
  lemma RunStep(t: seq<Assignment>, ws: seq<AssignmentWrite>, w: AssignmentWrite, faults: set<nat>)
    ensures ApplyAssignmentWrites(t, Survivors(ws + [w], faults, 1))
         == if 1 + |ws| in faults then ApplyAssignmentWrites(t, Survivors(ws, faults, 1))
            else ApplyAssignmentWrite(ApplyAssignmentWrites(t, Survivors(ws, faults, 1)), w)
    ensures AssignmentCalls(ws + [w]) == AssignmentCalls(ws) + [AssignmentCall(w)]
  {
    SurvivorsSnoc(ws, w, faults, 1);
    AssignmentCallsSnoc(ws, w);
    if 1 + |ws| !in faults {
      ApplyWritesSnoc(t, Survivors(ws, faults, 1), w);
    } else {
      assert Survivors(ws, faults, 1) + [] == Survivors(ws, faults, 1);
    }
  }

  /** `xs[..i + 1]` filtered is `xs[..i]` filtered, plus `xs[i]` when it passes. */
  lemma FilterPrefixStep<T(!new)>(p: T -> bool, xs: seq<T>, i: nat)
    requires i < |xs|
    ensures Filter(p, xs[..i + 1]) == Filter(p, xs[..i]) + (if p(xs[i]) then [xs[i]] else [])
  {
    assert xs[..i + 1] == xs[..i] + [xs[i]];
    FilterAppend(p, xs[..i], [xs[i]]);
    assert Filter(p, [xs[i]]) == if p(xs[i]) then [xs[i]] else [] by {
      assert [xs[i]][1..] == [];
    }
  }

  /** The deletions planned for `current[..i + 1]`. */
  lemma DoomedStep(current: seq<Assignment>, edits: seq<Pair>, i: nat)
    requires i < |current|
    ensures PairOf(current[i]) in edits ==>
      Removes(Doomed(current[..i + 1], edits)) == Removes(Doomed(current[..i], edits))
    ensures PairOf(current[i]) !in edits ==>
      Removes(Doomed(current[..i + 1], edits))
      == Removes(Doomed(current[..i], edits)) + [RemoveAssignment(current[i].id)]
  {
    FilterPrefixStep((a: Assignment) => PairOf(a) !in edits, current, i);
    if PairOf(current[i]) !in edits {
      RemovesSnoc(Doomed(current[..i], edits), current[i]);
    } else {
      assert Doomed(current[..i], edits) + [] == Doomed(current[..i], edits);
    }
  }

  /** The insertions planned for `edits[..j + 1]`. */
  lemma AddedStep(current: seq<Assignment>, edits: seq<Pair>, classId: Id, j: nat)
    requires j < |edits|
    ensures HasPair(current, edits[j]) ==>
      Adds(classId, Added(current, edits[..j + 1])) == Adds(classId, Added(current, edits[..j]))
    ensures !HasPair(current, edits[j]) ==>
      Adds(classId, Added(current, edits[..j + 1]))
      == Adds(classId, Added(current, edits[..j])) + [AddAssignment(classId, edits[j])]
  {
    FilterPrefixStep((p: Pair) => !HasPair(current, p), edits, j);
    if !HasPair(current, edits[j]) {
      AddsSnoc(classId, Added(current, edits[..j]), edits[j]);
    } else {
      assert Added(current, edits[..j]) + [] == Added(current, edits[..j]);
    }
  }

  /** The deletions the first loop of a save issues, one current row at a time. */
  function DeleteWrites(current: seq<Assignment>, edits: seq<Pair>): seq<AssignmentWrite>
    decreases |current|
  {
    if current == [] then []
    else
      var last := current[|current| - 1];
      DeleteWrites(current[..|current| - 1], edits)
        + (if PairOf(last) in edits then [] else [RemoveAssignment(last.id)])
  }

  /** The insertions the second loop of a save issues, one edit pair at a time. */
  function InsertWrites(current: seq<Assignment>, edits: seq<Pair>, classId: Id): seq<AssignmentWrite>
    decreases |edits|
  {
    if edits == [] then []
    else
      var last := edits[|edits| - 1];
      InsertWrites(current, edits[..|edits| - 1], classId)
        + (if HasPair(current, last) then [] else [AddAssignment(classId, last)])
  }

  /** Row by row, the first loop issues exactly the planned deletions. */
  lemma {:induction false} DeleteWritesArePlanned(current: seq<Assignment>, edits: seq<Pair>)
    ensures DeleteWrites(current, edits) == Removes(Doomed(current, edits))
    decreases |current|
  {
    if current != [] {
      var n := |current| - 1;
      DeleteWritesArePlanned(current[..n], edits);
      DoomedStep(current, edits, n);
      assert current[..n + 1] == current;
    }
  }

  /** Pair by pair, the second loop issues exactly the planned insertions. */
  lemma {:induction false} InsertWritesArePlanned(current: seq<Assignment>, edits: seq<Pair>, classId: Id)
    ensures InsertWrites(current, edits, classId) == Adds(classId, Added(current, edits))
    decreases |edits|
  {
    if edits != [] {
      var n := |edits| - 1;
      InsertWritesArePlanned(current, edits[..n], classId);
      AddedStep(current, edits, classId, n);
      assert edits[..n + 1] == edits;
    }
  }

  /** The state after a run of writes on `class_assignments` numbered from
      call 1: the writes whose calls did not fail took effect, and every
      one of them was logged. */
  ghost predicate AfterRun(db: Db, t0: seq<Assignment>, log0: seq<Call>, ws: seq<AssignmentWrite>,
                           faults: set<nat>)
    reads db
  {
    db.assignments == ApplyAssignmentWrites(t0, Survivors(ws, faults, 1))
    && db.log == log0 + AssignmentCalls(ws)
  }

  /** The state of the first loop of a save after `i` current rows: the
      deletions `ws` issued so far are those of the rows before `i`, and the
      next call is numbered `call`. */
  ghost predicate DeleteProgress(db: Db, current: seq<Assignment>, edits: seq<Pair>, faults: set<nat>,
                                 t0: seq<Assignment>, log0: seq<Call>, i: nat,
                                 ws: seq<AssignmentWrite>, call: nat)
    reads db
  {
    i <= |current| && db.Valid() && ws == DeleteWrites(current[..i], edits)
    && call == 1 + |ws| && AfterRun(db, t0, log0, ws, faults)
  }

  /** One pass of the first loop: deletes current row `i` by id unless its
      pair is still in the edit list. */
  method DeleteOne(db: Db, current: seq<Assignment>, edits: seq<Pair>, faults: set<nat>,
                   ghost t0: seq<Assignment>, ghost log0: seq<Call>, i: nat,
                   ghost ws: seq<AssignmentWrite>, call: nat)
    returns (ghost ws': seq<AssignmentWrite>, call': nat)
    requires i < |current| && DeleteProgress(db, current, edits, faults, t0, log0, i, ws, call)
    modifies db`assignments, db`log
    ensures DeleteProgress(db, current, edits, faults, t0, log0, i + 1, ws', call')
  {
    ws', call' := ws, call;
    var c := current[i];
    var stillExists := PairOf(c) in edits;
    if !stillExists {
      RunStep(t0, ws, RemoveAssignment(c.id), faults);
      db.WriteAssignment(RemoveAssignment(c.id), call !in faults);
      ws' := ws + [RemoveAssignment(c.id)];
      call' := call + 1;
    }
    assert current[..i + 1][..i] == current[..i];
  }

  /** The first loop of `handleSaveClassChanges`: deletes by id each current
      row whose pair the edit list lacks, numbering its calls on from `call`. */
  method DeleteStale(db: Db, current: seq<Assignment>, edits: seq<Pair>, faults: set<nat>,
                     ghost t0: seq<Assignment>, ghost log0: seq<Call>, call0: nat)
    returns (call: nat)
    requires db.Valid() && call0 == 1 && AfterRun(db, t0, log0, [], faults)
    modifies db`assignments, db`log
    ensures db.Valid()
    ensures AfterRun(db, t0, log0, DeleteWrites(current, edits), faults)
    ensures call == 1 + |DeleteWrites(current, edits)|
  {
    ghost var ws: seq<AssignmentWrite> := [];
    call := call0;
    var i := 0;
    assert current[..0] == [];
    while i < |current|
      invariant DeleteProgress(db, current, edits, faults, t0, log0, i, ws, call)
    {
      ws, call := DeleteOne(db, current, edits, faults, t0, log0, i, ws, call);
      i := i + 1;
    }
    assert current[..i] == current;
  }

  /** The state of the second loop of a save after `j` edit pairs, following
      the deletions `removes`. */
  ghost predicate InsertProgress(db: Db, current: seq<Assignment>, edits: seq<Pair>, classId: Id,
                                 faults: set<nat>, t0: seq<Assignment>, log0: seq<Call>,
                                 removes: seq<AssignmentWrite>, j: nat, ws: seq<AssignmentWrite>, call: nat)
    reads db
  {
    j <= |edits| && db.Valid() && ws == removes + InsertWrites(current, edits[..j], classId)
    && call == 1 + |ws| && AfterRun(db, t0, log0, ws, faults)
  }

  /** One pass of the second loop: inserts edit pair `j` into the class
      unless a current row already has it. */
  method InsertOne(db: Db, current: seq<Assignment>, edits: seq<Pair>, classId: Id,
                   faults: set<nat>, ghost t0: seq<Assignment>, ghost log0: seq<Call>,
                   ghost removes: seq<AssignmentWrite>, j: nat, ghost ws: seq<AssignmentWrite>, call: nat)
    returns (ghost ws': seq<AssignmentWrite>, call': nat)
    requires j < |edits| && InsertProgress(db, current, edits, classId, faults, t0, log0, removes, j, ws, call)
    modifies db`assignments, db`log
    ensures InsertProgress(db, current, edits, classId, faults, t0, log0, removes, j + 1, ws', call')
  {
    ws', call' := ws, call;
    var e := edits[j];
    var alreadyExists := HasPair(current, e);
    if !alreadyExists {
      RunStep(t0, ws, AddAssignment(classId, e), faults);
      db.WriteAssignment(AddAssignment(classId, e), call !in faults);
      ws' := ws + [AddAssignment(classId, e)];
      call' := call + 1;
    }
    assert edits[..j + 1][..j] == edits[..j];
  }

  /** The second loop of `handleSaveClassChanges`: inserts into class
      `classId` each edit pair that matches no current row, numbering its
      calls on from `call0`, after the deletions `removes`. */
  method InsertMissing(db: Db, current: seq<Assignment>, edits: seq<Pair>, classId: Id,
                       faults: set<nat>, ghost t0: seq<Assignment>, ghost log0: seq<Call>,
                       ghost removes: seq<AssignmentWrite>, call0: nat)
    requires db.Valid() && call0 == 1 + |removes| && AfterRun(db, t0, log0, removes, faults)
    modifies db`assignments, db`log
    ensures db.Valid()
    ensures AfterRun(db, t0, log0, removes + InsertWrites(current, edits, classId), faults)
  {
    ghost var ws := removes;
    var call := call0;
    var j := 0;
    assert removes + [] == removes && edits[..0] == [];
    while j < |edits|
      invariant InsertProgress(db, current, edits, classId, faults, t0, log0, removes, j, ws, call)
    {
      ws, call := InsertOne(db, current, edits, classId, faults, t0, log0, removes, j, ws, call);
      j := j + 1;
    }
    assert edits[..j] == edits;
  }

  /** `handleSaveClassChanges`: reads the class's current rows, deletes by
      id each one whose pair the edit list lacks, then inserts each edit pair
      that matches no current row. Call `k` (from 0) fails when `k` is in
      `faults`; a failed write is not noticed and the loop goes on. */
  method SaveClassChanges(db: Db, classId: Id, edits: seq<Pair>, faults: set<nat>)
    requires db.Valid()
    modifies db`assignments, db`log
    ensures db.Valid()
    ensures var plan := Plan(Snapshot(old(db.assignments), classId, 0 !in faults), edits, classId);
      db.assignments == ApplyAssignmentWrites(old(db.assignments), Survivors(plan, faults, 1))
      && db.log == old(db.log) + [Select(ClassAssignments)] + AssignmentCalls(plan)
  {
    db.Read(ClassAssignments);
    var current := if 0 !in faults then InClass(db.assignments, classId) else [];
    ghost var t0 := db.assignments;
    ghost var log0 := db.log;
    assert AfterRun(db, t0, log0, [], faults);
    var call := DeleteStale(db, current, edits, faults, t0, log0, 1);
    InsertMissing(db, current, edits, classId, faults, t0, log0, DeleteWrites(current, edits), call);
    DeleteWritesArePlanned(current, edits);
    InsertWritesArePlanned(current, edits, classId);
  }

  // ---------------------------------------------------------------------
  // Creating a class

  /** The message shown when the form names a subject twice. */
  function DuplicateMessage(subject: string, className: string): string
  {
    "المادة \"" + subject + "\" معينة بالفعل لفصل \"" + className + "\""
  }

  datatype CreateOutcome =
    | Created(classId: Id)
    | Rejected(message: string)
    | Failed

  /** Some row of the form already names `subject`. */
  predicate HasSubject(ps: seq<Pair>, subject: string)
  {
    exists p :: p in ps && p.subject == subject
  }

  /** The first `n` form rows name distinct subjects. */
  predicate DistinctPrefix(form: seq<Pair>, n: nat)
    requires n <= |form|
  {
    forall i, j :: 0 <= i < j < n ==> form[i].subject != form[j].subject
  }

  /** No subject occurs twice in the form. */
  predicate DistinctSubjects(form: seq<Pair>)
  {
    DistinctPrefix(form, |form|)
  }

  /** An earlier form row names the subject of row `k`. */
  predicate NamedBefore(form: seq<Pair>, k: nat)
    requires k < |form|
  {
    exists j :: 0 <= j < k && form[j].subject == form[k].subject
  }

  /** The calls of `n` successful form rows: a duplicate check, then an insert. */
  function CreationCalls(n: nat): (r: seq<Call>)
    ensures |r| == 2 * n
  {
    if n == 0 then [] else CreationCalls(n - 1) + [Select(ClassAssignments), Insert(ClassAssignments)]
  }

  /** In a class no row referred to before, after inserting `ps` the class
      has a row with `subject` exactly when `ps` names it. */
  lemma NewClassSubjects(t: seq<Assignment>, classId: Id, ps: seq<Pair>, subject: string)
    requires forall a :: a in t ==> a.classId != classId
    ensures var after := ApplyAssignmentWrites(t, Adds(classId, ps));
      (exists a :: a in after && a.classId == classId && a.subject == subject)
      <==> HasSubject(ps, subject)
  {
    var after := ApplyAssignmentWrites(t, Adds(classId, ps));
    AddsMembership(t, classId, ps);
    if HasSubject(ps, subject) {
      AddsCover(t, classId, ps);
      var p :| p in ps && p.subject == subject;
      assert ClassHasPair(after, classId, p);
    }
  }

  /** `.select("*").eq("class_id", classId).eq("subject", subject)`. */
  function SubjectRows(t: seq<Assignment>, classId: Id, subject: string): (r: seq<Assignment>)
    ensures forall a :: a in r <==> a in t && a.classId == classId && a.subject == subject
  {
    Filter((a: Assignment) => a.classId == classId && a.subject == subject, t)
  }

  /** The insertions of the first `n` form rows into class `classId`, one
      row at a time, as the creation loop issues them. */
  function FormInserts(classId: Id, form: seq<Pair>, n: nat): seq<AssignmentWrite>
    requires n <= |form|
  {
    if n == 0 then [] else FormInserts(classId, form, n - 1) + [AddAssignment(classId, form[n - 1])]
  }

  /** Row by row, the creation loop issues the insertions of its form rows. */
  lemma {:induction false} FormInsertsAreAdds(classId: Id, form: seq<Pair>, n: nat)
    requires n <= |form|
    ensures FormInserts(classId, form, n) == Adds(classId, form[..n])
  {
    if n > 0 {
      FormInsertsAreAdds(classId, form, n - 1);
      AddsSnoc(classId, form[..n - 1], form[n - 1]);
      assert form[..n - 1] + [form[n - 1]] == form[..n];
    }
  }

  /** The duplicate check of row `n` of a new class's form finds a row
      exactly when an earlier form row named its subject. */
  lemma DuplicateCheck(t: seq<Assignment>, classId: Id, form: seq<Pair>, n: nat, after: seq<Assignment>)
    requires forall a :: a in t ==> a.classId != classId
    requires n < |form| && after == AfterRows(t, classId, form, n)
    ensures |SubjectRows(after, classId, form[n].subject)| > 0 <==> NamedBefore(form, n)
  {
    var subject := form[n].subject;
    FormInsertsAreAdds(classId, form, n);
    NewClassSubjects(t, classId, form[..n], subject);
    var rows := SubjectRows(after, classId, subject);
    if |rows| > 0 {
      assert rows[0] in rows;
      var p :| p in form[..n] && p.subject == subject;
      var j :| 0 <= j < n && form[..n][j] == p;
      assert form[j].subject == subject;
    }
    if NamedBefore(form, n) {
      var j :| 0 <= j < n && form[j].subject == subject;
      assert form[..n][j] in form[..n];
    }
  }

  /** The table after the first `n` form rows of class `classId` are inserted. */
  function AfterRows(t: seq<Assignment>, classId: Id, form: seq<Pair>, n: nat): seq<Assignment>
    requires n <= |form|
  {
    ApplyAssignmentWrites(t, FormInserts(classId, form, n))
  }

  /** The result of a creation run: how it ended, and how many form rows it
      inserted. */
  datatype Creation = Creation(outcome: CreateOutcome, inserted: nat)

  /** The `handleAddClass` loop from form row `i` on, with rows `..i` already
      inserted into the new class `id`: row `i`'s duplicate check is call
      `2i + 1` and its insert call `2i + 2`; a failed call, or a check that
      finds the subject (which happens exactly when an earlier row named it,
      see `DuplicateCheck`), ends the run. */
  function CreationFrom(id: Id, name: string, form: seq<Pair>, faults: set<nat>, i: nat): (r: Creation)
    requires i <= |form|
    ensures i <= r.inserted <= |form|
    decreases |form| - i
  {
    if i == |form| then Creation(Created(id), i)
    else if 2 * i + 1 in faults then Creation(Failed, i)
    else if NamedBefore(form, i) then
      Creation(Rejected(DuplicateMessage(form[i].subject, name)), i)
    else if 2 * i + 2 in faults then Creation(Failed, i)
    else CreationFrom(id, name, form, faults, i + 1)
  }

  /** What a creation run from row `i` promises, given distinct subjects
      before `i`: the inserted rows name distinct subjects; a rejection names
      the subject of the first row whose subject came earlier; the run
      creates the class exactly when the whole form names distinct subjects
      and none of its calls fail; and only a failed call makes it fail. */
  lemma {:induction false} CreationFromFacts(id: Id, name: string, form: seq<Pair>, faults: set<nat>, i: nat)
    requires i <= |form| && DistinctPrefix(form, i)
    ensures var r := CreationFrom(id, name, form, faults, i);
      DistinctPrefix(form, r.inserted)
      && (r.outcome.Created? ==> r.outcome.classId == id && r.inserted == |form|)
      && (r.outcome.Rejected? ==>
            r.inserted < |form| && NamedBefore(form, r.inserted)
            && r.outcome.message == DuplicateMessage(form[r.inserted].subject, name))
      && (r.outcome.Failed? ==> 2 * r.inserted + 1 in faults || 2 * r.inserted + 2 in faults)
      && (r.outcome.Created? <==>
            DistinctSubjects(form) && forall c :: 2 * i + 1 <= c <= 2 * |form| ==> c !in faults)
    decreases |form| - i
  {
    if i < |form| {
      if 2 * i + 1 in faults {
      } else if NamedBefore(form, i) {
        var j :| 0 <= j < i && form[j].subject == form[i].subject;
        assert !DistinctSubjects(form);
      } else {
        assert DistinctPrefix(form, i + 1);
        if 2 * i + 2 !in faults {
          CreationFromFacts(id, name, form, faults, i + 1);
        }
      }
    }
  }

  /** One more form row inserted: the table after it, and its length. */
  lemma InsertRowStep(t: seq<Assignment>, classId: Id, form: seq<Pair>, i: nat, before: seq<Assignment>)
    requires i < |form| && before == AfterRows(t, classId, form, i)
    ensures ApplyAssignmentWrite(before, AddAssignment(classId, form[i])) == AfterRows(t, classId, form, i + 1)
    ensures |ApplyAssignmentWrite(before, AddAssignment(classId, form[i]))| == |before| + 1
  {
    ApplyWritesSnoc(t, FormInserts(classId, form, i), AddAssignment(classId, form[i]));
  }

  /** One more form row checked and inserted: the calls logged. */
  lemma CreationLogStep(log0: seq<Call>, i: nat, log: seq<Call>, w: AssignmentWrite)
    requires log == log0 + CreationCalls(i) && w.AddAssignment?
    ensures log + [Select(ClassAssignments)] + [AssignmentCall(w)] == log0 + CreationCalls(i + 1)
  {
  }

  /** How one form row of a new class went. */
  datatype RowStep = Inserted | Duplicate | CallFailed

  /** The state of a creation run after its first `i` form rows were
      inserted into the new class `id`: the table holds them, and the log
      their calls. */
  ghost predicate RowsDone(db: Db, t0: seq<Assignment>, log0: seq<Call>, id: Id, form: seq<Pair>, i: nat)
    reads db
  {
    i <= |form| && db.Valid() && db.assignments == AfterRows(t0, id, form, i)
    && |db.assignments| == |t0| + i && db.log == log0 + CreationCalls(i)
  }

  /** One pass of the `handleAddClass` loop: the duplicate-subject check of
      form row `i` (call `2i + 1`), then its insert (call `2i + 2`). */
  method AddFormRow(db: Db, id: Id, name: string, form: seq<Pair>, i: nat, faults: set<nat>,
                    ghost t0: seq<Assignment>, ghost log0: seq<Call>)
    returns (step: RowStep)
    requires i < |form| && RowsDone(db, t0, log0, id, form, i)
    requires forall a :: a in t0 ==> a.classId != id
    modifies db`assignments, db`log
    ensures db.Valid()
    ensures step != Inserted ==> db.assignments == old(db.assignments)
    ensures step == CallFailed ==> 2 * i + 1 in faults || (!NamedBefore(form, i) && 2 * i + 2 in faults)
    ensures step == Duplicate ==> 2 * i + 1 !in faults && NamedBefore(form, i)
    ensures step == Inserted ==>
      2 * i + 1 !in faults && !NamedBefore(form, i) && 2 * i + 2 !in faults
      && RowsDone(db, t0, log0, id, form, i + 1)
  {
    CreationLogStep(log0, i, db.log, AddAssignment(id, form[i]));
    db.Read(ClassAssignments);
    if 2 * i + 1 in faults {
      return CallFailed;
    }
    var existing := SubjectRows(db.assignments, id, form[i].subject);
    DuplicateCheck(t0, id, form, i, db.assignments);
    if |existing| > 0 {
      return Duplicate;
    }
    InsertRowStep(t0, id, form, i, db.assignments);
    db.WriteAssignment(AddAssignment(id, form[i]), 2 * i + 2 !in faults);
    if 2 * i + 2 in faults {
      return CallFailed;
    }
    return Inserted;
  }

  /** The loop of `handleAddClass` over the form rows, for the class `id`
      it has just inserted: for each row in order, checks that the class has
      no row with that subject yet, then inserts the row. The run is the one
      `CreationFrom` describes. */
  method AddFormRows(db: Db, id: Id, name: string, form: seq<Pair>, faults: set<nat>)
    returns (outcome: CreateOutcome, ghost k: nat)
    requires db.Valid()
    requires forall a :: a in db.assignments ==> a.classId != id
    modifies db`assignments, db`log
    ensures db.Valid()
    ensures Creation(outcome, k) == CreationFrom(id, name, form, faults, 0)
    ensures db.assignments == AfterRows(old(db.assignments), id, form, k)
    ensures |db.assignments| == |old(db.assignments)| + k
    ensures outcome.Created? ==> db.log == old(db.log) + CreationCalls(k)
  {
    ghost var t0 := db.assignments;
    ghost var log0 := db.log;
    outcome := Created(id);
    var i := 0;
    while i < |form|
      invariant RowsDone(db, t0, log0, id, form, i)
      invariant CreationFrom(id, name, form, faults, 0) == CreationFrom(id, name, form, faults, i)
    {
      var step := AddFormRow(db, id, name, form, i, faults, t0, log0);
      if step == CallFailed {
        outcome := Failed;
        break;
      } else if step == Duplicate {
        outcome := Rejected(DuplicateMessage(form[i].subject, name));
        break;
      }
      i := i + 1;
    }
    k := i;
  }

  /** `handleAddClass`: inserts the class, then its form rows in order (see
      `AddFormRows`). The first failure (a failed call, or a subject already
      assigned) ends the run and leaves in place the class and every row
      inserted before it. */
  method AddClass(db: Db, name: string, description: string, form: seq<Pair>, faults: set<nat>)
    returns (outcome: CreateOutcome)
    requires db.Valid()
    modifies db`classes, db`assignments, db`log
    ensures db.Valid()
    ensures 0 in faults ==> outcome == Failed && db.classes == old(db.classes)
                            && db.assignments == old(db.assignments)
    ensures 0 !in faults ==>
      db.classes == old(db.classes) + [ClassRow(old(db.NextClassId()), name, description)]
    ensures var k := |db.assignments| - |old(db.assignments)|;
      0 <= k <= |form| && DistinctPrefix(form, k)
      && db.assignments == ApplyAssignmentWrites(old(db.assignments), Adds(old(db.NextClassId()), form[..k]))
      && (outcome.Created? ==>
            outcome.classId == old(db.NextClassId()) && k == |form|
            && db.log == old(db.log) + [Insert(Classes)] + CreationCalls(k))
      && (outcome.Rejected? ==>
            k < |form| && NamedBefore(form, k)
            && outcome.message == DuplicateMessage(form[k].subject, name))
    ensures outcome.Created? <==> 0 !in faults && DistinctSubjects(form)
                                  && forall c :: 1 <= c <= 2 * |form| ==> c !in faults
    ensures faults == {} ==> !outcome.Failed?
  {
    ghost var id0 := db.NextClassId();
    var classId := db.InsertClass(name, description, 0 !in faults);
    if classId.None? {
      assert form[..0] == [] && Adds(id0, []) == [];
      assert ApplyAssignmentWrites(db.assignments, []) == db.assignments;
      return Failed;
    }
    ghost var t0 := db.assignments;
    assert t0 == old(db.assignments) && classId.value == id0;
    ghost var k;
    outcome, k := AddFormRows(db, classId.value, name, form, faults);
    CreationSummary(t0, id0, name, form, faults, outcome, k);
  }

  /** What a creation run that inserted `k` rows into the new class `id`
      leaves behind and reports, read off `CreationFrom`. */
  lemma CreationSummary(t0: seq<Assignment>, id: Id, name: string, form: seq<Pair>, faults: set<nat>,
                        outcome: CreateOutcome, k: nat)
    requires Creation(outcome, k) == CreationFrom(id, name, form, faults, 0)
    ensures 0 <= k <= |form| && DistinctPrefix(form, k)
    ensures AfterRows(t0, id, form, k) == ApplyAssignmentWrites(t0, Adds(id, form[..k]))
    ensures outcome.Created? ==> outcome.classId == id && k == |form|
    ensures outcome.Rejected? ==>
      k < |form| && NamedBefore(form, k) && outcome.message == DuplicateMessage(form[k].subject, name)
    ensures outcome.Created? <==> DistinctSubjects(form) && forall c :: 1 <= c <= 2 * |form| ==> c !in faults
    ensures outcome.Failed? ==> faults != {}
  {
    CreationFromFacts(id, name, form, faults, 0);
    FormInsertsAreAdds(id, form, k);
  }

  // ---------------------------------------------------------------------
  // The assignment form rows

  /** The elements of `rows` whose position, counted from `from`, is not `index`. */
  function KeepOtherPositions<T>(rows: seq<T>, index: int, from: int): (r: seq<T>)
    ensures from <= index < from + |rows| ==> r == rows[..index - from] + rows[index - from + 1..]
    ensures !(from <= index < from + |rows|) ==> r == rows
    decreases |rows|
  {
    if rows == [] then []
    else
      var rest := KeepOtherPositions(rows[1..], index, from + 1);
      if from == index then
        assert rest == rows[1..];
        rest
      else
        assert from < index < from + |rows| ==>
          rows[..index - from] == [rows[0]] + rows[1..][..index - from - 1]
          && rows[index - from + 1..] == rows[1..][index - from..];
        [rows[0]] + rest
  }

  /** `teachers.filter((_, i) => i !== index)`: removing form row `index`
      drops exactly that entry and keeps the others in order; an index out
      of range removes nothing. */
  function RemoveRow<T>(rows: seq<T>, index: int): (r: seq<T>)
    ensures 0 <= index < |rows| ==> r == rows[..index] + rows[index + 1..] && |r| == |rows| - 1
    ensures !(0 <= index < |rows|) ==> r == rows
  {
    KeepOtherPositions(rows, index, 0)
  }

  /** `[...teachers, { teacher_id: "", subject: "" }]`. */
  function AddRow(rows: seq<Pair>): seq<Pair>
  {
    rows + [Pair("", "")]
  }

  /** Removing the row just added gives back the form as it was. */
  lemma RemoveUndoesAdd(rows: seq<Pair>)
    ensures RemoveRow(AddRow(rows), |rows|) == rows
    ensures |AddRow(rows)| == |rows| + 1 && AddRow(rows)[|rows|] == Pair("", "")
  {
    assert AddRow(rows)[..|rows|] == rows;
  }

  /** `newTeachers[index].teacher_id = value`: only that row's teacher changes. */
  function SetRowTeacher(rows: seq<Pair>, index: nat, teacherId: Id): (r: seq<Pair>)
    requires index < |rows|
    ensures |r| == |rows|
    ensures r[index] == Pair(teacherId, rows[index].subject)
    ensures forall j :: 0 <= j < |rows| && j != index ==> r[j] == rows[j]
  {
    rows[..index] + [rows[index].(teacherId := teacherId)] + rows[index + 1..]
  }

  /** `newTeachers[index].subject = value`: only that row's subject changes. */
  function SetRowSubject(rows: seq<Pair>, index: nat, subject: string): (r: seq<Pair>)
    requires index < |rows|
    ensures |r| == |rows|
    ensures r[index] == Pair(rows[index].teacherId, subject)
    ensures forall j :: 0 <= j < |rows| && j != index ==> r[j] == rows[j]
  {
    rows[..index] + [rows[index].(subject := subject)] + rows[index + 1..]
  }

  // ---------------------------------------------------------------------
  // Teacher names beside each assignment

  /** An assignment as the class list shows it. */
  datatype AssignmentView = AssignmentView(teacherId: Id, teacherName: string, subject: string)

  /** `.from("profiles").select("*").eq("role", "teacher")`. */
  function Teachers(profiles: seq<Profile>): (r: seq<Profile>)
    ensures forall p :: p in r <==> p in profiles && p.role == "teacher"
  {
    Filter((p: Profile) => p.role == "teacher", profiles)
  }

  /** `teachers.find(t => t.id === id)?.full_name || "Unknown"`. */
  function TeacherName(teachers: seq<Profile>, id: Id): string
  {
    match Find((p: Profile) => p.id == id, teachers)
    case None => "Unknown"
    case Some(p) => Or(p.fullName, "Unknown")
  }

  /** The name is the first matching teacher's non-empty full name, and
      "Unknown" when no teacher has the id or the first one has no name. */
  lemma TeacherNameSpec(profiles: seq<Profile>, id: Id)
    ensures (forall p :: p in profiles && p.id == id ==> p.role != "teacher")
      ==> TeacherName(Teachers(profiles), id) == "Unknown"
    ensures forall i :: (0 <= i < |Teachers(profiles)| && Teachers(profiles)[i].id == id
                         && (forall j :: 0 <= j < i ==> Teachers(profiles)[j].id != id)
                         ==> TeacherName(Teachers(profiles), id)
                             == Or(Teachers(profiles)[i].fullName, "Unknown"))
  {
    var ts := Teachers(profiles);
    var f := Find((p: Profile) => p.id == id, ts);
    forall i | 0 <= i < |ts| && ts[i].id == id && (forall j :: 0 <= j < i ==> ts[j].id != id)
      ensures TeacherName(ts, id) == Or(ts[i].fullName, "Unknown")
    {
      assert ts[i] in ts;
      var k :| 0 <= k < |ts| && ts[k] == f.value && f.value.id == id
               && forall j :: 0 <= j < k ==> ts[j].id != id;
      assert k == i;
    }
  }

  /** `assignments.map(a => ({ teacher_id, teacher_name, subject }))`: one
      view per row, in order, naming the teacher. */
  function EnrichAssignments(rows: seq<Assignment>, teachers: seq<Profile>): (r: seq<AssignmentView>)
    ensures |r| == |rows|
    ensures forall i :: 0 <= i < |rows| ==>
      r[i].teacherId == rows[i].teacherId && r[i].subject == rows[i].subject
    ensures forall i :: 0 <= i < |rows| ==> r[i].teacherName == TeacherName(teachers, rows[i].teacherId)
  {
    seq(|rows|, i requires 0 <= i < |rows| =>
      AssignmentView(rows[i].teacherId, TeacherName(teachers, rows[i].teacherId), rows[i].subject))
  }

  /** `handleEditClass`: the edit list is the shown assignments' pairs. */
  function EditList(views: seq<AssignmentView>): (r: seq<Pair>)
    ensures |r| == |views|
  {
    seq(|views|, i requires 0 <= i < |views| => Pair(views[i].teacherId, views[i].subject))
  }

  /** The editor opens on exactly the class's stored pairs, whatever the
      teacher names; so saving it unchanged writes nothing. */
  lemma EditOpensOnStoredPairs(t: seq<Assignment>, classId: Id, teachers: seq<Profile>)
    ensures EditList(EnrichAssignments(InClass(t, classId), teachers)) == PairsOf(InClass(t, classId))
    ensures Plan(InClass(t, classId), EditList(EnrichAssignments(InClass(t, classId), teachers)), classId) == []
  {
    UnchangedEditWritesNothing(t, classId);
  }
}

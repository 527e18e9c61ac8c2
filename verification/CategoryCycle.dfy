/**
 * Category writes (src/server/repositories/category.ts and src/server/admin/catalog/category-actions.ts):
 * the cycle check, and what it keeps true of the parent links over every sequence of writes.
 */
module CategoryCycle {
  import opened Prelude
  import Pieces
  import Forest = CategoryForest

  /** The `parent_id` column. */
  type Parents = map<string, Option<string>>

  /** `parentOf.get(id) ?? null`, where an empty id is as good as none. */
  function Next(m: Parents, id: string): (p: Option<string>)
    ensures p.Some? ==> id in m && m[id] == p && p.value != ""
  {
    if id in m && m[id].Some? && m[id].value != "" then m[id] else None
  }

  /** Where `steps` steps up from `id` lead. */
  function Up(m: Parents, id: string, steps: nat): (r: Option<string>)
    ensures r.Some? ==> r.value != ""
    decreases steps
  {
    if id == "" then None
    else if steps == 0 then Some(id)
    else if Next(m, id).None? then None
    else Up(m, Next(m, id).value, steps - 1)
  }

  /** `target` is `id` itself or one of its ancestors. */
  ghost predicate Reaches(m: Parents, id: string, target: string) {
    exists n: nat :: Up(m, id, n) == Some(target)
  }

  ghost predicate Ends(m: Parents, id: string) {
    exists n: nat :: Up(m, id, n) == None
  }

  /** Every walk up the parent links comes to an end. */
  ghost predicate Acyclic(m: Parents) {
    forall id :: Ends(m, id)
  }

  lemma {:induction false} UpAdd(m: Parents, id: string, a: nat, b: nat)
    ensures Up(m, id, a + b) == if Up(m, id, a).Some? then Up(m, Up(m, id, a).value, b) else None
    decreases a
  {
    if id != "" && a > 0 && Next(m, id).Some? { UpAdd(m, Next(m, id).value, a - 1, b); }
  }

  // ---------------------------------------------------------------- cycles

  /** A walk that comes back to where it was never ends. */
  lemma {:induction false} ReturningNeverEnds(m: Parents, id: string, d: nat, n: nat)
    requires d > 0 && Up(m, id, d) == Some(id)
    ensures Up(m, id, n).Some?
    decreases n
  {
    if n < d {
      UpAdd(m, id, n, d - n);
    } else {
      ReturningNeverEnds(m, id, d, n - d);
      UpAdd(m, id, d, n - d);
    }
  }

  /** A walk that repeats itself visits nothing new. */
  lemma {:induction false} RepeatsForever(m: Parents, id: string, j: nat, i: nat, n: nat) returns (k: nat)
    requires j < i && Up(m, id, j) == Up(m, id, i)
    ensures k < i && Up(m, id, n) == Up(m, id, k)
    decreases n
  {
    if n < i {
      k := n;
    } else {
      UpAdd(m, id, i, n - i);
      UpAdd(m, id, j, n - i);
      k := RepeatsForever(m, id, j, i, n - i + j);
    }
  }

  ghost function Universe(m: Parents, start: string): set<string> {
    {start} + set id | id in m && m[id].Some? :: m[id].value
  }

  lemma {:induction false} StaysInside(m: Parents, start: string, n: nat)
    ensures Up(m, start, n).Some? ==> Up(m, start, n).value in Universe(m, start)
  {
    if n > 0 { UpAdd(m, start, n - 1, 1); }
  }

  ghost predicate Visited(m: Parents, id: string, n: nat, place: string) {
    exists k: nat :: k < n && Up(m, id, k) == Some(place)
  }

  ghost predicate Repeats(m: Parents, id: string) {
    exists j: nat, i: nat :: j < i && Up(m, id, j).Some? && Up(m, id, j) == Up(m, id, i)
  }

  /** With finitely many ids every walk ends or repeats itself. */
  lemma {:induction false} EndsOrRepeats(m: Parents, id: string, n: nat, seen: set<string>)
    requires |seen| == n && seen <= Universe(m, id)
    requires forall s <- seen :: Visited(m, id, n, s)
    ensures Ends(m, id) || Repeats(m, id)
    decreases |Universe(m, id)| - n
  {
    var here := Up(m, id, n);
    if here.None? {
      assert Ends(m, id);
    } else if here.value in seen {
      assert Visited(m, id, n, here.value);
    } else {
      StaysInside(m, id, n);
      SubsetSize(seen + {here.value}, Universe(m, id));
      forall s | s in seen + {here.value} ensures Visited(m, id, n + 1, s) {
        if s != here.value { assert Visited(m, id, n, s); }
      }
      EndsOrRepeats(m, id, n + 1, seen + {here.value});
    }
  }

  lemma {:induction false} SubsetSize(a: set<string>, b: set<string>)
    requires a <= b
    ensures |a| <= |b|
  {
    if a != {} {
      var x :| x in a;
      SubsetSize(a - {x}, b - {x});
    }
  }

  ghost predicate OwnAncestor(m: Parents, id: string) {
    exists d: nat :: d > 0 && Up(m, id, d) == Some(id)
  }

  /** The parent links are acyclic exactly when no category is its own ancestor. */
  lemma AcyclicIffNoOwnAncestor(m: Parents)
    ensures Acyclic(m) <==> forall id :: !OwnAncestor(m, id)
  {
    if Acyclic(m) {
      forall id ensures !OwnAncestor(m, id) {
        assert Ends(m, id);
        var n: nat :| Up(m, id, n) == None;
        forall d: nat | d > 0 ensures Up(m, id, d) != Some(id) {
          if Up(m, id, d) == Some(id) { ReturningNeverEnds(m, id, d, n); }
        }
      }
    }
    forall id ensures Ends(m, id) || exists x :: OwnAncestor(m, x) {
      EndsOrRepeats(m, id, 0, {});
      if Repeats(m, id) {
        var j: nat, i: nat :| j < i && Up(m, id, j).Some? && Up(m, id, j) == Up(m, id, i);
        UpAdd(m, id, j, i - j);
        assert OwnAncestor(m, Up(m, id, j).value);
      }
    }
  }

  // ---------------------------------------------------------------- one write

  lemma EndsOneUp(m: Parents, id: string)
    requires id != "" && Next(m, id).Some? ==> Ends(m, Next(m, id).value)
    ensures Ends(m, id)
  {
    if id == "" {
      assert Up(m, id, 0) == None;
    } else if Next(m, id).None? {
      assert Up(m, id, 1) == None;
    } else {
      var n: nat :| Up(m, Next(m, id).value, n) == None;
      assert Up(m, id, n + 1) == None;
    }
  }

  lemma {:induction false} SameAbove(m: Parents, c: string, parent: Option<string>, id: string, n: nat)
    requires forall k: nat | k < n :: Up(m, id, k) != Some(c)
    ensures Up(m[c := parent], id, n) == Up(m, id, n)
    decreases n
  {
    if id != "" && n > 0 {
      assert Up(m, id, 0) == Some(id);
      if Next(m, id).Some? {
        forall k: nat | k < n - 1 ensures Up(m, Next(m, id).value, k) != Some(c) {
          assert Up(m, id, k + 1) == Up(m, Next(m, id).value, k);
        }
        SameAbove(m, c, parent, Next(m, id).value, n - 1);
      }
    }
  }

  lemma {:induction false} EndsAfterUpdate(m: Parents, c: string, parent: Option<string>, id: string, n: nat)
    requires Ends(m[c := parent], c) && Up(m, id, n) == None
    ensures Ends(m[c := parent], id)
    decreases n
  {
    if id != c {
      var after := m[c := parent];
      assert Next(after, id) == Next(m, id);
      if id != "" && Next(m, id).Some? { EndsAfterUpdate(m, c, parent, Next(m, id).value, n - 1); }
      EndsOneUp(after, id);
    }
  }

  /** On acyclic links an update keeps them acyclic exactly when the check answers false. */
  lemma UpdateKeepsAcyclicIff(m: Parents, c: string, p: string)
    requires Acyclic(m) && c != ""
    ensures Acyclic(m[c := Some(p)]) <==> !Reaches(m, p, c)
  {
    var after := m[c := Some(p)];
    if !Reaches(m, p, c) {
      assert Ends(m, p);
      var n: nat :| Up(m, p, n) == None;
      SameAbove(m, c, Some(p), p, n);
      assert Ends(after, p);
      EndsOneUp(after, c);
      forall id ensures Ends(after, id) {
        assert Ends(m, id);
        var k: nat :| Up(m, id, k) == None;
        EndsAfterUpdate(m, c, Some(p), id, k);
      }
    } else {
      var n: nat :| Up(m, p, n) == Some(c);
      var first := FirstReach(m, p, c, n);
      SameAbove(m, c, Some(p), p, first);
      assert Up(after, c, first + 1) == Some(c);
      assert OwnAncestor(after, c);
      AcyclicIffNoOwnAncestor(after);
    }
  }

  lemma {:induction false} FirstReach(m: Parents, id: string, target: string, n: nat) returns (first: nat)
    requires Up(m, id, n) == Some(target)
    ensures Up(m, id, first) == Some(target) && forall k: nat | k < first :: Up(m, id, k) != Some(target)
  {
    if k: nat :| k < n && Up(m, id, k) == Some(target) {
      first := FirstReach(m, id, target, k);
    } else {
      first := n;
    }
  }

  lemma ClearingKeepsAcyclic(m: Parents, c: string)
    requires Acyclic(m)
    ensures Acyclic(m[c := None])
  {
    var after := m[c := None];
    EndsOneUp(after, c);
    forall id ensures Ends(after, id) {
      assert Ends(m, id);
      var k: nat :| Up(m, id, k) == None;
      EndsAfterUpdate(m, c, None, id, k);
    }
  }

  lemma {:induction false} EndsAfterDelete(m: Parents, gone: string, id: string, n: nat)
    requires Up(m, id, n) == None
    ensures Ends(m - {gone}, id)
    decreases n
  {
    if id != "" && Next(m - {gone}, id).Some? { EndsAfterDelete(m, gone, Next(m, id).value, n - 1); }
    EndsOneUp(m - {gone}, id);
  }

  lemma DeletingKeepsAcyclic(m: Parents, gone: string)
    requires Acyclic(m)
    ensures Acyclic(m - {gone})
  {
    forall id ensures Ends(m - {gone}, id) {
      assert Ends(m, id);
      var k: nat :| Up(m, id, k) == None;
      EndsAfterDelete(m, gone, id, k);
    }
  }

  // ---------------------------------------------------------------- every sequence of writes

  datatype Write =
    | Create(id: string, parentId: Option<string>)
    | Update(id: string, parentId: Option<string>)
    | Delete(id: string)

  datatype WriteError = CycleError | NotFound | InUse | ForeignKeyViolation | DuplicateId

  /** `parent_id` references `id`. */
  ghost predicate ForeignKeys(m: Parents) {
    forall id | id in m && m[id].Some? :: m[id].value in m
  }

  predicate References(m: Parents, parentId: Option<string>) {
    parentId.None? || parentId.value in m
  }

  /** What the check of an admin action lets through; only an update with a parent is checked. */
  ghost predicate Passes(m: Parents, w: Write) {
    w.Update? && w.parentId.Some? && w.parentId.value != "" ==> !Reaches(m, w.parentId.value, w.id)
  }

  /** The write itself, as the database takes it, whatever was checked before. */
  ghost function Land(m: Parents, w: Write): Result<Parents, WriteError> {
    match w
    case Create(id, parentId) =>
      if id in m || id == "" then Err(DuplicateId)
      else if !References(m, parentId) then Err(ForeignKeyViolation)
      else Ok(m[id := parentId])
    case Update(id, parentId) =>
      if id !in m then Err(NotFound)
      else if !References(m, parentId) then Err(ForeignKeyViolation)
      else Ok(m[id := parentId])
    case Delete(id) =>
      if exists child :: child in m && m[child] == Some(id) then Err(InUse)
      else if id !in m then Err(NotFound)
      else Ok(m - {id})
  }

  /** The links after one admin action, each run to its end before the next begins. */
  ghost function Apply(m: Parents, w: Write): Result<Parents, WriteError> {
    if Passes(m, w) then Land(m, w) else Err(CycleError)
  }

  ghost function Run(m: Parents, writes: seq<Write>): Parents {
    if writes == [] then m
    else
      var before := Run(m, writes[..|writes| - 1]);
      match Apply(before, writes[|writes| - 1])
      case Ok(after) => after
      case Err(_) => before
  }

  lemma {:induction false} WalkStaysInTable(m: Parents, id: string, n: nat)
    requires ForeignKeys(m) && id in m
    ensures Up(m, id, n).Some? ==> Up(m, id, n).value in m
    decreases n
  {
    if id != "" && n > 0 && Next(m, id).Some? { WalkStaysInTable(m, Next(m, id).value, n - 1); }
  }

  /** A write that lands keeps the links acyclic exactly when it would pass the check at that moment. */
  lemma LandKeeps(m: Parents, w: Write)
    requires Acyclic(m) && ForeignKeys(m) && "" !in m && Land(m, w).Ok?
    ensures Acyclic(Land(m, w).value) <==> Passes(m, w)
    ensures ForeignKeys(Land(m, w).value) && "" !in Land(m, w).value
  {
    match w
    case Create(id, parentId) =>
      if parentId.Some? {
        forall n: nat ensures Up(m, parentId.value, n) != Some(id) { WalkStaysInTable(m, parentId.value, n); }
        UpdateKeepsAcyclicIff(m, id, parentId.value);
      } else {
        ClearingKeepsAcyclic(m, id);
      }
    case Update(id, parentId) =>
      if parentId.Some? { UpdateKeepsAcyclicIff(m, id, parentId.value); } else { ClearingKeepsAcyclic(m, id); }
    case Delete(id) => DeletingKeepsAcyclic(m, id);
  }

  /** Whatever the admins do, one action after the other, no category ever becomes its own ancestor. */
  lemma {:induction false} WritesKeepAcyclic(m: Parents, writes: seq<Write>)
    requires Acyclic(m) && ForeignKeys(m) && "" !in m
    ensures Acyclic(Run(m, writes)) && ForeignKeys(Run(m, writes)) && "" !in Run(m, writes)
  {
    if writes != [] {
      WritesKeepAcyclic(m, writes[..|writes| - 1]);
      var before, last := Run(m, writes[..|writes| - 1]), writes[|writes| - 1];
      if Apply(before, last).Ok? { LandKeeps(before, last); }
    }
  }

  // ---------------------------------------------------------------- what the table holds

  /** What the table says of a category: nothing, or its parent, if any. */
  function LinkOf(m: Parents, id: string): Option<Option<string>> {
    if id in m then Some(m[id]) else None
  }

  /** Who may write: ids are new and named or known, parents exist, and only leaves go. */
  ghost predicate Accepted(m: Parents, w: Write) {
    match w
    case Create(id, parentId) => id != "" && id !in m && (parentId.Some? ==> parentId.value in m)
    case Update(id, parentId) =>
      && id in m && (parentId.Some? ==> parentId.value in m)
      && !(parentId.Some? && parentId.value != "" && Reaches(m, parentId.value, id))
    case Delete(id) => id in m && forall child | child in m :: m[child] != Some(id)
  }

  /** What an accepted write leaves of its category. */
  function Written(w: Write): Option<Option<string>> {
    match w
    case Create(_, parentId) => Some(parentId)
    case Update(_, parentId) => Some(parentId)
    case Delete(_) => None
  }

  /** An action goes through exactly when it may, sets its own category's link, and no other. */
  lemma ApplySets(m: Parents, w: Write)
    ensures Apply(m, w).Ok? <==> Accepted(m, w)
    ensures Apply(m, w).Ok? ==> LinkOf(Apply(m, w).value, w.id) == Written(w)
    ensures Apply(m, w).Ok? ==> forall other | other != w.id :: LinkOf(Apply(m, w).value, other) == LinkOf(m, other)
  {
  }

  /** The link of a category after a run: what the last accepted write on it said. */
  ghost function LastLink(m: Parents, writes: seq<Write>, id: string): Option<Option<string>> {
    if writes == [] then LinkOf(m, id)
    else
      var last := writes[|writes| - 1];
      if last.id == id && Accepted(Run(m, writes[..|writes| - 1]), last) then Written(last)
      else LastLink(m, writes[..|writes| - 1], id)
  }

  /** Over every sequence of actions each category has the parent of the last accepted write on it. */
  lemma {:induction false} RunHoldsLastLinks(m: Parents, writes: seq<Write>, id: string)
    ensures LinkOf(Run(m, writes), id) == LastLink(m, writes, id)
  {
    if writes != [] {
      RunHoldsLastLinks(m, writes[..|writes| - 1], id);
      ApplySets(Run(m, writes[..|writes| - 1]), writes[|writes| - 1]);
    }
  }

  // ---------------------------------------------------------------- writes that were checked too early

  /** The links after a write has landed, or failed to. */
  ghost function Landed(m: Parents, w: Write): Parents {
    if Land(m, w).Ok? then Land(m, w).value else m
  }

  ghost predicate AcyclicThroughout(m: Parents, writes: seq<Write>)
    decreases |writes|
  {
    Acyclic(m) && (writes == [] || AcyclicThroughout(Landed(m, writes[0]), writes[1..]))
  }

  /** Every write that lands would pass the check at the moment it lands, whenever it was checked. */
  ghost predicate PassAsTheyLand(m: Parents, writes: seq<Write>)
    decreases |writes|
  {
    writes == []
    || ((Land(m, writes[0]).Ok? ==> Passes(m, writes[0])) && PassAsTheyLand(Landed(m, writes[0]), writes[1..]))
  }

  /**
   * Writes that land in any order, checked at any earlier time or not at all, keep the links acyclic
   * throughout exactly when each of them would pass the check at the moment it lands.
   */
  lemma {:induction false} LandedStayAcyclicIff(m: Parents, writes: seq<Write>)
    requires Acyclic(m) && ForeignKeys(m) && "" !in m
    ensures AcyclicThroughout(m, writes) <==> PassAsTheyLand(m, writes)
    decreases |writes|
  {
    if writes != [] {
      var next := Landed(m, writes[0]);
      if Land(m, writes[0]).Ok? { LandKeeps(m, writes[0]); }
      if Acyclic(next) { LandedStayAcyclicIff(next, writes[1..]); }
    }
  }

  /** The check and the write are two statements: two admins who both check first can make a cycle. */
  lemma StaleChecksCanCycle()
    ensures var m: Parents := map["a" := None, "b" := None];
            && Acyclic(m) && ForeignKeys(m)
            && !Reaches(m, "b", "a") && !Reaches(m, "a", "b")
            && !Acyclic(m["a" := Some("b")]["b" := Some("a")])
  {
    var m: Parents := map["a" := None, "b" := None];
    forall id ensures Ends(m, id) { EndsOneUp(m, id); }
    forall n: nat ensures Up(m, "b", n) != Some("a") && Up(m, "a", n) != Some("b") {}
    var after := m["a" := Some("b")]["b" := Some("a")];
    assert Up(after, "a", 2) == Up(after, "b", 1) == Some("a");
    assert OwnAncestor(after, "a");
    AcyclicIffNoOwnAncestor(after);
  }

  // ---------------------------------------------------------------- the table, in place

  class CategoryTable {
    var parents: Parents

    constructor ()
      ensures parents == map[]
    {
      parents := map[];
    }

    /** `wouldCreateCategoryCycle`: true exactly for the category itself and its ancestors. */
    method WouldCreateCategoryCycle(categoryId: string, proposedParentId: string) returns (r: bool)
      ensures r <==> proposedParentId == categoryId || Reaches(parents, proposedParentId, categoryId)
    {
      if proposedParentId == categoryId { return true; }
      var seen: set<string> := {};
      var cursor: Option<string> := if proposedParentId == "" then None else Some(proposedParentId);
      ghost var i: nat := 0;
      while cursor.Some?
        invariant cursor == Up(parents, proposedParentId, i)
        invariant forall k: nat | k < i :: Up(parents, proposedParentId, k) != Some(categoryId)
        invariant forall s <- seen :: Visited(parents, proposedParentId, i, s)
        invariant seen <= Universe(parents, proposedParentId)
        decreases Universe(parents, proposedParentId) - seen, cursor.Some?
      {
        if cursor.value == categoryId { return true; }
        StaysInside(parents, proposedParentId, i);
        if cursor.value in seen {
          NothingNew(parents, proposedParentId, i, categoryId);
          return false;
        }
        seen := seen + {cursor.value};
        forall s | s in seen ensures Visited(parents, proposedParentId, i + 1, s) {
          if s != cursor.value { assert Visited(parents, proposedParentId, i, s); }
        }
        UpAdd(parents, proposedParentId, i, 1);
        cursor := if cursor.value in parents && parents[cursor.value] != Some("") then parents[cursor.value] else None;
        i := i + 1;
      }
      NothingAfterTheEnd(parents, proposedParentId, i, categoryId);
      r := false;
    }

    /** `updateCategoryAction`. */
    method UpdateCategoryAction(id: string, parentId: Option<string>) returns (r: Result<(), WriteError>)
      requires id != ""
      modifies this
      ensures var w := Apply(old(parents), Update(id, parentId));
              match w
              case Ok(after) => r == Ok(()) && parents == after
              case Err(e) => r == Err(e) && parents == old(parents)
      ensures r.Ok? <==> Accepted(old(parents), Update(id, parentId))
      ensures r.Ok? ==> parents.Keys == old(parents).Keys && parents[id] == parentId
      ensures forall other | other in parents && other != id :: parents[other] == old(parents)[other]
      ensures r == Err(CycleError) <==>
                parentId.Some? && parentId.value != ""
                && (parentId.value == id || Reaches(old(parents), parentId.value, id))
    {
      ApplySets(parents, Update(id, parentId));
      if parentId.Some? && parentId.value != "" {
        var cycle := WouldCreateCategoryCycle(id, parentId.value);
        if cycle {
          if parentId.value == id { assert Up(parents, id, 0) == Some(id); }
          return Err(CycleError);
        }
      }
      if id !in parents { return Err(NotFound); }
      if !References(parents, parentId) { return Err(ForeignKeyViolation); }
      parents := parents[id := parentId];
      r := Ok(());
    }

    /** `createCategoryAction`, once the name and the slug are accepted. */
    method CreateCategoryAction(id: string, parentId: Option<string>) returns (r: Result<(), WriteError>)
      modifies this
      ensures r.Ok? <==> Accepted(old(parents), Create(id, parentId))
      ensures r.Ok? ==> parents.Keys == old(parents).Keys + {id} && parents[id] == parentId
      ensures r.Err? ==> parents == old(parents)
      ensures forall other | other in old(parents) :: other in parents && parents[other] == old(parents)[other]
    {
      if id in parents || id == "" { return Err(DuplicateId); }
      if !References(parents, parentId) { return Err(ForeignKeyViolation); }
      parents := parents[id := parentId];
      r := Ok(());
    }

    /** `deleteCategoryAction`: refused while children or products refer to it. */
    method DeleteCategoryAction(id: string, products: nat) returns (r: Result<(), WriteError>)
      modifies this
      ensures r.Ok? <==> products == 0 && Accepted(old(parents), Delete(id))
      ensures r.Ok? ==> parents.Keys == old(parents).Keys - {id}
      ensures r.Err? ==> parents == old(parents)
      ensures forall other | other in parents :: parents[other] == old(parents)[other]
    {
      var children := set child | child in parents && parents[child] == Some(id);
      if |children| > 0 || products > 0 {
        if products == 0 {
          var child :| child in children;
          assert parents[child] == Some(id);
        }
        return Err(InUse);
      }
      assert forall child | child in parents && parents[child] == Some(id) :: child in children;
      if id !in parents { return Err(NotFound); }
      parents := parents - {id};
      r := Ok(());
    }
  }

  lemma NothingNew(m: Parents, id: string, i: nat, target: string)
    requires forall k: nat | k < i :: Up(m, id, k) != Some(target)
    requires Up(m, id, i).Some? && Visited(m, id, i, Up(m, id, i).value)
    ensures !Reaches(m, id, target)
  {
    var j: nat :| j < i && Up(m, id, j) == Up(m, id, i);
    forall n: nat ensures Up(m, id, n) != Some(target) {
      var k := RepeatsForever(m, id, j, i, n);
    }
  }

  lemma NothingAfterTheEnd(m: Parents, id: string, i: nat, target: string)
    requires Up(m, id, i) == None && forall k: nat | k < i :: Up(m, id, k) != Some(target)
    ensures !Reaches(m, id, target)
  {
    forall n: nat ensures Up(m, id, n) != Some(target) {
      if n >= i { UpAdd(m, id, i, n - i); }
    }
  }

  // ---------------------------------------------------------------- and the page

  function ParentsOf(rows: seq<Forest.Row>): Parents {
    if rows == [] then map[]
    else
      var last := rows[|rows| - 1];
      ParentsOf(rows[..|rows| - 1])[last.id := last.parentId]
  }

  /** Acyclic links in the table mean that the page's forest drops no category. */
  lemma AcyclicTableLosesNothing(rows: seq<Forest.Row>)
    requires Forest.DistinctIds(rows) && Acyclic(ParentsOf(rows)) && "" !in Forest.Ids(rows)
    ensures Forest.CatalogSignals(Forest.Forest(rows)).totalFields == |rows|
  {
    forall row | row in rows ensures Forest.Grounded(rows, row) {
      assert Ends(ParentsOf(rows), row.id);
      var n: nat :| Up(ParentsOf(rows), row.id, n) == None;
      EndsMeansGrounded(rows, row, n);
    }
    Forest.NothingLostIff(rows);
  }

  lemma {:induction false} ParentsOfRow(rows: seq<Forest.Row>, row: Forest.Row)
    requires Forest.DistinctIds(rows) && row in rows
    ensures row.id in ParentsOf(rows) && ParentsOf(rows)[row.id] == row.parentId
    decreases |rows|
  {
    var n := |rows| - 1;
    assert rows == rows[..n] + [rows[n]];
    assert Pieces.Each(Forest.IdOf, rows)[..n] == Pieces.Each(Forest.IdOf, rows[..n]);
    if row != rows[n] {
      if row.id == rows[n].id { Forest.OneRowPerId(rows, row, rows[n]); }
      ParentsOfRow(rows[..n], row);
    }
  }

  lemma {:induction false} EndsMeansGrounded(rows: seq<Forest.Row>, row: Forest.Row, n: nat)
    requires Forest.DistinctIds(rows) && row in rows && "" !in Forest.Ids(rows)
    requires Up(ParentsOf(rows), row.id, n) == None
    ensures Forest.Grounded(rows, row)
    decreases n
  {
    ParentsOfRow(rows, row);
    var key := Forest.ParentKey(Forest.Ids(rows), row);
    if key.None? {
      Forest.RootDepth(rows, row);
    } else {
      var parent := Forest.RowWithId(rows, key.value);
      EndsMeansGrounded(rows, parent, n - 1);
      Forest.ChildDepth(rows, parent, row);
    }
  }
}

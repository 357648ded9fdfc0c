/** The folder hierarchy: the chain of parent references above a folder, the set of
    folders that `ON DELETE CASCADE` on folders.parent_id removes together with one
    folder, and the walk of `isDescendant` in the folder controller. Nothing in the
    store keeps the parent references free of cycles, so every definition here is
    total also on stores whose parent references form a cycle. */
module Hierarchy {
  import opened Common
  import opened Schema

  // ---------------------------------------------------------------------------
  // Ancestor chains

  /** The parent reference of a folder; a missing row reads as null, as in
      `parent ? parent.parent_id : null`. */
  function ParentOf(folders: map<int, Folder>, id: int): Option<int>
  {
    if id in folders then folders[id].parent else None
  }

  /** Where one ends up after following `k` parent references from `c`. */
  function Climb(folders: map<int, Folder>, c: Option<int>, k: nat): Option<int>
    decreases k
  {
    if k == 0 || c.None? then c
    else Climb(folders, ParentOf(folders, c.value), k - 1)
  }

  /** `a` is `g` itself or one of its ancestors. */
  ghost predicate AncestorOrSelf(folders: map<int, Folder>, a: int, g: int)
  {
    exists k: nat :: Climb(folders, Some(g), k) == Some(a)
  }

  /** Following parent references from `g` reaches a root after finitely many steps. */
  ghost predicate ChainEnds(folders: map<int, Folder>, c: Option<int>)
  {
    exists k: nat :: Climb(folders, c, k) == None
  }

  /** No folder lies on a cycle of parent references. */
  ghost predicate Acyclic(folders: map<int, Folder>)
  {
    forall g :: g in folders ==> ChainEnds(folders, Some(g))
  }

  lemma {:induction false} ClimbNone(folders: map<int, Folder>, k: nat)
    ensures Climb(folders, None, k) == None
  {
  }

  lemma {:induction false} ClimbAdd(folders: map<int, Folder>, c: Option<int>, a: nat, b: nat)
    ensures Climb(folders, c, a + b) == Climb(folders, Climb(folders, c, a), b)
    decreases a
  {
    if a > 0 {
      if c.None? {
        ClimbNone(folders, b);
      } else {
        ClimbAdd(folders, ParentOf(folders, c.value), a - 1, b);
      }
    }
  }

  /** Once the chain stops, it stays stopped. */
  lemma ClimbStays(folders: map<int, Folder>, c: Option<int>, k: nat, m: nat)
    requires k <= m && Climb(folders, c, k) == None
    ensures Climb(folders, c, m) == None
  {
    ClimbAdd(folders, c, k, m - k);
    ClimbNone(folders, m - k);
  }

  /** With parent references that name existing folders, a chain starting at a
      folder only visits folders. */
  lemma {:induction false} ClimbInFolders(folders: map<int, Folder>, g: int, k: nat)
    requires ParentsExist(folders) && g in folders
    ensures Climb(folders, Some(g), k).Some? ==> Climb(folders, Some(g), k).value in folders
    decreases k
  {
    if k > 0 && folders[g].parent.Some? {
      ClimbInFolders(folders, folders[g].parent.value, k - 1);
    }
  }

  /** A chain that returns to a place it has been repeats itself: every later
      position equals an earlier one. */
  lemma {:induction false} ClimbPeriodic(folders: map<int, Folder>, c: Option<int>, i: nat, j: nat, k: nat)
    requires i < j && Climb(folders, c, i) == Climb(folders, c, j)
    ensures exists k': nat :: k' < j && Climb(folders, c, k) == Climb(folders, c, k')
    decreases k
  {
    if k >= j {
      var back := k - (j - i);
      ClimbAdd(folders, c, j, k - j);
      ClimbAdd(folders, c, i, k - j);
      assert Climb(folders, c, k) == Climb(folders, c, back);
      ClimbPeriodic(folders, c, i, j, back);
      var k': nat :| k' < j && Climb(folders, c, back) == Climb(folders, c, k');
    } else {
      assert Climb(folders, c, k) == Climb(folders, c, k);
    }
  }

  /** With parent references that name existing folders, the first
      |folders| + 1 positions of a chain are all the places it ever visits. */
  lemma ChainPrefixCovers(folders: map<int, Folder>, g: int, k: nat)
    requires ParentsExist(folders) && g in folders
    ensures exists k': nat :: k' <= |folders| && Climb(folders, Some(g), k) == Climb(folders, Some(g), k')
  {
    var n := |folders|;
    var c := Some(g);
    if k <= n {
      assert Climb(folders, c, k) == Climb(folders, c, k);
    } else if Climb(folders, c, n) == None {
      ClimbStays(folders, c, n, k);
    } else {
      var s := seq(n + 1, p requires 0 <= p <= n => Climb(folders, c, p));
      forall p | 0 <= p <= n ensures s[p].Some? && s[p].value in folders {
        if Climb(folders, c, p) == None {
          ClimbStays(folders, c, p, n);
        }
        ClimbInFolders(folders, g, p);
      }
      var vals := seq(n + 1, p requires 0 <= p <= n => s[p].value);
      assert |folders.Keys| == n;
      PigeonHole(vals, folders.Keys);
      var i, j :| 0 <= i < j < |vals| && vals[i] == vals[j];
      assert s[i] == s[j];
      ClimbPeriodic(folders, c, i, j, k);
    }
  }

  /** A chain that never stops repeats one of its first |folders| + 1 positions. */
  lemma ClimbAncestor(folders: map<int, Folder>, g: int, a: int)
    requires ParentsExist(folders) && g in folders
    ensures AncestorOrSelf(folders, a, g) <==>
      exists k: nat :: k <= |folders| && Climb(folders, Some(g), k) == Some(a)
  {
    if AncestorOrSelf(folders, a, g) {
      var k: nat :| Climb(folders, Some(g), k) == Some(a);
      ChainPrefixCovers(folders, g, k);
    }
  }

  // ---------------------------------------------------------------------------
  // ON DELETE CASCADE on folders.parent_id

  ghost predicate ClosedUnderChildren(folders: map<int, Folder>, r: set<int>)
  {
    forall g :: g in folders && folders[g].parent.Some? && folders[g].parent.value in r ==> g in r
  }

  /** The rows that deleting folder `f` removes: `f`, the rows that refer to it,
      the rows that refer to those, and so on. A row is reached this way exactly
      when its chain of parent references meets `f`, and the first |folders| + 1
      positions of a chain are all the places it visits. */
  function Cascade(folders: map<int, Folder>, f: int): (r: set<int>)
    ensures r <= folders.Keys
  {
    set g | g in folders && exists k | 0 <= k <= |folders| :: Climb(folders, Some(g), k) == Some(f)
  }

  /** Deleting folder `f` removes exactly `f` and the folders that have `f` as an
      ancestor, whatever the shape of the parent references. */
  lemma CascadeIsSubtree(folders: map<int, Folder>, f: int, g: int)
    requires ParentsExist(folders)
    ensures g in Cascade(folders, f) <==> g in folders && AncestorOrSelf(folders, f, g)
  {
    if g in folders {
      ClimbAncestor(folders, g, f);
    }
  }

  /** The cascade stops only where no remaining row refers to a deleted one. */
  lemma CascadeClosed(folders: map<int, Folder>, f: int)
    requires ParentsExist(folders)
    ensures ClosedUnderChildren(folders, Cascade(folders, f))
  {
    var r := Cascade(folders, f);
    forall g | g in folders && folders[g].parent.Some? && folders[g].parent.value in r
      ensures g in r
    {
      var p := folders[g].parent.value;
      CascadeIsSubtree(folders, f, p);
      var k: nat :| Climb(folders, Some(p), k) == Some(f);
      assert Climb(folders, Some(g), k + 1) == Some(f);
      CascadeIsSubtree(folders, f, g);
    }
  }

  /** After the cascade, no remaining folder refers to a deleted one. */
  lemma CascadeKeepsParents(folders: map<int, Folder>, f: int)
    requires ParentsExist(folders)
    ensures ParentsExist(map g | g in folders && g !in Cascade(folders, f) :: folders[g])
  {
    CascadeClosed(folders, f);
  }

  // ---------------------------------------------------------------------------
  // isDescendant(folderId, ancestorId)

  datatype Walk = Found | Ended | OutOfFuel

  /** The `while (currentId !== null)` loop of isDescendant run for at most `fuel`
      rounds: `Found` is `return true`, `Ended` is `return false`, and `OutOfFuel`
      means the loop was still going. */
  function WalkFrom(folders: map<int, Folder>, cur: Option<int>, target: int, fuel: nat): (r: Walk)
    ensures r == Found ==> exists k: nat :: k < fuel && Climb(folders, cur, k) == Some(target)
    ensures r == Ended ==> exists k: nat :: k <= fuel && Climb(folders, cur, k) == None
    ensures r == OutOfFuel ==> Climb(folders, cur, fuel).Some?
    decreases fuel
  {
    if cur.None? then
      assert Climb(folders, cur, 0) == None;
      Ended
    else if fuel == 0 then OutOfFuel
    else if cur.value == target then
      assert Climb(folders, cur, 0) == Some(target);
      Found
    else
      var up := ParentOf(folders, cur.value);
      var r := WalkFrom(folders, up, target, fuel - 1);
      assert r == Found ==> exists k: nat :: k < fuel && Climb(folders, cur, k) == Some(target) by {
        if r == Found {
          var k: nat :| k < fuel - 1 && Climb(folders, up, k) == Some(target);
          assert Climb(folders, cur, k + 1) == Some(target);
        }
      }
      assert r == Ended ==> exists k: nat :: k <= fuel && Climb(folders, cur, k) == None by {
        if r == Ended {
          var k: nat :| k <= fuel - 1 && Climb(folders, up, k) == None;
          assert Climb(folders, cur, k + 1) == None;
        }
      }
      r
  }

  /** The bounded walk answers `Found` whenever `target` is among the first `fuel`
      positions of the chain. */
  lemma {:induction false} WalkFindsTarget(folders: map<int, Folder>, cur: Option<int>, target: int, fuel: nat, k: nat)
    requires k < fuel && Climb(folders, cur, k) == Some(target)
    ensures WalkFrom(folders, cur, target, fuel) == Found
    decreases k
  {
    if k > 0 && cur.value != target {
      WalkFindsTarget(folders, ParentOf(folders, cur.value), target, fuel - 1, k - 1);
    }
  }

  /** ... and only then: a `Found` answer names the position where it stopped. */
  lemma {:induction false} WalkFoundAt(folders: map<int, Folder>, cur: Option<int>, target: int, fuel: nat) returns (k: nat)
    requires WalkFrom(folders, cur, target, fuel) == Found
    ensures k < fuel && Climb(folders, cur, k) == Some(target)
    decreases fuel
  {
    if cur.value == target {
      k := 0;
    } else {
      var j := WalkFoundAt(folders, ParentOf(folders, cur.value), target, fuel - 1);
      k := j + 1;
    }
  }

  /** An `Ended` answer names the position where the chain stopped. */
  lemma {:induction false} WalkEndedAt(folders: map<int, Folder>, cur: Option<int>, target: int, fuel: nat) returns (k: nat)
    requires WalkFrom(folders, cur, target, fuel) == Ended
    ensures k <= fuel && Climb(folders, cur, k) == None
    decreases fuel
  {
    if cur.None? {
      k := 0;
    } else {
      var j := WalkEndedAt(folders, ParentOf(folders, cur.value), target, fuel - 1);
      k := j + 1;
    }
  }

  /** An `OutOfFuel` answer means the chain was still going after `fuel` steps. */
  lemma {:induction false} WalkOutOfFuelGoesOn(folders: map<int, Folder>, cur: Option<int>, target: int, fuel: nat)
    requires WalkFrom(folders, cur, target, fuel) == OutOfFuel
    ensures Climb(folders, cur, fuel).Some?
    decreases fuel
  {
    if fuel > 0 {
      WalkOutOfFuelGoesOn(folders, ParentOf(folders, cur.value), target, fuel - 1);
    }
  }

  /** A chain that is still going after `fuel` steps and has not met `target` makes
      the walk run out of rounds. */
  lemma {:induction false} WalkRunsOut(folders: map<int, Folder>, cur: Option<int>, target: int, fuel: nat)
    requires Climb(folders, cur, fuel).Some?
    requires forall k: nat :: k < fuel ==> Climb(folders, cur, k) != Some(target)
    ensures WalkFrom(folders, cur, target, fuel) == OutOfFuel
    decreases fuel
  {
    assert forall k: nat :: k < fuel ==> Climb(folders, cur, k) != Some(target);
    if cur.None? {
      ClimbNone(folders, fuel);
    } else if fuel > 0 {
      var up := ParentOf(folders, cur.value);
      assert Climb(folders, cur, 0) != Some(target);
      forall k: nat | k < fuel - 1 ensures Climb(folders, up, k) != Some(target) {
        assert Climb(folders, cur, k + 1) == Climb(folders, up, k);
      }
      WalkRunsOut(folders, up, target, fuel - 1);
    }
  }

  /** The walk isDescendant runs when asked to move `g` under `target`, with enough
      rounds to visit every folder once and one more. */
  function GuardWalk(folders: map<int, Folder>, g: int, target: int): (r: Walk)
    ensures r == Found ==> AncestorOrSelf(folders, target, g)
    ensures r == Ended ==> ChainEnds(folders, Some(g))
  {
    WalkFrom(folders, Some(g), target, |folders| + 1)
  }

  /** The walk starts at the folder being moved and climbs its ancestors, so it
      finds `target` exactly when `target` is that folder or one of its ancestors;
      it runs out of rounds exactly when the chain above the folder never reaches a
      root and never meets `target`, i.e. when the source's loop never ends. */
  lemma GuardWalkMeaning(folders: map<int, Folder>, g: int, target: int)
    requires ParentsExist(folders) && g in folders
    ensures GuardWalk(folders, g, target) == Found <==> AncestorOrSelf(folders, target, g)
    ensures GuardWalk(folders, g, target) == OutOfFuel <==>
      (forall k: nat :: Climb(folders, Some(g), k).Some? && Climb(folders, Some(g), k) != Some(target))
  {
    var n := |folders|;
    var c := Some(g);
    ClimbAncestor(folders, g, target);
    if GuardWalk(folders, g, target) == Found {
      var k := WalkFoundAt(folders, c, target, n + 1);
      assert k <= n && Climb(folders, c, k) == Some(target);
    }
    if AncestorOrSelf(folders, target, g) {
      var k: nat :| k <= n && Climb(folders, c, k) == Some(target);
      WalkFindsTarget(folders, c, target, n + 1, k);
    }
    if GuardWalk(folders, g, target) == OutOfFuel {
      WalkOutOfFuelGoesOn(folders, c, target, n + 1);
      forall k: nat ensures Climb(folders, c, k).Some? && Climb(folders, c, k) != Some(target) {
        ChainPrefixCovers(folders, g, k);
        var k': nat :| k' <= n && Climb(folders, c, k) == Climb(folders, c, k');
        if Climb(folders, c, k') == None {
          ClimbStays(folders, c, k', n + 1);
        }
      }
    }
    if GuardWalk(folders, g, target) == Found {
      var k := WalkFoundAt(folders, c, target, n + 1);
      assert !(Climb(folders, c, k).Some? && Climb(folders, c, k) != Some(target));
    } else if GuardWalk(folders, g, target) == Ended {
      var k := WalkEndedAt(folders, c, target, n + 1);
      assert !(Climb(folders, c, k).Some? && Climb(folders, c, k) != Some(target));
    }
  }

  /** A chain that never reaches a root does not end: the source's loop then runs
      forever. */
  lemma GuardWalkHangsOnlyOnCycles(folders: map<int, Folder>, g: int, target: int)
    requires ParentsExist(folders) && g in folders
    requires Acyclic(folders)
    ensures GuardWalk(folders, g, target) != OutOfFuel
  {
    GuardWalkMeaning(folders, g, target);
    assert Acyclic(folders);
    assert ChainEnds(folders, Some(g));
    var k: nat :| Climb(folders, Some(g), k) == None;
    if GuardWalk(folders, g, target) == OutOfFuel {
      assert Climb(folders, Some(g), k).Some?;
    }
  }

  // ---------------------------------------------------------------------------
  // Changing one folder's parent reference

  /** A chain that never passes `id` is the same after the row of `id` changes. */
  lemma {:induction false} ClimbAvoiding(folders: map<int, Folder>, id: int, nf: Folder, c: Option<int>, k: nat)
    requires forall j: nat :: j < k ==> Climb(folders, c, j) != Some(id)
    ensures Climb(folders[id := nf], c, k) == Climb(folders, c, k)
    decreases k
  {
    assert forall j: nat :: j < k ==> Climb(folders, c, j) != Some(id);
    if k > 0 && c.Some? {
      assert Climb(folders, c, 0) != Some(id);
      var up := ParentOf(folders, c.value);
      assert ParentOf(folders[id := nf], c.value) == up;
      forall j: nat | j < k - 1 ensures Climb(folders, up, j) != Some(id) {
        assert Climb(folders, c, j + 1) == Climb(folders, up, j);
      }
      ClimbAvoiding(folders, id, nf, up, k - 1);
    }
  }

  /** A chain that ends before the change still ends after it, provided the chain
      above the new parent of `id` ends after the change. */
  lemma {:induction false} EndsAfterUpdate(folders: map<int, Folder>, id: int, nf: Folder, c: Option<int>, steps: nat, above: nat)
    returns (k: nat)
    requires Climb(folders, c, steps) == None
    requires Climb(folders[id := nf], nf.parent, above) == None
    ensures Climb(folders[id := nf], c, k) == None
    decreases steps
  {
    var updated := folders[id := nf];
    if c.None? {
      k := 0;
    } else if c.value == id {
      assert Climb(updated, c, 1 + above) == Climb(updated, nf.parent, above);
      k := 1 + above;
    } else {
      var up := ParentOf(folders, c.value);
      assert ParentOf(updated, c.value) == up;
      var j := EndsAfterUpdate(folders, id, nf, up, steps - 1, above);
      assert Climb(updated, c, j + 1) == Climb(updated, up, j);
      k := j + 1;
    }
  }

  /** Giving folder `id` (a new row or an existing one) a parent that is not `id`
      itself nor one of its descendants keeps every chain finite and every parent
      reference pointing at a row. */
  lemma ReparentKeepsAcyclic(folders: map<int, Folder>, id: int, nf: Folder)
    requires ParentsExist(folders) && Acyclic(folders)
    requires nf.parent.Some? ==> nf.parent.value in folders && !AncestorOrSelf(folders, id, nf.parent.value)
    ensures ParentsExist(folders[id := nf])
    ensures Acyclic(folders[id := nf])
  {
    var updated := folders[id := nf];
    var above: nat := 0;
    if nf.parent.Some? {
      var p := nf.parent.value;
      assert ChainEnds(folders, Some(p));
      var steps: nat :| Climb(folders, Some(p), steps) == None;
      assert forall j: nat :: j < steps ==> Climb(folders, Some(p), j) != Some(id);
      ClimbAvoiding(folders, id, nf, Some(p), steps);
      above := steps;
    }
    forall g | g in updated ensures ChainEnds(updated, Some(g)) {
      if g in folders {
        assert ChainEnds(folders, Some(g));
        var steps: nat :| Climb(folders, Some(g), steps) == None;
        var k := EndsAfterUpdate(folders, id, nf, Some(g), steps, above);
      } else {
        assert Climb(updated, Some(g), 1 + above) == Climb(updated, nf.parent, above);
      }
    }
  }

  /** A row that is not in the table is nobody's ancestor. */
  lemma FreshIsNoAncestor(folders: map<int, Folder>, id: int, g: int)
    requires ParentsExist(folders) && g in folders && id !in folders
    ensures !AncestorOrSelf(folders, id, g)
  {
    forall k: nat ensures Climb(folders, Some(g), k) != Some(id) {
      ClimbInFolders(folders, g, k);
    }
  }

  /** Inside the rows that survive a cascade, chains are those of the full table. */
  lemma {:induction false} ClimbAfterCascade(folders: map<int, Folder>, f: int, g: int, k: nat)
    requires ParentsExist(folders) && g in folders && g !in Cascade(folders, f)
    ensures Climb(map h | h in folders && h !in Cascade(folders, f) :: folders[h], Some(g), k) == Climb(folders, Some(g), k)
    decreases k
  {
    var rest := map h | h in folders && h !in Cascade(folders, f) :: folders[h];
    if k > 0 && folders[g].parent.Some? {
      var p := folders[g].parent.value;
      CascadeClosed(folders, f);
      assert p !in Cascade(folders, f);
      ClimbAfterCascade(folders, f, p, k - 1);
    }
  }

  /** Deleting a folder with its subtree keeps every remaining chain finite. */
  lemma CascadeKeepsAcyclic(folders: map<int, Folder>, f: int)
    requires ParentsExist(folders) && Acyclic(folders)
    ensures Acyclic(map h | h in folders && h !in Cascade(folders, f) :: folders[h])
  {
    var rest := map h | h in folders && h !in Cascade(folders, f) :: folders[h];
    forall g | g in rest ensures ChainEnds(rest, Some(g)) {
      assert ChainEnds(folders, Some(g));
      var k: nat :| Climb(folders, Some(g), k) == None;
      ClimbAfterCascade(folders, f, g, k);
    }
  }

  // ---------------------------------------------------------------------------
  // The cycle guard of updateFolder as written

  /** Two folders, "Projects" inside "Work". Asking to move "Work" (1) into
      "Projects" (2) walks up from folder 1, never meets folder 2, and so lets the
      move through; afterwards 1 and 2 are each other's parent. A later request to
      move folder 1 under any third folder walks that cycle forever. */
  lemma GuardWalkAdmitsCycle()
    ensures var before := map[1 := Folder("Work", None, None, 0, 0), 2 := Folder("Projects", None, Some(1), 0, 0)];
      var after := before[1 := before[1].(parent := Some(2))];
      && ParentsExist(before) && Acyclic(before)
      && GuardWalk(before, 1, 2) == Ended
      && ParentsExist(after) && !Acyclic(after)
      && GuardWalk(after, 1, 3) == OutOfFuel
  {
    var before := map[1 := Folder("Work", None, None, 0, 0), 2 := Folder("Projects", None, Some(1), 0, 0)];
    var after := before[1 := before[1].(parent := Some(2))];
    assert before.Keys == {1, 2} && after.Keys == {1, 2};
    assert |before| == 2 && |after| == 2;
    assert Climb(before, Some(1), 1) == None;
    assert Climb(before, Some(2), 2) == None;
    assert Acyclic(before);
    forall k: nat ensures Climb(after, Some(1), k) == Some(1) || Climb(after, Some(1), k) == Some(2) {
      TwoCycle(after, k);
    }
    assert !ChainEnds(after, Some(1));
    assert !Acyclic(after);
    assert ParentsExist(after);
    assert ParentOf(before, 1) == None;
    assert WalkFrom(before, Some(1), 2, 3) == Ended;
    assert ParentOf(after, 1) == Some(2) && ParentOf(after, 2) == Some(1);
    assert WalkFrom(after, Some(1), 3, 0) == OutOfFuel;
    assert WalkFrom(after, Some(1), 3, 2) == OutOfFuel;
    assert WalkFrom(after, Some(1), 3, 3) == OutOfFuel;
  }

  /** In a table where 1 and 2 are each other's parent, the chain above 1 alternates. */
  lemma {:induction false} TwoCycle(folders: map<int, Folder>, k: nat)
    requires 1 in folders && 2 in folders && folders[1].parent == Some(2) && folders[2].parent == Some(1)
    ensures Climb(folders, Some(1), k) == (if k % 2 == 0 then Some(1) else Some(2))
    ensures Climb(folders, Some(2), k) == (if k % 2 == 0 then Some(2) else Some(1))
    decreases k
  {
    if k > 0 {
      TwoCycle(folders, k - 1);
    }
  }

  // ---------------------------------------------------------------------------
  // The cycle guard of updateFolder as intended

  /** Walking up from the new parent and looking for the folder being moved rejects
      exactly the moves that would create a cycle: with the guard passing, the new
      table is free of cycles. */
  lemma CorrectedGuardKeepsAcyclic(folders: map<int, Folder>, id: int, p: int, nf: Folder)
    requires ParentsExist(folders) && Acyclic(folders)
    requires p in folders && nf.parent == Some(p)
    requires GuardWalk(folders, p, id) != Found
    ensures ParentsExist(folders[id := nf]) && Acyclic(folders[id := nf])
  {
    GuardWalkMeaning(folders, p, id);
    ReparentKeepsAcyclic(folders, id, nf);
  }

  /** ... and it rejects no move that would have been safe: a rejected move would
      close a cycle through the moved folder. */
  lemma CorrectedGuardRejectsOnlyCycles(folders: map<int, Folder>, id: int, p: int, nf: Folder)
    requires ParentsExist(folders) && p in folders && nf.parent == Some(p)
    requires GuardWalk(folders, p, id) == Found
    ensures !ChainEnds(folders[id := nf], Some(id))
  {
    GuardWalkMeaning(folders, p, id);
    var updated := folders[id := nf];
    var j: nat :| Climb(folders, Some(p), j) == Some(id);
    // the first visit of `id` on the chain above `p`
    var first := FirstVisit(folders, Some(p), id, j);
    ClimbAvoiding(folders, id, nf, Some(p), first);
    assert Climb(updated, Some(p), first) == Some(id);
    forall k: nat ensures Climb(updated, Some(id), k).Some? {
      CycleGoesOn(updated, id, first, k);
    }
  }

  /** The first position at which a chain visits `id`. */
  lemma {:induction false} FirstVisit(folders: map<int, Folder>, c: Option<int>, id: int, j: nat) returns (first: nat)
    requires Climb(folders, c, j) == Some(id)
    ensures first <= j && Climb(folders, c, first) == Some(id)
    ensures forall i: nat :: i < first ==> Climb(folders, c, i) != Some(id)
    decreases j
  {
    if c == Some(id) {
      first := 0;
    } else {
      var up := ParentOf(folders, c.value);
      var rest := FirstVisit(folders, up, id, j - 1);
      first := rest + 1;
      forall i: nat | i < first ensures Climb(folders, c, i) != Some(id) {
        if i > 0 { assert Climb(folders, c, i) == Climb(folders, up, i - 1); }
      }
    }
  }

  /** A folder whose chain returns to it after `period` + 1 steps never reaches a root. */
  lemma {:induction false} CycleGoesOn(folders: map<int, Folder>, id: int, period: nat, k: nat)
    requires id in folders && folders[id].parent.Some?
    requires Climb(folders, folders[id].parent, period) == Some(id)
    ensures Climb(folders, Some(id), k).Some?
    decreases k
  {
    if k > period + 1 {
      ClimbAdd(folders, Some(id), period + 1, k - (period + 1));
      assert Climb(folders, Some(id), period + 1) == Some(id);
      CycleGoesOn(folders, id, period, k - (period + 1));
    } else if k > 0 {
      ClimbAdd(folders, Some(id), 1, k - 1);
      var c := folders[id].parent;
      if Climb(folders, c, k - 1) == None {
        ClimbStays(folders, c, k - 1, period);
      }
    }
  }
}

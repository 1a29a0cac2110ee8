/** The identifier space of one record store and its crash recovery. An
    open space hands out ids (reusing freed ones first, lowest first, then
    growing the high id) and takes back freed ids. Its file carries a sticky
    marker that only an orderly close clears; a space reopened with the
    marker still set does not trust its free list, reports the store as not
    ok, and after the id generator is deleted and the store is made ok again
    allocation resumes at the old high id. */
module IdSpace {

  /** The persisted id file: header (sticky marker, high id) and free list. */
  datatype IdFile = IdFile(sticky: bool, highId: nat, freeIds: set<nat>)

  /** An open id space of a store: the exclusive upper bound of ids ever
      handed out, the ids that may be reused, and whether the store was
      opened cleanly. */
  datatype IdSpace = IdSpace(highId: nat, freeIds: set<nat>, storeOk: bool)

  /** Freed ids are below the high id. */
  ghost predicate Valid(s: IdSpace)
  {
    forall id | id in s.freeIds :: id < s.highId
  }

  ghost predicate ValidFile(f: IdFile)
  {
    forall id | id in f.freeIds :: id < f.highId
  }

  /** A new id generator starting at `highId`, with nothing to reuse. */
  function Create(highId: nat): (s: IdSpace)
    ensures Valid(s) && s.highId == highId && s.freeIds == {} && s.storeOk
  {
    IdSpace(highId, {}, true)
  }

  /** `freeId`: the id becomes reusable. Only ids below the high id may be freed. */
  function FreeId(s: IdSpace, id: nat): (r: IdSpace)
    requires Valid(s) && id < s.highId
    ensures Valid(r) && id in r.freeIds
    ensures r.highId == s.highId && r.storeOk == s.storeOk && r.freeIds == s.freeIds + {id}
  {
    s.(freeIds := s.freeIds + {id})
  }

  /** Frees each id of `ids` in turn. */
  function FreeAll(s: IdSpace, ids: seq<nat>): (r: IdSpace)
    requires Valid(s) && forall i | 0 <= i < |ids| :: ids[i] < s.highId
    ensures Valid(r)
    decreases |ids|
  {
    if ids == [] then s else FreeAll(FreeId(s, ids[0]), ids[1..])
  }

  /** Freeing ids changes neither the high id nor the store-ok flag, and
      every freed id ends up reusable. */
  lemma {:induction false} FreeAllKeepsHighId(s: IdSpace, ids: seq<nat>)
    requires Valid(s) && forall i | 0 <= i < |ids| :: ids[i] < s.highId
    ensures FreeAll(s, ids).highId == s.highId
    ensures FreeAll(s, ids).storeOk == s.storeOk
    ensures FreeAll(s, ids).freeIds == s.freeIds + set i | 0 <= i < |ids| :: ids[i]
    decreases |ids|
  {
    if ids != [] {
      FreeAllKeepsHighId(FreeId(s, ids[0]), ids[1..]);
      var rest := set i | 0 <= i < |ids[1..]| :: ids[1..][i];
      var all := set i | 0 <= i < |ids| :: ids[i];
      assert all == {ids[0]} + rest by {
        forall x | x in all ensures x in {ids[0]} + rest {
          var i :| 0 <= i < |ids| && ids[i] == x;
          if i > 0 { assert ids[1..][i - 1] == x; }
        }
        forall x | x in rest ensures x in all {
          var i :| 0 <= i < |ids[1..]| && ids[1..][i] == x;
          assert ids[i + 1] == x;
        }
      }
    }
  }

  /** A set of ids holding `y` has a least element, found by descending
      from `y` while some smaller id is present. */
  lemma {:induction false} LeastBelow(ids: set<nat>, y: nat)
    requires y in ids
    ensures exists m | m in ids :: forall x | x in ids :: m <= x
    decreases y
  {
    if forall x | x in ids :: y <= x {
    } else {
      var x :| x in ids && x < y;
      LeastBelow(ids, x);
    }
  }

  /** A non-empty set of ids has a least element. */
  lemma LeastExists(ids: set<nat>)
    requires ids != {}
    ensures exists m | m in ids :: forall x | x in ids :: m <= x
  {
    var y :| y in ids;
    LeastBelow(ids, y);
  }

  /** The lowest reusable id. */
  function LowestFreeId(ids: set<nat>): (m: nat)
    requires ids != {}
    ensures m in ids && forall x | x in ids :: m <= x
  {
    LeastExists(ids);
    var m :| m in ids && forall x | x in ids :: m <= x;
    m
  }

  /** An allocated id and the space after the allocation. */
  datatype Allocation = Allocation(id: nat, space: IdSpace)

  /** `nextId`: the lowest freed id if there is one, else the high id, which
      then grows by one. */
  function NextId(s: IdSpace): (a: Allocation)
    requires Valid(s)
    ensures Valid(a.space)
    ensures a.id < a.space.highId && a.id !in a.space.freeIds
    ensures a.space.freeIds == s.freeIds - {a.id} && a.space.storeOk == s.storeOk
    ensures s.freeIds != {} ==> a.id in s.freeIds && a.space.highId == s.highId
                                && forall x | x in s.freeIds :: a.id <= x
    ensures s.freeIds == {} ==> a.id == s.highId && a.space.highId == s.highId + 1
  {
    if s.freeIds != {} then
      var id := LowestFreeId(s.freeIds);
      Allocation(id, s.(freeIds := s.freeIds - {id}))
    else
      Allocation(s.highId, s.(highId := s.highId + 1))
  }

  /** `close`: the high id and free list are written, then the sticky marker
      is cleared. */
  function Close(s: IdSpace): (f: IdFile)
    requires Valid(s)
    ensures ValidFile(f) && !f.sticky
    ensures f.highId == s.highId && f.freeIds == s.freeIds
  {
    IdFile(false, s.highId, s.freeIds)
  }

  /** What a crash leaves behind: the file with its sticky marker set (the
      marker is set when the space is opened for writing). */
  function MarkAsSticky(f: IdFile): (r: IdFile)
    ensures r.sticky && r.highId == f.highId && r.freeIds == f.freeIds
    ensures ValidFile(f) ==> ValidFile(r)
  {
    f.(sticky := true)
  }

  /** Opening a store's id space: with the marker set the free list is not
      trusted (nothing is loaded) and the store is reported as not ok. */
  function Open(f: IdFile): (s: IdSpace)
    requires ValidFile(f)
    ensures Valid(s) && s.highId == f.highId
    ensures s.storeOk == !f.sticky
    ensures f.sticky ==> s.freeIds == {}
    ensures !f.sticky ==> s.freeIds == f.freeIds
  {
    if f.sticky then IdSpace(f.highId, {}, false) else IdSpace(f.highId, f.freeIds, true)
  }

  /** `deleteIdGenerator`: the free-id state is dropped, the high id kept. */
  function DeleteIdGenerator(s: IdSpace): (r: IdSpace)
    requires Valid(s)
    ensures Valid(r) && r.highId == s.highId && r.freeIds == {} && r.storeOk == s.storeOk
  {
    s.(freeIds := {})
  }

  /** `makeStoreOk`: the store is trusted again from its current state. */
  function MakeStoreOk(s: IdSpace): (r: IdSpace)
    requires Valid(s)
    ensures Valid(r) && r.storeOk && r.highId == s.highId && r.freeIds == s.freeIds
  {
    s.(storeOk := true)
  }

  /** An orderly close and reopen keeps the free list and the high id. */
  lemma CleanShutdownKeepsFreeIds(s: IdSpace)
    requires Valid(s)
    ensures Open(Close(s)) == s.(storeOk := true)
  {
  }

  /** The recovery sequence after a crash: whatever ids were freed before
      the crash, the reopened store reports not ok, and after the id
      generator is deleted and the store made ok, the next id is the old
      high id, which is none of the freed ids. */
  lemma {:induction false} CrashRecoveryResumesAtHighId(s: IdSpace, freed: seq<nat>)
    requires Valid(s) && forall i | 0 <= i < |freed| :: freed[i] < s.highId
    ensures var reopened := Open(MarkAsSticky(Close(FreeAll(s, freed))));
      && !reopened.storeOk
      && var a := NextId(MakeStoreOk(DeleteIdGenerator(reopened)));
         && a.id == s.highId
         && (forall i | 0 <= i < |freed| :: a.id != freed[i])
         && a.space.highId == s.highId + 1
  {
    FreeAllKeepsHighId(s, freed);
  }

  /** `n` allocations in a row, and the ids they return. */
  function AllocateMany(s: IdSpace, n: nat): (ids: seq<nat>)
    requires Valid(s)
    ensures |ids| == n
    decreases n
  {
    if n == 0 then [] else var a := NextId(s); [a.id] + AllocateMany(a.space, n - 1)
  }

  /** A space with nothing to reuse hands out the high id and up, so after
      recovery no id below the pre-crash high id is ever handed out again
      until something is freed. */
  lemma {:induction false} NothingFreeAllocatesUpward(s: IdSpace, n: nat)
    requires Valid(s) && s.freeIds == {}
    ensures forall i | 0 <= i < n :: AllocateMany(s, n)[i] == s.highId + i
    decreases n
  {
    if n > 0 {
      var a := NextId(s);
      NothingFreeAllocatesUpward(a.space, n - 1);
      var ids := AllocateMany(s, n);
      assert forall i | 1 <= i < n :: ids[i] == AllocateMany(a.space, n - 1)[i - 1];
    }
  }

  /** The test's scenario: a node store set to high id 20 allocates id 20
      (high id 21); ids 0 to 14 are freed and the generator closed; the
      marker is set again to simulate a crash; on reopen the store is not
      ok; after deleting the id generator and making the store ok, the next
      id is 21. */
  lemma FreeIdsAfterRecoveryScenario()
    ensures var first := NextId(Create(20));
      && first.id == 20
      && first.space.highId == 21
      && var freed := seq(15, i => i);
         var reopened := Open(MarkAsSticky(Close(FreeAll(first.space, freed))));
         && !reopened.storeOk
         && NextId(MakeStoreOk(DeleteIdGenerator(reopened))).id == 21
  {
    var first := NextId(Create(20));
    CrashRecoveryResumesAtHighId(first.space, seq(15, i => i));
  }
}

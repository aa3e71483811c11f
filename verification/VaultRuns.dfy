// What holds of the ledger over whole runs: any operations, any number of
// boots, storage failing at any point.
module VaultRuns {
  import opened Machine
  import opened Options
  import opened Vault

  ghost function Count(ids: seq<Id>, id: Id): nat {
    multiset(ids)[id]
  }

  ghost predicate Distinct(ids: seq<Id>) {
    forall id: Id :: Count(ids, id) <= 1
  }

  lemma CountConcat(a: seq<Id>, b: seq<Id>, id: Id)
    ensures Count(a + b, id) == Count(a, id) + Count(b, id)
    ensures id in a <==> Count(a, id) > 0
    ensures id in b <==> Count(b, id) > 0
  {
    assert multiset(a + b) == multiset(a) + multiset(b);
    assert id in a <==> id in multiset(a);
    assert id in b <==> id in multiset(b);
  }

  // Every id this boot knows of.
  function Known(w: World): seq<Id> {
    Ids(w.notes) + w.unloaded
  }

  ghost predicate NotesOnFlash(notes: seq<Note>, blobs: map<Id, Note>) {
    forall i | 0 <= i < |notes| :: notes[i].id in blobs && Loaded(blobs[notes[i].id]) == notes[i]
  }

  ghost predicate KeysMatch(blobs: map<Id, Note>) {
    forall id: Id | id in blobs :: blobs[id].id == id
  }

  ghost predicate Covered(index: seq<Id>, known: seq<Id>, removed: set<Id>) {
    && (forall id | id in known :: id in index)
    && (forall id | id in index :: id in known || id in removed)
  }

  // Holds from the first boot on, whatever fails.
  ghost predicate Inv(w: World) {
    && |w.index| <= MAX_NOTES && Distinct(w.index) && KeysMatch(w.blobs)
    && (!w.known ==> w.notes == [] && w.unloaded == [])
    && (w.known ==>
          && Distinct(Known(w)) && |Known(w)| <= MAX_NOTES && NotesOnFlash(w.notes, w.blobs)
          && Covered(w.index, Known(w), w.removed))
  }

  // The two conditions the code leaves to chance: room for the ids carried
  // through, and no fresh id equal to one of them.
  ghost predicate Lucky(w: World, op: Op) {
    op.Create? ==>
      && |Known(w)| + |op.tried| <= MAX_NOTES
      && forall i | 0 <= i < |op.tried| :: op.tried[i].id !in w.unloaded
  }

  ghost predicate Run(ws: seq<World>, ops: seq<Op>) {
    && |ws| == |ops| + 1
    && forall i | 0 <= i < |ops| :: Step(ws[i], ops[i], ws[i + 1]) && Lucky(ws[i], ops[i])
  }

  // ---- Sequences of ids ----

  lemma IdsConcat(a: seq<Note>, b: seq<Note>)
    ensures Ids(a + b) == Ids(a) + Ids(b)
  {
  }

  lemma InIds(notes: seq<Note>, id: Id) returns (k: int)
    requires id in Ids(notes)
    ensures 0 <= k < |notes| && notes[k].id == id
  {
    k :| 0 <= k < |Ids(notes)| && Ids(notes)[k] == id;
  }

  lemma IdsAreIds(notes: seq<Note>)
    ensures forall id :: id in IdsOf(notes) <==> id in Ids(notes)
    ensures forall id | id in SpentIds(notes) :: id in Ids(notes)
  {
    forall n | n in notes
      ensures n.id in Ids(notes)
    {
      var k :| 0 <= k < |notes| && notes[k] == n;
      assert Ids(notes)[k] == n.id;
    }
    forall id | id in Ids(notes)
      ensures id in IdsOf(notes)
    {
      var k := InIds(notes, id);
      assert notes[k] in notes;
    }
  }

  // Two halves of a sequence without repetitions share nothing.
  lemma DistinctHalves(a: seq<Id>, b: seq<Id>)
    requires Distinct(a + b)
    ensures Distinct(a) && Distinct(b) && forall id | id in a :: id !in b
  {
    hide Count;
    forall id
      ensures Count(a, id) <= 1 && Count(b, id) <= 1 && (id in a ==> id !in b)
    {
      CountConcat(a, b, id);
      assert Count(a + b, id) <= 1;
    }
  }

  lemma DistinctJoin(a: seq<Id>, b: seq<Id>)
    requires Distinct(a) && Distinct(b) && forall id | id in a :: id !in b
    ensures Distinct(a + b)
  {
    hide Count;
    forall id
      ensures Count(a + b, id) <= 1
    {
      CountConcat(a, b, id);
      assert Count(a, id) <= 1 && Count(b, id) <= 1;
    }
  }

  // ---- What a boot finds ----

  lemma LastLoad(front: seq<Id>, id: Id, blobs: map<Id, Note>, loads: seq<bool>, works: bool)
    requires |loads| == |front| && KeysMatch(blobs)
    ensures Ids(Reload(front + [id], blobs, loads + [works]))
         == Ids(Reload(front, blobs, loads)) + (if works && id in blobs then [id] else [])
    ensures Missed(front + [id], blobs, loads + [works])
         == Missed(front, blobs, loads) + (if works && id in blobs then [] else [id])
  {
    var index := front + [id];
    NextLoad(index, |front|, blobs, loads, works);
    assert index[..|front| + 1] == index && index[..|front|] == front;
    BootNotesOnFlash(front, blobs, loads);
    hide Reload, Missed, Ids, Loaded, NotesOnFlash;
    if works && id in blobs {
      OneMoreOnFlash(Reload(front, blobs, loads), id, blobs);
    }
  }

  lemma SplitLast<T>(s: seq<T>) returns (front: seq<T>, last: T)
    requires s != []
    ensures s == front + [last] && |front| == |s| - 1
  {
    front, last := s[..|s| - 1], s[|s| - 1];
  }

  lemma CountedOnce(a: seq<Id>, b: seq<Id>, all: seq<Id>, x: Id, first: bool, id: Id)
    requires Count(a, id) + Count(b, id) == Count(all, id)
    ensures Count(a + (if first then [x] else []), id) + Count(b + (if first then [] else [x]), id)
         == Count(all + [x], id)
  {
    hide Count;
    CountConcat(all, [x], id);
    CountConcat(a, [x], id);
    CountConcat(b, [x], id);
    assert a + [] == a && b + [] == b;
  }

  // How often id occurs in RAM and among the ids set aside.
  ghost function CountAfterBoot(index: seq<Id>, blobs: map<Id, Note>, loads: seq<bool>, id: Id): nat
    requires |loads| == |index|
  {
    Count(Ids(Reload(index, blobs, loads)), id) + Count(Missed(index, blobs, loads), id)
  }

  lemma CountLast(front: seq<Id>, x: Id, blobs: map<Id, Note>, loads: seq<bool>, works: bool, id: Id)
    requires |loads| == |front| && KeysMatch(blobs)
    requires CountAfterBoot(front, blobs, loads, id) == Count(front, id)
    ensures CountAfterBoot(front + [x], blobs, loads + [works], id) == Count(front + [x], id)
  {
    LastLoad(front, x, blobs, loads, works);
    hide Reload, Missed, Ids, Count, KeysMatch;
    CountedOnce(Ids(Reload(front, blobs, loads)), Missed(front, blobs, loads), front, x, works && x in blobs, id);
  }

  // Every id of the index ends up in RAM or set aside, as often as it occurs.
  lemma {:induction false} BootPartitions(index: seq<Id>, blobs: map<Id, Note>, loads: seq<bool>, id: Id)
    requires |loads| == |index| && KeysMatch(blobs)
    ensures CountAfterBoot(index, blobs, loads, id) == Count(index, id)
    decreases |index|
  {
    if index != [] {
      hide *;
      var front, x := SplitLast(index);
      var before, works := SplitLast(loads);
      BootPartitions(front, blobs, before, id);
      CountLast(front, x, blobs, before, works, id);
    } else {
      CountConcat([], [], id);
    }
  }

  lemma {:induction false} BootNotesOnFlash(index: seq<Id>, blobs: map<Id, Note>, loads: seq<bool>)
    requires |loads| == |index| && KeysMatch(blobs)
    ensures NotesOnFlash(Reload(index, blobs, loads), blobs)
  {
    if index != [] {
      var k := |index| - 1;
      BootNotesOnFlash(index[..k], blobs, loads[..k]);
      if loads[k] && index[k] in blobs {
        OneMoreOnFlash(Reload(index[..k], blobs, loads[..k]), index[k], blobs);
      }
    }
  }

  // A boot leaves the ids in RAM and those set aside distinct, and together
  // they are the index.
  lemma BootCovers(index: seq<Id>, blobs: map<Id, Note>, loads: seq<bool>)
    requires |loads| == |index| && KeysMatch(blobs) && Distinct(index)
    ensures var known := Ids(Reload(index, blobs, loads)) + Missed(index, blobs, loads);
            Distinct(known) && forall id :: id in known <==> id in index
  {
    hide Reload, Missed, Count, Ids;
    var ids, missed := Ids(Reload(index, blobs, loads)), Missed(index, blobs, loads);
    forall id
      ensures Count(ids + missed, id) <= 1 && (id in ids + missed <==> id in index)
    {
      BootPartitions(index, blobs, loads, id);
      CountConcat(ids, missed, id);
      CountConcat(index, [], id);
      assert Count(index, id) <= 1;
    }
  }

  lemma OneMoreOnFlash(notes: seq<Note>, id: Id, blobs: map<Id, Note>)
    requires NotesOnFlash(notes, blobs) && KeysMatch(blobs) && id in blobs
    ensures NotesOnFlash(notes + [Loaded(blobs[id])], blobs)
    ensures Ids(notes + [Loaded(blobs[id])]) == Ids(notes) + [id]
  {
    IdsConcat(notes, [Loaded(blobs[id])]);
    assert Ids([Loaded(blobs[id])]) == [id];
  }

  // The members of ids that are, or are not, in chosen.
  function Among(ids: seq<Id>, chosen: seq<Id>, keep: bool): seq<Id> {
    if ids == [] then []
    else
      var k := |ids| - 1;
      Among(ids[..k], chosen, keep) + (if (ids[k] in chosen) == keep then [ids[k]] else [])
  }

  lemma {:induction false} AmongConcat(a: seq<Id>, b: seq<Id>, chosen: seq<Id>, keep: bool)
    ensures Among(a + b, chosen, keep) == Among(a, chosen, keep) + Among(b, chosen, keep)
  {
    if b == [] {
      assert a + b == a;
    } else {
      var k := |b| - 1;
      assert (a + b)[..|a + b| - 1] == a + b[..k];
      AmongConcat(a, b[..k], chosen, keep);
    }
  }

  lemma {:induction false} AmongAll(ids: seq<Id>, chosen: seq<Id>, keep: bool)
    requires forall id | id in ids :: (id in chosen) == keep
    ensures Among(ids, chosen, keep) == ids && Among(ids, chosen, !keep) == []
  {
    if ids != [] {
      AmongAll(ids[..|ids| - 1], chosen, keep);
    }
  }

  // The reads that do not work are those of the ids set aside before.
  function SameLoads(index: seq<Id>, unloaded: seq<Id>): (loads: seq<bool>)
    ensures |loads| == |index|
  {
    seq(|index|, i requires 0 <= i < |index| => index[i] !in unloaded)
  }

  // RAM is what a boot makes of flash, if it fails to read what this boot
  // failed to read.
  ghost predicate Sync(w: World) {
    w.known ==>
      && Ids(w.notes) == Among(w.index, w.unloaded, false)
      && w.unloaded == Among(w.index, w.unloaded, true)
  }

  lemma {:induction false} BootInOrder(index: seq<Id>, blobs: map<Id, Note>, loads: seq<bool>, unloaded: seq<Id>)
    requires |loads| == |index| && KeysMatch(blobs)
    requires forall i | 0 <= i < |index| :: index[i] in unloaded <==> !(loads[i] && index[i] in blobs)
    ensures Ids(Reload(index, blobs, loads)) == Among(index, unloaded, false)
    ensures Missed(index, blobs, loads) == Among(index, unloaded, true)
  {
    if index != [] {
      var k := |index| - 1;
      BootInOrder(index[..k], blobs, loads[..k], unloaded);
      if loads[k] && index[k] in blobs {
        IdsConcat(Reload(index[..k], blobs, loads[..k]), [Loaded(blobs[index[k]])]);
        assert Ids([Loaded(blobs[index[k]])]) == [index[k]];
      }
    }
  }

  lemma {:induction false} MissedAt(index: seq<Id>, blobs: map<Id, Note>, loads: seq<bool>, i: nat)
    requires |loads| == |index| && Distinct(index) && i < |index|
    ensures index[i] in Missed(index, blobs, loads) <==> !(loads[i] && index[i] in blobs)
  {
    var k := |index| - 1;
    assert index == index[..k] + [index[k]];
    DistinctHalves(index[..k], [index[k]]);
    if i < k {
      MissedAt(index[..k], blobs, loads[..k], i);
      assert index[..k][i] == index[i];
    } else {
      MissedAreInIndex(index[..k], blobs, loads[..k]);
    }
  }

  lemma {:induction false} MissedAreInIndex(index: seq<Id>, blobs: map<Id, Note>, loads: seq<bool>)
    requires |loads| == |index|
    ensures forall id | id in Missed(index, blobs, loads) :: id in index
  {
    if index != [] {
      var k := |index| - 1;
      MissedAreInIndex(index[..k], blobs, loads[..k]);
    }
  }

  lemma NotesFromIds(a: seq<Note>, b: seq<Note>, blobs: map<Id, Note>)
    requires Ids(a) == Ids(b) && NotesOnFlash(a, blobs) && NotesOnFlash(b, blobs)
    ensures a == b
  {
    assert |a| == |b|;
    forall i | 0 <= i < |a|
      ensures a[i] == b[i]
    {
      assert Ids(a)[i] == Ids(b)[i];
    }
  }

  // A reboot brings back exactly what RAM holds, in order.
  lemma RebootReloads(w: World, v: World)
    requires Inv(w) && Sync(w) && w.known
    requires BootStep(w, true, SameLoads(w.index, w.unloaded), v)
    ensures v == w
  {
    var loads := SameLoads(w.index, w.unloaded);
    DistinctHalves(Ids(w.notes), w.unloaded);
    forall i | 0 <= i < |w.index|
      ensures w.index[i] in w.unloaded <==> !(loads[i] && w.index[i] in w.blobs)
    {
      SyncCovers(w, i);
    }
    BootInOrder(w.index, w.blobs, loads, w.unloaded);
    BootNotesOnFlash(w.index, w.blobs, loads);
    NotesFromIds(v.notes, w.notes, w.blobs);
  }

  lemma {:induction false} AmongMember(ids: seq<Id>, chosen: seq<Id>, keep: bool, i: nat)
    requires i < |ids| && (ids[i] in chosen) == keep
    ensures ids[i] in Among(ids, chosen, keep)
  {
    if i < |ids| - 1 {
      AmongMember(ids[..|ids| - 1], chosen, keep, i);
    }
  }

  lemma {:induction false} AmongSource(ids: seq<Id>, chosen: seq<Id>, keep: bool, id: Id)
    requires id in Among(ids, chosen, keep)
    ensures id in ids && (id in chosen) == keep
  {
    if ids != [] && id in Among(ids[..|ids| - 1], chosen, keep) {
      AmongSource(ids[..|ids| - 1], chosen, keep, id);
    }
  }

  // In sync, an indexed id is set aside or readable.
  lemma SyncCovers(w: World, i: nat)
    requires Inv(w) && Sync(w) && w.known && i < |w.index|
    ensures w.index[i] in w.unloaded || w.index[i] in w.blobs
    ensures w.index[i] in Known(w)
  {
    if w.index[i] !in w.unloaded {
      AmongMember(w.index, w.unloaded, false, i);
      var k := InIds(w.notes, w.index[i]);
    }
  }

  // An index just written is in sync.
  lemma WrittenInSync(notes: seq<Note>, unloaded: seq<Id>)
    requires Distinct(Ids(notes) + unloaded) && |Ids(notes) + unloaded| <= MAX_NOTES
    ensures Among(Written(notes, unloaded), unloaded, false) == Ids(notes)
    ensures Among(Written(notes, unloaded), unloaded, true) == unloaded
  {
    DistinctHalves(Ids(notes), unloaded);
    AmongConcat(Ids(notes), unloaded, unloaded, false);
    AmongConcat(Ids(notes), unloaded, unloaded, true);
    AmongAll(Ids(notes), unloaded, false);
    AmongAll(unloaded, unloaded, true);
  }

  // ---- The invariant ----

  lemma BootKeepsInv(w: World, indexRead: bool, loads: seq<bool>, v: World)
    requires Inv(w) && BootStep(w, indexRead, loads, v)
    ensures Inv(v) && Sync(v)
  {
    if indexRead {
      BootCovers(w.index, w.blobs, loads);
      BootNotesOnFlash(w.index, w.blobs, loads);
      forall i | 0 <= i < |w.index|
        ensures w.index[i] in v.unloaded <==> !(loads[i] && w.index[i] in w.blobs)
      {
        MissedAt(w.index, w.blobs, loads, i);
      }
      BootInOrder(w.index, w.blobs, loads, v.unloaded);
      BootIsSmall(w.index, w.blobs, loads);
    }
  }

  lemma {:induction false} BootIsSmall(index: seq<Id>, blobs: map<Id, Note>, loads: seq<bool>)
    requires |loads| == |index|
    ensures |Reload(index, blobs, loads)| + |Missed(index, blobs, loads)| == |index|
  {
    if index != [] {
      BootIsSmall(index[..|index| - 1], blobs, loads[..|index| - 1]);
    }
  }

  // What an index just written covers.
  lemma WrittenCovers(notes: seq<Note>, unloaded: seq<Id>)
    requires |Ids(notes) + unloaded| <= MAX_NOTES
    ensures Written(notes, unloaded) == Ids(notes) + unloaded
  {
  }

  lemma {:induction false} SaveAllKeys(blobs: map<Id, Note>, notes: seq<Note>, id: Id)
    ensures id in SaveAll(blobs, notes) <==> id in blobs || id in Ids(notes)
    ensures id !in Ids(notes) && id in blobs ==> SaveAll(blobs, notes)[id] == blobs[id]
    ensures KeysMatch(blobs) && id in SaveAll(blobs, notes) ==> SaveAll(blobs, notes)[id].id == id
  {
    if notes != [] {
      var front, last := notes[..|notes| - 1], notes[|notes| - 1];
      SaveAllKeys(blobs, front, id);
      assert notes == front + [last];
      IdsConcat(front, [last]);
      assert Ids([last]) == [last.id];
    }
  }

  lemma {:induction false} SaveAllHolds(blobs: map<Id, Note>, notes: seq<Note>, i: nat)
    requires i < |notes| && forall j, k | 0 <= j < k < |notes| :: notes[j].id != notes[k].id
    ensures notes[i].id in SaveAll(blobs, notes) && SaveAll(blobs, notes)[notes[i].id] == notes[i]
  {
    if i < |notes| - 1 {
      SaveAllHolds(blobs, notes[..|notes| - 1], i);
    }
  }

  lemma FreshIdsDistinct(tried: seq<Note>)
    requires forall i, j | 0 <= i < j < |tried| :: tried[i].id != tried[j].id
    ensures Distinct(Ids(tried))
  {
    hide Count;
    forall id
      ensures Count(Ids(tried), id) <= 1
    {
      CountOnce(Ids(tried), id);
    }
  }

  lemma {:induction false} CountOnce(ids: seq<Id>, id: Id)
    requires forall i, j | 0 <= i < j < |ids| :: ids[i] != ids[j]
    ensures Count(ids, id) <= 1
  {
    if ids != [] {
      var k := |ids| - 1;
      CountOnce(ids[..k], id);
      assert ids == ids[..k] + [ids[k]];
      CountConcat(ids[..k], [ids[k]], id);
      if ids[k] == id {
        assert id !in ids[..k];
      }
    }
  }

  // An index as it is after a write that worked: nothing cut off, in sync.
  lemma AfterWrite(notes: seq<Note>, unloaded: seq<Id>, removed: set<Id>)
    requires Distinct(Ids(notes) + unloaded) && |Ids(notes) + unloaded| <= MAX_NOTES
    ensures var index := Written(notes, unloaded);
            && Distinct(index) && Covered(index, Ids(notes) + unloaded, removed)
            && Among(index, unloaded, false) == Ids(notes) && Among(index, unloaded, true) == unloaded
  {
    WrittenInSync(notes, unloaded);
  }

  lemma CreatedIsDistinct(w: World, tried: seq<Note>)
    requires Distinct(Known(w)) && FreshNotes(w.notes, tried) && Lucky(w, Create(tried, true))
    ensures Distinct(Ids(w.notes + tried) + w.unloaded)
  {
    hide Distinct;
    DistinctHalves(Ids(w.notes), w.unloaded);
    FreshIdsDistinct(tried);
    IdsConcat(w.notes, tried);
    DistinctJoin(Ids(w.notes), Ids(tried));
    DistinctJoin(Ids(w.notes) + Ids(tried), w.unloaded);
  }

  lemma StoredOnFlash(notes: seq<Note>, blobs: map<Id, Note>, tried: seq<Note>)
    requires NotesOnFlash(notes, blobs) && KeysMatch(blobs) && FreshNotes(notes, tried)
    ensures NotesOnFlash(notes + tried, SaveAll(blobs, tried)) && KeysMatch(SaveAll(blobs, tried))
  {
    forall id | id in SaveAll(blobs, tried)
      ensures SaveAll(blobs, tried)[id].id == id
    {
      SaveAllKeys(blobs, tried, id);
    }
    var all := notes + tried;
    forall i | 0 <= i < |all|
      ensures all[i].id in SaveAll(blobs, tried) && Loaded(SaveAll(blobs, tried)[all[i].id]) == all[i]
    {
      if i < |notes| {
        NotTried(notes, tried, i);
        SaveAllKeys(blobs, tried, notes[i].id);
      } else {
        SaveAllHolds(blobs, tried, i - |notes|);
      }
    }
  }

  lemma NotTried(notes: seq<Note>, tried: seq<Note>, i: nat)
    requires FreshNotes(notes, tried) && i < |notes|
    ensures notes[i].id !in Ids(tried) && notes[i].id !in (set n | n in tried :: n.id)
  {
    assert Ids(notes)[i] == notes[i].id;
    forall k | 0 <= k < |tried|
      ensures tried[k].id != notes[i].id
    {
    }
  }

  // A failed creation leaves every blob alone but those of its own notes.
  lemma UndoneBlob(before: map<Id, Note>, tried: seq<Note>, calls: Calls, id: Id)
    requires CallsFor(tried, calls)
    ensures var after := SaveAll(before, tried[..calls.saved]) - calls.deleted;
            && (id !in Ids(tried) ==> (id in after <==> id in before) && (id in before ==> after[id] == before[id]))
            && (KeysMatch(before) && id in after ==> after[id].id == id)
  {
    SaveAllKeys(before, tried[..calls.saved], id);
    if id in Ids(tried[..calls.saved]) {
      var k := InIds(tried[..calls.saved], id);
      assert Ids(tried)[k] == id;
    }
    IdsAreIds(tried);
  }

  lemma UndoneOnFlash(notes: seq<Note>, before: map<Id, Note>, tried: seq<Note>, calls: Calls)
    requires NotesOnFlash(notes, before) && KeysMatch(before) && FreshNotes(notes, tried) && CallsFor(tried, calls)
    ensures var after := SaveAll(before, tried[..calls.saved]) - calls.deleted;
            NotesOnFlash(notes, after) && KeysMatch(after)
  {
    hide SaveAll, Loaded;
    var after := SaveAll(before, tried[..calls.saved]) - calls.deleted;
    forall i | 0 <= i < |notes|
      ensures notes[i].id in after && after[notes[i].id] == before[notes[i].id]
    {
      NotTried(notes, tried, i);
      UndoneBlob(before, tried, calls, notes[i].id);
    }
    forall id | id in after
      ensures after[id].id == id
    {
      UndoneBlob(before, tried, calls, id);
    }
  }

  lemma CreateKeepsInv(w: World, tried: seq<Note>, ok: bool, v: World)
    requires Inv(w) && CreateStep(w, tried, ok, v) && Lucky(w, Create(tried, ok))
    ensures Inv(v) && (Sync(w) ==> Sync(v))
  {
    if ok {
      CreatedIsDistinct(w, tried);
      AfterWrite(v.notes, v.unloaded, v.removed);
      StoredOnFlash(w.notes, w.blobs, tried);
    } else {
      var calls :| CallsFor(tried, calls) && v == Undone(w, tried, calls);
      AfterWrite(w.notes, w.unloaded, w.removed);
      UndoneOnFlash(w.notes, w.blobs, tried, calls);
    }
    hide Distinct, Written, Loaded, SaveAll, Among, FreshNotes, KeysMatch, NotesOnFlash, CallsFor;
  }

  lemma UpdateKeepsInv(w: World, at: nat, after: Note, ok: bool, v: World)
    requires Inv(w) && UpdateStep(w, at, after, ok, v)
    ensures Inv(v) && (Sync(w) ==> Sync(v))
  {
    if ok {
      hide Distinct, Among;
      assert w.known;
      assert Ids(v.notes) == Ids(w.notes);
      DistinctHalves(Ids(w.notes), w.unloaded);
      forall i | 0 <= i < |v.notes|
        ensures v.notes[i].id in v.blobs && Loaded(v.blobs[v.notes[i].id]) == v.notes[i]
      {
        if i != at {
          DistinctPositions(Ids(w.notes), i, at);
        }
      }
    }
  }

  lemma DistinctPositions(ids: seq<Id>, i: nat, j: nat)
    requires Distinct(ids) && i < |ids| && j < |ids| && i != j
    ensures ids[i] != ids[j]
  {
    var lo, hi := if i < j then i else j, if i < j then j else i;
    assert ids == ids[..hi] + ids[hi..];
    DistinctHalves(ids[..hi], ids[hi..]);
    assert ids[lo] == ids[..hi][lo] && ids[hi] == ids[hi..][0];
    assert ids[hi] in ids[hi..];
  }

  // The notes a removal keeps are the ones whose ids are not gone.
  ghost predicate Kept(notes: seq<Note>, kept: seq<Note>, gone: set<Id>) {
    && Distinct(Ids(kept)) && |kept| <= |notes|
    && (forall n | n in kept :: n in notes && n.id !in gone)
    && (forall n | n in notes :: n in kept || n.id in gone)
  }

  lemma RemovalKeepsInv(w: World, kept: seq<Note>, gone: set<Id>, ok: bool, v: World)
    requires Inv(w) && RemovalStep(w, kept, gone, ok, v) && Kept(w.notes, kept, gone)
    ensures Inv(v) && (v.index == Written(kept, w.unloaded) ==> Sync(v))
  {
    hide Among, Written;
    KeptDistinct(w, kept, gone);
    AfterWrite(kept, w.unloaded, v.removed);
    forall i | 0 <= i < |kept|
      ensures kept[i].id in v.blobs && Loaded(v.blobs[kept[i].id]) == kept[i]
    {
      assert kept[i] in w.notes;
    }
    KeptCovers(w, kept, gone);
    hide Distinct, Loaded, Kept;
  }

  lemma KeptDistinct(w: World, kept: seq<Note>, gone: set<Id>)
    requires Distinct(Known(w)) && Kept(w.notes, kept, gone)
    ensures Distinct(Ids(kept) + w.unloaded)
  {
    hide Distinct;
    DistinctHalves(Ids(w.notes), w.unloaded);
    forall id | id in Ids(kept)
      ensures id !in w.unloaded
    {
      var k := InIds(kept, id);
      assert kept[k] in w.notes;
      var j :| 0 <= j < |w.notes| && w.notes[j] == kept[k];
      assert Ids(w.notes)[j] == id;
    }
    DistinctJoin(Ids(kept), w.unloaded);
  }

  lemma KeptCovers(w: World, kept: seq<Note>, gone: set<Id>)
    requires Covered(w.index, Known(w), w.removed) && Kept(w.notes, kept, gone)
    ensures Covered(w.index, Ids(kept) + w.unloaded, w.removed + gone)
  {
    forall id | id in Ids(kept)
      ensures id in w.index
    {
      var k := InIds(kept, id);
      var j :| 0 <= j < |w.notes| && w.notes[j] == kept[k];
      assert Known(w)[j] == id;
    }
    forall id | id in w.index
      ensures id in Ids(kept) + w.unloaded || id in w.removed + gone
    {
      if id in Ids(w.notes) && id !in gone {
        var k := InIds(w.notes, id);
        assert w.notes[k] in kept;
        var j :| 0 <= j < |kept| && kept[j] == w.notes[k];
        assert Ids(kept)[j] == id;
      }
    }
  }

  lemma KeptAfterGap(notes: seq<Note>, at: nat)
    requires Distinct(Ids(notes)) && at < |notes|
    ensures Kept(notes, notes[..at] + notes[at + 1..], {notes[at].id})
  {
    var kept := notes[..at] + notes[at + 1..];
    IdsConcat(notes[..at], notes[at + 1..]);
    assert Ids(notes) == (Ids(notes)[..at] + [notes[at].id]) + Ids(notes)[at + 1..];
    DistinctHalves(Ids(notes)[..at] + [notes[at].id], Ids(notes)[at + 1..]);
    DistinctHalves(Ids(notes)[..at], [notes[at].id]);
    assert Ids(notes[..at]) == Ids(notes)[..at] && Ids(notes[at + 1..]) == Ids(notes)[at + 1..];
    hide Distinct;
    forall id | id in Ids(notes)[..at]
      ensures id !in Ids(notes)[at + 1..]
    {
    }
    DistinctJoin(Ids(notes)[..at], Ids(notes)[at + 1..]);
    forall n | n in kept
      ensures n in notes && n.id != notes[at].id
    {
      var k :| 0 <= k < |kept| && kept[k] == n;
      DistinctPositions(Ids(notes), if k < at then k else k + 1, at);
    }
    forall n | n in notes
      ensures n in kept || n.id == notes[at].id
    {
      var k :| 0 <= k < |notes| && notes[k] == n;
      if k < at {
        assert kept[k] == n;
      } else if k > at {
        assert kept[k - 1] == n;
      }
    }
  }

  lemma {:induction false} KeptAfterPrune(notes: seq<Note>)
    requires Distinct(Ids(notes))
    ensures Kept(notes, NotSpent(notes), SpentIds(notes))
  {
    if notes != [] {
      var k := |notes| - 1;
      var front, last := notes[..k], notes[k];
      assert notes == front + [last];
      LastIsNew(front, last);
      KeptAfterPrune(front);
      NotSpentNext(notes, k);
      assert notes[..k + 1] == notes;
      hide Kept, NotSpent, SpentIds, Ids, Distinct;
      if last.state == Spent {
        SpentIsGone(front, NotSpent(front), SpentIds(front), last);
        assert NotSpent(notes) == NotSpent(front);
      } else {
        OtherIsKept(front, NotSpent(front), SpentIds(front), last);
        assert SpentIds(notes) == SpentIds(front);
      }
    }
  }

  lemma LastIsNew(front: seq<Note>, last: Note)
    requires Distinct(Ids(front + [last]))
    ensures Distinct(Ids(front)) && forall n | n in front :: n.id != last.id
  {
    IdsConcat(front, [last]);
    assert Ids([last]) == [last.id];
    DistinctHalves(Ids(front), [last.id]);
    assert last.id in [last.id];
    forall n | n in front
      ensures n.id != last.id
    {
      var k :| 0 <= k < |front| && front[k] == n;
      assert Ids(front)[k] == n.id;
    }
  }

  lemma SpentIsGone(front: seq<Note>, kept: seq<Note>, gone: set<Id>, last: Note)
    requires Kept(front, kept, gone) && forall n | n in front :: n.id != last.id
    ensures Kept(front + [last], kept, gone + {last.id})
  {
    hide Distinct, Ids;
  }

  lemma OtherIsKept(front: seq<Note>, kept: seq<Note>, gone: set<Id>, last: Note)
    requires Kept(front, kept, gone) && last.id !in gone && forall n | n in front :: n.id != last.id
    ensures Kept(front + [last], kept + [last], gone)
  {
    IdsConcat(kept, [last]);
    assert Ids([last]) == [last.id];
    OneIsDistinct(last.id);
    hide Distinct;
    forall id | id in Ids(kept)
      ensures id !in [last.id]
    {
      var k := InIds(kept, id);
      assert kept[k] in front;
    }
    hide Ids;
    DistinctJoin(Ids(kept), [last.id]);
  }

  lemma OneIsDistinct(id: Id)
    ensures Distinct([id]) && Distinct([])
  {
  }

  // A removal that did not get the shortened index written. Only these let RAM
  // and flash disagree.
  ghost predicate NotIndexed(op: Op, v: World) {
    (op.RemoveAt? || op.Prune?) && v.index != Written(v.notes, v.unloaded)
  }

  // Every operation keeps the invariant.
  lemma StepKeepsInv(w: World, op: Op, v: World)
    requires Inv(w) && Step(w, op, v) && Lucky(w, op)
    ensures Inv(v)
    ensures Sync(w) && !NotIndexed(op, v) ==> Sync(v)
  {
    match op {
      case Refuse =>
      case Create(tried, ok) => CreateKeepsInv(w, tried, ok, v);
      case Update(at, after, ok) => UpdateKeepsInv(w, at, after, ok, v);
      case RemoveAt(at, ok) =>
        DistinctHalves(Ids(w.notes), w.unloaded);
        KeptAfterGap(w.notes, at);
        RemovalKeepsInv(w, v.notes, {w.notes[at].id}, ok, v);
      case Prune(ok) =>
        DistinctHalves(Ids(w.notes), w.unloaded);
        KeptAfterPrune(w.notes);
        RemovalKeepsInv(w, v.notes, SpentIds(w.notes), ok, v);
      case Boot(indexRead, loads) => BootKeepsInv(w, indexRead, loads, v);
      case Wipe =>
        OneIsDistinct("");
        assert Known(v) == [];
    }
  }

  // ---- Whole runs ----

  // A device that has never held a note.
  const FIRST: World := World([], [], true, [], map[], {})

  lemma FirstBoot()
    ensures Inv(FIRST) && Sync(FIRST)
  {
    OneIsDistinct("");
    assert Known(FIRST) == [];
  }

  lemma StepOf(ws: seq<World>, ops: seq<Op>, i: nat)
    requires Run(ws, ops) && i < |ops|
    ensures |ws| == |ops| + 1 && Step(ws[i], ops[i], ws[i + 1]) && Lucky(ws[i], ops[i]) && ops[i] in ops
  {
  }

  lemma SameLength(ws: seq<World>, ops: seq<Op>)
    requires Run(ws, ops)
    ensures |ws| == |ops| + 1
  {
  }

  lemma {:induction false} RunKeepsInv(ws: seq<World>, ops: seq<Op>, i: nat)
    requires Run(ws, ops) && Inv(ws[0]) && i < |ws|
    ensures Inv(ws[i])
  {
    if i > 0 {
      RunKeepsInv(ws, ops, i - 1);
      hide Inv, Step, Lucky;
      StepKeepsInv(ws[i - 1], ops[i - 1], ws[i]);
    }
  }

  // Storage may fail anywhere, but a removal gets at least its index written.
  ghost predicate RemovalsIndexed(ws: seq<World>, ops: seq<Op>)
    requires |ws| == |ops| + 1
  {
    forall k | 0 <= k < |ops| :: !NotIndexed(ops[k], ws[k + 1])
  }

  lemma {:induction false} RunStaysInSync(ws: seq<World>, ops: seq<Op>, i: nat)
    requires Run(ws, ops) && Inv(ws[0]) && Sync(ws[0]) && i < |ws| && RemovalsIndexed(ws, ops)
    ensures Sync(ws[i])
  {
    if i > 0 {
      RunStaysInSync(ws, ops, i - 1);
      RunKeepsInv(ws, ops, i - 1);
      assert !NotIndexed(ops[i - 1], ws[i]);
      hide Inv, Step, Lucky, Sync, NotIndexed;
      StepKeepsInv(ws[i - 1], ops[i - 1], ws[i]);
    }
  }

  // A removal of any note leaves RAM and flash in agreement exactly when the
  // shortened index was written, whatever became of the blobs.
  lemma RemovalSyncIffIndexed(w: World, op: Op, v: World)
    requires Inv(w) && Sync(w) && Step(w, op, v) && (op.RemoveAt? || op.Prune?) && |v.notes| < |w.notes|
    ensures Sync(v) <==> v.index == Written(v.notes, v.unloaded)
    ensures op.ok ==> Sync(v)
  {
    hide Among, Written;
    DistinctHalves(Ids(w.notes), w.unloaded);
    if op.RemoveAt? {
      KeptAfterGap(w.notes, op.at);
      RemovalKeepsInv(w, v.notes, {w.notes[op.at].id}, op.ok, v);
    } else {
      KeptAfterPrune(w.notes);
      RemovalKeepsInv(w, v.notes, SpentIds(w.notes), op.ok, v);
    }
    assert |Ids(v.notes)| != |Ids(w.notes)|;
  }

  // Whatever storage did during the run, the device comes back from a reboot
  // with the notes it had, in the same order.
  lemma RunThenReboot(ws: seq<World>, ops: seq<Op>, v: World)
    requires Run(ws, ops) && Inv(ws[0]) && Sync(ws[0]) && RemovalsIndexed(ws, ops)
    requires var w := ws[|ops|]; w.known && BootStep(w, true, SameLoads(w.index, w.unloaded), v)
    ensures v.notes == ws[|ops|].notes && v == ws[|ops|]
  {
    RunKeepsInv(ws, ops, |ops|);
    RunStaysInSync(ws, ops, |ops|);
    hide Inv, Sync, BootStep, Run;
    RebootReloads(ws[|ops|], v);
  }

  // The notes whose ids are not among these.
  function Without(notes: seq<Note>, ids: seq<Id>): seq<Note> {
    if notes == [] then []
    else
      var n := notes[|notes| - 1];
      Without(notes[..|notes| - 1], ids) + (if n.id in ids then [] else [n])
  }

  lemma {:induction false} IdsWithout(notes: seq<Note>, ids: seq<Id>)
    ensures Ids(Without(notes, ids)) == Among(Ids(notes), ids, false)
    ensures forall n | n in Without(notes, ids) :: n in notes
  {
    if notes != [] {
      var k := |notes| - 1;
      IdsWithout(notes[..k], ids);
      assert Ids(notes)[..k] == Ids(notes[..k]) && Ids([notes[k]]) == [notes[k].id];
      IdsConcat(Without(notes[..k], ids), [notes[k]]);
      assert notes == notes[..k] + [notes[k]];
    }
  }

  lemma WithoutOnFlash(notes: seq<Note>, ids: seq<Id>, blobs: map<Id, Note>)
    requires NotesOnFlash(notes, blobs)
    ensures NotesOnFlash(Without(notes, ids), blobs)
  {
    IdsWithout(notes, ids);
    hide Without, Loaded;
    var some := Without(notes, ids);
    forall i | 0 <= i < |some|
      ensures some[i].id in blobs && Loaded(blobs[some[i].id]) == some[i]
    {
      assert some[i] in some && some[i] in notes;
    }
  }

  lemma {:induction false} AmongTwice(ids: seq<Id>, a: seq<Id>, b: seq<Id>)
    requires forall id | id in ids && id in a :: id in b
    ensures Among(Among(ids, a, false), b, false) == Among(ids, b, false)
  {
    if ids != [] {
      var k := |ids| - 1;
      AmongTwice(ids[..k], a, b);
      assert ids[k] in ids;
      var front := Among(ids[..k], a, false);
      assert front + [] == front;
      AmongConcat(front, [ids[k]], b, false);
      assert [ids[k]][..0] == [];
    }
  }

  // A reboot that reads every note that is in RAM now, and any others, brings
  // the ones in RAM back in order.
  lemma RebootKeepsNotes(w: World, loads: seq<bool>, v: World)
    requires Inv(w) && Sync(w) && w.known && BootStep(w, true, loads, v)
    requires forall i | 0 <= i < |loads| && w.index[i] in Ids(w.notes) :: loads[i]
    ensures Without(v.notes, w.unloaded) == w.notes
  {
    BootNotesOnFlash(w.index, w.blobs, loads);
    forall id | id in w.index && id in v.unloaded
      ensures id in w.unloaded
    {
      var i :| 0 <= i < |w.index| && w.index[i] == id;
      MissedAt(w.index, w.blobs, loads, i);
      SyncCovers(w, i);
      ReadIfInRam(w, id);
    }
    hide Reload, Missed;
    BootKeepsInv(w, true, loads, v);
    IdsWithout(v.notes, w.unloaded);
    WithoutOnFlash(v.notes, w.unloaded, w.blobs);
    AmongTwice(w.index, v.unloaded, w.unloaded);
    NotesFromIds(Without(v.notes, w.unloaded), w.notes, w.blobs);
  }

  lemma ReadIfInRam(w: World, id: Id)
    requires Inv(w) && w.known && id in Known(w)
    ensures id in w.unloaded || (id in Ids(w.notes) && id in w.blobs)
  {
    if id in Ids(w.notes) {
      var k := InIds(w.notes, id);
    }
  }

  // So whatever storage did during the run and whatever else the reboot reads,
  // the notes that are in RAM now are there again, in the same order.
  lemma RunThenAnyReboot(ws: seq<World>, ops: seq<Op>, loads: seq<bool>, v: World)
    requires Run(ws, ops) && Inv(ws[0]) && Sync(ws[0]) && RemovalsIndexed(ws, ops)
    requires var w := ws[|ops|]; w.known && BootStep(w, true, loads, v)
    requires forall i | 0 <= i < |loads| && ws[|ops|].index[i] in Ids(ws[|ops|].notes) :: loads[i]
    ensures Without(v.notes, ws[|ops|].unloaded) == ws[|ops|].notes
  {
    RunKeepsInv(ws, ops, |ops|);
    RunStaysInSync(ws, ops, |ops|);
    hide Inv, Sync, Run, RemovalsIndexed;
    RebootKeepsNotes(ws[|ops|], loads, v);
  }

  // While the index is unreadable nothing is written: only a boot or a wipe
  // changes anything at all.
  lemma UnknownIndexWritesNothing(w: World, op: Op, v: World)
    requires Inv(w) && !w.known && Step(w, op, v)
    ensures op.Boot? || op.Wipe? || v == w
    ensures !op.Wipe? ==> v.index == w.index && v.blobs == w.blobs
  {
  }

  lemma {:induction false} RunUnknownWritesNothing(ws: seq<World>, ops: seq<Op>, i: nat)
    requires Run(ws, ops) && Inv(ws[0]) && i < |ws|
    requires (forall op | op in ops :: !op.Wipe?) && forall k | 0 <= k < i :: !ws[k].known
    ensures ws[i].index == ws[0].index && ws[i].blobs == ws[0].blobs
  {
    if i > 0 {
      RunUnknownWritesNothing(ws, ops, i - 1);
      RunKeepsInv(ws, ops, i - 1);
      hide Inv, Step, Lucky;
      assert ops[i - 1] in ops;
      UnknownIndexWritesNothing(ws[i - 1], ops[i - 1], ws[i]);
    }
  }

  // ---- An id that nobody removes ----

  // The index names it, and so does RAM if this boot could read the index.
  ghost predicate Here(w: World, id: Id) {
    id in w.index && (w.known ==> id in Known(w))
  }

  // The operations that are meant to remove it: a discard or delete of it, a
  // prune while it is spent, a wipe.
  ghost predicate Takes(w: World, op: Op, id: Id) {
    match op
    case RemoveAt(at, _) => at < |w.notes| && w.notes[at].id == id
    case Prune(_) => id in SpentIds(w.notes)
    case Wipe => true
    case _ => false
  }

  // It is still there, and what flash holds under it has only advanced.
  ghost predicate Survives(w: World, v: World, id: Id) {
    Here(v, id) && (id in w.blobs ==> id in v.blobs && Advances(w.blobs[id], v.blobs[id]))
  }

  lemma CreateSurvives(w: World, tried: seq<Note>, ok: bool, v: World, id: Id)
    requires Inv(w) && CreateStep(w, tried, ok, v) && Lucky(w, Create(tried, ok)) && Here(w, id)
    ensures Survives(w, v, id)
  {
    WrittenCovers(w.notes, w.unloaded);
    IdsConcat(w.notes, tried);
    KnownIsNotTried(w, tried, id);
    if ok {
      SaveAllKeys(w.blobs, tried, id);
      WrittenCovers(w.notes + tried, w.unloaded);
    } else {
      var calls :| CallsFor(tried, calls) && v == Undone(w, tried, calls);
      UndoneBlob(w.blobs, tried, calls, id);
    }
  }

  lemma UpdateSurvives(w: World, at: nat, after: Note, ok: bool, v: World, id: Id)
    requires Inv(w) && UpdateStep(w, at, after, ok, v) && Here(w, id)
    ensures Survives(w, v, id)
  {
    if ok {
      assert Ids(v.notes) == Ids(w.notes);
      if id == after.id {
        assert w.known && Loaded(w.blobs[id]) == w.notes[at];
      }
    }
  }

  lemma RemovalSurvives(w: World, kept: seq<Note>, gone: set<Id>, ok: bool, v: World, id: Id)
    requires Inv(w) && RemovalStep(w, kept, gone, ok, v) && Kept(w.notes, kept, gone)
    requires Here(w, id) && id !in gone
    ensures Survives(w, v, id)
  {
    KeptDistinct(w, kept, gone);
    WrittenCovers(kept, w.unloaded);
    if id in Ids(w.notes) {
      var k := InIds(w.notes, id);
      assert w.notes[k] in kept;
      var j :| 0 <= j < |kept| && kept[j] == w.notes[k];
      assert Ids(kept)[j] == id;
    }
  }

  lemma RemoveAtSurvives(w: World, at: nat, ok: bool, v: World, id: Id)
    requires Inv(w) && Step(w, RemoveAt(at, ok), v) && Here(w, id) && !Takes(w, RemoveAt(at, ok), id)
    ensures Survives(w, v, id)
  {
    DistinctHalves(Ids(w.notes), w.unloaded);
    KeptAfterGap(w.notes, at);
    hide Inv, Kept, Survives, Here;
    RemovalSurvives(w, v.notes, {w.notes[at].id}, ok, v, id);
  }

  lemma PruneSurvives(w: World, ok: bool, v: World, id: Id)
    requires Inv(w) && Step(w, Prune(ok), v) && Here(w, id) && !Takes(w, Prune(ok), id)
    ensures Survives(w, v, id)
  {
    DistinctHalves(Ids(w.notes), w.unloaded);
    KeptAfterPrune(w.notes);
    hide Inv, Kept, Survives, Here, SpentIds, NotSpent;
    RemovalSurvives(w, v.notes, SpentIds(w.notes), ok, v, id);
  }

  lemma BootSurvives(w: World, indexRead: bool, loads: seq<bool>, v: World, id: Id)
    requires Inv(w) && BootStep(w, indexRead, loads, v) && Here(w, id)
    ensures Survives(w, v, id)
  {
    if indexRead {
      BootCovers(w.index, w.blobs, loads);
    }
    hide Reload, Missed;
  }

  lemma StepSurvives(w: World, op: Op, v: World, id: Id)
    requires Inv(w) && Step(w, op, v) && Lucky(w, op) && Here(w, id) && !Takes(w, op, id)
    ensures Survives(w, v, id)
  {
    hide Inv, CreateStep, UpdateStep, RemovalStep, BootStep, Lucky, Here;
    match op {
      case Refuse =>
      case Create(tried, ok) => CreateSurvives(w, tried, ok, v, id);
      case Update(at, after, ok) => UpdateSurvives(w, at, after, ok, v, id);
      case RemoveAt(at, ok) => RemoveAtSurvives(w, at, ok, v, id);
      case Prune(ok) => PruneSurvives(w, ok, v, id);
      case Boot(indexRead, loads) => BootSurvives(w, indexRead, loads, v, id);
    }
  }

  lemma SurvivesOn(w: World, u: World, v: World, id: Id)
    requires Survives(w, u, id) && Survives(u, v, id)
    ensures Survives(w, v, id)
  {
  }

  ghost predicate NotTaken(ws: seq<World>, ops: seq<Op>, id: Id, i: nat) {
    forall j | 0 <= j < i && j < |ops| && j < |ws| :: !Takes(ws[j], ops[j], id)
  }

  // Over any number of boots and failures, an id goes only if it is
  // deliberately removed; and until then its note keeps its secret, moves only
  // forward and changes amount only when confirmed.
  lemma {:induction false} RunSurvives(ws: seq<World>, ops: seq<Op>, id: Id, i: nat)
    requires Run(ws, ops) && Inv(ws[0]) && i < |ws| && Here(ws[0], id) && NotTaken(ws, ops, id, i)
    ensures Survives(ws[0], ws[i], id)
  {
    SameLength(ws, ops);
    hide Run, Inv, Step, Lucky;
    if i > 0 {
      assert !Takes(ws[i - 1], ops[i - 1], id);
      assert NotTaken(ws, ops, id, i - 1);
      hide Takes, NotTaken, Survives;
      RunSurvives(ws, ops, id, i - 1);
      RunKeepsInv(ws, ops, i - 1);
      StepOf(ws, ops, i - 1);
      StillHere(ws[0], ws[i - 1], id);
      StepSurvives(ws[i - 1], ops[i - 1], ws[i], id);
      SurvivesOn(ws[0], ws[i - 1], ws[i], id);
    }
  }

  lemma StillHere(w: World, v: World, id: Id)
    requires Survives(w, v, id)
    ensures Here(v, id)
  {
  }

  // A note in RAM is one the index names.
  lemma InRamIsHere(w: World, n: Note)
    requires Inv(w) && n in w.notes
    ensures Here(w, n.id) && n.id in w.blobs && Loaded(w.blobs[n.id]) == n
  {
    var j :| 0 <= j < |w.notes| && w.notes[j] == n;
    assert Known(w)[j] == n.id;
  }

  // The hash handed out when a note was made is the hash of what any later
  // export reveals, unless the note was removed meanwhile.
  lemma ExportMatchesDisclosure(ws: seq<World>, ops: seq<Op>, made: Note, exported: Note, sha256: Hash)
    requires Run(ws, ops) && Inv(ws[0]) && NotTaken(ws, ops, made.id, |ops|)
    requires made in ws[0].notes && exported in ws[|ops|].notes && exported.id == made.id
    ensures sha256(exported.secret) == sha256(made.secret) && Advances(made, exported)
  {
    SameLength(ws, ops);
    hide Run, NotTaken, Inv, Here;
    RunKeepsInv(ws, ops, |ops|);
    InRamIsHere(ws[0], made);
    InRamIsHere(ws[|ops|], exported);
    RunSurvives(ws, ops, made.id, |ops|);
  }

  ghost predicate HoldsConfirmed(w: World, id: Id) {
    Here(w, id) && id in w.blobs && w.blobs[id].state == Confirmed
  }

  ghost predicate NotSpentYet(w: World, id: Id) {
    id in w.blobs ==> w.blobs[id].state != Spent
  }

  // The same money, under the same secret.
  ghost predicate SameMoney(w: World, v: World, id: Id) {
    && id in w.blobs && id in v.blobs
    && v.blobs[id].amountMsat == w.blobs[id].amountMsat && v.blobs[id].secret == w.blobs[id].secret
  }

  lemma ConfirmedNotTaken(w: World, op: Op, v: World, id: Id)
    requires Inv(w) && Step(w, op, v) && HoldsConfirmed(w, id) && !op.Wipe?
    ensures !Takes(w, op, id)
  {
    forall n | n in w.notes && n.id == id
      ensures n.state == Confirmed
    {
      InRamIsHere(w, n);
    }
  }

  lemma StepKeepsConfirmed(w: World, op: Op, v: World, id: Id)
    requires Inv(w) && Step(w, op, v) && Lucky(w, op) && !op.Wipe?
    requires HoldsConfirmed(w, id) && NotSpentYet(v, id)
    ensures HoldsConfirmed(v, id) && SameMoney(w, v, id)
  {
    hide Inv, Step, Lucky, Takes;
    ConfirmedNotTaken(w, op, v, id);
    StepSurvives(w, op, v, id);
  }

  lemma HoldsIt(w: World, id: Id)
    requires HoldsConfirmed(w, id)
    ensures id in w.blobs
  {
  }

  // A confirmed note stays confirmed, at its amount, as long as nobody marks
  // it spent: no other operation can take it away.
  lemma {:induction false} ConfirmedStays(ws: seq<World>, ops: seq<Op>, id: Id, i: nat)
    requires Run(ws, ops) && Inv(ws[0]) && i < |ws| && forall op | op in ops :: !op.Wipe?
    requires HoldsConfirmed(ws[0], id)
    requires forall k | 0 <= k <= i :: NotSpentYet(ws[k], id)
    ensures HoldsConfirmed(ws[i], id) && SameMoney(ws[0], ws[i], id)
  {
    hide Run, Inv, Step, Lucky, HoldsConfirmed, NotSpentYet;
    if i > 0 {
      SameLength(ws, ops);
      StepOf(ws, ops, i - 1);
      RunKeepsInv(ws, ops, i - 1);
      ConfirmedStays(ws, ops, id, i - 1);
      StepKeepsConfirmed(ws[i - 1], ops[i - 1], ws[i], id);
    } else {
      HoldsIt(ws[0], id);
    }
  }

  // ---- Value ----

  // What an operation adds to the confirmed value: a confirm, or an import that
  // makes a note, its amount; a mark_spent minus its amount; a wipe minus
  // everything; anything else nothing.
  function Delta(w: World, op: Op): int {
    match op
    case Create(tried, true) => Value(tried)
    case Update(at, after, true) =>
      if at < |w.notes| && w.notes[at].state == Pending && after.state == Confirmed then after.amountMsat
      else if at < |w.notes| && w.notes[at].state == Confirmed && after.state == Spent then
        -(w.notes[at].amountMsat as int)
      else 0
    case Wipe => -(Held(w) as int)
    case _ => 0
  }

  function TotalDelta(ws: seq<World>, ops: seq<Op>, i: nat): int
    requires |ws| == |ops| + 1 && i <= |ops|
  {
    if i == 0 then 0 else TotalDelta(ws, ops, i - 1) + Delta(ws[i - 1], ops[i - 1])
  }

  // What the notes under these ids are worth on flash.
  function Stored(ids: seq<Id>, blobs: map<Id, Note>): nat {
    if ids == [] then 0
    else
      var id := ids[|ids| - 1];
      Stored(ids[..|ids| - 1], blobs) + (if id in blobs then Worth(blobs[id]) else 0)
  }

  // All the money there is: what RAM holds and what this boot could not load;
  // or, while the index is unreadable, what it names.
  function Held(w: World): nat {
    if w.known then Value(w.notes) + Stored(w.unloaded, w.blobs) else Stored(w.index, w.blobs)
  }

  lemma {:induction false} StoredConcat(a: seq<Id>, b: seq<Id>, blobs: map<Id, Note>)
    ensures Stored(a + b, blobs) == Stored(a, blobs) + Stored(b, blobs)
  {
    if b == [] {
      assert a + b == a;
    } else {
      assert (a + b)[..|a + b| - 1] == a + b[..|b| - 1];
      StoredConcat(a, b[..|b| - 1], blobs);
    }
  }

  lemma StoredAt(ids: seq<Id>, at: nat, blobs: map<Id, Note>)
    requires at < |ids|
    ensures Stored(ids, blobs) == Stored(ids[..at] + ids[at + 1..], blobs) + Stored([ids[at]], blobs)
  {
    assert ids == (ids[..at] + [ids[at]]) + ids[at + 1..];
    StoredConcat(ids[..at] + [ids[at]], ids[at + 1..], blobs);
    StoredConcat(ids[..at], [ids[at]], blobs);
    StoredConcat(ids[..at], ids[at + 1..], blobs);
  }

  lemma OneLess(ids: seq<Id>, at: nat)
    requires Distinct(ids) && at < |ids|
    ensures var rest := ids[..at] + ids[at + 1..];
            Distinct(rest) && forall id :: id in rest <==> id in ids && id != ids[at]
  {
    var rest := ids[..at] + ids[at + 1..];
    assert ids == (ids[..at] + [ids[at]]) + ids[at + 1..];
    hide Count;
    forall id
      ensures Count(rest, id) <= 1 && (id in rest <==> id in ids && id != ids[at])
    {
      CountConcat(ids[..at] + [ids[at]], ids[at + 1..], id);
      CountConcat(ids[..at], [ids[at]], id);
      CountConcat(ids[..at], ids[at + 1..], id);
      CountConcat(rest, [], id);
      CountConcat(ids, [], id);
      assert Count(ids, id) <= 1;
      if id == ids[at] {
        assert id in [ids[at]];
      }
    }
  }

  // Only what is worth something counts, and not its order.
  ghost predicate Worthy(id: Id, blobs: map<Id, Note>) {
    id in blobs && Worth(blobs[id]) > 0
  }

  lemma {:induction false} StoredWorthless(ids: seq<Id>, blobs: map<Id, Note>)
    requires forall id | id in ids :: !Worthy(id, blobs)
    ensures Stored(ids, blobs) == 0
  {
    if ids != [] {
      StoredWorthless(ids[..|ids| - 1], blobs);
      assert ids[|ids| - 1] in ids;
    }
  }

  lemma StoredOne(id: Id, blobs: map<Id, Note>)
    ensures Stored([id], blobs) == if id in blobs then Worth(blobs[id]) else 0
  {
    assert [id][..0] == [];
  }

  // One member less, and what it is worth.
  lemma TakeOut(ids: seq<Id>, id: Id, blobs: map<Id, Note>) returns (rest: seq<Id>)
    requires Distinct(ids) && id in ids
    ensures Distinct(rest) && |rest| == |ids| - 1 && forall x :: x in rest <==> x in ids && x != id
    ensures Stored(ids, blobs) == Stored(rest, blobs) + if id in blobs then Worth(blobs[id]) else 0
  {
    hide Distinct, Stored;
    var at :| 0 <= at < |ids| && ids[at] == id;
    rest := ids[..at] + ids[at + 1..];
    OneLess(ids, at);
    StoredAt(ids, at, blobs);
    StoredOne(id, blobs);
  }

  lemma {:induction false} StoredInAnyOrder(a: seq<Id>, b: seq<Id>, blobs: map<Id, Note>)
    requires Distinct(a) && Distinct(b) && forall id | Worthy(id, blobs) :: id in a <==> id in b
    ensures Stored(a, blobs) == Stored(b, blobs)
    decreases |a|
  {
    hide Distinct, Stored;
    if a == [] {
      StoredWorthless(a, blobs);
      StoredWorthless(b, blobs);
    } else {
      var id := a[0];
      var front := TakeOut(a, id, blobs);
      if Worthy(id, blobs) {
        var rest := TakeOut(b, id, blobs);
        StoredInAnyOrder(front, rest, blobs);
      } else {
        StoredInAnyOrder(front, b, blobs);
      }
    }
  }

  // Fewer ids are worth no more.
  lemma {:induction false} StoredSubset(a: seq<Id>, b: seq<Id>, blobs: map<Id, Note>)
    requires Distinct(a) && Distinct(b) && forall id | id in a :: id in b
    ensures Stored(a, blobs) <= Stored(b, blobs)
    decreases |a|
  {
    if a != [] {
      hide Distinct, Stored;
      var front := TakeOut(a, a[0], blobs);
      var rest := TakeOut(b, a[0], blobs);
      StoredSubset(front, rest, blobs);
    }
  }

  lemma {:induction false} StoredIsValue(notes: seq<Note>, blobs: map<Id, Note>)
    requires NotesOnFlash(notes, blobs)
    ensures Stored(Ids(notes), blobs) == Value(notes)
  {
    if notes != [] {
      var k := |notes| - 1;
      StoredIsValue(notes[..k], blobs);
      assert Ids(notes)[..k] == Ids(notes[..k]);
      assert Loaded(blobs[notes[k].id]) == notes[k];
    }
  }

  lemma {:induction false} StoredSame(ids: seq<Id>, before: map<Id, Note>, after: map<Id, Note>)
    requires forall id | id in ids :: (id in before <==> id in after) && (id in before ==> after[id] == before[id])
    ensures Stored(ids, after) == Stored(ids, before)
  {
    if ids != [] {
      StoredSame(ids[..|ids| - 1], before, after);
      assert ids[|ids| - 1] in ids;
    }
  }

  // An id that the index still names although RAM knows it no more: what a
  // removal leaves behind that did not get its index written.
  ghost predicate Leftover(w: World, id: Id) {
    w.known && id in w.index && id in w.blobs && id !in Known(w)
  }

  ghost predicate LeftoversWorthless(w: World) {
    forall id | Leftover(w, id) :: Worth(w.blobs[id]) == 0
  }

  lemma KnownIsStored(w: World)
    requires Inv(w) && w.known
    ensures Held(w) == Stored(Known(w), w.blobs)
  {
    hide Stored, Value;
    StoredConcat(Ids(w.notes), w.unloaded, w.blobs);
    StoredIsValue(w.notes, w.blobs);
  }

  // Money counted over RAM and what is set aside is money counted over the
  // index, if and only if what is left over there is worth nothing.
  lemma HeldIsIndexedIff(w: World)
    requires Inv(w)
    ensures Held(w) == Stored(w.index, w.blobs) <==> LeftoversWorthless(w)
  {
    if w.known {
      hide Distinct, Stored, Held, Loaded;
      KnownIsStored(w);
      if LeftoversWorthless(w) {
        StoredInAnyOrder(Known(w), w.index, w.blobs);
      } else {
        var id :| Leftover(w, id) && Worth(w.blobs[id]) != 0;
        OneIsDistinct(id);
        DistinctJoin(Known(w), [id]);
        StoredConcat(Known(w), [id], w.blobs);
        StoredOne(id, w.blobs);
        StoredSubset(Known(w) + [id], w.index, w.blobs);
      }
    }
  }

  // No creation or removal of another note touches what is set aside.
  lemma SetAsideKept(w: World, op: Op, v: World)
    requires Inv(w) && Step(w, op, v) && Lucky(w, op) && !op.Wipe? && !op.Boot?
    ensures Stored(v.unloaded, v.blobs) == Stored(w.unloaded, w.blobs)
  {
    if w.known {
      DistinctHalves(Ids(w.notes), w.unloaded);
      forall id | id in w.unloaded
        ensures (id in w.blobs <==> id in v.blobs) && (id in w.blobs ==> v.blobs[id] == w.blobs[id])
      {
        BlobSetAside(w, op, v, id);
      }
      hide Step, Lucky, Inv, Stored;
      assert v.unloaded == w.unloaded by {
        UnloadedStays(w, op, v);
      }
      StoredSame(w.unloaded, w.blobs, v.blobs);
    }
  }

  lemma UnloadedStays(w: World, op: Op, v: World)
    requires Step(w, op, v) && !op.Wipe? && !op.Boot?
    ensures v.unloaded == w.unloaded && v.known == w.known
  {
  }

  lemma BlobSetAside(w: World, op: Op, v: World, id: Id)
    requires Inv(w) && w.known && Step(w, op, v) && Lucky(w, op) && !op.Wipe? && !op.Boot?
    requires id in w.unloaded && id !in Ids(w.notes)
    ensures (id in w.blobs <==> id in v.blobs) && (id in w.blobs ==> v.blobs[id] == w.blobs[id])
  {
    match op {
      case Refuse =>
      case Create(tried, ok) =>
        if id in Ids(tried) {
          var k := InIds(tried, id);
          assert false;
        }
        SaveAllKeys(w.blobs, tried, id);
        if !ok {
          var calls :| CallsFor(tried, calls) && v == Undone(w, tried, calls);
          UndoneBlob(w.blobs, tried, calls, id);
        }
      case Update(at, after, ok) => assert Ids(w.notes)[at] == after.id;
      case RemoveAt(at, ok) => assert Ids(w.notes)[at] == w.notes[at].id;
      case Prune(ok) =>
        IdsAreIds(w.notes);
    }
  }

  lemma NotesConserveValue(w: World, op: Op, v: World)
    requires Step(w, op, v) && !op.Wipe? && !op.Boot?
    ensures Value(v.notes) == Value(w.notes) + Delta(w, op)
  {
    hide Value, Written;
    match op {
      case Refuse =>
      case Create(tried, ok) => ValueConcat(w.notes, tried);
      case Update(at, after, ok) =>
        ValueAt(w.notes, at);
        ValueAt(w.notes[at := after], at);
        assert w.notes[at := after][..at] == w.notes[..at];
        assert w.notes[at := after][at + 1..] == w.notes[at + 1..];
      case RemoveAt(at, ok) =>
        ValueAt(w.notes, at);
        ValueConcat(w.notes[..at], w.notes[at + 1..]);
      case Prune(ok) => ValueOfNotSpent(w.notes);
    }
  }

  lemma UnknownChangesNothing(w: World, op: Op, v: World)
    requires Inv(w) && !w.known && Step(w, op, v) && !op.Wipe? && !op.Boot?
    ensures v == w && Delta(w, op) == 0
  {
  }

  // Right after a boot nothing is left over.
  lemma NothingLeftOver(w: World)
    requires Inv(w) && Sync(w)
    ensures LeftoversWorthless(w)
  {
    forall id | Leftover(w, id)
      ensures false
    {
      var i :| 0 <= i < |w.index| && w.index[i] == id;
      SyncCovers(w, i);
    }
  }

  // A boot, whatever it manages to read, moves money only between RAM and what
  // is set aside, if and only if what was left over was worth nothing.
  lemma BootConservesValue(w: World, indexRead: bool, loads: seq<bool>, v: World)
    requires Inv(w) && BootStep(w, indexRead, loads, v)
    ensures Held(v) == Held(w) <==> LeftoversWorthless(w)
    ensures LeftoversWorthless(v)
  {
    BootKeepsInv(w, indexRead, loads, v);
    hide Held, Inv, Sync, LeftoversWorthless;
    NothingLeftOver(v);
    HeldIsIndexedIff(w);
    HeldIsIndexedIff(v);
    hide Reload, Missed;
    assert v.index == w.index && v.blobs == w.blobs;
  }

  // No id drawn is one that is left over.
  ghost predicate NoneRevived(w: World, op: Op) {
    op.Create? ==> forall i | 0 <= i < |op.tried| :: op.tried[i].id !in w.index
  }

  lemma RefusedKeepsWorthless(w: World, tried: seq<Note>, v: World)
    requires Inv(w) && CreateStep(w, tried, false, v) && Lucky(w, Create(tried, false))
    requires LeftoversWorthless(w) && NoneRevived(w, Create(tried, false))
    ensures LeftoversWorthless(v)
  {
    var calls :| CallsFor(tried, calls) && v == Undone(w, tried, calls);
    WrittenCovers(w.notes, w.unloaded);
    forall id | Leftover(v, id)
      ensures Worth(v.blobs[id]) == 0
    {
      assert Known(v) == Known(w) && id in w.index;
      if id in Ids(tried) {
        var k := InIds(tried, id);
      }
      UndoneBlob(w.blobs, tried, calls, id);
      assert Leftover(w, id);
    }
  }

  lemma CreatedLeavesNothing(w: World, tried: seq<Note>, v: World)
    requires CreateStep(w, tried, true, v) && |Known(w)| + |tried| <= MAX_NOTES
    ensures LeftoversWorthless(v)
  {
    WrittenCovers(v.notes, v.unloaded);
  }

  lemma UpdateKeepsWorthless(w: World, at: nat, after: Note, ok: bool, v: World)
    requires UpdateStep(w, at, after, ok, v) && LeftoversWorthless(w)
    ensures LeftoversWorthless(v)
  {
    assert Ids(v.notes) == Ids(w.notes);
    assert Ids(w.notes)[at] == w.notes[at].id;
    forall id | Leftover(v, id)
      ensures Worth(v.blobs[id]) == 0
    {
      assert Leftover(w, id);
    }
  }

  // What a removal leaves behind is not confirmed.
  lemma RemovalKeepsWorthless(w: World, kept: seq<Note>, gone: set<Id>, ok: bool, v: World)
    requires Inv(w) && RemovalStep(w, kept, gone, ok, v) && Kept(w.notes, kept, gone) && LeftoversWorthless(w)
    requires forall n | n in w.notes && n.id in gone :: n.state != Confirmed
    ensures LeftoversWorthless(v)
  {
    KeptDistinct(w, kept, gone);
    WrittenCovers(kept, w.unloaded);
    IdsConcat(kept, []);
    hide Distinct, Written;
    forall id | Leftover(v, id)
      ensures Worth(v.blobs[id]) == 0
    {
      assert v.index == w.index && v.blobs[id] == w.blobs[id];
      if id in Ids(w.notes) {
        var k := InIds(w.notes, id);
        assert Loaded(w.blobs[id]) == w.notes[k] && w.notes[k] in w.notes;
        IdsAreIds(kept);
      } else {
        assert Leftover(w, id);
      }
    }
  }

  lemma SpentAreSpent(w: World, n: Note)
    requires Inv(w) && n in w.notes && n.id in SpentIds(w.notes)
    ensures n.state == Spent
  {
    var m :| m in w.notes && m.state == Spent && m.id == n.id;
    var i :| 0 <= i < |w.notes| && w.notes[i] == n;
    var j :| 0 <= j < |w.notes| && w.notes[j] == m;
    assert Loaded(w.blobs[n.id]) == n && Loaded(w.blobs[m.id]) == m;
  }

  lemma RemoveAtKeepsWorthless(w: World, at: nat, ok: bool, v: World)
    requires Inv(w) && Step(w, RemoveAt(at, ok), v) && LeftoversWorthless(w)
    ensures LeftoversWorthless(v)
  {
    DistinctHalves(Ids(w.notes), w.unloaded);
    KeptAfterGap(w.notes, at);
    forall n | n in w.notes && n.id == w.notes[at].id
      ensures n.state != Confirmed
    {
      var k :| 0 <= k < |w.notes| && w.notes[k] == n;
      assert Loaded(w.blobs[n.id]) == n && Loaded(w.blobs[n.id]) == w.notes[at];
    }
    hide Kept, Inv, LeftoversWorthless, RemovalStep;
    RemovalKeepsWorthless(w, v.notes, {w.notes[at].id}, ok, v) by {
      RemovalNotes(w, v.notes, w.notes[..at] + w.notes[at + 1..], {w.notes[at].id}, ok, v);
    }
  }

  lemma RemovalNotes(w: World, now: seq<Note>, kept: seq<Note>, gone: set<Id>, ok: bool, v: World)
    requires RemovalStep(w, kept, gone, ok, v) && now == v.notes
    ensures now == kept
  {
  }

  lemma PruneKeepsWorthless(w: World, ok: bool, v: World)
    requires Inv(w) && Step(w, Prune(ok), v) && LeftoversWorthless(w)
    ensures LeftoversWorthless(v)
  {
    DistinctHalves(Ids(w.notes), w.unloaded);
    KeptAfterPrune(w.notes);
    forall n | n in w.notes && n.id in SpentIds(w.notes)
      ensures n.state != Confirmed
    {
      SpentAreSpent(w, n);
    }
    hide Kept, Inv, LeftoversWorthless, RemovalStep, SpentIds, NotSpent;
    RemovalKeepsWorthless(w, v.notes, SpentIds(w.notes), ok, v) by {
      RemovalNotes(w, v.notes, NotSpent(w.notes), SpentIds(w.notes), ok, v);
    }
  }

  lemma UnknownHasNoLeftovers(w: World)
    requires !w.known
    ensures LeftoversWorthless(w)
  {
  }

  lemma StepKeepsWorthless(w: World, op: Op, v: World)
    requires Inv(w) && Step(w, op, v) && Lucky(w, op)
    requires LeftoversWorthless(w) && NoneRevived(w, op)
    ensures LeftoversWorthless(v)
  {
    hide Inv, LeftoversWorthless, CreateStep, UpdateStep, BootStep, NoneRevived;
    match op {
      case Refuse =>
      case Create(tried, ok) =>
        if ok {
          CreatedLeavesNothing(w, tried, v);
        } else {
          RefusedKeepsWorthless(w, tried, v);
        }
      case Update(at, after, ok) => UpdateKeepsWorthless(w, at, after, ok, v);
      case RemoveAt(at, ok) => RemoveAtKeepsWorthless(w, at, ok, v);
      case Prune(ok) => PruneKeepsWorthless(w, ok, v);
      case Boot(indexRead, loads) => BootConservesValue(w, indexRead, loads, v);
      case Wipe => WipeLeavesNothing(w, v);
    }
  }

  lemma WipeLeavesNothing(w: World, v: World)
    requires Step(w, Wipe, v)
    ensures LeftoversWorthless(v) && Held(v) == 0
  {
  }

  lemma BootNeverLoses(w: World, indexRead: bool, loads: seq<bool>, v: World)
    requires Inv(w) && BootStep(w, indexRead, loads, v)
    ensures Held(v) >= Held(w)
  {
    BootKeepsInv(w, indexRead, loads, v);
    NothingLeftOver(v);
    HeldIsIndexedIff(v);
    if w.known {
      KnownIsStored(w);
      hide Distinct, Stored, Held, Sync, LeftoversWorthless, Reload, Missed;
      StoredSubset(Known(w), w.index, w.blobs);
    }
  }

  // No operation makes money vanish; and only a boot that finds something
  // worth money left over makes it appear.
  lemma StepNeverLoses(w: World, op: Op, v: World)
    requires Inv(w) && Step(w, op, v) && Lucky(w, op)
    ensures Held(v) >= Held(w) + Delta(w, op)
    ensures Held(v) == Held(w) + Delta(w, op) <==> (op.Boot? ==> LeftoversWorthless(w))
  {
    if op.Boot? {
      hide Inv, LeftoversWorthless, Held;
      BootConservesValue(w, op.indexRead, op.loads, v);
      BootNeverLoses(w, op.indexRead, op.loads, v);
    } else if op.Wipe? {
      WipeLeavesNothing(w, v);
    } else if w.known {
      UnloadedStays(w, op, v);
      hide Step, Lucky, Inv, Stored, Value, Delta;
      SetAsideKept(w, op, v);
      NotesConserveValue(w, op, v);
    } else {
      UnknownChangesNothing(w, op, v);
    }
  }

  ghost predicate Conserved(ws: seq<World>, ops: seq<Op>, i: nat) {
    && |ws| == |ops| + 1 && i <= |ops|
    && Held(ws[i]) == Held(ws[0]) + TotalDelta(ws, ops, i)
  }

  ghost predicate NothingLost(ws: seq<World>, ops: seq<Op>, i: nat) {
    && |ws| == |ops| + 1 && i <= |ops|
    && Held(ws[i]) >= Held(ws[0]) + TotalDelta(ws, ops, i)
  }

  ghost predicate CleanBoots(ws: seq<World>, ops: seq<Op>, i: nat) {
    forall k | 0 <= k < i && k < |ops| && k < |ws| && ops[k].Boot? :: LeftoversWorthless(ws[k])
  }

  lemma CleanSoFar(ws: seq<World>, ops: seq<Op>, i: nat)
    requires 0 < i <= |ops| && |ws| == |ops| + 1
    ensures CleanBoots(ws, ops, i) <==>
            CleanBoots(ws, ops, i - 1) && (ops[i - 1].Boot? ==> LeftoversWorthless(ws[i - 1]))
  {
  }

  // Over any run at all, whatever fails: what the notes in RAM and set aside
  // are worth never falls short of what was confirmed and imported less what
  // was marked spent and wiped; and it is exactly that if and only if no boot
  // found anything worth money left over by a failed removal.
  lemma {:induction false} RunNeverLosesValue(ws: seq<World>, ops: seq<Op>, i: nat)
    requires Run(ws, ops) && Inv(ws[0]) && i < |ws|
    ensures NothingLost(ws, ops, i)
    ensures Conserved(ws, ops, i) <==> CleanBoots(ws, ops, i)
  {
    SameLength(ws, ops);
    hide Run, Held, Delta, Inv, Step, Lucky, LeftoversWorthless;
    if i > 0 {
      RunNeverLosesValue(ws, ops, i - 1);
      RunKeepsInv(ws, ops, i - 1);
      StepOf(ws, ops, i - 1);
      CleanSoFar(ws, ops, i);
      hide CleanBoots;
      StepNeverLoses(ws[i - 1], ops[i - 1], ws[i]);
    }
  }

  // A run in which no id is drawn that a removal left in the index.
  ghost predicate OrdinaryRun(ws: seq<World>, ops: seq<Op>) {
    && Run(ws, ops) && Inv(ws[0]) && LeftoversWorthless(ws[0])
    && forall i | 0 <= i < |ops| :: NoneRevived(ws[i], ops[i])
  }

  lemma OrdinaryStep(ws: seq<World>, ops: seq<Op>, i: nat)
    requires OrdinaryRun(ws, ops) && i < |ops|
    ensures |ws| == |ops| + 1 && Run(ws, ops) && Inv(ws[0])
    ensures Step(ws[i], ops[i], ws[i + 1]) && Lucky(ws[i], ops[i]) && NoneRevived(ws[i], ops[i])
  {
  }

  lemma OrdinaryStart(ws: seq<World>, ops: seq<Op>)
    requires OrdinaryRun(ws, ops)
    ensures |ws| == |ops| + 1 && Run(ws, ops) && Inv(ws[0]) && LeftoversWorthless(ws[0])
  {
  }

  lemma {:induction false} RunKeepsWorthless(ws: seq<World>, ops: seq<Op>, i: nat)
    requires OrdinaryRun(ws, ops) && i < |ws|
    ensures Inv(ws[i]) && LeftoversWorthless(ws[i])
  {
    hide OrdinaryRun, Inv, Step, Lucky, LeftoversWorthless, NoneRevived, Run;
    if i > 0 {
      RunKeepsWorthless(ws, ops, i - 1);
      OrdinaryStart(ws, ops);
      OrdinaryStep(ws, ops, i - 1);
      StepKeepsInv(ws[i - 1], ops[i - 1], ws[i]);
      StepKeepsWorthless(ws[i - 1], ops[i - 1], ws[i]);
    } else {
      OrdinaryStart(ws, ops);
    }
  }

  // So along such a run the total changes by exactly what was confirmed and
  // imported less what was marked spent and wiped.
  lemma RunConservesValue(ws: seq<World>, ops: seq<Op>, i: nat)
    requires OrdinaryRun(ws, ops) && i < |ws|
    ensures Conserved(ws, ops, i)
  {
    hide OrdinaryRun, Inv, LeftoversWorthless, Run, Conserved;
    OrdinaryStart(ws, ops);
    forall k | 0 <= k < i && k < |ops| && k < |ws| && ops[k].Boot?
      ensures LeftoversWorthless(ws[k])
    {
      RunKeepsWorthless(ws, ops, k);
    }
    RunNeverLosesValue(ws, ops, i);
  }

  // ---- A wipe that was not verified ----

  // It may have lost the blobs; it leaves RAM and the index as they were. So
  // every note can be exported until the next boot, and after it nothing is in
  // RAM, but every id is still known.
  lemma FailedWipe(w: World, v: World, indexRead: bool, loads: seq<bool>, u: World)
    requires w.known && (v == w || v == w.(blobs := map[])) && BootStep(v, indexRead, loads, u)
    ensures v.notes == w.notes && u.index == w.index
    ensures v != w && indexRead ==> u.notes == [] && u.unloaded == w.index
    ensures v == w ==> BootStep(w, indexRead, loads, u)
  {
    if v != w && indexRead {
      NothingReads(w.index, loads);
    }
  }

  lemma {:induction false} NothingReads(index: seq<Id>, loads: seq<bool>)
    requires |loads| == |index|
    ensures Reload(index, map[], loads) == [] && Missed(index, map[], loads) == index
  {
    if index != [] {
      var k := |index| - 1;
      NothingReads(index[..k], loads[..k]);
      assert index[..k] + [index[k]] == index;
    }
  }

  // ---- A fresh id that is not fresh ----

  // What this boot could not load is still on flash, as it was.
  ghost predicate Spared(w: World, v: World) {
    forall id | id in w.unloaded && id in w.blobs :: id in v.blobs && v.blobs[id] == w.blobs[id]
  }

  // This id is that of a note set aside: what gen_unique_id could test before
  // it returns an id, and does not.
  predicate Clashes(w: World, id: Id) {
    id in w.unloaded && id in w.blobs
  }

  ghost predicate NoClash(w: World, tried: seq<Note>) {
    forall i | 0 <= i < |tried| :: !Clashes(w, tried[i].id)
  }

  ghost predicate OtherSecrets(w: World, tried: seq<Note>) {
    forall i | 0 <= i < |tried| && tried[i].id in w.blobs :: tried[i].secret != w.blobs[tried[i].id].secret
  }

  // A creation that worked spares the notes set aside if and only if none of
  // its ids is one of theirs.
  lemma SparedIffNoClash(w: World, tried: seq<Note>, v: World)
    requires CreateStep(w, tried, true, v) && OtherSecrets(w, tried)
    ensures Spared(w, v) <==> NoClash(w, tried)
  {
    forall id | Clashes(w, id)
      ensures id in Ids(tried) || (id in v.blobs && v.blobs[id] == w.blobs[id])
    {
      SaveAllKeys(w.blobs, tried, id);
    }
    if NoClash(w, tried) {
      forall id | Clashes(w, id)
        ensures id !in Ids(tried)
      {
        if id in Ids(tried) {
          var k := InIds(tried, id);
        }
      }
    } else {
      var i :| 0 <= i < |tried| && Clashes(w, tried[i].id);
      SaveAllHolds(w.blobs, tried, i);
    }
  }

  // One that failed, call by call: a note set aside is lost exactly if one of
  // its id was saved over it, or deleted in the clean-up.
  lemma SparedCallByCall(w: World, tried: seq<Note>, calls: Calls)
    requires FreshNotes(w.notes, tried) && CallsFor(tried, calls) && OtherSecrets(w, tried)
    ensures Spared(w, Undone(w, tried, calls)) <==>
            forall i | 0 <= i < |tried| && Clashes(w, tried[i].id) :: i >= calls.saved && tried[i].id !in calls.deleted
  {
    var v := Undone(w, tried, calls);
    var saved := tried[..calls.saved];
    IdsAreIds(tried);
    if i :| 0 <= i < |tried| && Clashes(w, tried[i].id) && !(i >= calls.saved && tried[i].id !in calls.deleted) {
      if i < calls.saved {
        SaveAllHolds(w.blobs, saved, i);
        assert saved[i] == tried[i];
      }
      assert tried[i].id !in v.blobs || v.blobs[tried[i].id] != w.blobs[tried[i].id];
    } else {
      forall id | Clashes(w, id)
        ensures id in v.blobs && v.blobs[id] == w.blobs[id]
      {
        SaveAllKeys(w.blobs, saved, id);
        if id in Ids(saved) {
          var k := InIds(saved, id);
        } else if id in calls.deleted {
          var k := InIds(tried, id);
        }
      }
    }
  }

  // So a creation that fails is harmless, however storage fails it, if and
  // only if no id clashes.
  lemma SparedWhateverFails(w: World, tried: seq<Note>)
    requires w.known && |w.notes| + |tried| <= MAX_NOTES && FreshNotes(w.notes, tried)
    ensures (forall v | CreateStep(w, tried, false, v) :: Spared(w, v)) <==> NoClash(w, tried)
  {
    if i :| 0 <= i < |tried| && Clashes(w, tried[i].id) {
      var calls := Calls(0, {tried[i].id}, false);
      assert tried[i] in tried;
      var v := Undone(w, tried, calls);
      assert CreateStep(w, tried, false, v) && tried[i].id !in v.blobs;
    } else {
      forall v | CreateStep(w, tried, false, v)
        ensures Spared(w, v)
      {
        var calls :| CallsFor(tried, calls) && v == Undone(w, tried, calls);
        forall id | Clashes(w, id)
          ensures id in v.blobs && v.blobs[id] == w.blobs[id]
        {
          if id in Ids(tried) {
            var k := InIds(tried, id);
          }
          UndoneBlob(w.blobs, tried, calls, id);
        }
      }
    }
  }

  function SampleSecret(b: u8): (secret: seq<u8>)
    ensures |secret| == SECRET_LEN
  {
    seq(SECRET_LEN, i => b)
  }

  function KeptNote(): Note {
    ImportedNote("0badcafe", SampleSecret(7), None, 21000, None, 0)
  }

  function ClashingNote(): Note {
    PendingNote("0badcafe", SampleSecret(9), [], None, 0)
  }

  function OnlyNote(n: Note): World {
    World([n], [], true, [n.id], map[n.id := n], {})
  }

  function OnlyUnread(n: Note): World {
    World([], [n.id], true, [n.id], map[n.id := n], {})
  }

  lemma FirstImport(n: Note)
    requires n.parentCount <= MAX_PARENTS && n.state != Spent
    ensures Step(FIRST, Create([n], true), OnlyNote(n))
  {
    SaveOne(FIRST.blobs, n);
    assert FIRST.notes + [n] == [n] && [n][0] == n && Ids([]) == [];
    assert Ids([n]) + [] == [n.id];
    hide SaveAll;
    CreateDone(FIRST, [n], OnlyNote(n));
  }

  lemma OneUnread(id: Id, blobs: map<Id, Note>)
    ensures Reload([id], blobs, [false]) == [] && Missed([id], blobs, [false]) == [id]
  {
    NoLoads(blobs);
    hide Reload, Missed, Loaded;
    NextLoad([id], 0, blobs, [], false);
    assert [id][..1] == [id] && [id][..0] == [] && [] + [false] == [false];
    assert [] + [id] == [id];
  }

  lemma UnreadBoot(n: Note)
    ensures Step(OnlyNote(n), Boot(true, [false]), OnlyUnread(n))
  {
    hide Reload, Missed;
    OneUnread(n.id, OnlyNote(n).blobs);
  }

  // A note is imported; a boot fails to read it.
  lemma KeptThenUnread() returns (ws: seq<World>, ops: seq<Op>)
    ensures Run(ws, ops) && |ops| == 2 && ws[0] == FIRST && ws[2] == OnlyUnread(KeptNote())
  {
    var kept := KeptNote();
    FirstImport(kept);
    UnreadBoot(kept);
    OnlyFirst();
    hide Run, Step, OnlyNote, OnlyUnread, KeptNote;
    OneMoreStep([FIRST], [], Create([kept], true), OnlyNote(kept)) by {
      LuckyFirst(kept);
    }
    OneMoreStep([FIRST] + [OnlyNote(kept)], [] + [Create([kept], true)], Boot(true, [false]), OnlyUnread(kept));
    ws, ops := [FIRST] + [OnlyNote(kept)] + [OnlyUnread(kept)], [] + [Create([kept], true)] + [Boot(true, [false])];
  }

  lemma LuckyFirst(n: Note)
    ensures Lucky(FIRST, Create([n], true))
  {
  }

  lemma OnlyFirst()
    ensures Run([FIRST], [])
  {
  }

  // Then a new secret is drawn the same id: its blob is saved, its index is
  // not, and the clean-up deletes the blob. The creation is refused, and the
  // imported note is gone.
  lemma CollisionLosesANote() returns (ws: seq<World>, ops: seq<Op>, v: World)
    ensures Run(ws, ops) && |ops| == 2 && ws[0] == FIRST
    ensures ws[2].notes == [] && ws[2].unloaded == [KeptNote().id] && ws[2].blobs == map[KeptNote().id := KeptNote()]
    ensures Step(ws[2], Create([ClashingNote()], false), v)
    ensures var calls := Calls(1, {ClashingNote().id}, false);
            CallsFor([ClashingNote()], calls) && v == Undone(ws[2], [ClashingNote()], calls)
    ensures v.index == [KeptNote().id] && v.blobs == map[] && v.removed == {}
  {
    ws, ops := KeptThenUnread();
    var clash := ClashingNote();
    var calls := Calls(1, {clash.id}, false);
    SaveOne(ws[2].blobs, clash);
    assert clash in [clash] && [clash][..1] == [clash] && [clash][0] == clash;
    v := Undone(ws[2], [clash], calls);
    assert Ids([]) == [];
    hide Run;
    CreateUndone(ws[2], [clash], calls, v);
  }

  // ---- One secret, one note ----

  // No two notes that the index names are backed by the same secret; so no
  // value is counted twice.
  ghost predicate Apart(w: World) {
    forall a, b | a in w.index && b in w.index && a in w.blobs && b in w.blobs && a != b ::
      w.blobs[a].secret != w.blobs[b].secret
  }

  lemma ApartInRam(w: World, i: nat, j: nat)
    requires Inv(w) && Apart(w) && i < j < |w.notes|
    ensures w.notes[i].secret != w.notes[j].secret
  {
    DistinctHalves(Ids(w.notes), w.unloaded);
    DistinctPositions(Ids(w.notes), i, j);
    assert Known(w)[i] == w.notes[i].id && Known(w)[j] == w.notes[j].id;
    assert w.notes[i].id in Known(w) && w.notes[j].id in Known(w);
    assert Loaded(w.blobs[w.notes[i].id]) == w.notes[i] && Loaded(w.blobs[w.notes[j].id]) == w.notes[j];
  }

  // These secrets are new to the vault: not in RAM, and not set aside.
  ghost predicate FirstTime(w: World, tried: seq<Note>) {
    && (forall i, j | 0 <= i < j < |tried| :: tried[i].secret != tried[j].secret)
    && (forall i, id | 0 <= i < |tried| && id in Known(w) && id in w.blobs :: w.blobs[id].secret != tried[i].secret)
  }

  lemma BlobAfterCreate(w: World, tried: seq<Note>, id: Id) returns (k: int)
    requires FreshNotes(w.notes, tried) && id in SaveAll(w.blobs, tried)
    ensures -1 <= k < |tried|
    ensures k >= 0 ==> tried[k].id == id && SaveAll(w.blobs, tried)[id] == tried[k]
    ensures k < 0 ==> id !in Ids(tried) && id in w.blobs && SaveAll(w.blobs, tried)[id] == w.blobs[id]
  {
    SaveAllKeys(w.blobs, tried, id);
    if id in Ids(tried) {
      k := InIds(tried, id);
      SaveAllHolds(w.blobs, tried, k);
    } else {
      k := -1;
    }
  }

  lemma IndexAfterCreate(w: World, tried: seq<Note>, v: World, id: Id)
    requires CreateStep(w, tried, true, v) && Lucky(w, Create(tried, true))
    ensures id in v.index <==> id in Known(w) || id in Ids(tried)
  {
    IdsConcat(w.notes, tried);
    WrittenCovers(v.notes, v.unloaded);
  }

  // A creation that works keeps the secrets apart if and only if its own are
  // new.
  lemma CreationApartIff(w: World, tried: seq<Note>, v: World)
    requires Inv(w) && Apart(w) && CreateStep(w, tried, true, v) && Lucky(w, Create(tried, true))
    ensures Apart(v) <==> FirstTime(w, tried)
  {
    if FirstTime(w, tried) {
      forall a, b | a in v.index && b in v.index && a in v.blobs && b in v.blobs && a != b
        ensures v.blobs[a].secret != v.blobs[b].secret
      {
        NewSecretsApart(w, tried, v, a, b);
      }
    } else {
      OldSecretClashes(w, tried, v);
    }
  }

  lemma NewSecretsApart(w: World, tried: seq<Note>, v: World, a: Id, b: Id)
    requires Inv(w) && Apart(w) && CreateStep(w, tried, true, v) && Lucky(w, Create(tried, true))
    requires FirstTime(w, tried) && a in v.index && b in v.index && a in v.blobs && b in v.blobs && a != b
    ensures v.blobs[a].secret != v.blobs[b].secret
  {
    IndexAfterCreate(w, tried, v, a);
    IndexAfterCreate(w, tried, v, b);
    var i := BlobAfterCreate(w, tried, a);
    var j := BlobAfterCreate(w, tried, b);
    hide SaveAll, Written;
    if i < 0 && j < 0 {
      assert a in w.index && b in w.index;
    } else if i >= 0 && j >= 0 {
      assert i < j || j < i;
    }
  }

  lemma OldSecretClashes(w: World, tried: seq<Note>, v: World)
    requires Inv(w) && CreateStep(w, tried, true, v) && Lucky(w, Create(tried, true)) && !FirstTime(w, tried)
    ensures !Apart(v)
  {
    if i, j :| 0 <= i < j < |tried| && tried[i].secret == tried[j].secret {
      TriedIsIndexed(w, tried, v, i);
      TriedIsIndexed(w, tried, v, j);
    } else {
      var i, id :| 0 <= i < |tried| && id in Known(w) && id in w.blobs && w.blobs[id].secret == tried[i].secret;
      TriedIsIndexed(w, tried, v, i);
      KnownIsNotTried(w, tried, id);
      SaveAllKeys(w.blobs, tried, id);
      IndexAfterCreate(w, tried, v, id);
      assert Ids(tried)[i] == tried[i].id;
    }
  }

  lemma TriedIsIndexed(w: World, tried: seq<Note>, v: World, i: nat)
    requires CreateStep(w, tried, true, v) && Lucky(w, Create(tried, true)) && i < |tried|
    ensures tried[i].id in v.index && tried[i].id in v.blobs && v.blobs[tried[i].id] == tried[i]
  {
    assert Ids(tried)[i] == tried[i].id;
    IndexAfterCreate(w, tried, v, tried[i].id);
    SaveAllHolds(w.blobs, tried, i);
  }

  lemma KnownIsNotTried(w: World, tried: seq<Note>, id: Id)
    requires FreshNotes(w.notes, tried) && Lucky(w, Create(tried, true)) && id in Known(w)
    ensures id !in Ids(tried)
  {
    assert id in w.unloaded || id in Ids(w.notes);
    if id in Ids(tried) {
      var k := InIds(tried, id);
    }
  }

  // An import has looked for its secret among the notes in RAM. So it keeps the
  // secrets apart if and only if no note set aside has it either, which it
  // could find out before it draws an id, and does not.
  lemma ImportApartIff(w: World, n: Note, v: World)
    requires Inv(w) && Apart(w) && CreateStep(w, [n], true, v) && Lucky(w, Create([n], true))
    requires forall m | m in w.notes :: m.secret != n.secret
    ensures Apart(v) <==> forall id | Clashes(w, id) :: w.blobs[id].secret != n.secret
  {
    CreationApartIff(w, [n], v);
    forall id | id in Ids(w.notes)
      ensures id in w.blobs && w.blobs[id].secret != n.secret
    {
      var k := InIds(w.notes, id);
      assert Loaded(w.blobs[id]) == w.notes[k] && w.notes[k] in w.notes;
    }
    assert forall id :: id in Known(w) <==> id in Ids(w.notes) || id in w.unloaded;
    if FirstTime(w, [n]) {
      assert [n][0] == n;
    }
  }

  // If the operation is a creation that works, its secrets are new. Any other
  // keeps the secrets apart anyway.
  ghost predicate BringsNewSecrets(w: World, op: Op) {
    op.Create? && op.ok ==> FirstTime(w, op.tried)
  }

  lemma SameOrFewerApart(w: World, v: World)
    requires Apart(w)
    requires forall id | id in v.index && id in v.blobs ::
               id in w.index && id in w.blobs && v.blobs[id].secret == w.blobs[id].secret
    ensures Apart(v)
  {
  }

  lemma KnownIndexed(w: World)
    requires Inv(w) && w.known
    ensures Written(w.notes, w.unloaded) == Known(w) && forall id | id in Known(w) :: id in w.index
  {
    WrittenCovers(w.notes, w.unloaded);
  }

  lemma RefusedKeepsApart(w: World, tried: seq<Note>, v: World)
    requires Inv(w) && Apart(w) && CreateStep(w, tried, false, v) && NoneRevived(w, Create(tried, false))
    ensures Apart(v)
  {
    var calls :| CallsFor(tried, calls) && v == Undone(w, tried, calls);
    KnownIndexed(w);
    forall id | id in v.index && id in v.blobs
      ensures id in w.index && id in w.blobs && v.blobs[id].secret == w.blobs[id].secret
    {
      if id in Ids(tried) {
        var k := InIds(tried, id);
      }
      UndoneBlob(w.blobs, tried, calls, id);
    }
    SameOrFewerApart(w, v);
  }

  lemma UpdateKeepsApart(w: World, at: nat, after: Note, ok: bool, v: World)
    requires Inv(w) && Apart(w) && UpdateStep(w, at, after, ok, v)
    ensures Apart(v)
  {
    if ok {
      assert w.known && Loaded(w.blobs[after.id]) == w.notes[at];
    }
    SameOrFewerApart(w, v);
  }

  lemma RemovalKeepsApart(w: World, kept: seq<Note>, gone: set<Id>, ok: bool, v: World)
    requires Inv(w) && Apart(w) && RemovalStep(w, kept, gone, ok, v) && Kept(w.notes, kept, gone)
    ensures Apart(v)
  {
    KnownIndexed(w);
    KeptDistinct(w, kept, gone);
    WrittenCovers(kept, w.unloaded);
    forall id | id in Ids(kept)
      ensures id in w.index
    {
      var k := InIds(kept, id);
      var j :| 0 <= j < |w.notes| && w.notes[j] == kept[k];
      assert Known(w)[j] == id;
    }
    hide Distinct, Written, Kept, Inv;
    SameOrFewerApart(w, v);
  }

  lemma RemoveAtKeepsApart(w: World, at: nat, ok: bool, v: World)
    requires Inv(w) && Apart(w) && Step(w, RemoveAt(at, ok), v)
    ensures Apart(v)
  {
    DistinctHalves(Ids(w.notes), w.unloaded);
    KeptAfterGap(w.notes, at);
    hide Inv, Apart, Kept;
    RemovalKeepsApart(w, v.notes, {w.notes[at].id}, ok, v);
  }

  lemma PruneKeepsApart(w: World, ok: bool, v: World)
    requires Inv(w) && Apart(w) && Step(w, Prune(ok), v)
    ensures Apart(v)
  {
    DistinctHalves(Ids(w.notes), w.unloaded);
    KeptAfterPrune(w.notes);
    hide Inv, Apart, Kept, SpentIds, NotSpent;
    RemovalKeepsApart(w, v.notes, SpentIds(w.notes), ok, v);
  }

  lemma CreateKeepsApart(w: World, tried: seq<Note>, ok: bool, v: World)
    requires Inv(w) && Apart(w) && CreateStep(w, tried, ok, v) && Lucky(w, Create(tried, ok))
    requires NoneRevived(w, Create(tried, ok)) && BringsNewSecrets(w, Create(tried, ok))
    ensures Apart(v)
  {
    hide Inv, Apart, CreateStep, FirstTime, NoneRevived, Lucky;
    if ok {
      CreationApartIff(w, tried, v);
    } else {
      RefusedKeepsApart(w, tried, v);
    }
  }

  lemma ResetKeepsApart(w: World, op: Op, v: World)
    requires Apart(w) && Step(w, op, v) && (op.Refuse? || op.Boot? || op.Wipe?)
    ensures Apart(v)
  {
    hide Apart, Reload, Missed;
    SameOrFewerApart(w, v);
  }

  lemma StepKeepsApart(w: World, op: Op, v: World)
    requires Inv(w) && Apart(w) && Step(w, op, v) && Lucky(w, op) && NoneRevived(w, op) && BringsNewSecrets(w, op)
    ensures Apart(v)
  {
    hide Inv, Apart, CreateStep, UpdateStep, RemovalStep, BootStep, Lucky, NoneRevived, BringsNewSecrets;
    match op {
      case Create(tried, ok) => CreateKeepsApart(w, tried, ok, v);
      case Update(at, after, ok) => UpdateKeepsApart(w, at, after, ok, v);
      case RemoveAt(at, ok) => RemoveAtKeepsApart(w, at, ok, v);
      case Prune(ok) => PruneKeepsApart(w, ok, v);
      case _ => ResetKeepsApart(w, op, v);
    }
  }

  // An ordinary run of creations with new secrets: by the random source, which
  // draws none twice, and by imports that are first-time imports.
  ghost predicate FirstTimeRun(ws: seq<World>, ops: seq<Op>) {
    && OrdinaryRun(ws, ops) && |ws| == |ops| + 1 && Apart(ws[0])
    && forall i | 0 <= i < |ops| :: BringsNewSecrets(ws[i], ops[i])
  }

  lemma FirstTimeStep(ws: seq<World>, ops: seq<Op>, i: nat)
    requires FirstTimeRun(ws, ops) && i < |ops|
    ensures |ws| == |ops| + 1 && OrdinaryRun(ws, ops) && BringsNewSecrets(ws[i], ops[i])
  {
  }

  // Along such a run every secret is counted once. So money is neither made nor
  // lost: by RunConservesValue the total is what was confirmed and imported
  // less what was marked spent.
  lemma {:induction false} RunConservesMoney(ws: seq<World>, ops: seq<Op>, i: nat)
    requires FirstTimeRun(ws, ops) && i < |ws|
    ensures Apart(ws[i]) && Conserved(ws, ops, i)
    ensures forall j, k | 0 <= j < k < |ws[i].notes| :: ws[i].notes[j].secret != ws[i].notes[k].secret
  {
    RunKeepsApart(ws, ops, i);
    FirstTimeStart(ws, ops);
    hide FirstTimeRun, Inv, Apart, LeftoversWorthless, Conserved, OrdinaryRun;
    RunConservesValue(ws, ops, i);
    RunKeepsWorthless(ws, ops, i);
    forall j, k | 0 <= j < k < |ws[i].notes|
      ensures ws[i].notes[j].secret != ws[i].notes[k].secret
    {
      ApartInRam(ws[i], j, k);
    }
  }

  lemma FirstTimeStart(ws: seq<World>, ops: seq<Op>)
    requires FirstTimeRun(ws, ops)
    ensures |ws| == |ops| + 1 && OrdinaryRun(ws, ops) && Apart(ws[0])
  {
  }

  lemma {:induction false} RunKeepsApart(ws: seq<World>, ops: seq<Op>, i: nat)
    requires FirstTimeRun(ws, ops) && i < |ws|
    ensures Apart(ws[i])
  {
    hide FirstTimeRun, OrdinaryRun, Inv, Step, Lucky, LeftoversWorthless, NoneRevived, Run, Apart, BringsNewSecrets;
    FirstTimeStart(ws, ops);
    if i > 0 {
      RunKeepsApart(ws, ops, i - 1);
      FirstTimeStep(ws, ops, i - 1);
      RunKeepsWorthless(ws, ops, i - 1);
      OrdinaryStep(ws, ops, i - 1);
      StepKeepsApart(ws[i - 1], ops[i - 1], ws[i]);
    }
  }

  ghost predicate AlwaysApart(ws: seq<World>, i: nat) {
    forall k | 0 <= k <= i && k < |ws| :: Apart(ws[k])
  }

  ghost predicate AlwaysNew(ws: seq<World>, ops: seq<Op>, i: nat) {
    forall k | 0 <= k < i && k < |ops| && k < |ws| :: BringsNewSecrets(ws[k], ops[k])
  }

  lemma OneStepApart(ws: seq<World>, ops: seq<Op>, i: nat)
    requires 0 < i < |ws| && |ws| == |ops| + 1
    ensures AlwaysApart(ws, i) <==> AlwaysApart(ws, i - 1) && Apart(ws[i])
    ensures AlwaysNew(ws, ops, i) <==> AlwaysNew(ws, ops, i - 1) && BringsNewSecrets(ws[i - 1], ops[i - 1])
    ensures AlwaysApart(ws, i - 1) ==> Apart(ws[i - 1])
  {
  }

  lemma StepApartIff(w: World, op: Op, v: World)
    requires Inv(w) && Apart(w) && Step(w, op, v) && Lucky(w, op) && NoneRevived(w, op)
    ensures Apart(v) <==> BringsNewSecrets(w, op)
  {
    if BringsNewSecrets(w, op) {
      hide Step, Inv, Lucky, Apart, NoneRevived, BringsNewSecrets;
      StepKeepsApart(w, op, v);
    } else {
      hide CreateStep, Inv, Lucky, Apart, NoneRevived, FirstTime;
      CreationApartIff(w, op.tried, v);
    }
  }

  // Over a run: the secrets stay apart all along if and only if every creation
  // that worked brought new ones.
  lemma {:induction false} RunApartIff(ws: seq<World>, ops: seq<Op>, i: nat)
    requires OrdinaryRun(ws, ops) && i < |ws| && Apart(ws[0])
    ensures AlwaysApart(ws, i) <==> AlwaysNew(ws, ops, i)
  {
    OrdinaryStart(ws, ops);
    if i > 0 {
      OneStepApart(ws, ops, i);
      hide OrdinaryRun, Inv, Step, Lucky, LeftoversWorthless, NoneRevived, Run, Apart, BringsNewSecrets,
           AlwaysApart, AlwaysNew;
      RunApartIff(ws, ops, i - 1);
      RunKeepsWorthless(ws, ops, i - 1);
      OrdinaryStep(ws, ops, i - 1);
      if AlwaysApart(ws, i - 1) {
        StepApartIff(ws[i - 1], ops[i - 1], ws[i]);
      }
    }
  }

  // What happens otherwise: the note that would not load is imported again, by
  // a retry; the next boot reads both, and one secret is worth twice as much.
  function Again(): Note {
    KeptNote().(id := "11111111")
  }

  function Retried(a: Note, b: Note, loaded: bool): World {
    World([a] + (if loaded then [b] else []), if loaded then [] else [b.id], true, [a.id, b.id],
          map[b.id := b, a.id := a], {})
  }

  lemma FreshBeside(a: Note)
    requires a.parentCount <= MAX_PARENTS && a.state != Spent
    ensures FreshNotes([], [a])
  {
    assert [a][0] == a && Ids([]) == [];
  }

  lemma SecondImport(a: Note, b: Note)
    requires a.id != b.id && a.parentCount <= MAX_PARENTS && a.state != Spent
    ensures Step(OnlyUnread(b), Create([a], true), Retried(a, b, false))
    ensures Lucky(OnlyUnread(b), Create([a], true))
  {
    var w := OnlyUnread(b);
    SaveOne(w.blobs, a);
    FreshBeside(a);
    assert Ids([a]) + [b.id] == [a.id, b.id] && [a][0] == a && Ids([]) == [];
    hide SaveAll, FreshNotes, Ids, Written;
    assert [] + [a] == [a] && [a] + [] == [a];
    assert Written([a], [b.id]) == [a.id, b.id] by {
      WrittenCovers([a], [b.id]);
    }
    CreateDone(w, [a], Retried(a, b, false));
  }

  lemma TwoRead(a: Id, b: Id, blobs: map<Id, Note>)
    requires a in blobs && b in blobs
    ensures Reload([a, b], blobs, [true, true]) == [Loaded(blobs[a]), Loaded(blobs[b])]
    ensures Missed([a, b], blobs, [true, true]) == []
  {
    NoLoads(blobs);
    hide Reload, Missed, Loaded;
    NextLoad([a, b], 0, blobs, [], true);
    NextLoad([a, b], 1, blobs, [true], true);
    assert [a, b][..0] == [] && [a, b][..2] == [a, b] && [] + [true] == [true] && [true] + [true] == [true, true];
    assert [] + [Loaded(blobs[a])] == [Loaded(blobs[a])];
  }

  lemma ReadsBoth(a: Note, b: Note)
    requires a.id != b.id && Loaded(a) == a && Loaded(b) == b
    ensures Step(Retried(a, b, false), Boot(true, [true, true]), Retried(a, b, true))
  {
    TwoRead(a.id, b.id, Retried(a, b, false).blobs);
    hide Reload, Missed;
  }

  lemma CountedTwice(a: Note, b: Note)
    requires a.id != b.id
    ensures Value(OnlyUnread(b).notes) == 0 && Held(OnlyUnread(b)) == Worth(b)
    ensures Value(Retried(a, b, true).notes) == Held(Retried(a, b, true)) == Worth(a) + Worth(b)
  {
    ValueOfOne(a);
    ValueOfOne(b);
    ValueConcat([a], [b]);
    StoredOne(b.id, OnlyUnread(b).blobs);
    assert Value([]) == 0 && Stored([], Retried(a, b, true).blobs) == 0;
    hide Value, Stored;
  }

  lemma RetriedImportCountsTwice() returns (ws: seq<World>, ops: seq<Op>)
    ensures Run(ws, ops) && |ops| == 4 && ws[0] == FIRST
    ensures ws[2] == OnlyUnread(KeptNote()) && ops[2] == Create([Again()], true)
    ensures ws[4] == Retried(Again(), KeptNote(), true) && Again().secret == KeptNote().secret
    ensures Held(ws[2]) == 21000 && Value(ws[4].notes) == 42000
  {
    var a, b := Again(), KeptNote();
    var ws0, ops0 := KeptThenUnread();
    SecondImport(a, b);
    ReadsBoth(a, b);
    CountedTwice(a, b);
    assert Worth(a) == 21000 && Worth(b) == 21000 && a.secret == b.secret;
    hide Run, Step, Lucky, Value, Held, Retried, OnlyUnread, Again, KeptNote;
    OneMoreStep(ws0, ops0, Create([a], true), Retried(a, b, false));
    var ws1, ops1 := ws0 + [Retried(a, b, false)], ops0 + [Create([a], true)];
    LuckyBoot(Retried(a, b, false), true, [true, true]);
    OneMoreStep(ws1, ops1, Boot(true, [true, true]), Retried(a, b, true));
    ws, ops := ws1 + [Retried(a, b, true)], ops1 + [Boot(true, [true, true])];
  }

  lemma LuckyBoot(w: World, indexRead: bool, loads: seq<bool>)
    ensures Lucky(w, Boot(indexRead, loads))
  {
  }

  // ---- An id drawn again after a removal that failed ----

  // A refused creation leaves money that nobody owns if and only if it leaves
  // an import's blob, saved and not deleted, under an id that the index on
  // flash still names.
  lemma RefusedLeavesMoneyIff(w: World, tried: seq<Note>, calls: Calls)
    requires Inv(w) && w.known && LeftoversWorthless(w) && FreshNotes(w.notes, tried) && CallsFor(tried, calls)
    requires Lucky(w, Create(tried, false))
    ensures !LeftoversWorthless(Undone(w, tried, calls)) <==>
            !calls.reindexed && exists i ::
              0 <= i < calls.saved && tried[i].id in w.index && tried[i].id !in calls.deleted && Worth(tried[i]) > 0
  {
    var v := Undone(w, tried, calls);
    assert Known(v) == Known(w);
    WrittenCovers(w.notes, w.unloaded);
    if i :| 0 <= i < calls.saved && tried[i].id in w.index && tried[i].id !in calls.deleted && Worth(tried[i]) > 0
            && !calls.reindexed {
      var saved := tried[..calls.saved];
      SaveAllHolds(w.blobs, saved, i);
      assert saved[i] == tried[i];
      assert Leftover(v, tried[i].id);
    } else if !calls.reindexed {
      forall id | Leftover(v, id)
        ensures Worth(v.blobs[id]) == 0
      {
        LeftoverAfterUndo(w, tried, calls, id);
      }
    }
  }

  // What is under an id after a creation was undone: a note it saved and did
  // not delete, or what was there before.
  lemma LeftoverAfterUndo(w: World, tried: seq<Note>, calls: Calls, id: Id)
    requires FreshNotes(w.notes, tried) && CallsFor(tried, calls) && id in Undone(w, tried, calls).blobs
    ensures var blob := Undone(w, tried, calls).blobs[id];
            || (id in w.blobs && blob == w.blobs[id])
            || (id !in calls.deleted && exists i :: 0 <= i < calls.saved && tried[i].id == id && blob == tried[i])
  {
    var saved := tried[..calls.saved];
    SaveAllKeys(w.blobs, saved, id);
    if id in Ids(saved) {
      var k := InIds(saved, id);
      SaveAllHolds(w.blobs, saved, k);
      assert saved[k] == tried[k];
    }
  }

  // A pending note is discarded while flash fails; an import draws its id, is
  // saved, is not indexed and is not deleted, so it is refused; the next boot
  // brings it back, worth 21000 that no accepted operation brought in.
  function Left(n: Note, ram: bool): World {
    World(if ram then [n] else [], [], true, [n.id], map[n.id := n], {n.id})
  }

  lemma FailedDiscard(n: Note)
    requires n.state == Pending
    ensures Step(OnlyNote(n), RemoveAt(0, false), Left(n, false))
  {
    assert [n][..0] + [n][1..] == [];
  }

  lemma RefusedImport(n: Note, m: Note)
    requires m.id == n.id && m.parentCount <= MAX_PARENTS && m.state != Spent
    ensures CallsFor([m], Calls(1, {}, false)) && Left(m, false) == Undone(Left(n, false), [m], Calls(1, {}, false))
    ensures Step(Left(n, false), Create([m], false), Left(m, false))
    ensures Lucky(Left(n, false), Create([m], false))
  {
    var w := Left(n, false);
    SaveOne(w.blobs, m);
    assert [m][..1] == [m] && [m][0] == m && Ids([]) == [];
    hide SaveAll;
    CreateUndone(w, [m], Calls(1, {}, false), Left(m, false));
  }

  lemma BroughtBack(n: Note)
    requires Loaded(n) == n
    ensures Step(Left(n, false), Boot(true, [true]), Left(n, true))
  {
    var blobs := Left(n, false).blobs;
    NoLoads(blobs);
    hide Reload, Missed;
    NextLoad([n.id], 0, blobs, [], true);
    assert [n.id][..1] == [n.id] && [n.id][..0] == [] && [] + [true] == [true];
    assert [] + [n] == [n];
  }

  function DiscardedNote(): Note {
    PendingNote("0badcafe", SampleSecret(9), [], None, 0)
  }

  lemma DiscardFails(n: Note) returns (ws: seq<World>, ops: seq<Op>)
    requires n.state == Pending && n.parentCount <= MAX_PARENTS
    ensures Run(ws, ops) && ws[0] == FIRST && ops == [Create([n], true), RemoveAt(0, false)]
    ensures |ws| == 3 && ws[2] == Left(n, false)
  {
    FirstImport(n);
    FailedDiscard(n);
    OnlyFirst();
    LuckyFirst(n);
    assert Lucky(OnlyNote(n), RemoveAt(0, false));
    hide Run, Step, Lucky, OnlyNote, Left;
    OneMoreStep([FIRST], [], Create([n], true), OnlyNote(n));
    OneMoreStep([FIRST] + [OnlyNote(n)], [] + [Create([n], true)], RemoveAt(0, false), Left(n, false));
    ws, ops := [FIRST] + [OnlyNote(n)] + [Left(n, false)], [] + [Create([n], true)] + [RemoveAt(0, false)];
  }

  lemma RefusedThenBack(ws: seq<World>, ops: seq<Op>, n: Note, m: Note) returns (ws2: seq<World>, ops2: seq<Op>)
    requires Run(ws, ops) && |ops| == 2 && |ws| == 3 && ws[2] == Left(n, false)
    requires m.id == n.id && m.parentCount <= MAX_PARENTS && m.state != Spent
    ensures Run(ws2, ops2) && ops2 == ops + [Create([m], false), Boot(true, [true])]
    ensures ws2 == ws + [Left(m, false), Left(m, true)]
  {
    RefusedImport(n, m);
    BroughtBack(m);
    LuckyBoot(Left(m, false), true, [true]);
    hide Run, Step, Lucky, Left;
    OneMoreStep(ws, ops, Create([m], false), Left(m, false));
    OneMoreStep(ws + [Left(m, false)], ops + [Create([m], false)], Boot(true, [true]), Left(m, true));
    ws2, ops2 := ws + [Left(m, false)] + [Left(m, true)], ops + [Create([m], false)] + [Boot(true, [true])];
    assert ops2 == ops + [Create([m], false), Boot(true, [true])];
    assert ws2 == ws + [Left(m, false), Left(m, true)];
  }

  lemma WorthOfLeft(n: Note)
    ensures Held(Left(n, false)) == 0 && Held(Left(n, true)) == Worth(n)
  {
    ValueOfOne(n);
  }

  lemma RefusedImportComesBack() returns (ws: seq<World>, ops: seq<Op>)
    ensures Run(ws, ops) && |ws| == 5 && ws[0] == FIRST
    ensures ops[..2] == [Create([DiscardedNote()], true), RemoveAt(0, false)]
    ensures ops[2..] == [Create([KeptNote()], false), Boot(true, [true])]
    ensures Held(ws[3]) == 0 && ws[4].notes == [KeptNote()] && Held(ws[4]) == 21000
  {
    var n, m := DiscardedNote(), KeptNote();
    assert m.id == n.id && Worth(m) == 21000;
    WorthOfLeft(m);
    assert Left(m, true).notes == [m];
    hide Run, Held, Left, KeptNote, DiscardedNote;
    ws, ops := DiscardFails(n);
    ws, ops := RefusedThenBack(ws, ops, n, m);
  }

  // ---- An index that is full ----

  ghost predicate StillIndexed(w: World, v: World) {
    forall id | id in w.unloaded :: id in v.index
  }

  // A creation drops what the index has no room for and what it does not name
  // itself; with fresh ids that is nothing exactly if all ids, loaded and not,
  // fit in 128 entries.
  lemma TruncationBoundary(w: World, tried: seq<Note>, v: World)
    requires Inv(w) && CreateStep(w, tried, true, v)
    ensures StillIndexed(w, v) <==>
            forall k | 0 <= k < |w.unloaded| && MAX_NOTES <= |v.notes| + k :: w.unloaded[k] in Ids(tried)
    ensures (forall id | id in Ids(tried) :: id !in w.unloaded) ==>
              (StillIndexed(w, v) <==> |Known(w)| + |tried| <= MAX_NOTES)
  {
    hide Distinct;
    DistinctHalves(Ids(w.notes), w.unloaded);
    IdsConcat(w.notes, tried);
    forall k | 0 <= k < |w.unloaded|
      ensures w.unloaded[k] in v.index <==> |v.notes| + k < MAX_NOTES || w.unloaded[k] in Ids(tried)
    {
      IndexedAt(w, tried, v, k);
    }
    if |Known(w)| + |tried| > MAX_NOTES {
      var last := |w.unloaded| - 1;
      assert MAX_NOTES <= |v.notes| + last;
      assert w.unloaded[last] in w.unloaded;
    }
  }

  lemma IndexedAt(w: World, tried: seq<Note>, v: World, k: nat)
    requires CreateStep(w, tried, true, v) && k < |w.unloaded|
    requires Distinct(w.unloaded) && forall id | id in Ids(w.notes) :: id !in w.unloaded
    ensures w.unloaded[k] in v.index <==> |v.notes| + k < MAX_NOTES || w.unloaded[k] in Ids(tried)
  {
    var id := w.unloaded[k];
    IdsConcat(w.notes, tried);
    var all := Ids(v.notes) + w.unloaded;
    assert forall j | 0 <= j < |v.index| :: v.index[j] == all[j];
    if |v.notes| + k < MAX_NOTES {
      assert v.index[|v.notes| + k] == id;
    } else if id in Ids(tried) {
      var j := InIds(tried, id);
      assert v.index[|w.notes| + j] == id;
    } else {
      forall j | 0 <= j < |v.index|
        ensures v.index[j] != id
      {
        if j < |w.notes| {
          assert v.index[j] == Ids(w.notes)[j] && Ids(w.notes)[j] in Ids(w.notes);
        } else if j < |v.notes| {
          assert v.index[j] == Ids(tried)[j - |w.notes|];
        } else {
          assert v.index[j] == w.unloaded[j - |v.notes|];
          DistinctPositions(w.unloaded, j - |v.notes|, k);
        }
      }
    }
  }

  function SampleId(i: nat): (id: Id)
    requires i < 0x100
    ensures |id| == 8
  {
    HexEncode([0, 0, 0, i])
  }

  function SampleNote(i: nat): Note
    requires i < 0x100
  {
    ImportedNote(SampleId(i), SampleSecret(i), None, 1000, None, 0)
  }

  function SampleNotes(n: nat): (notes: seq<Note>)
    requires n < 0x100
    ensures |notes| == n
  {
    seq(n, i requires 0 <= i < n => SampleNote(i))
  }

  lemma HexDigitsDiffer(a: int, b: int)
    requires 0 <= a < 16 && 0 <= b < 16 && HexDigit(a) == HexDigit(b)
    ensures a == b
  {
  }

  lemma SampleIdsDiffer(i: nat, j: nat)
    requires i < 0x100 && j < 0x100 && SampleId(i) == SampleId(j)
    ensures i == j
  {
    LastByte(i);
    LastByte(j);
    assert SampleId(i)[6..][0] == SampleId(j)[6..][0] && SampleId(i)[6..][1] == SampleId(j)[6..][1];
    HexDigitsDiffer(i / 16, j / 16);
    HexDigitsDiffer(i % 16, j % 16);
  }

  lemma HexTail(b: u8, rest: seq<u8>)
    ensures HexEncode([b] + rest) == [HexDigit(b / 16), HexDigit(b % 16)] + HexEncode(rest)
  {
    assert ([b] + rest)[1..] == rest;
  }

  lemma LastByte(k: nat)
    requires k < 0x100
    ensures SampleId(k)[6..] == [HexDigit(k / 16), HexDigit(k % 16)]
  {
    hide HexDigit;
    var b: u8 := k;
    HexTail(b, []);
    HexTail(0, [b]);
    HexTail(0, [0, b]);
    HexTail(0, [0, 0, b]);
    assert [b] + [] == [b] && [0] + [b] == [0, b] && [0] + [0, b] == [0, 0, b] && [0] + [0, 0, b] == [0, 0, 0, b];
    assert HexEncode([]) == [];
    hide HexEncode;
    var zeros := [HexDigit(0 / 16), HexDigit(0 % 16)];
    assert SampleId(k) == zeros + (zeros + (zeros + ([HexDigit(k / 16), HexDigit(k % 16)] + [])));
  }

  // n imports, all of which work.
  lemma {:induction false} FillUp(n: nat) returns (ws: seq<World>, ops: seq<Op>)
    requires n <= MAX_NOTES
    ensures Run(ws, ops) && ws[0] == FIRST && forall op | op in ops :: op.Create? && op.ok
    ensures var w := ws[|ops|]; w.notes == SampleNotes(n) && w.unloaded == [] && w.known && w.removed == {}
    ensures ws[|ops|].index == Ids(SampleNotes(n))
  {
    if n == 0 {
      ws, ops := [FIRST], [];
    } else {
      var ws0, ops0 := FillUp(n - 1);
      var w, n1 := ws0[|ops0|], SampleNote(n - 1);
      assert SampleNotes(n) == SampleNotes(n - 1) + [n1];
      FreshSample(n - 1);
      hide Run;
      var v := w.(notes := SampleNotes(n), blobs := SaveAll(w.blobs, [n1]), index := Written(SampleNotes(n), []));
      assert Step(w, Create([n1], true), v);
      assert Ids(SampleNotes(n)) + [] == Ids(SampleNotes(n));
      ws, ops := ws0 + [v], ops0 + [Create([n1], true)];
      OneMoreStep(ws0, ops0, Create([n1], true), v);
    }
  }

  lemma FreshSample(n: nat)
    requires n < 0xFF
    ensures FreshNotes(SampleNotes(n), [SampleNote(n)])
  {
    if SampleNote(n).id in Ids(SampleNotes(n)) {
      var k := InIds(SampleNotes(n), SampleNote(n).id);
      SampleIdsDiffer(k, n);
    }
  }

  lemma OneMoreStep(ws: seq<World>, ops: seq<Op>, op: Op, v: World)
    requires Run(ws, ops) && Step(ws[|ops|], op, v) && Lucky(ws[|ops|], op)
    ensures Run(ws + [v], ops + [op]) && |ws| == |ops| + 1
  {
    hide Step, Lucky;
    var ws2, ops2 := ws + [v], ops + [op];
    forall i | 0 <= i < |ops2|
      ensures Step(ws2[i], ops2[i], ws2[i + 1]) && Lucky(ws2[i], ops2[i])
    {
      if i < |ops| {
        assert ws2[i] == ws[i] && ws2[i + 1] == ws[i + 1] && ops2[i] == ops[i];
      }
    }
  }

  // A boot that reads every blob but the last.
  lemma LoseTheLast(w: World, front: seq<Id>, lost: Id, all: seq<bool>)
    requires Inv(w) && w.known && Ids(w.notes) == w.index == front + [lost]
    requires |all| == |front| && forall i | 0 <= i < |all| :: all[i]
    ensures Ids(Reload(w.index, w.blobs, all + [false])) == front
    ensures Missed(w.index, w.blobs, all + [false]) == [lost]
  {
    forall i | 0 <= i < |front|
      ensures front[i] in w.blobs
    {
      assert w.index[i] == w.notes[i].id;
    }
    hide Reload, Missed;
    LastLoad(front, lost, w.blobs, all, false);
    BootInOrder(front, w.blobs, all, []);
    AmongAll(front, [], false);
  }

  // A vault of 128 notes boots, and one blob does not read. There are 127 in
  // RAM, so one more is welcome; and the index it writes has dropped the note
  // that did not load, though its blob is still there and nobody removed it.
  lemma TruncationDropsANote() returns (ws: seq<World>, ops: seq<Op>, v: World)
    ensures Run(ws, ops) && ws[0] == FIRST && (forall op | op in ops :: op.Boot? || (op.Create? && op.ok))
    ensures Step(ws[|ops|], Create([SampleNote(MAX_NOTES)], true), v)
    ensures var lost := SampleId(MAX_NOTES - 1);
            && ws[|ops|].unloaded == [lost] && |ws[|ops|].notes| == MAX_NOTES - 1
            && lost !in v.index && lost in v.blobs && v.blobs[lost].state == Confirmed && v.removed == {}
  {
    var ws0, ops0 := FillUp(MAX_NOTES);
    var front, lost := Ids(SampleNotes(MAX_NOTES - 1)), SampleId(MAX_NOTES - 1);
    var w, loads := LastUnread(ws0, ops0, front, lost);
    hide Run;
    OneMoreStep(ws0, ops0, Boot(true, loads), w);
    ws, ops := ws0 + [w], ops0 + [Boot(true, loads)];
    assert forall op | op in ops :: op in ops0 || op.Boot?;
    FirstBoot();
    RunKeepsInv(ws, ops, |ops|);
    v := DropTheLost(w, front, lost);
  }

  lemma LastUnread(ws: seq<World>, ops: seq<Op>, front: seq<Id>, lost: Id) returns (w: World, loads: seq<bool>)
    requires Run(ws, ops) && ws[0] == FIRST
    requires front == Ids(SampleNotes(MAX_NOTES - 1)) && lost == SampleId(MAX_NOTES - 1)
    requires var w := ws[|ops|]; w.notes == SampleNotes(MAX_NOTES) && w.unloaded == [] && w.known && w.removed == {}
    requires ws[|ops|].index == Ids(SampleNotes(MAX_NOTES))
    ensures Step(ws[|ops|], Boot(true, loads), w) && Ids(w.notes) == front && w.unloaded == [lost]
    ensures w.known && w.removed == {} && lost in w.blobs && w.blobs[lost].state == Confirmed
  {
    var was := ws[|ops|];
    FirstBoot();
    RunKeepsInv(ws, ops, |ops|);
    assert SampleNotes(MAX_NOTES) == SampleNotes(MAX_NOTES - 1) + [SampleNote(MAX_NOTES - 1)];
    assert was.notes[MAX_NOTES - 1].id == lost && Loaded(was.blobs[lost]) == SampleNote(MAX_NOTES - 1);
    var all: seq<bool> := seq(MAX_NOTES - 1, i => true);
    loads := all + [false];
    LoseTheLast(was, front, lost, all);
    hide Run, Reload, Missed, Inv, Ids;
    w := was.(notes := Reload(was.index, was.blobs, loads), unloaded := Missed(was.index, was.blobs, loads));
  }

  lemma DropTheLost(w: World, front: seq<Id>, lost: Id) returns (v: World)
    requires Inv(w) && w.known && Ids(w.notes) == front == Ids(SampleNotes(MAX_NOTES - 1))
    requires lost == SampleId(MAX_NOTES - 1) && w.unloaded == [lost] && lost in w.blobs
    ensures Step(w, Create([SampleNote(MAX_NOTES)], true), v) && v.removed == w.removed
    ensures lost !in v.index && lost in v.blobs && v.blobs[lost] == w.blobs[lost]
  {
    var n := SampleNote(MAX_NOTES);
    FreshSample(MAX_NOTES);
    assert SampleNotes(MAX_NOTES) == SampleNotes(MAX_NOTES - 1) + [SampleNote(MAX_NOTES - 1)];
    IdsConcat(SampleNotes(MAX_NOTES - 1), [SampleNote(MAX_NOTES - 1)]);
    assert [n][0].id !in Ids(SampleNotes(MAX_NOTES));
    assert Ids([SampleNote(MAX_NOTES - 1)]) == [lost] && Ids([n]) == [n.id];
    assert FreshNotes(w.notes, [n]);
    assert |w.notes| == |front| == MAX_NOTES - 1;
    hide SampleNotes, SampleNote, SampleId, Inv, Written, SaveAll, FreshNotes;
    v := w.(notes := w.notes + [n], blobs := SaveAll(w.blobs, [n]), index := Written(w.notes + [n], w.unloaded));
    CreateDone(w, [n], v);
    TruncationBoundary(w, [n], v);
    SaveAllKeys(w.blobs, [n], lost);
  }
}

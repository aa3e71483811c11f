// The note ledger: src/vault/vault.c. Notes live in a fixed array that is
// compacted in place; every change is mirrored to a flash that may fail.
module Vault {
  import opened Options
  import opened Machine

  const MAX_NOTES := 128
  const MAX_PARENTS := 16
  const ID_BUF := 9
  const HOST_BUF := 64
  const LABEL_BUF := 32
  const SIG_BUF := 132
  const SECRET_LEN := 32

  type Id = string
  type Hash = seq<u8> -> seq<u8>

  datatype NoteState = Pending | Confirmed | Spent

  datatype Note = Note(id: Id, secret: seq<u8>, host: string, amountMsat: u64, labelText: string, sig: string,
                       state: NoteState, parentIds: seq<Id>, parentCount: u8, createdAt: u32, updatedAt: u32)

  datatype VaultErr = VaultOk | NotFound | InvalidState | StorageFull | BadRequest

  const BLANK: Note := Note("", [], "", 0, "", "", Pending, [], 0, 0, 0)

  // A bounded string copy into a buffer of cap bytes.
  function CopyTrunc(src: string, cap: nat): (dst: string)
    requires cap > 0
    ensures dst <= src && |dst| == if |src| < cap then |src| else cap - 1
  {
    if |src| < cap then src else src[..cap - 1]
  }

  // ---- What the operations mean ----

  // Everything that matters about a device: RAM, flash, and (for the record
  // only) which ids have ever been the subject of a deliberate removal.
  datatype World = World(notes: seq<Note>, unloaded: seq<Id>, known: bool,
                         index: seq<Id>, blobs: map<Id, Note>, removed: set<Id>)

  function Ids(notes: seq<Note>): (ids: seq<Id>)
    ensures |ids| == |notes|
  {
    seq(|notes|, i requires 0 <= i < |notes| => notes[i].id)
  }

  // The index as persist_index writes it: cut off at 128 entries.
  function Written(notes: seq<Note>, unloaded: seq<Id>): (ids: seq<Id>)
    ensures ids <= Ids(notes) + unloaded
    ensures |ids| == if |notes| + |unloaded| <= 128 then |notes| + |unloaded| else 128
  {
    var all := Ids(notes) + unloaded;
    if |all| <= MAX_NOTES then all else all[..MAX_NOTES]
  }

  // What vault_init makes of a stored blob.
  function Loaded(n: Note): (m: Note)
    ensures m.parentCount == if n.parentCount <= 16 then n.parentCount else 16
    ensures m == n.(parentCount := m.parentCount)
  {
    if n.parentCount > MAX_PARENTS then n.(parentCount := MAX_PARENTS) else n
  }

  // What a boot finds: loads tells which reads of a blob work.
  function Reload(index: seq<Id>, blobs: map<Id, Note>, loads: seq<bool>): seq<Note>
    requires |loads| == |index|
  {
    if index == [] then []
    else
      var k := |index| - 1;
      Reload(index[..k], blobs, loads[..k])
      + (if loads[k] && index[k] in blobs then [Loaded(blobs[index[k]])] else [])
  }

  function Missed(index: seq<Id>, blobs: map<Id, Note>, loads: seq<bool>): seq<Id>
    requires |loads| == |index|
  {
    if index == [] then []
    else
      var k := |index| - 1;
      Missed(index[..k], blobs, loads[..k]) + (if loads[k] && index[k] in blobs then [] else [index[k]])
  }

  lemma NextLoad(index: seq<Id>, i: nat, blobs: map<Id, Note>, loads: seq<bool>, works: bool)
    requires i < |index| && |loads| == i
    ensures Reload(index[..i + 1], blobs, loads + [works])
         == Reload(index[..i], blobs, loads)
            + if works && index[i] in blobs then [Loaded(blobs[index[i]])] else []
    ensures Missed(index[..i + 1], blobs, loads + [works])
         == Missed(index[..i], blobs, loads) + if works && index[i] in blobs then [] else [index[i]]
  {
    assert index[..i + 1][..i] == index[..i] && (loads + [works])[..i] == loads;
  }

  lemma NoLoads(blobs: map<Id, Note>)
    ensures Reload([], blobs, []) == [] && Missed([], blobs, []) == []
  {
  }

  lemma NothingSwept()
    ensures NotSpent([]) == [] && SpentIds([]) == {}
  {
  }

  lemma SaveTwo(blobs: map<Id, Note>, n: Note, m: Note)
    ensures SaveAll(blobs, [n, m]) == blobs[n.id := n][m.id := m]
  {
    SaveOne(blobs, n);
    assert [n, m][..1] == [n];
  }

  lemma NoneSaved(blobs: map<Id, Note>)
    ensures SaveAll(blobs, []) == blobs
  {
  }

  lemma SaveOne(blobs: map<Id, Note>, n: Note)
    ensures SaveAll(blobs, [n]) == blobs[n.id := n]
  {
    assert [n][..0] == [];
  }

  function NotSpent(notes: seq<Note>): seq<Note> {
    if notes == [] then []
    else
      var n := notes[|notes| - 1];
      NotSpent(notes[..|notes| - 1]) + (if n.state == Spent then [] else [n])
  }

  lemma NotSpentNext(notes: seq<Note>, i: nat)
    requires i < |notes|
    ensures NotSpent(notes[..i + 1]) == NotSpent(notes[..i]) + if notes[i].state == Spent then [] else [notes[i]]
    ensures SpentIds(notes[..i + 1]) == SpentIds(notes[..i]) + if notes[i].state == Spent then {notes[i].id} else {}
  {
    assert notes[..i + 1] == notes[..i] + [notes[i]] && notes[..i + 1][..i] == notes[..i];
  }

  lemma {:induction false} NoneSpent(notes: seq<Note>)
    requires |NotSpent(notes)| == |notes|
    ensures NotSpent(notes) == notes
  {
    if notes != [] {
      var k := |notes| - 1;
      NotSpentIsShorter(notes[..k]);
      NotSpentNext(notes, k);
      assert notes[..k + 1] == notes && notes == notes[..k] + [notes[k]];
      hide NotSpent;
      if |NotSpent(notes[..k])| == k {
        NoneSpent(notes[..k]);
      }
    }
  }

  lemma OneMoreCounts(notes: seq<Note>, last: Note, n: Note)
    ensures multiset(notes + [last])[n] == multiset(notes)[n] + if last == n then 1 else 0
  {
  }

  lemma CountsNext(notes: seq<Note>, k: nat, n: Note)
    requires k < |notes|
    ensures multiset(notes[..k + 1])[n] == multiset(notes[..k])[n] + if notes[k] == n then 1 else 0
    ensures multiset(NotSpent(notes[..k + 1]))[n]
         == multiset(NotSpent(notes[..k]))[n] + if notes[k] == n && n.state != Spent then 1 else 0
  {
    hide NotSpent;
    NotSpentNext(notes, k);
    assert notes[..k + 1] == notes[..k] + [notes[k]];
    OneMoreCounts(notes[..k], notes[k], n);
    OneMoreCounts(NotSpent(notes[..k]), notes[k], n);
  }

  // What is left is every note that is not spent, as often as it was there,
  lemma {:induction false} NotSpentCounts(notes: seq<Note>, n: Note)
    ensures multiset(NotSpent(notes))[n] == if n.state == Spent then 0 else multiset(notes)[n]
  {
    if notes != [] {
      var k := |notes| - 1;
      hide NotSpent;
      NotSpentCounts(notes[..k], n);
      CountsNext(notes, k, n);
      assert notes[..k + 1] == notes;
    }
  }

  // and in the order in which it was there.
  ghost predicate InOrder(some: seq<Note>, notes: seq<Note>, places: seq<nat>) {
    && |places| == |some|
    && (forall i | 0 <= i < |places| :: places[i] < |notes| && notes[places[i]] == some[i])
    && forall i, j | 0 <= i < j < |places| :: places[i] < places[j]
  }

  lemma {:induction false} NotSpentInOrder(notes: seq<Note>) returns (places: seq<nat>)
    ensures InOrder(NotSpent(notes), notes, places)
  {
    places := [];
    if notes != [] {
      var k := |notes| - 1;
      places := NotSpentInOrder(notes[..k]);
      StillInOrder(NotSpent(notes[..k]), notes[..k], places, notes[k]);
      assert notes == notes[..k] + [notes[k]];
      if notes[k].state != Spent {
        places := places + [k];
      }
    }
  }

  lemma StillInOrder(kept: seq<Note>, notes: seq<Note>, places: seq<nat>, n: Note)
    requires InOrder(kept, notes, places)
    ensures InOrder(kept, notes + [n], places) && InOrder(kept + [n], notes + [n], places + [|notes|])
  {
  }

  lemma {:induction false} NotSpentIsShorter(notes: seq<Note>)
    ensures |NotSpent(notes)| <= |notes|
  {
    if notes != [] {
      NotSpentIsShorter(notes[..|notes| - 1]);
    }
  }

  function SpentIds(notes: seq<Note>): set<Id> {
    set n | n in notes && n.state == Spent :: n.id
  }

  function StateRank(s: NoteState): nat {
    match s
    case Pending => 0
    case Confirmed => 1
    case Spent => 2
  }

  // The only ways a note may change: its identity and secret never, its state
  // only forward, its amount only when it is confirmed.
  predicate Advances(n: Note, m: Note) {
    && m.id == n.id && m.secret == n.secret && StateRank(n.state) <= StateRank(m.state)
    && (n.state != Pending || m.state == Pending ==> m.amountMsat == n.amountMsat)
  }

  function SaveAll(blobs: map<Id, Note>, notes: seq<Note>): map<Id, Note> {
    if notes == [] then blobs
    else SaveAll(blobs, notes[..|notes| - 1])[notes[|notes| - 1].id := notes[|notes| - 1]]
  }

  ghost predicate SameBlobsOutside(before: map<Id, Note>, after: map<Id, Note>, ids: set<Id>) {
    forall id: Id | id !in ids ::
      (id in before <==> id in after) && (id in before ==> after[id] == before[id])
  }

  // Nothing is in flash afterwards but what was there and the notes written.
  ghost predicate BlobsFrom(before: map<Id, Note>, after: map<Id, Note>, written: seq<Note>) {
    forall id: Id | id in after ::
      (id in before && after[id] == before[id]) || (after[id] in written && after[id].id == id)
  }

  function IdsOf(notes: seq<Note>): set<Id> {
    set n | n in notes :: n.id
  }

  // What flash answered while a creation failed: how many notes were saved
  // before a call went wrong, which ids the clean-up deleted, and whether it
  // rewrote the index.
  datatype Calls = Calls(saved: nat, deleted: set<Id>, reindexed: bool)

  predicate CallsFor(tried: seq<Note>, calls: Calls) {
    calls.saved <= |tried| && calls.deleted <= IdsOf(tried)
  }

  // A creation that failed, call by call.
  function Undone(w: World, tried: seq<Note>, calls: Calls): World
    requires CallsFor(tried, calls)
  {
    w.(blobs := SaveAll(w.blobs, tried[..calls.saved]) - calls.deleted,
       index := if calls.reindexed then Written(w.notes, w.unloaded) else w.index)
  }

  function TruncOr(text: Option<string>, cap: nat): string
    requires cap > 0
  {
    if text.Some? then CopyTrunc(text.value, cap) else ""
  }

  // A note as created, but for its random id and secret.
  function PendingNote(id: Id, secret: seq<u8>, parents: seq<Id>, title: Option<string>, now: u32): Note
    requires |parents| <= MAX_PARENTS
  {
    Note(id, secret, "", 0, TruncOr(title, LABEL_BUF), "", Pending,
         seq(|parents|, i requires 0 <= i < |parents| => CopyTrunc(parents[i], ID_BUF)), |parents|, now, now)
  }

  // And as imported.
  function ImportedNote(id: Id, secret: seq<u8>, host: Option<string>, amount: u64, title: Option<string>,
                        now: u32): Note
  {
    Note(id, secret, TruncOr(host, HOST_BUF), amount, TruncOr(title, LABEL_BUF), "", Confirmed, [], 0, now, now)
  }

  // The notes that the three updating operations leave behind.
  function ConfirmedNote(n: Note, amount: u64, host: Option<string>, sig: Option<string>, now: u32): Note {
    n.(state := Confirmed, amountMsat := amount,
       host := if host.Some? then CopyTrunc(host.value, HOST_BUF) else n.host,
       sig := if sig.Some? then CopyTrunc(sig.value, SIG_BUF) else "",
       updatedAt := now)
  }

  function SpentNote(n: Note, now: u32): Note {
    n.(state := Spent, updatedAt := now)
  }

  function RenamedNote(n: Note, title: string, now: u32): Note {
    n.(labelText := CopyTrunc(title, LABEL_BUF), updatedAt := now)
  }

  // The first note with this id is at position k.
  ghost predicate IsAt(notes: seq<Note>, id: Id, k: int) {
    0 <= k < |notes| && notes[k].id == id && forall i | 0 <= i < k :: notes[i].id != id
  }

  datatype Op =
    | Refuse
    | Create(tried: seq<Note>, ok: bool)
    | Update(at: nat, after: Note, ok: bool)
    | RemoveAt(at: nat, ok: bool)
    | Prune(ok: bool)
    | Boot(indexRead: bool, loads: seq<bool>)
    | Wipe

  ghost predicate FreshNotes(notes: seq<Note>, tried: seq<Note>) {
    && (forall i | 0 <= i < |tried| ::
          tried[i].id !in Ids(notes) && tried[i].parentCount <= MAX_PARENTS && tried[i].state != Spent)
    && (forall i, j | 0 <= i < j < |tried| :: tried[i].id != tried[j].id)
  }

  lemma BothFresh(notes: seq<Note>, n: Note, m: Note)
    requires FreshNotes(notes, [n]) && FreshNotes(notes, [m]) && m.id != n.id
    ensures FreshNotes(notes, [n, m])
  {
    assert [n][0] == n && [m][0] == m;
  }

  lemma FoundInIds(notes: seq<Note>, id: Id, k: int)
    requires IsAt(notes, id, k)
    ensures id in Ids(notes)
  {
    assert Ids(notes)[k] == id;
  }

  ghost predicate CreateStep(w: World, tried: seq<Note>, ok: bool, v: World) {
    && w.known && |w.notes| + |tried| <= MAX_NOTES && FreshNotes(w.notes, tried)
    && if ok then
         v == w.(notes := w.notes + tried, blobs := SaveAll(w.blobs, tried),
                 index := Written(w.notes + tried, w.unloaded))
       else exists calls: Calls :: CallsFor(tried, calls) && v == Undone(w, tried, calls)
  }

  ghost predicate UpdateStep(w: World, at: nat, after: Note, ok: bool, v: World) {
    && at < |w.notes| && Advances(w.notes[at], after) && after.parentCount == w.notes[at].parentCount
    && v == if ok then w.(notes := w.notes[at := after], blobs := w.blobs[after.id := after]) else w
  }

  // A removal: gone from RAM for good; on flash as far as the writes worked.
  ghost predicate RemovalStep(w: World, kept: seq<Note>, gone: set<Id>, ok: bool, v: World) {
    && w.known && v == w.(notes := kept, index := v.index, blobs := v.blobs, removed := w.removed + gone)
    && SameBlobsOutside(w.blobs, v.blobs, gone) && BlobsFrom(w.blobs, v.blobs, [])
    && (ok ==> forall id | id in gone :: id !in v.blobs)
    && (v.index == Written(kept, w.unloaded) || (!ok && v.index == w.index))
  }

  ghost predicate BootStep(w: World, indexRead: bool, loads: seq<bool>, v: World) {
    if indexRead then
      && |loads| == |w.index|
      && v == w.(notes := Reload(w.index, w.blobs, loads), unloaded := Missed(w.index, w.blobs, loads), known := true)
    else v == w.(notes := [], unloaded := [], known := false)
  }

  // One operation, whatever storage does while it runs.
  ghost predicate Step(w: World, op: Op, v: World) {
    match op
    case Refuse => v == w
    case Create(tried, ok) => CreateStep(w, tried, ok, v)
    case Update(at, after, ok) => UpdateStep(w, at, after, ok, v)
    case RemoveAt(at, ok) =>
      && at < |w.notes| && w.notes[at].state != Confirmed
      && RemovalStep(w, w.notes[..at] + w.notes[at + 1..], {w.notes[at].id}, ok, v)
    case Prune(ok) =>
      RemovalStep(w, NotSpent(w.notes), SpentIds(w.notes), ok, v)
    case Boot(indexRead, loads) => BootStep(w, indexRead, loads, v)
    case Wipe => v == w.(notes := [], unloaded := [], index := [], blobs := map[])
  }

  // What the methods below establish, put together.
  lemma RemovalDone(w: World, at: nat, ok: bool, v: World)
    requires at < |w.notes| && w.notes[at].state != Confirmed && w.known
    requires v == w.(notes := w.notes[..at] + w.notes[at + 1..], index := v.index, blobs := v.blobs,
                     removed := w.removed + {w.notes[at].id})
    requires v.blobs == w.blobs - {w.notes[at].id} || (!ok && v.blobs == w.blobs)
    requires v.index == Written(v.notes, w.unloaded) || (!ok && v.index == w.index)
    ensures Step(w, RemoveAt(at, ok), v)
  {
    hide Written;
  }

  lemma NothingHappened(w: World)
    ensures Step(w, Refuse, w)
  {
  }

  lemma PruneDone(w: World, ok: bool, v: World)
    requires w.known && v == w.(notes := NotSpent(w.notes), index := v.index, blobs := v.blobs,
                                removed := w.removed + SpentIds(w.notes))
    requires SameBlobsOutside(w.blobs, v.blobs, SpentIds(w.notes)) && BlobsFrom(w.blobs, v.blobs, [])
    requires ok ==> forall id | id in SpentIds(w.notes) :: id !in v.blobs
    requires v.index == Written(v.notes, w.unloaded) || (!ok && v.index == w.index)
    ensures Step(w, Prune(ok), v)
  {
    hide Written, NotSpent, SpentIds, SameBlobsOutside, BlobsFrom;
  }

  lemma CreateDone(w: World, tried: seq<Note>, v: World)
    requires w.known && |w.notes| + |tried| <= MAX_NOTES && FreshNotes(w.notes, tried)
    requires v == w.(notes := w.notes + tried, blobs := SaveAll(w.blobs, tried),
                     index := Written(w.notes + tried, w.unloaded))
    ensures Step(w, Create(tried, true), v)
  {
    hide Written, FreshNotes, SaveAll;
  }

  lemma CreateUndone(w: World, tried: seq<Note>, calls: Calls, v: World)
    requires w.known && |w.notes| + |tried| <= MAX_NOTES && FreshNotes(w.notes, tried)
    requires CallsFor(tried, calls) && v == Undone(w, tried, calls)
    ensures Step(w, Create(tried, false), v)
  {
    hide CallsFor, Undone, FreshNotes;
  }

  // ---- Value ----

  function Worth(n: Note): nat {
    if n.state == Confirmed then n.amountMsat else 0
  }

  function Value(notes: seq<Note>): nat {
    if notes == [] then 0 else Value(notes[..|notes| - 1]) + Worth(notes[|notes| - 1])
  }

  lemma {:induction false} ValueConcat(a: seq<Note>, b: seq<Note>)
    ensures Value(a + b) == Value(a) + Value(b)
  {
    if b == [] {
      assert a + b == a;
    } else {
      assert (a + b)[..|a + b| - 1] == a + b[..|b| - 1];
      ValueConcat(a, b[..|b| - 1]);
    }
  }

  lemma ValueOfOne(n: Note)
    ensures Value([n]) == Worth(n)
  {
    assert [n][..0] == [];
  }

  lemma ValueAt(notes: seq<Note>, at: nat)
    requires at < |notes|
    ensures Value(notes) == Value(notes[..at]) + Worth(notes[at]) + Value(notes[at + 1..])
  {
    hide Value, Worth;
    assert notes == (notes[..at] + [notes[at]]) + notes[at + 1..];
    ValueConcat(notes[..at] + [notes[at]], notes[at + 1..]);
    ValueConcat(notes[..at], [notes[at]]);
    ValueOfOne(notes[at]);
  }

  lemma {:induction false} ValueOfNotSpent(notes: seq<Note>)
    ensures Value(NotSpent(notes)) == Value(notes)
  {
    if notes != [] {
      var k := |notes| - 1;
      ValueOfNotSpent(notes[..k]);
      ValueConcat(NotSpent(notes[..k]), [notes[k]]);
      assert NotSpent(notes[..k]) + [] == NotSpent(notes[..k]);
      assert [notes[k]][..0] == [];
    }
  }

  lemma ValueReplaced(notes: seq<Note>, at: nat, after: Note)
    requires at < |notes|
    ensures Value(notes[at := after]) == Value(notes) - Worth(notes[at]) + Worth(after)
  {
    hide Value;
    ValueAt(notes, at);
    ValueAt(notes[at := after], at);
    assert notes[at := after][..at] == notes[..at] && notes[at := after][at + 1..] == notes[at + 1..];
  }

  lemma ValueRemoved(notes: seq<Note>, at: nat)
    requires at < |notes|
    ensures Value(notes[..at] + notes[at + 1..]) == Value(notes) - Worth(notes[at])
  {
    hide Value;
    ValueAt(notes, at);
    ValueConcat(notes[..at], notes[at + 1..]);
  }

  lemma ValueAppended(notes: seq<Note>, n: Note)
    ensures Value(notes + [n]) == Value(notes) + Worth(n)
  {
    ValueConcat(notes, [n]);
    ValueOfOne(n);
  }

  // ---- Flash ----

  // A store of one index and a blob per id. Any call may fail; a failed call
  // changes nothing. The log says of every call whether it worked.
  class Flash {
    var index: seq<Id>
    var blobs: map<Id, Note>
    ghost var log: seq<bool>

    constructor ()
      ensures index == [] && blobs == map[] && log == []
    {
      index, blobs, log := [], map[], [];
    }

    method LoadIndex() returns (ids: Option<seq<Id>>)
      modifies this`log
      ensures log == old(log) + [ids.Some?] && (ids.Some? ==> ids.value == index)
    {
      var works: bool := *;
      log := log + [works];
      ids := if works then Some(index) else None;
    }

    method SaveIndex(ids: seq<Id>) returns (ok: bool)
      modifies this`index, this`log
      ensures log == old(log) + [ok] && index == if ok then ids else old(index)
    {
      ok := *;
      log := log + [ok];
      if ok {
        index := ids;
      }
    }

    method LoadNote(id: Id) returns (n: Option<Note>)
      modifies this`log
      ensures |log| == |old(log)| + 1 && log[..|old(log)|] == old(log)
      ensures n == if log[|old(log)|] && id in blobs then Some(blobs[id]) else None
    {
      var works: bool := *;
      log := log + [works];
      n := if works && id in blobs then Some(blobs[id]) else None;
    }

    method SaveNote(n: Note) returns (ok: bool)
      modifies this`blobs, this`log
      ensures log == old(log) + [ok] && blobs == if ok then old(blobs)[n.id := n] else old(blobs)
    {
      ok := *;
      log := log + [ok];
      if ok {
        blobs := blobs[n.id := n];
      }
    }

    method DeleteNote(id: Id) returns (ok: bool)
      modifies this`blobs, this`log
      ensures log == old(log) + [ok] && blobs == if ok then old(blobs) - {id} else old(blobs)
    {
      ok := *;
      log := log + [ok];
      if ok {
        blobs := blobs - {id};
      }
    }

    // An erase that does not verify may have lost the blobs all the same.
    method Erase() returns (verified: bool)
      modifies this
      ensures log == old(log) + [verified]
      ensures verified ==> index == [] && blobs == map[]
      ensures !verified ==> index == old(index) && (blobs == old(blobs) || blobs == map[])
    {
      var blobsGone: bool := *;
      verified := *;
      log := log + [verified];
      if verified {
        index, blobs := [], map[];
      } else if blobsGone {
        blobs := map[];
      }
    }
  }

  // Some call since then failed.
  ghost predicate Failed(before: seq<bool>, after: seq<bool>) {
    before <= after && exists i :: |before| <= i < |after| && !after[i]
  }

  // Every call since then worked, and there were this many.
  ghost predicate Worked(before: seq<bool>, after: seq<bool>, calls: nat) {
    before <= after && |after| == |before| + calls && forall i | |before| <= i < |after| :: after[i]
  }

  lemma OneMoreCall(before: seq<bool>, after: seq<bool>, ok: bool)
    requires before <= after
    ensures !ok || Failed(before, after) ==> Failed(before, after + [ok])
    ensures forall calls: nat | Worked(before, after, calls) :: ok ==> Worked(before, after + [ok], calls + 1)
  {
    var more := after + [ok];
    if !ok {
      assert !more[|after|];
    } else if Failed(before, after) {
      var i :| |before| <= i < |after| && !after[i];
      assert !more[i];
    }
  }

  lemma StaysFailed(before: seq<bool>, mid: seq<bool>, after: seq<bool>)
    requires Failed(before, mid) && mid <= after
    ensures Failed(before, after)
  {
    var i :| |before| <= i < |mid| && !mid[i];
    assert !after[i];
  }

  lemma PruneLogged(before: seq<bool>, mid: seq<bool>, gone: nat, blobsOk: bool, indexed: bool)
    requires if blobsOk then Worked(before, mid, gone) else Failed(before, mid)
    ensures if blobsOk && indexed then !Failed(before, mid + [indexed]) else Failed(before, mid + [indexed])
  {
    OneMoreCall(before, mid, indexed);
    if blobsOk && indexed {
      NotBoth(before, mid + [indexed], gone + 1);
    }
  }

  lemma NotBoth(before: seq<bool>, after: seq<bool>, calls: nat)
    requires Worked(before, after, calls)
    ensures !Failed(before, after)
  {
  }

  // The random source, with what it gave.
  class Rng {
    ghost var drawn: seq<Option<seq<u8>>>

    constructor ()
      ensures drawn == []
    {
      drawn := [];
    }

    method Draw(length: nat) returns (raw: Option<seq<u8>>)
      modifies this
      ensures drawn == old(drawn) + [raw] && (raw.Some? ==> |raw.value| == length)
    {
      var works: bool := *;
      raw := None;
      if works {
        var bytes := [];
        for i := 0 to length
          invariant |bytes| == i
        {
          var b: u8 := *;
          bytes := bytes + [b];
        }
        raw := Some(bytes);
      }
      drawn := drawn + [raw];
    }
  }

  // The last two draws are the id and the secret of this note.
  ghost predicate Drawn(before: seq<Option<seq<u8>>>, after: seq<Option<seq<u8>>>, n: Note) {
    && before <= after && |after| >= |before| + 2 && |n.secret| == 32 && after[|after| - 1] == Some(n.secret)
    && after[|after| - 2].Some? && Spells(n.id, after[|after| - 2].value)
  }

  lemma DrawnMore(before: seq<Option<seq<u8>>>, after: seq<Option<seq<u8>>>, n: Note)
    requires Drawn(before, after, n)
    ensures before <= after
  {
  }

  // Gone are the spent notes and no others; the rest is in order.
  ghost predicate SpentSwept(before: seq<Note>, after: seq<Note>) {
    && (forall n :: multiset(after)[n] == if n.state == Spent then 0 else multiset(before)[n])
    && exists places :: InOrder(after, before, places)
  }

  lemma SweptNotes(notes: seq<Note>)
    ensures SpentSwept(notes, NotSpent(notes))
  {
    var places := NotSpentInOrder(notes);
    forall n
      ensures multiset(NotSpent(notes))[n] == if n.state == Spent then 0 else multiset(notes)[n]
    {
      NotSpentCounts(notes, n);
    }
  }

  // The source failed, or each of eight draws spelled an id that is taken.
  ghost predicate NoLuck(before: seq<Option<seq<u8>>>, after: seq<Option<seq<u8>>>, taken: seq<Id>,
                         reserved: Option<Id>) {
    && before < after
    && (after[|after| - 1].None?
        || (|after| == |before| + 8
            && forall i | |before| <= i < |after| ::
                 after[i].Some? && (HexEncode(after[i].value) in taken || reserved == Some(HexEncode(after[i].value)))))
  }

  function HexDigit(d: int): char
    requires 0 <= d < 16
  {
    "0123456789abcdef"[d]
  }

  function HexEncode(raw: seq<u8>): (s: string)
    ensures |s| == 2 * |raw|
  {
    if raw == [] then []
    else [HexDigit(raw[0] / 16), HexDigit(raw[0] % 16)] + HexEncode(raw[1..])
  }

  // What a hexadecimal digit stands for.
  function HexValue(c: char): int {
    if '0' <= c <= '9' then c as int - '0' as int
    else if 'a' <= c <= 'f' then c as int - 'a' as int + 10
    else -1
  }

  lemma {:induction false} HexSpells(raw: seq<u8>, i: nat)
    requires i < |raw|
    ensures var s := HexEncode(raw);
            && 0 <= HexValue(s[2 * i]) < 16 && 0 <= HexValue(s[2 * i + 1]) < 16
            && 16 * HexValue(s[2 * i]) + HexValue(s[2 * i + 1]) == raw[i]
  {
    if i == 0 {
      assert HexEncode(raw)[..2] == [HexDigit(raw[0] / 16), HexDigit(raw[0] % 16)];
      HexDigitReads(raw[0] / 16);
      HexDigitReads(raw[0] % 16);
    } else {
      HexSpells(raw[1..], i - 1);
      assert HexEncode(raw)[2..] == HexEncode(raw[1..]);
      assert HexEncode(raw)[2 * i] == HexEncode(raw)[2..][2 * (i - 1)];
      assert HexEncode(raw)[2 * i + 1] == HexEncode(raw)[2..][2 * (i - 1) + 1];
    }
  }

  lemma HexDigitReads(d: int)
    requires 0 <= d < 16
    ensures HexValue(HexDigit(d)) == d
  {
  }

  // An id is the eight hexadecimal digits of four bytes.
  ghost predicate Spells(id: Id, raw: seq<u8>) {
    && |raw| == 4 && |id| == 8
    && forall i | 0 <= i < 4 ::
         && 0 <= HexValue(id[2 * i]) < 16 && 0 <= HexValue(id[2 * i + 1]) < 16
         && 16 * HexValue(id[2 * i]) + HexValue(id[2 * i + 1]) == raw[i]
  }

  // ---- The ledger ----

  class Ledger {
    const notes: array<Note>
    var count: nat
    var unloaded: seq<Id>
    var known: bool
    const flash: Flash
    const sha256: Hash
    ghost var removed: set<Id>

    constructor (flash: Flash, sha256: Hash)
      requires |flash.index| <= MAX_NOTES
      ensures Valid() && fresh(notes) && this.flash == flash && this.sha256 == sha256
      ensures Now() == World([], [], true, flash.index, flash.blobs, {})
    {
      this.flash, this.sha256 := flash, sha256;
      notes := new Note[MAX_NOTES](_ => BLANK);
      count, unloaded, known, removed := 0, [], true, {};
    }

    ghost predicate Valid()
      reads this, notes, flash
    {
      && notes.Length == MAX_NOTES && count <= MAX_NOTES && |flash.index| <= MAX_NOTES
      && (!known ==> count == 0 && unloaded == [])
    }

    ghost function Now(): World
      requires Valid()
      reads this, notes, flash
    {
      World(notes[..count], unloaded, known, flash.index, flash.blobs, removed)
    }

    // What the notes in RAM are worth.
    ghost function Total(): int
      requires Valid()
      reads this, notes, flash
    {
      Value(notes[..count])
    }

    // The first note with this id, or -1.
    method FindIndex(id: Id) returns (found: int)
      requires Valid()
      ensures -1 <= found < count
      ensures found >= 0 ==> IsAt(notes[..count], id, found)
      ensures found < 0 ==> id !in Ids(notes[..count])
    {
      var i := 0;
      while i < count
        invariant 0 <= i <= count
        invariant forall k | 0 <= k < i :: notes[k].id != id
      {
        if notes[i].id == id {
          return i;
        }
        i := i + 1;
      }
      found := -1;
    }

    // Collects the ids in RAM, then the ones carried through, up to capacity.
    method PersistIndex() returns (ok: bool)
      requires Valid()
      modifies flash`index, flash`log
      ensures Valid() && flash.log == old(flash.log) + if known then [ok] else []
      ensures !known ==> ok && flash.index == old(flash.index)
      ensures known ==> flash.index == if ok then Written(notes[..count], unloaded) else old(flash.index)
    {
      if !known {
        return true;
      }
      var ids: seq<Id> := [];
      var i := 0;
      while i < count && |ids| < MAX_NOTES
        invariant 0 <= i <= count && |ids| == i
        invariant ids == Ids(notes[..count])[..i]
      {
        ids := ids + [notes[i].id];
        i := i + 1;
      }
      assert ids == Ids(notes[..count]);
      i := 0;
      while i < |unloaded| && |ids| < MAX_NOTES
        invariant 0 <= i <= |unloaded| && |ids| <= MAX_NOTES
        invariant ids == Ids(notes[..count]) + unloaded[..i]
      {
        ids := ids + [unloaded[i]];
        i := i + 1;
      }
      assert i == |unloaded| ==> unloaded[..i] == unloaded;
      ok := flash.SaveIndex(ids);
    }

    // Compaction: everything above idx moves down by one.
    method CloseGap(idx: nat)
      requires Valid() && idx < count
      modifies this`count, notes
      ensures Valid() && count == old(count) - 1
      ensures notes[..count] == old(notes[..count][..idx] + notes[..count][idx + 1..])
    {
      ghost var was := notes[..count];
      var i := idx;
      while i + 1 < count
        modifies notes
        invariant idx <= i < count
        invariant forall j | 0 <= j < i :: notes[j] == was[if j < idx then j else j + 1]
        invariant forall j | i < j < count :: notes[j] == was[j]
      {
        notes[i] := notes[i + 1];
        i := i + 1;
      }
      count := count - 1;
      assert notes[..count] == was[..idx] + was[idx + 1..];
    }

    // Drops a note, its blob, and rewrites the index whatever became of the
    // blob.
    method RemoveAtIndex(idx: nat) returns (ok: bool)
      requires Valid() && idx < count && known && notes[idx].state != Confirmed
      modifies this`count, this`removed, notes, flash
      ensures Valid() && Step(old(Now()), RemoveAt(idx, ok), Now())
      ensures if ok then Worked(old(flash.log), flash.log, 2) else Failed(old(flash.log), flash.log)
      ensures notes[..count] == old(notes[..count][..idx] + notes[..count][idx + 1..])
    {
      hide Written, Ids, Step;
      var id := notes[idx].id;
      ghost var was := notes[..count];
      CloseGap(idx);
      removed := removed + {id};
      var deleted := flash.DeleteNote(id);
      var indexed := PersistIndex();
      ok := indexed && deleted;
      OneMoreCall(old(flash.log), old(flash.log), deleted);
      OneMoreCall(old(flash.log), old(flash.log) + [deleted], indexed);
      hide Failed, Worked;
      assert was[idx].id == id;
      RemovalDone(old(Now()), idx, ok, Now());
    }

    // vault_init: one boot. RAM is rebuilt from flash; ids whose blob does not
    // load are set aside.
    method Init() returns (ghost op: Op)
      requires Valid()
      modifies this`count, this`unloaded, this`known, notes, flash`log
      ensures Valid() && op.Boot? && Step(old(Now()), op, Now())
      ensures flash.log == old(flash.log) + [op.indexRead] + op.loads
      ensures forall i | 0 <= i < count :: notes[i].parentCount <= 16
    {
      count, unloaded, known := 0, [], true;
      var ids := flash.LoadIndex();
      if ids.None? {
        known := false;
        op := Boot(false, []);
        return;
      }
      ghost var loads := LoadNotes(ids.value);
      op := Boot(true, loads);
    }

    // Reads every blob the index names.
    method LoadNotes(ids: seq<Id>) returns (ghost loads: seq<bool>)
      requires Valid() && known && count == 0 && unloaded == [] && |ids| <= MAX_NOTES
      modifies this`count, this`unloaded, notes, flash`log
      ensures Valid() && |loads| == |ids| && flash.log == old(flash.log) + loads
      ensures forall i | 0 <= i < count :: notes[i].parentCount <= 16
      ensures notes[..count] == Reload(ids, flash.blobs, loads) && unloaded == Missed(ids, flash.blobs, loads)
    {
      hide Reload, Missed, Loaded;
      NoLoads(flash.blobs);
      loads := [];
      var i := 0;
      while i < |ids| && count < MAX_NOTES
        invariant 0 <= i <= |ids| && |loads| == i && count + |unloaded| == i
        invariant flash.log == old(flash.log) + loads
        invariant forall k | 0 <= k < count :: notes[k].parentCount <= 16
        invariant notes[..count] == Reload(ids[..i], flash.blobs, loads)
        invariant unloaded == Missed(ids[..i], flash.blobs, loads)
      {
        var n := flash.LoadNote(ids[i]);
        ghost var was := notes[..count];
        ghost var works := flash.log[|flash.log| - 1];
        NextLoad(ids, i, flash.blobs, loads, works);
        loads := loads + [works];
        if n.Some? {
          notes[count] := Loaded(n.value);
          count := count + 1;
          assert notes[..count] == was + [Loaded(n.value)];
        } else if |unloaded| < MAX_NOTES {
          unloaded := unloaded + [ids[i]];
        }
        i := i + 1;
      }
      assert ids[..i] == ids;
    }

    // Up to eight attempts at an id that no note in RAM has, nor the reserved
    // sibling.
    method GenUniqueId(rng: Rng, reserved: Option<Id>) returns (id: Option<Id>)
      requires Valid()
      modifies rng
      ensures id.Some? ==> id.value !in Ids(notes[..count]) && reserved != id
      ensures id.Some? ==> old(rng.drawn) < rng.drawn && rng.drawn[|rng.drawn| - 1].Some?
                           && Spells(id.value, rng.drawn[|rng.drawn| - 1].value)
      ensures id.None? ==> NoLuck(old(rng.drawn), rng.drawn, Ids(notes[..count]), reserved)
    {
      hide HexEncode, HexValue;
      for attempt := 0 to 8
        invariant old(rng.drawn) <= rng.drawn && |rng.drawn| == |old(rng.drawn)| + attempt
        invariant forall i | |old(rng.drawn)| <= i < |rng.drawn| ::
                    && rng.drawn[i].Some?
                    && (HexEncode(rng.drawn[i].value) in Ids(notes[..count])
                        || reserved == Some(HexEncode(rng.drawn[i].value)))
      {
        var raw := rng.Draw(4);
        if raw.None? {
          return None;
        }
        var candidate := HexEncode(raw.value);
        var found := FindIndex(candidate);
        if found < 0 && !(reserved.Some? && candidate == reserved.value) {
          forall i | 0 <= i < 4
            ensures 0 <= HexValue(candidate[2 * i]) < 16 && 0 <= HexValue(candidate[2 * i + 1]) < 16
            ensures 16 * HexValue(candidate[2 * i]) + HexValue(candidate[2 * i + 1]) == raw.value[i]
          {
            HexSpells(raw.value, i);
          }
          return Some(candidate);
        }
        if found >= 0 {
          FoundInIds(notes[..count], candidate, found);
        }
      }
      id := None;
    }

    method NewNote(rng: Rng?, parents: seq<Id>, title: Option<string>, reserved: Option<Id>, now: u32)
      returns (r: VaultErr, n: Note)
      requires Valid()
      modifies rng
      ensures r in {VaultOk, BadRequest, StorageFull}
      ensures rng == null || |parents| > 16 ==> r == BadRequest
      ensures rng != null && |parents| <= 16 && (!known || count >= 128) ==> r == StorageFull
      ensures rng != null && |parents| <= 16 && known && count < 128 && r != VaultOk ==>
                NoLuck(old(rng.drawn), rng.drawn, Ids(notes[..count]), reserved)
      ensures r == VaultOk ==> rng != null && known && count < MAX_NOTES && |parents| <= MAX_PARENTS
      ensures r == VaultOk ==> FreshNotes(notes[..count], [n]) && reserved != Some(n.id)
      ensures r == VaultOk ==> Drawn(old(rng.drawn), rng.drawn, n)
      ensures r == VaultOk ==> n == PendingNote(n.id, n.secret, parents, title, now)
    {
      n := BLANK;
      if rng == null || |parents| > MAX_PARENTS {
        return BadRequest, n;
      }
      if !known || count >= MAX_NOTES {
        return StorageFull, n;
      }
      var id := GenUniqueId(rng, reserved);
      if id.None? {
        return StorageFull, n;
      }
      var secret := rng.Draw(SECRET_LEN);
      if secret.None? {
        return BadRequest, n;
      }
      var parentIds: seq<Id> := [];
      for i := 0 to |parents|
        invariant |parentIds| == i && forall k | 0 <= k < i :: parentIds[k] == CopyTrunc(parents[k], ID_BUF)
      {
        parentIds := parentIds + [CopyTrunc(parents[i], ID_BUF)];
      }
      n := Note(id.value, secret.value, "", 0, if title.Some? then CopyTrunc(title.value, LABEL_BUF) else "", "",
                Pending, parentIds, |parents|, now, now);
      assert n == PendingNote(id.value, secret.value, parents, title, now);
      r := VaultOk;
    }

    method Append(n: Note)
      requires Valid() && known && count < MAX_NOTES
      modifies this`count, notes
      ensures Valid() && count == old(count) + 1 && notes[..count] == old(notes[..count]) + [n]
    {
      ghost var was := notes[..count];
      notes[count] := n;
      count := count + 1;
      assert notes[..count] == was + [n];
    }

    // The tail of vault_new_secret and vault_import_secret: store, or undo.
    method StoreNote(n: Note) returns (ok: bool)
      requires Valid() && known && count < MAX_NOTES && FreshNotes(notes[..count], [n])
      modifies this`count, notes, flash
      ensures Valid() && Step(old(Now()), Create([n], ok), Now())
      ensures if ok then Worked(old(flash.log), flash.log, 2) else Failed(old(flash.log), flash.log)
      ensures ok ==> notes[count - 1] == n && n.id in flash.blobs && flash.blobs[n.id] == n
      ensures notes[..count] == old(notes[..count]) + if ok then [n] else []
    {
      ghost var was := notes[..count];
      assert was + [] == was;
      hide Written, Ids, FreshNotes, SaveAll, Step;
      SaveOne(flash.blobs, n);
      assert [n][..1] == [n] && [n][..0] == [];
      NoneSaved(flash.blobs);
      Append(n);
      var saved := flash.SaveNote(n);
      OneMoreCall(old(flash.log), old(flash.log), saved);
      ok := saved;
      if saved {
        ok := PersistIndex();
        OneMoreCall(old(flash.log), old(flash.log) + [saved], ok);
      }
      hide Worked, Failed;
      if ok {
        CreateDone(old(Now()), [n], Now());
      } else {
        ghost var log := flash.log;
        ghost var deleted, reindexed := UndoNote(n, was);
        StaysFailed(old(flash.log), log, flash.log);
        CreateUndone(old(Now()), [n], Calls(if saved then 1 else 0, deleted, reindexed), Now());
      }
    }

    method UndoNote(n: Note, ghost was: seq<Note>) returns (ghost deleted: set<Id>, ghost reindexed: bool)
      requires Valid() && known && count >= 1 && notes[..count] == was + [n]
      modifies this`count, flash
      ensures Valid() && notes[..count] == was && deleted <= {n.id} && old(flash.log) <= flash.log
      ensures flash.blobs == old(flash.blobs) - deleted
      ensures flash.index == if reindexed then Written(was, unloaded) else old(flash.index)
    {
      hide Written, Ids;
      count := count - 1;
      assert notes[..count] == was;
      var gone := flash.DeleteNote(n.id);
      deleted := if gone then {n.id} else {};
      var indexed := PersistIndex();
      reindexed := indexed;
    }

    method NewSecret(rng: Rng?, parents: seq<Id>, title: Option<string>, now: u32)
      returns (r: VaultErr, id: Id, h: seq<u8>, ghost op: Op)
      requires Valid()
      modifies this`count, notes, flash, rng
      ensures Valid() && Step(old(Now()), op, Now())
      ensures r == VaultOk ==> Created(op, [id], [h]) && Disclosed(id, h, count - 1, parents, title, now)
      ensures r == VaultOk ==> rng != null && Drawn(old(rng.drawn), rng.drawn, op.tried[0])
      ensures r != VaultOk ==> Now().notes == old(Now().notes) && (op.Refuse? || (op.Create? && !op.ok))
      ensures rng == null || |parents| > 16 ==> r == BadRequest
      ensures !old(known) || old(count) >= 128 ==> r != VaultOk
      ensures rng != null && |parents| <= 16 && old(known) && old(count) < 128 && r != VaultOk ==>
                || NoLuck(old(rng.drawn), rng.drawn, Ids(old(notes[..count])), None)
                || (r == StorageFull && Failed(old(flash.log), flash.log))
    {
      id, h := "", [];
      var n;
      op := Refuse;
      r, n := NewNote(rng, parents, title, None, now);
      if r != VaultOk {
        return;
      }
      h := sha256(n.secret);
      id := CopyTrunc(n.id, ID_BUF);
      hide Step, Written, Failed, Worked, NoLuck;
      var ok := StoreNote(n);
      op := Create([n], ok);
      if !ok {
        r := StorageFull;
      }
    }

    // Both notes to flash, then the index that names them.
    method SavePair(n: Note, m: Note) returns (ok: bool, ghost saved: nat)
      requires Valid() && known && n.id != m.id
      modifies flash
      ensures ok ==> n.id in flash.blobs && flash.blobs[n.id] == n && m.id in flash.blobs && flash.blobs[m.id] == m
      ensures Valid() && saved <= 2 && flash.blobs == SaveAll(old(flash.blobs), [n, m][..saved])
      ensures flash.index == if ok then Written(notes[..count], unloaded) else old(flash.index)
      ensures ok ==> saved == 2
      ensures if ok then Worked(old(flash.log), flash.log, 3) else Failed(old(flash.log), flash.log)
    {
      hide Written, Ids;
      SaveOne(flash.blobs, n);
      SaveTwo(flash.blobs, n, m);
      assert [n, m][..1] == [n] && [n, m][..2] == [n, m];
      saved := 0;
      ok := flash.SaveNote(n);
      OneMoreCall(old(flash.log), old(flash.log), ok);
      if ok {
        saved := 1;
        ok := flash.SaveNote(m);
        OneMoreCall(old(flash.log), old(flash.log) + [true], ok);
      }
      if ok {
        saved := 2;
        ok := PersistIndex();
        OneMoreCall(old(flash.log), old(flash.log) + [true, true], ok);
        assert flash.log == old(flash.log) + [true, true] + [ok];
      }
    }

    method UndoPair(n: Note, m: Note, ghost was: seq<Note>) returns (ghost deleted: set<Id>, ghost reindexed: bool)
      requires Valid() && known && count >= 2 && notes[..count] == was + [n, m]
      modifies this`count, flash
      ensures Valid() && notes[..count] == was && deleted <= {n.id, m.id} && old(flash.log) <= flash.log
      ensures flash.blobs == old(flash.blobs) - deleted
      ensures flash.index == if reindexed then Written(was, unloaded) else old(flash.index)
    {
      hide Written, Ids;
      count := count - 2;
      assert notes[..count] == was;
      var first := flash.DeleteNote(n.id);
      var second := flash.DeleteNote(m.id);
      deleted := (if first then {n.id} else {}) + (if second then {m.id} else {});
      var indexed := PersistIndex();
      reindexed := indexed;
    }

    // Both halves of a split: both stored, or neither.
    method StorePair(n: Note, m: Note) returns (ok: bool)
      requires Valid() && known && count + 1 < MAX_NOTES && FreshNotes(notes[..count], [n, m])
      modifies this`count, notes, flash
      ensures Valid() && Step(old(Now()), Create([n, m], ok), Now())
      ensures if ok then Worked(old(flash.log), flash.log, 3) else Failed(old(flash.log), flash.log)
      ensures ok ==> notes[count - 2] == n && n.id in flash.blobs && flash.blobs[n.id] == n
      ensures ok ==> notes[count - 1] == m && m.id in flash.blobs && flash.blobs[m.id] == m
      ensures notes[..count] == old(notes[..count]) + if ok then [n, m] else []
    {
      ghost var was := notes[..count];
      assert was + [] == was;
      assert [n, m][0] == n && [n, m][1] == m;
      hide Written, Ids, FreshNotes, SaveAll, Step, Worked, Failed;
      Append(n);
      Append(m);
      assert notes[..count] == was + [n, m];
      ghost var saved;
      ok, saved := SavePair(n, m);
      if ok {
        assert [n, m][..2] == [n, m];
        CreateDone(old(Now()), [n, m], Now());
      } else {
        ghost var log := flash.log;
        ghost var deleted, reindexed := UndoPair(n, m, was);
        StaysFailed(old(flash.log), log, flash.log);
        CreateUndone(old(Now()), [n, m], Calls(saved, deleted, reindexed), Now());
      }
    }

    method NewSecretPair(rng: Rng?, parents: seq<Id>, title: Option<string>, now: u32)
      returns (r: VaultErr, id: Id, h: seq<u8>, id2: Id, h2: seq<u8>, ghost op: Op)
      requires Valid()
      modifies this`count, notes, flash, rng
      ensures Valid() && Step(old(Now()), op, Now())
      ensures r == VaultOk ==> Created(op, [id, id2], [h, h2])
      ensures r == VaultOk ==> count >= 2 && Disclosed(id, h, count - 2, parents, title, now)
      ensures r == VaultOk ==> Disclosed(id2, h2, count - 1, parents, title, now)
      ensures r != VaultOk ==> Now().notes == old(Now().notes) && (op.Refuse? || (op.Create? && !op.ok))
      ensures !old(known) || old(count) >= 127 ==> r != VaultOk
      ensures rng != null && |parents| <= 16 && old(known) && old(count) < 127 && r != VaultOk ==>
                || (exists mid, reserved ::
                      old(rng.drawn) <= mid && NoLuck(mid, rng.drawn, Ids(old(notes[..count])), reserved))
                || (r == StorageFull && Failed(old(flash.log), flash.log))
    {
      id, h, id2, h2, op := "", [], "", [], Refuse;
      if count + 1 >= MAX_NOTES {
        return StorageFull, id, h, id2, h2, op;
      }
      var n, m;
      hide NoLuck, Ids, FreshNotes, Failed, Worked, Step, Drawn, Written;
      NothingHappened(Now());
      r, n := NewNote(rng, parents, title, None, now);
      if r != VaultOk {
        assert rng != null ==> old(rng.drawn) <= old(rng.drawn);
        return;
      }
      ghost var drawn := rng.drawn;
      DrawnMore(old(rng.drawn), drawn, n);
      r, m := NewNote(rng, parents, title, Some(n.id), now);
      if r != VaultOk {
        return;
      }
      h, h2 := sha256(n.secret), sha256(m.secret);
      id, id2 := CopyTrunc(n.id, ID_BUF), CopyTrunc(m.id, ID_BUF);
      BothFresh(notes[..count], n, m);
      var ok := StorePair(n, m);
      op := Create([n, m], ok);
      if !ok {
        r := StorageFull;
      }
    }

    // Puts a changed note in place and on flash; puts the old one back if
    // flash refuses.
    method Replace(idx: nat, after: Note) returns (ok: bool)
      requires Valid() && idx < count && Advances(notes[idx], after) && after.parentCount == notes[idx].parentCount
      modifies notes, flash`blobs, flash`log
      ensures Valid() && Step(old(Now()), Update(idx, after, ok), Now())
      ensures flash.log == old(flash.log) + [ok] && count == old(count)
      ensures ok ==> notes[idx] == after && after.id in flash.blobs && flash.blobs[after.id] == after
      ensures Total() == old(Total()) + if ok then Worth(after) - old(Worth(notes[idx])) else 0
    {
      var snapshot := notes[idx];
      ghost var was := notes[..count];
      notes[idx] := after;
      ValueReplaced(was, idx, after);
      assert notes[..count] == was[idx := after];
      ok := flash.SaveNote(after);
      if !ok {
        notes[idx] := snapshot;
        assert notes[..count] == was;
      }
    }

    method Confirm(id: Id, amount: u64, host: Option<string>, sig: Option<string>, now: u32)
      returns (r: VaultErr, ghost op: Op)
      requires Valid()
      modifies notes, flash`blobs, flash`log
      ensures Valid() && Step(old(Now()), op, Now())
      ensures Total() == old(Total()) + if r == VaultOk then amount else 0
      ensures r == NotFound <==> id !in Ids(old(notes[..count]))
      ensures r in {NotFound, InvalidState, StorageFull, VaultOk}
      ensures r == InvalidState ==>
                exists k :: IsAt(old(notes[..count]), id, k) && old(notes[..count])[k].state != Pending
      ensures r !in {NotFound, InvalidState} ==> op.Update? && IsAt(old(notes[..count]), id, op.at)
      ensures r !in {NotFound, InvalidState} ==> old(notes[..count])[op.at].state == Pending
      ensures r !in {NotFound, InvalidState} ==>
        op.after == ConfirmedNote(old(notes[..count])[op.at], amount, host, sig, now)
      ensures r in {NotFound, InvalidState} ==> op == Refuse
      ensures r == VaultOk <==> op.Update? && op.ok
      ensures r !in {NotFound, InvalidState} ==> flash.log == old(flash.log) + [r == VaultOk]
      ensures r == VaultOk ==>
                var n := old(notes[..count])[op.at];
                Stored(op.at, Note(n.id, n.secret, if host.Some? then CopyTrunc(host.value, 64) else n.host, amount,
                                   n.labelText, if sig.Some? then CopyTrunc(sig.value, 132) else "", Confirmed,
                                   n.parentIds, n.parentCount, n.createdAt, now))
    {
      op := Refuse;
      var idx := FindIndex(id);
      if idx < 0 {
        return NotFound, op;
      }
      FoundInIds(notes[..count], id, idx);
      if notes[idx].state != Pending {
        return InvalidState, op;
      }
      var after := ConfirmedNote(notes[idx], amount, host, sig, now);
      var ok := Replace(idx, after);
      op := Update(idx, after, ok);
      r := if ok then VaultOk else StorageFull;
    }

    method MarkSpent(id: Id, now: u32) returns (r: VaultErr, ghost op: Op)
      requires Valid()
      modifies notes, flash`blobs, flash`log
      ensures Valid() && Step(old(Now()), op, Now())
      ensures r == VaultOk ==> op.Update? && op.at < |old(notes[..count])|
      ensures Total() == old(Total()) - if r == VaultOk then old(notes[..count])[op.at].amountMsat else 0
      ensures r == NotFound <==> id !in Ids(old(notes[..count]))
      ensures r in {NotFound, InvalidState, StorageFull, VaultOk}
      ensures r == InvalidState ==>
                exists k :: IsAt(old(notes[..count]), id, k) && old(notes[..count])[k].state != Confirmed
      ensures r !in {NotFound, InvalidState} ==> op.Update? && IsAt(old(notes[..count]), id, op.at)
      ensures r !in {NotFound, InvalidState} ==> old(notes[..count])[op.at].state == Confirmed
      ensures r !in {NotFound, InvalidState} ==> op.after == SpentNote(old(notes[..count])[op.at], now)
      ensures r in {NotFound, InvalidState} ==> op == Refuse
      ensures r == VaultOk <==> op.Update? && op.ok
      ensures r !in {NotFound, InvalidState} ==> flash.log == old(flash.log) + [r == VaultOk]
      ensures r == VaultOk ==>
                var n := old(notes[..count])[op.at];
                Stored(op.at, Note(n.id, n.secret, n.host, n.amountMsat, n.labelText, n.sig, Spent,
                                   n.parentIds, n.parentCount, n.createdAt, now))
    {
      op := Refuse;
      var idx := FindIndex(id);
      if idx < 0 {
        return NotFound, op;
      }
      FoundInIds(notes[..count], id, idx);
      if notes[idx].state != Confirmed {
        return InvalidState, op;
      }
      var after := SpentNote(notes[idx], now);
      var ok := Replace(idx, after);
      op := Update(idx, after, ok);
      r := if ok then VaultOk else StorageFull;
    }

    method Rename(id: Id, title: string, now: u32) returns (r: VaultErr, ghost op: Op)
      requires Valid()
      modifies notes, flash`blobs, flash`log
      ensures Valid() && Step(old(Now()), op, Now())
      ensures Total() == old(Total())
      ensures r == NotFound <==> id !in Ids(old(notes[..count]))
      ensures r in {NotFound, StorageFull, VaultOk}
      ensures r != NotFound ==> op.Update? && IsAt(old(notes[..count]), id, op.at)
      ensures r != NotFound ==> op.after == RenamedNote(old(notes[..count])[op.at], title, now)
      ensures r == NotFound ==> op == Refuse
      ensures r == VaultOk <==> op.Update? && op.ok
      ensures r != NotFound ==> flash.log == old(flash.log) + [r == VaultOk]
      ensures r == VaultOk ==>
                var n := old(notes[..count])[op.at];
                Stored(op.at, Note(n.id, n.secret, n.host, n.amountMsat, CopyTrunc(title, 32), n.sig, n.state,
                                   n.parentIds, n.parentCount, n.createdAt, now))
    {
      op := Refuse;
      var idx := FindIndex(id);
      if idx < 0 {
        return NotFound, op;
      }
      FoundInIds(notes[..count], id, idx);
      var after := RenamedNote(notes[idx], title, now);
      var ok := Replace(idx, after);
      op := Update(idx, after, ok);
      r := if ok then VaultOk else StorageFull;
    }

    method Discard(id: Id) returns (r: VaultErr, ghost op: Op)
      requires Valid()
      modifies this`count, this`removed, notes, flash
      ensures Valid() && Step(old(Now()), op, Now())
      ensures Total() == old(Total())
      ensures r == NotFound <==> id !in Ids(old(notes[..count]))
      ensures r in {NotFound, InvalidState, StorageFull, VaultOk}
      ensures r == InvalidState ==>
                exists k :: IsAt(old(notes[..count]), id, k) && old(notes[..count])[k].state != Pending
      ensures r in {NotFound, InvalidState} ==> op == Refuse
      ensures r !in {NotFound, InvalidState} ==> op.RemoveAt? && IsAt(old(notes[..count]), id, op.at)
      ensures r !in {NotFound, InvalidState} ==> old(notes[..count])[op.at].state == Pending
      ensures r == VaultOk <==> op.RemoveAt? && op.ok
      ensures r !in {NotFound, InvalidState} ==>
                if r == VaultOk then Worked(old(flash.log), flash.log, 2)
                else r == StorageFull && Failed(old(flash.log), flash.log)
    {
      op := Refuse;
      var idx := FindIndex(id);
      if idx < 0 {
        return NotFound, op;
      }
      FoundInIds(notes[..count], id, idx);
      if notes[idx].state != Pending {
        return InvalidState, op;
      }
      ValueRemoved(notes[..count], idx);
      hide Value, Step, Written, Failed, Worked;
      var ok := RemoveAtIndex(idx);
      op := RemoveAt(idx, ok);
      r := if ok then VaultOk else StorageFull;
    }

    method Delete(id: Id) returns (r: VaultErr, ghost op: Op)
      requires Valid()
      modifies this`count, this`removed, notes, flash
      ensures Valid() && Step(old(Now()), op, Now())
      ensures Total() == old(Total())
      ensures r == NotFound <==> id !in Ids(old(notes[..count]))
      ensures r in {NotFound, InvalidState, StorageFull, VaultOk}
      ensures r == InvalidState ==>
                exists k :: IsAt(old(notes[..count]), id, k) && old(notes[..count])[k].state != Spent
      ensures r in {NotFound, InvalidState} ==> op == Refuse
      ensures r !in {NotFound, InvalidState} ==> op.RemoveAt? && IsAt(old(notes[..count]), id, op.at)
      ensures r !in {NotFound, InvalidState} ==> old(notes[..count])[op.at].state == Spent
      ensures r == VaultOk <==> op.RemoveAt? && op.ok
      ensures r !in {NotFound, InvalidState} ==>
                if r == VaultOk then Worked(old(flash.log), flash.log, 2)
                else r == StorageFull && Failed(old(flash.log), flash.log)
    {
      op := Refuse;
      var idx := FindIndex(id);
      if idx < 0 {
        return NotFound, op;
      }
      FoundInIds(notes[..count], id, idx);
      if notes[idx].state != Spent {
        return InvalidState, op;
      }
      ValueRemoved(notes[..count], idx);
      hide Value, Step, Written, Failed, Worked;
      var ok := RemoveAtIndex(idx);
      op := RemoveAt(idx, ok);
      r := if ok then VaultOk else StorageFull;
    }

    // Reveals a confirmed note's secret; touches nothing.
    method ExportSecret(id: Id) returns (r: VaultErr, secret: seq<u8>)
      requires Valid()
      ensures r == NotFound <==> id !in Ids(notes[..count])
      ensures r in {NotFound, InvalidState, VaultOk}
      ensures r != NotFound ==> (exists k ::
                                  && IsAt(notes[..count], id, k) && (r == VaultOk <==> notes[k].state == Confirmed)
                                  && (r == VaultOk ==> secret == notes[k].secret))
    {
      secret := [];
      var idx := FindIndex(id);
      if idx < 0 {
        return NotFound, secret;
      }
      FoundInIds(notes[..count], id, idx);
      if notes[idx].state != Confirmed {
        return InvalidState, secret;
      }
      secret := notes[idx].secret;
      r := VaultOk;
    }

    // The first note backed by this secret, or -1.
    method FindSecret(secret: seq<u8>) returns (found: int)
      requires Valid()
      ensures -1 <= found < count
      ensures found >= 0 ==> notes[found].secret == secret
      ensures found < 0 ==> forall i | 0 <= i < count :: notes[i].secret != secret
    {
      var i := 0;
      while i < count
        invariant 0 <= i <= count
        invariant forall k | 0 <= k < i :: notes[k].secret != secret
      {
        if notes[i].secret == secret {
          return i;
        }
        i := i + 1;
      }
      found := -1;
    }

    // secret is the decoded k1, or None if it was not 64 hex digits.
    method ImportSecret(rng: Rng?, secret: Option<seq<u8>>, host: Option<string>, amount: u64,
                        title: Option<string>, now: u32)
      returns (r: VaultErr, id: Id, ghost op: Op)
      requires Valid()
      modifies this`count, notes, flash, rng
      ensures Valid() && Step(old(Now()), op, Now())
      ensures Total() == old(Total()) + if r == VaultOk && op.Create? then amount else 0
      ensures r == BadRequest <==> rng == null || secret.None?
      ensures r != VaultOk ==> Now().notes == old(Now().notes) && (op.Refuse? || (op.Create? && !op.ok))
      ensures r == VaultOk ==> secret.Some? && (op.Refuse? || (op.Create? && op.ok && |op.tried| == 1))
      ensures r == VaultOk && op.Refuse? ==> exists n :: n in old(notes[..count]) && n.secret == secret.value
                                                        && id == CopyTrunc(n.id, ID_BUF)
      ensures op.Create? ==> secret.Some? && |op.tried| == 1 && op.tried[0].secret == secret.value
      ensures op.Create? ==> secret.Some? && forall n | n in old(notes[..count]) :: n.secret != secret.value
      ensures r == VaultOk && op.Create? ==>
                && id == op.tried[0].id && count == old(count) + 1
                && op.tried[0] == Note(id, secret.value, if host.Some? then CopyTrunc(host.value, 64) else "", amount,
                                       if title.Some? then CopyTrunc(title.value, 32) else "", "", Confirmed,
                                       [], 0, now, now)
                && Stored(count - 1, op.tried[0])
      ensures rng != null && secret.Some? && old(known) && old(count) < 128 && r != VaultOk ==>
                && (forall n | n in old(notes[..count]) :: n.secret != secret.value)
                && (NoLuck(old(rng.drawn), rng.drawn, Ids(old(notes[..count])), None)
                    || Failed(old(flash.log), flash.log))
    {
      id, op := "", Refuse;
      if rng == null || secret.None? {
        return BadRequest, id, op;
      }
      if !known || count >= MAX_NOTES {
        return StorageFull, id, op;
      }
      var held := FindSecret(secret.value);
      if held >= 0 {
        assert notes[held] in notes[..count];
        return VaultOk, CopyTrunc(notes[held].id, ID_BUF), op;
      }
      hide NoLuck, Failed, Worked, Written, Step, Spells;
      var freshId := GenUniqueId(rng, None);
      if freshId.None? {
        return StorageFull, id, op;
      }
      var n := Note(freshId.value, secret.value, if host.Some? then CopyTrunc(host.value, HOST_BUF) else "", amount,
                    if title.Some? then CopyTrunc(title.value, LABEL_BUF) else "", "", Confirmed, [], 0, now, now);
      id := CopyTrunc(n.id, ID_BUF);
      var ok := StoreImported(n);
      op := Create([n], ok);
      r := if ok then VaultOk else StorageFull;
    }

    method StoreImported(n: Note) returns (ok: bool)
      requires Valid() && known && count < MAX_NOTES && n.id !in Ids(notes[..count]) && n.state == Confirmed
      requires n.parentCount <= MAX_PARENTS
      modifies this`count, notes, flash
      ensures Valid() && Step(old(Now()), Create([n], ok), Now())
      ensures if ok then Worked(old(flash.log), flash.log, 2) else Failed(old(flash.log), flash.log)
      ensures Total() == old(Total()) + if ok then n.amountMsat else 0
      ensures notes[..count] == old(notes[..count]) + (if ok then [n] else []) && (ok ==> Stored(count - 1, n))
    {
      ValueAppended(notes[..count], n);
      assert [n][0] == n;
      assert FreshNotes(notes[..count], [n]);
      hide Value, Step, Written, Failed, Worked, FreshNotes;
      ok := StoreNote(n);
      assert old(notes[..count]) + [] == old(notes[..count]);
    }

    // Forgets every spent note in one pass over the array.
    method PruneSpent() returns (r: VaultErr, gone: nat, ghost op: Op)
      requires Valid()
      modifies this`count, this`removed, notes, flash
      ensures Valid() && Step(old(Now()), op, Now())
      ensures Total() == old(Total())
      ensures !old(known) <==> op.Refuse? && r == StorageFull
      ensures old(known) ==> Now().notes == NotSpent(old(notes[..count])) && gone == old(count) - count
      ensures old(known) ==> SpentSwept(old(notes[..count]), notes[..count])
      ensures old(known) ==> if r == VaultOk then !Failed(old(flash.log), flash.log)
                             else r == StorageFull && Failed(old(flash.log), flash.log)
      ensures r == VaultOk <==> (op.Prune? && op.ok) || (op.Refuse? && old(known))
    {
      hide Failed, Worked, SpentSwept, NotSpent, SpentIds, Written, Step, SameBlobsOutside, BlobsFrom, Value;
      gone, op := 0, Refuse;
      NothingHappened(Now());
      if !known {
        return StorageFull, gone, op;
      }
      ghost var was := notes[..count];
      var blobsOk;
      gone, blobsOk := Sweep();
      SweptNotes(was);
      ValueOfNotSpent(was);
      if blobsOk {
        NotBoth(old(flash.log), flash.log, gone);
      }
      if gone == 0 {
        NoneSpent(was);
        NothingHappened(old(Now()));
        return VaultOk, gone, op;
      }
      var ok := IndexSwept(blobsOk, old(Now()), old(flash.log), gone);
      op := Prune(ok);
      r := if ok then VaultOk else StorageFull;
    }

    // Once, at the end, whatever became of the blobs.
    method IndexSwept(blobsOk: bool, ghost w: World, ghost log: seq<bool>, ghost gone: nat) returns (ok: bool)
      requires Valid() && known && w.known && Now() == w.(notes := NotSpent(w.notes), blobs := flash.blobs)
      requires SameBlobsOutside(w.blobs, flash.blobs, SpentIds(w.notes)) && BlobsFrom(w.blobs, flash.blobs, [])
      requires blobsOk ==> forall id | id in SpentIds(w.notes) :: id !in flash.blobs
      requires if blobsOk then Worked(log, flash.log, gone) else Failed(log, flash.log)
      modifies this`removed, flash`index, flash`log
      ensures Valid() && Step(w, Prune(ok), Now()) && Now().notes == NotSpent(w.notes)
      ensures if ok then !Failed(log, flash.log) else Failed(log, flash.log)
    {
      hide Failed, Worked, NotSpent, SpentIds, Written, Step, SameBlobsOutside, BlobsFrom;
      removed := removed + SpentIds(w.notes);
      var indexed := PersistIndex();
      PruneLogged(log, old(flash.log), gone, blobsOk, indexed);
      ok := indexed && blobsOk;
      PruneDone(w, ok, Now());
    }

    // The compaction loop of vault_prune_spent: read and write positions.
    method Sweep() returns (gone: nat, blobsOk: bool)
      requires Valid() && known
      modifies this`count, notes, flash`blobs, flash`log
      ensures Valid() && gone == old(count) - count
      ensures if blobsOk then Worked(old(flash.log), flash.log, gone) else Failed(old(flash.log), flash.log)
      ensures blobsOk ==> forall id | id in SpentIds(old(notes[..count])) :: id !in flash.blobs
      ensures notes[..count] == NotSpent(old(notes[..count]))
      ensures SameBlobsOutside(old(flash.blobs), flash.blobs, SpentIds(old(notes[..count])))
      ensures BlobsFrom(old(flash.blobs), flash.blobs, [])
      ensures gone == 0 ==> flash.blobs == old(flash.blobs) && blobsOk
    {
      hide NotSpent, SpentIds, Failed;
      ghost var was := notes[..count];
      NothingSwept();
      var write := 0;
      gone, blobsOk := 0, true;
      for read := 0 to count
        modifies notes, flash`blobs, flash`log
        invariant write + gone == read && old(flash.log) <= flash.log
        invariant if blobsOk then Worked(old(flash.log), flash.log, gone) else Failed(old(flash.log), flash.log)
        invariant blobsOk ==> forall id | id in SpentIds(was[..read]) :: id !in flash.blobs
        invariant notes[..write] == NotSpent(was[..read]) && notes[read..count] == was[read..]
        invariant SameBlobsOutside(old(flash.blobs), flash.blobs, SpentIds(was[..read]))
        invariant BlobsFrom(old(flash.blobs), flash.blobs, [])
        invariant gone == 0 ==> flash.blobs == old(flash.blobs) && blobsOk
      {
        NotSpentNext(was, read);
        assert notes[read] == notes[read..count][0];
        if notes[read].state == Spent {
          ghost var log := flash.log;
          var deleted := flash.DeleteNote(notes[read].id);
          OneMoreCall(old(flash.log), log, deleted);
          if !deleted {
            blobsOk := false;
          }
          gone := gone + 1;
        } else {
          ghost var kept := notes[..write];
          if write != read {
            notes[write] := notes[read];
          }
          write := write + 1;
          assert notes[..write] == kept + [was[read]];
        }
        assert notes[read + 1..count] == was[read + 1..];
      }
      assert was[..count] == was;
      count := write;
    }

    // Overwrites every note in RAM. Flash is the caller's business.
    method ForgetAll()
      requires Valid()
      modifies this`count, this`unloaded, notes
      ensures Valid() && Now() == old(Now()).(notes := [], unloaded := [])
      ensures SecretsCleared()
    {
      for i := 0 to notes.Length
        modifies notes
        invariant forall k | 0 <= k < i :: notes[k] == BLANK
      {
        notes[i] := BLANK;
      }
      count := 0;
      unloaded := [];
    }

    // No byte of any note is left anywhere in the array.
    ghost predicate SecretsCleared()
      reads this, notes
    {
      count == 0 && unloaded == [] && forall k | 0 <= k < notes.Length :: notes[k] == BLANK
    }

    // The end of a wipe: RAM is forgotten only when flash was erased for sure.
    method WipeAll() returns (ok: bool, ghost op: Op)
      requires Valid()
      modifies this`count, this`unloaded, notes, flash
      ensures Valid() && (ok ==> op == Wipe && Step(old(Now()), op, Now()) && SecretsCleared())
      ensures !ok ==> Now() == old(Now()) || Now() == old(Now()).(blobs := map[])
      ensures flash.log == old(flash.log) + [ok]
    {
      op := Wipe;
      ok := flash.Erase();
      if ok {
        ForgetAll();
      }
    }

    // In RAM at this place, and on flash.
    ghost predicate Stored(at: nat, n: Note)
      reads this, notes, flash
    {
      at < count && at < notes.Length && notes[at] == n && n.id in flash.blobs && flash.blobs[n.id] == n
    }

    // A note that was asked for, stored, with its id and the hash of its secret.
    ghost predicate Disclosed(id: Id, h: seq<u8>, at: int, parents: seq<Id>, title: Option<string>, now: u32)
      reads this, notes, flash
    {
      && 0 <= at < count && at < notes.Length && |parents| <= 16
      && var secret := notes[at].secret;
         && |secret| == 32 && h == sha256(secret)
         && Stored(at, Note(id, secret, "", 0, if title.Some? then CopyTrunc(title.value, 32) else "", "", Pending,
                            seq(|parents|, i requires 0 <= i < |parents| => CopyTrunc(parents[i], 9)), |parents|,
                            now, now))
    }

    // The caller was given these ids, and the hashes of their secrets.
    ghost predicate Created(op: Op, ids: seq<Id>, hashes: seq<seq<u8>>) {
      && op.Create? && op.ok && |op.tried| == |ids| == |hashes|
      && forall i | 0 <= i < |ids| :: op.tried[i].id == ids[i] && sha256(op.tried[i].secret) == hashes[i]
    }
  }
}

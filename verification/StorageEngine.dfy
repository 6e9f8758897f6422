/**
  Capacity accounting of the storage engine. Stream writers give up the lock between pieces and
  publish outside it, so any number of them interleave with each other and with deletes; each
  method below is one stretch that nothing can interrupt.
 */
module StorageEngine {
  import opened Base
  import opened Sums
  import opened ObjectDirectory
  import ChunkLayout

  /** Publishing moves the staged directory to its final name; accounting comes in a later locked stretch. */
  datatype Phase = Receiving | Published | Failing

  /**
    The locals of one `write_stream` call. `received` is what the stream has delivered, `pending` the
    reserved but unwritten rest of the last piece, `staged` the content of the staging directory.
   */
  datatype Writer = Writer(phase: Phase, reserved: nat, received: Bytes, pending: Bytes, staged: Bytes, size: nat)

  /** The uninterruptible stretches, as a schedule names them. */
  datatype Step =
    | Begin(key: Key)
    | Receive(key: Key, incoming: Bytes, diskFree: nat)
    | WritePart(key: Key, n: nat)
    | Fail(key: Key)
    | Publish(key: Key)
    | Account(key: Key)
    | RemoveStaging(key: Key)
    | Release(key: Key)
    | Delete(key: Key)

  datatype EngineError = InvalidId | AlreadyExists | NotFound | StorageFull

  // ----- Measures

  function Size(data: Bytes): nat { |data| }
  function Reserved(w: Writer): nat { w.reserved }
  function Staged(w: Writer): nat { |w.staged| }
  function Unaccounted(w: Writer): nat { if w.phase == Published then w.reserved else 0 }

  /** Bytes in published objects. */
  ghost function PublishedBytes(published: map<Key, Bytes>): nat {
    SumBy(published, Size)
  }

  function ChunkBytes(chunks: seq<Bytes>): nat {
    if chunks == [] then 0 else |chunks[0]| + ChunkBytes(chunks[1..])
  }

  lemma {:induction false} ChunkBytesOfFlatten(chunks: seq<Bytes>)
    ensures ChunkBytes(chunks) == |ChunkLayout.Flatten(chunks)|
  {
    if chunks != [] {
      ChunkBytesOfFlatten(chunks[1..]);
    }
  }

  /** The chunk files of an object together have the size of its payload, so payload sizes can be summed instead. */
  lemma PayloadIsChunkBytes(data: Bytes, chunkSize: nat)
    requires chunkSize > 0
    ensures ChunkBytes(ChunkLayout.Split(data, chunkSize)) == Size(data)
  {
    ChunkLayout.SplitSound(data, chunkSize);
    ChunkBytesOfFlatten(ChunkLayout.Split(data, chunkSize));
  }

  /** What the start-up scan counts: directories that end in ".upload" are skipped. */
  ghost function Rescan(published: map<Key, Bytes>): nat {
    PublishedBytes(map k | k in published && !EndsWith(k.1, UPLOAD_SUFFIX) :: published[k])
  }

  /** Every object that a scan skips is empty. */
  ghost predicate HiddenAreEmpty(published: map<Key, Bytes>) {
    forall k :: k in published && EndsWith(k.1, UPLOAD_SUFFIX) ==> published[k] == []
  }

  /** The keys whose object is on disk but not yet in `used`. */
  ghost function UnaccountedKeys(writers: map<Key, Writer>): set<Key> {
    set k | k in writers && writers[k].phase == Published
  }

  // ----- Invariants, on values

  ghost predicate WriterOk(w: Writer) {
    match w.phase
    case Receiving => w.size == |w.staged| && w.received == w.staged + w.pending && w.reserved == |w.received|
    case Published => w.size == w.reserved && w.staged == [] && w.pending == []
    case Failing => |w.staged| <= w.reserved
  }

  /** The writer once a piece has been reserved. */
  function Accepted(w: Writer, incoming: Bytes): Writer {
    w.(reserved := w.reserved + |incoming|, received := w.received + incoming, pending := incoming)
  }

  /** The writer once the next n pending bytes are in the staging directory. */
  function Advanced(w: Writer, n: nat): Writer
    requires n <= |w.pending|
  {
    w.(staged := w.staged + w.pending[..n], pending := w.pending[n..], size := w.size + n)
  }

  lemma WriterProgress(w: Writer, incoming: Bytes, n: nat)
    requires w.phase == Receiving && WriterOk(w)
    ensures w.pending == [] ==> WriterOk(Accepted(w, incoming)) && w.received == w.staged
    ensures n <= |w.pending| ==> WriterOk(Advanced(w, n))
    ensures WriterOk(w.(phase := Failing))
  {
    if n <= |w.pending| {
      assert w.pending == w.pending[..n] + w.pending[n..];
    }
  }

  /** A key in flight has one writer, and until that has published there is no such object on disk. */
  ghost predicate Ownership(inflight: set<Key>, published: map<Key, Bytes>, writers: map<Key, Writer>) {
    && inflight == writers.Keys
    && forall k :: k in writers ==> WriterOk(writers[k]) && (writers[k].phase != Published ==> k !in published)
  }

  /**
    The counters against the disk: `ceiling` is the capacity, or what the start-up scan found if that was
    more; `uncounted` is what the scan missed; `overshoot` is what clamped deletes have left in `used`.
   */
  ghost predicate Accounting(ceiling: nat, used: nat, reserved: nat, published: map<Key, Bytes>,
                             writers: map<Key, Writer>, uncounted: nat, overshoot: nat)
  {
    && reserved == SumBy(writers, Reserved)
    && used + reserved <= ceiling
    && used + SumBy(writers, Unaccounted) + uncounted == PublishedBytes(published) + overshoot
  }

  /** As long as no delete has hit an unaccounted object, `used` is exactly the accounted objects. */
  ghost predicate Exact(used: nat, published: map<Key, Bytes>, writers: map<Key, Writer>) {
    && used == PublishedBytes(published - UnaccountedKeys(writers))
    && forall k :: k in UnaccountedKeys(writers) ==> k in published && |published[k]| == writers[k].reserved
  }

  lemma NewWriter(writers: map<Key, Writer>, key: Key, w: Writer)
    requires key !in writers && w.phase != Published
    ensures SumBy(writers[key := w], Reserved) == SumBy(writers, Reserved) + w.reserved
    ensures SumBy(writers[key := w], Unaccounted) == SumBy(writers, Unaccounted)
    ensures UnaccountedKeys(writers[key := w]) == UnaccountedKeys(writers)
  {
    SumInsert(writers, key, w, Reserved);
    SumInsert(writers, key, w, Unaccounted);
  }

  lemma ChangedWriter(writers: map<Key, Writer>, key: Key, w: Writer)
    requires key in writers
    ensures SumBy(writers[key := w], Reserved) == SumBy(writers, Reserved) - writers[key].reserved + w.reserved
    ensures SumBy(writers[key := w], Unaccounted) == SumBy(writers,
                                                           Unaccounted) - Unaccounted(writers[key]) + Unaccounted(w)
  {
    SumUpdate(writers, key, w, Reserved);
    SumUpdate(writers, key, w, Unaccounted);
  }

  /** A step of a writer that has not published, and does not, keeps all invariants. */
  lemma UnpublishedStep(ceiling: nat, used: nat, reserved: nat, inflight: set<Key>, published: map<Key, Bytes>,
                        writers: map<Key, Writer>, uncounted: nat, overshoot: nat, key: Key, w: Writer)
    requires Ownership(inflight, published, writers)
    requires Accounting(ceiling, used, reserved, published, writers, uncounted, overshoot)
    requires key in writers && writers[key].phase != Published && w.phase != Published && WriterOk(w)
    requires used + reserved - writers[key].reserved + w.reserved <= ceiling
    ensures reserved >= writers[key].reserved
    ensures Ownership(inflight, published, writers[key := w])
    ensures Accounting(ceiling, used, reserved - writers[key].reserved + w.reserved, published, writers[key := w],
                       uncounted, overshoot)
    ensures Exact(used, published, writers) ==> Exact(used, published, writers[key := w])
  {
    ChangedWriter(writers, key, w);
    SumRemove(writers, key, Reserved);
    assert UnaccountedKeys(writers[key := w]) == UnaccountedKeys(writers);
  }

  lemma GoneWriter(writers: map<Key, Writer>, key: Key)
    requires key in writers
    ensures SumBy(writers - {key}, Reserved) == SumBy(writers, Reserved) - writers[key].reserved
    ensures SumBy(writers - {key}, Unaccounted) == SumBy(writers, Unaccounted) - Unaccounted(writers[key])
    ensures UnaccountedKeys(writers - {key}) == UnaccountedKeys(writers) - {key}
    ensures writers[key].phase != Published ==> UnaccountedKeys(writers - {key}) == UnaccountedKeys(writers)
  {
    SumRemove(writers, key, Reserved);
    SumRemove(writers, key, Unaccounted);
  }

  lemma ExactAfterPublish(used: nat, published: map<Key, Bytes>, writers: map<Key, Writer>, key: Key, w: Writer,
                          data: Bytes)
    requires Exact(used, published, writers)
    requires key in writers && key !in published && w.phase == Published && |data| == w.reserved
    ensures Exact(used, published[key := data], writers[key := w])
  {
    var un := UnaccountedKeys(writers);
    assert UnaccountedKeys(writers[key := w]) == un + {key};
    assert published[key := data] - (un + {key}) == published - un;
  }

  lemma ExactAfterAccount(used: nat, published: map<Key, Bytes>, writers: map<Key, Writer>, key: Key)
    requires Exact(used, published, writers)
    requires key in writers && writers[key].phase == Published
    ensures Exact(used + writers[key].reserved, published, writers - {key})
  {
    var un := UnaccountedKeys(writers);
    assert UnaccountedKeys(writers - {key}) == un - {key};
    SumRemove(published - (un - {key}), key, Size);
    assert published - (un - {key}) - {key} == published - un;
  }

  /** Deleting an accounted object never clamps while the counters are exact. */
  lemma ExactAfterDelete(used: nat, published: map<Key, Bytes>, writers: map<Key, Writer>, key: Key)
    requires Exact(used, published, writers)
    requires key in published && key !in UnaccountedKeys(writers)
    ensures used >= |published[key]|
    ensures Exact(used - |published[key]|, published - {key}, writers)
  {
    var un := UnaccountedKeys(writers);
    SumRemove(published - un, key, Size);
    assert published - un - {key} == published - {key} - un;
  }

  /** With no writers, what a scan finds is exactly what is counted. */
  lemma FreshStart(published: map<Key, Bytes>, ceiling: nat)
    requires Rescan(published) <= ceiling
    ensures Rescan(published) <= PublishedBytes(published)
    ensures Ownership({}, published, map[])
    ensures Accounting(ceiling, Rescan(published), 0, published, map[],
                       PublishedBytes(published) - Rescan(published), 0)
    ensures Rescan(published) == PublishedBytes(published) ==> Exact(Rescan(published), published, map[])
  {
    RescanMisses(published);
    var none: map<Key, Writer> := map[];
    assert published - UnaccountedKeys(none) == published;
  }

  // ----- Steps, on values

  /** The counters, the disk and the writers between two steps. */
  datatype State = State(
    used: nat, reserved: nat, inflight: set<Key>, published: map<Key, Bytes>, writers: map<Key, Writer>)

  predicate Enabled(s: State, key: Key, phase: Phase) {
    key in s.writers && s.writers[key].phase == phase
  }

  /** What a piece of n bytes finds free. */
  function FreeBytes(capacity: nat, s: State, diskFree: nat): int {
    Min(Max(capacity - s.used - s.reserved, 0), diskFree)
  }

  /** One step as the schedule names it; a step that is not enabled does nothing. */
  function Next(capacity: nat, s: State, step: Step): State {
    match step
    case Begin(key) =>
      if !ValidId(key.0) || !ValidId(key.1) || key in s.inflight || key in s.published then s
      else s.(inflight := s.inflight + {key}, writers := s.writers[key := Writer(Receiving, 0, [], [], [], 0)])
    case Receive(key, incoming, diskFree) =>
      if !Enabled(s, key, Receiving) || s.writers[key].pending != [] || incoming == [] then s
      else if |incoming| > FreeBytes(capacity, s, diskFree) then
        s.(writers := s.writers[key := s.writers[key].(phase := Failing)])
      else s.(reserved := s.reserved + |incoming|, writers := s.writers[key := Accepted(s.writers[key], incoming)])
    case WritePart(key, n) =>
      if !Enabled(s, key, Receiving) || n > |s.writers[key].pending| then s
      else s.(writers := s.writers[key := Advanced(s.writers[key], n)])
    case Fail(key) =>
      if !Enabled(s, key, Receiving) then s
      else s.(writers := s.writers[key := s.writers[key].(phase := Failing)])
    case Publish(key) =>
      if !Enabled(s, key, Receiving) || s.writers[key].pending != [] then s
      else s.(published := s.published[key := s.writers[key].received],
              writers := s.writers[key := s.writers[key].(phase := Published, staged := [])])
    case Account(key) =>
      if !Enabled(s, key, Published) then s
      else
        var size := s.writers[key].size;
        State(s.used + size, Max(0, s.reserved - size), s.inflight - {key}, s.published, s.writers - {key})
    case RemoveStaging(key) =>
      if !Enabled(s, key, Failing) then s
      else s.(writers := s.writers[key := s.writers[key].(staged := [])])
    case Release(key) =>
      if !Enabled(s, key, Failing) || s.writers[key].staged != [] then s
      else s.(reserved := Max(0, s.reserved - s.writers[key].reserved), inflight := s.inflight - {key},
              writers := s.writers - {key})
    case Delete(key) =>
      if key !in s.published then s
      else s.(used := Max(0, s.used - |s.published[key]|), published := s.published - {key})
  }

  /** A delete of an object between its rename and its accounting. */
  ghost predicate Early(s: State, step: Step) {
    step.Delete? && step.key in s.published && step.key in UnaccountedKeys(s.writers)
  }

  /** What the clamp at zero swallows: the part of a deleted object that `used` does not cover. */
  function Clamped(s: State, step: Step): nat {
    if step.Delete? && step.key in s.published then Max(0, |s.published[step.key]| - s.used) else 0
  }

  /** The states before and after every step of a schedule. */
  ghost predicate IsRun(capacity: nat, states: seq<State>, schedule: seq<Step>) {
    && |states| == |schedule| + 1
    && forall i :: 0 <= i < |schedule| ==> states[i + 1] == Next(capacity, states[i], schedule[i])
  }

  lemma RunGoesOn(capacity: nat, states: seq<State>, schedule: seq<Step>, k: nat, next: State)
    requires k < |schedule| && IsRun(capacity, states, schedule[..k]) && next == Next(capacity, states[k], schedule[k])
    ensures IsRun(capacity, states + [next], schedule[..k + 1])
  {
  }

  /** Some step of the schedule is an early delete. */
  ghost predicate AnyEarly(states: seq<State>, schedule: seq<Step>)
    requires |states| == |schedule| + 1
  {
    exists i :: 0 <= i < |schedule| && Early(states[i], schedule[i])
  }

  /** No delete of the schedule is clamped. */
  ghost predicate NoneClamped(states: seq<State>, schedule: seq<Step>)
    requires |states| == |schedule| + 1
  {
    forall i :: 0 <= i < |schedule| ==> Clamped(states[i], schedule[i]) == 0
  }

  lemma GuardsGoOn(states: seq<State>, schedule: seq<Step>, k: nat, next: State)
    requires k < |schedule| && |states| == k + 1
    ensures AnyEarly(states + [next], schedule[..k + 1]) <==>
            AnyEarly(states, schedule[..k]) || Early(states[k], schedule[k])
    ensures NoneClamped(states + [next], schedule[..k + 1]) <==>
            NoneClamped(states, schedule[..k]) && Clamped(states[k], schedule[k]) == 0
  {
    var states', before, after := states + [next], schedule[..k], schedule[..k + 1];
    forall i | 0 <= i < k ensures states'[i] == states[i] && after[i] == before[i] {
    }
    assert states'[k] == states[k] && after[k] == schedule[k];
    if AnyEarly(states, before) {
      var i :| 0 <= i < k && Early(states[i], before[i]);
      assert Early(states'[i], after[i]);
    }
    if Early(states[k], schedule[k]) {
      assert Early(states'[k], after[k]);
    }
  }

  // ----- What is published, read off the schedule

  /** An upload as its client sees it: the pieces it was allowed to send, and how many of their bytes are written. */
  datatype Upload = Closed | Open(pieces: seq<Bytes>, written: nat)

  predicate Complete(u: Upload) {
    u.Open? && u.written == |ChunkLayout.Flatten(u.pieces)|
  }

  /** The upload under a key before step i, from the steps so far and the counters that they met. */
  ghost function Track(capacity: nat, states: seq<State>, schedule: seq<Step>, key: Key, i: nat): Upload
    requires |states| == |schedule| + 1 && i <= |schedule|
  {
    if i == 0 then Closed
    else
      var u, s := Track(capacity, states, schedule, key, i - 1), states[i - 1];
      if schedule[i - 1].key != key then u
      else
        match schedule[i - 1]
        case Begin(_) =>
          if ValidId(key.0) && ValidId(key.1) && key !in s.inflight && key !in s.published then Open([], 0) else u
        case Receive(_, incoming, diskFree) =>
          if !Complete(u) || incoming == [] then u
          else if |incoming| <= Min(Max(capacity - s.used - s.reserved, 0), diskFree)
          then Open(u.pieces + [incoming], u.written)
          else Closed
        case WritePart(_, n) =>
          if u.Open? && u.written + n <= |ChunkLayout.Flatten(u.pieces)| then Open(u.pieces, u.written + n) else u
        case Fail(_) => Closed
        case Publish(_) => if Complete(u) then Closed else u
        case _ => u
  }

  /** The writer is where its upload is. */
  ghost predicate Agree(s: State, key: Key, u: Upload) {
    && (u.Open? <==> Enabled(s, key, Receiving))
    && (u.Open? ==>
          var data := ChunkLayout.Flatten(u.pieces);
          s.writers[key].received == data && u.written + |s.writers[key].pending| == |data|)
  }

  lemma {:induction false} Tracks(capacity: nat, states: seq<State>, schedule: seq<Step>, key: Key, i: nat)
    requires IsRun(capacity, states, schedule) && i <= |schedule| && key !in states[0].writers
    ensures Agree(states[i], key, Track(capacity, states, schedule, key, i))
  {
    if i > 0 {
      Tracks(capacity, states, schedule, key, i - 1);
      assert states[i] == Next(capacity, states[i - 1], schedule[i - 1]);
      var u, step := Track(capacity, states, schedule, key, i - 1), schedule[i - 1];
      if step.Receive? && step.key == key && Complete(u) {
        ChunkLayout.FlattenSnoc(u.pieces, step.incoming);
      }
    }
  }

  /**
    What step i does to the object under a key: a publication of a complete upload puts there the pieces of that
    upload, in order; a delete removes it; nothing else touches it.
   */
  ghost predicate ContentAt(capacity: nat, states: seq<State>, schedule: seq<Step>, key: Key, i: nat)
    requires |states| == |schedule| + 1
  {
    i < |schedule| ==>
      var before, after, u := states[i].published, states[i + 1].published, Track(capacity, states, schedule, key, i);
      if schedule[i] == Step.Publish(key) && Complete(u) then
        key in after && after[key] == ChunkLayout.Flatten(u.pieces)
      else if schedule[i] == Step.Delete(key) then key !in after
      else (key in after <==> key in before) && (key in before ==> after[key] == before[key])
  }

  lemma ContentKept(capacity: nat, states: seq<State>, schedule: seq<Step>, key: Key, i: nat)
    requires IsRun(capacity, states, schedule) && key !in states[0].writers
    ensures ContentAt(capacity, states, schedule, key, i)
  {
    if i < |schedule| {
      Tracks(capacity, states, schedule, key, i);
      assert states[i + 1] == Next(capacity, states[i], schedule[i]);
    }
  }

  /** The disk against the counters. */
  ghost predicate Within(s: State, ceiling: nat, uncounted: nat) {
    && PublishedBytes(s.published) + SumBy(s.writers, Staged) <= s.used + s.reserved + uncounted
    && s.used + s.reserved <= ceiling
    && s.reserved == SumBy(s.writers, Reserved)
  }

  // ----- The engine

  class StorageEngine {
    const capacity: nat
    var used: nat
    var reserved: nat
    var inflight: set<Key>
    var published: map<Key, Bytes>
    var writers: map<Key, Writer>
    /** The capacity, or the bytes found at start-up if those were more. */
    ghost const ceiling: nat
    /** Bytes of the objects that the scan at start-up missed. */
    ghost const uncounted: nat
    /** Bytes by which deletes have been clamped at zero. */
    ghost var overshoot: nat
    /** Whether some delete hit an object between its rename and its accounting. */
    ghost var earlyDelete: bool

    ghost predicate Valid()
      reads this
    {
      && Ownership(inflight, published, writers)
      && capacity <= ceiling && Accounting(ceiling, used, reserved, published, writers, uncounted, overshoot)
      && (!earlyDelete && uncounted == 0 ==> overshoot == 0 && Exact(used, published, writers))
    }

    ghost function Now(): State
      reads this
    {
      State(used, reserved, inflight, published, writers)
    }

    /** Start-up: upload leftovers are removed and the rest is scanned. */
    constructor (capacity: nat, disk: map<Key, Bytes>)
      ensures Valid() && !earlyDelete && overshoot == 0
      ensures this.capacity == capacity && writers == map[] && reserved == 0
      ensures published == map k | k in disk && !LooksStaged(k.1) :: disk[k]
      ensures used == Rescan(published) && used + uncounted == PublishedBytes(published)
              && ceiling == Max(capacity, used)
      ensures uncounted == 0 <==> HiddenAreEmpty(published)
    {
      var kept := map k | k in disk && !LooksStaged(k.1) :: disk[k];
      RescanMisses(kept);
      this.capacity := capacity;
      this.ceiling := Max(capacity, Rescan(kept));
      this.uncounted := PublishedBytes(kept) - Rescan(kept);
      published := kept;
      reserved, inflight, writers, overshoot, earlyDelete := 0, {}, map[], 0, false;
      new;
      used := Scan();
      FreshStart(published, Max(capacity, Rescan(published)));
    }

    method Scan() returns (total: nat)
      ensures total == Rescan(published)
    {
      total := 0;
      var rest := map k | k in published && !EndsWith(k.1, UPLOAD_SUFFIX) :: published[k];
      while rest != map[]
        invariant total + PublishedBytes(rest) == Rescan(published)
        decreases |rest|
      {
        var k :| k in rest;
        SumRemove(rest, k, Size);
        total := total + |rest[k]|;
        rest := rest - {k};
      }
    }

    method Begin(key: Key) returns (r: Result<(), EngineError>)
      requires Valid()
      modifies `inflight, `writers
      ensures Valid()
      ensures r == if !ValidId(key.0) || !ValidId(key.1) then Err(InvalidId)
                   else if old(key in inflight || key in published) then Err(AlreadyExists) else Ok(())
      ensures writers == if r.Ok? then old(writers)[key := Writer(Receiving, 0, [], [], [], 0)] else old(writers)
      ensures inflight == if r.Ok? then old(inflight) + {key} else old(inflight)
    {
      if !ValidId(key.0) || !ValidId(key.1) {
        return Err(InvalidId);
      }
      if key in inflight || key in published {
        return Err(AlreadyExists);
      }
      var w := Writer(Receiving, 0, [], [], [], 0);
      NewWriter(writers, key, w);
      writers := writers[key := w];
      inflight := inflight + {key};
      r := Ok(());
    }

    /** `_reserve_capacity`: the logical free space bounded by what the disk has. */
    method Reserve(required: nat, diskFree: nat) returns (r: Result<(), EngineError>)
      modifies `reserved
      ensures r == if required > Min(Max(capacity - used - old(reserved), 0),
                                     diskFree) then Err(StorageFull) else Ok(())
      ensures reserved == if r.Ok? then old(reserved) + required else old(reserved)
    {
      var free := Min(Max(capacity - used - reserved, 0), diskFree);
      if required > free {
        return Err(StorageFull);
      }
      reserved := reserved + required;
      r := Ok(());
    }

    /** A piece arrives. Space is reserved for all of it, or the writer fails. */
    method Receive(key: Key, incoming: Bytes, diskFree: nat) returns (r: Result<(), EngineError>)
      requires Valid()
      requires key in writers && writers[key].phase == Receiving && writers[key].pending == []
      modifies `reserved, `writers
      ensures Valid()
      ensures r == if |incoming| > Min(Max(capacity - used - old(reserved), 0),
                                       diskFree) && incoming != [] then Err(StorageFull)
                   else Ok(())
      ensures reserved == if r.Ok? then old(reserved) + |incoming| else old(reserved)
      ensures var w := old(writers[key]);
              && writers == old(writers)[key := if r.Ok? && incoming == [] then w else if r.Ok? then Accepted(w,
                                                                                                              incoming)
                                               else w.(phase := Failing)]
              && (r.Ok? ==>
                    && writers[key].received == w.received + incoming && writers[key].pending == incoming
                    && writers[key].reserved == w.reserved + |incoming| && writers[key].phase == Receiving)
    {
      var w := writers[key];
      if incoming == [] {
        assert writers == writers[key := w];
        return Ok(());
      }
      ghost var before := reserved;
      WriterProgress(w, incoming, 0);
      r := Reserve(|incoming|, diskFree);
      var w' := if r.Ok? then Accepted(w, incoming) else w.(phase := Failing);
      UnpublishedStep(ceiling, used, before, inflight, published, writers, uncounted, overshoot, key, w');
      writers := writers[key := w'];
    }

    /** One round of the inner loop puts the next n reserved bytes into the staging directory. */
    method WritePart(key: Key, n: nat)
      requires Valid()
      requires key in writers && writers[key].phase == Receiving && n <= |writers[key].pending|
      modifies `writers
      ensures Valid()
      ensures var w := old(writers[key]);
              && writers == old(writers)[key := Advanced(w, n)]
              && writers[key].received == w.received && writers[key].staged == w.staged + w.pending[..n]
              && writers[key].pending == w.pending[n..]
    {
      var w := writers[key];
      var w' := Advanced(w, n);
      WriterProgress(w, [], n);
      UnpublishedStep(ceiling, used, reserved, inflight, published, writers, uncounted, overshoot, key, w');
      writers := writers[key := w'];
    }

    /** Any error while receiving: the stream breaks, a write fails, a piece is not bytes. */
    method Fail(key: Key)
      requires Valid()
      requires key in writers && writers[key].phase == Receiving
      modifies `writers
      ensures Valid()
      ensures writers == old(writers)[key := old(writers[key]).(phase := Failing)]
    {
      var w := writers[key].(phase := Failing);
      UnpublishedStep(ceiling, used, reserved, inflight, published, writers, uncounted, overshoot, key, w);
      writers := writers[key := w];
    }

    /**
      The stream has ended: the staging directory is renamed. That the final name is taken is
      checked, and never happens.
     */
    method Publish(key: Key) returns (r: Result<(), EngineError>)
      requires Valid()
      requires key in writers && writers[key].phase == Receiving && writers[key].pending == []
      modifies `published, `writers
      ensures Valid()
      ensures r == Ok(())
      ensures published == old(published)[key := old(writers[key]).received]
      ensures writers == old(writers)[key := old(writers[key]).(phase := Published, staged := [])]
    {
      var w := writers[key];
      if key in published {
        assert false;
      }
      var w' := w.(phase := Published, staged := []);
      WriterProgress(w, [], 0);
      ChangedWriter(writers, key, w');
      SumInsert(published, key, w.staged, Size);
      if !earlyDelete && uncounted == 0 {
        ExactAfterPublish(used, published, writers, key, w', w.staged);
      }
      published := published[key := w.staged];
      writers := writers[key := w'];
      r := Ok(());
    }

    /** The locked stretch after publishing: the reservation turns into used bytes. */
    method Account(key: Key) returns (size: nat)
      requires Valid()
      requires key in writers && writers[key].phase == Published
      modifies `used, `reserved, `inflight, `writers
      ensures Valid()
      ensures size == old(writers[key]).size
      ensures used == old(used) + size && reserved == old(reserved) - size
      ensures writers == old(writers) - {key} && inflight == old(inflight) - {key}
    {
      var w := writers[key];
      size := w.size;
      GoneWriter(writers, key);
      if !earlyDelete && uncounted == 0 {
        ExactAfterAccount(used, published, writers, key);
      }
      reserved := Max(reserved - w.reserved, 0);
      used := used + size;
      inflight := inflight - {key};
      writers := writers - {key};
    }

    /** First half of the clean-up of a failed writer: its staging directory goes. */
    method RemoveStaging(key: Key)
      requires Valid()
      requires key in writers && writers[key].phase == Failing
      modifies `writers
      ensures Valid()
      ensures writers == old(writers)[key := old(writers[key]).(staged := [])]
    {
      var w := writers[key].(staged := []);
      UnpublishedStep(ceiling, used, reserved, inflight, published, writers, uncounted, overshoot, key, w);
      writers := writers[key := w];
    }

    /** Second half: the whole reservation is given back. */
    method Release(key: Key)
      requires Valid()
      requires key in writers && writers[key].phase == Failing && writers[key].staged == []
      modifies `reserved, `inflight, `writers
      ensures Valid()
      ensures reserved == old(reserved) - old(writers[key]).reserved
      ensures writers == old(writers) - {key} && inflight == old(inflight) - {key}
    {
      var w := writers[key];
      GoneWriter(writers, key);
      reserved := Max(reserved - w.reserved, 0);
      inflight := inflight - {key};
      writers := writers - {key};
    }

    method Delete(key: Key) returns (r: Result<(), EngineError>)
      requires Valid()
      modifies `used, `published, `overshoot, `earlyDelete
      ensures Valid()
      ensures r == if key in old(published) then Ok(()) else Err(NotFound)
      ensures published == old(published) - {key}
      ensures used == if r.Ok? then Max(0, old(used) - |old(published)[key]|) else old(used)
      ensures overshoot == if r.Ok? then old(overshoot) + Max(0, |old(published)[key]| - old(used)) else old(overshoot)
      ensures earlyDelete == (old(earlyDelete) || (r.Ok? && key in UnaccountedKeys(writers)))
    {
      if key !in published {
        return Err(NotFound);
      }
      var released := |published[key]|;
      SumRemove(published, key, Size);
      earlyDelete := earlyDelete || key in UnaccountedKeys(writers);
      if !earlyDelete && uncounted == 0 {
        ExactAfterDelete(used, published, writers, key);
      }
      overshoot := overshoot + Max(0, released - used);
      published := published - {key};
      used := Max(0, used - released);
      r := Ok(());
    }

    /** One scheduled step; a step that is not enabled does nothing. */
    method Perform(step: Step)
      requires Valid()
      modifies this
      ensures Valid() && Now() == Next(capacity, old(Now()), step)
      ensures earlyDelete == (old(earlyDelete) || Early(old(Now()), step))
      ensures overshoot == old(overshoot) + Clamped(old(Now()), step)
    {
      match step {
        case Receive(key, incoming, diskFree) =>
          PerformReceive(key, incoming, diskFree);
        case Publish(key) =>
          PerformEnd(step);
        case Account(key) =>
          PerformEnd(step);
        case Delete(key) =>
          assert key !in published ==> published == published - {key};
          var _ := Delete(key);
        case _ =>
          PerformUpload(step);
      }
    }

    /** The two steps that end a successful upload. */
    method PerformEnd(step: Step)
      requires Valid() && (step.Publish? || step.Account?)
      modifies `used, `reserved, `inflight, `published, `writers
      ensures Valid() && Now() == Next(capacity, old(Now()), step)
    {
      if step.Publish? && step.key in writers && writers[step.key].phase == Receiving
         && writers[step.key].pending == [] {
        var _ := Publish(step.key);
      }
      if step.Account? && step.key in writers && writers[step.key].phase == Published {
        var _ := Account(step.key);
      }
    }

    method PerformReceive(key: Key, incoming: Bytes, diskFree: nat)
      requires Valid()
      modifies `reserved, `writers
      ensures Valid() && Now() == Next(capacity, old(Now()), Step.Receive(key, incoming, diskFree))
    {
      if key in writers && writers[key].phase == Receiving && writers[key].pending == [] {
        assert incoming == [] ==> writers == writers[key := writers[key]];
        var _ := Receive(key, incoming, diskFree);
      }
    }

    /** The steps of a writer that change neither the disk nor what is used. */
    method PerformUpload(step: Step)
      requires Valid() && !step.Receive? && !step.Publish? && !step.Account? && !step.Delete?
      modifies `reserved, `inflight, `writers
      ensures Valid() && Now() == Next(capacity, old(Now()), step)
    {
      match step {
        case Begin(key) =>
          var _ := Begin(key);
        case WritePart(key, n) =>
          if key in writers && writers[key].phase == Receiving && n <= |writers[key].pending| {
            WritePart(key, n);
          }
        case Fail(key) =>
          if key in writers && writers[key].phase == Receiving {
            Fail(key);
          }
        case RemoveStaging(key) =>
          if key in writers && writers[key].phase == Failing {
            RemoveStaging(key);
          }
        case Release(key) =>
          if key in writers && writers[key].phase == Failing && writers[key].staged == [] {
            Release(key);
          }
      }
    }

    /**
      Every interleaving of any number of writers and deletes; `states` are those before and after every step.

      The counters bound the disk at every state, and every object consists of the pieces that its upload was allowed
      to send, in order (`ContentAt`). At rest, with nothing swallowed before and nothing missed at
      start-up, `used` is what a restart would count exactly when no delete of the schedule is clamped and every
      object under an id that ends in ".upload" is empty; and none is clamped if none hits an object between its
      rename and its accounting.
     */
    method Run(schedule: seq<Step>) returns (ghost states: seq<State>)
      requires Valid()
      modifies this
      ensures Valid() && IsRun(capacity, states, schedule) && states[0] == old(Now()) && states[|schedule|] == Now()
      ensures forall i :: 0 <= i < |states| ==> Within(states[i], ceiling, uncounted)
      ensures forall key, i: nat :: key !in old(writers) ==> ContentAt(capacity, states, schedule, key, i)
      ensures earlyDelete <==> old(earlyDelete) || AnyEarly(states, schedule)
      ensures overshoot == 0 <==> old(overshoot) == 0 && NoneClamped(states, schedule)
      ensures writers == map[] && uncounted == 0 && old(overshoot) == 0 ==>
                (used == Rescan(published) <==> NoneClamped(states, schedule) && HiddenAreEmpty(published))
      ensures uncounted == 0 && !old(earlyDelete) && !AnyEarly(states, schedule) ==>
                NoneClamped(states, schedule) && (writers == map[] ==> used == PublishedBytes(published))
    {
      states := [Now()];
      Bounded();
      for k := 0 to |schedule|
        invariant Valid() && IsRun(capacity, states, schedule[..k]) && states[0] == old(Now()) && states[k] == Now()
        invariant forall i :: 0 <= i <= k ==> Within(states[i], ceiling, uncounted)
        invariant earlyDelete <==> old(earlyDelete) || AnyEarly(states, schedule[..k])
        invariant overshoot == 0 <==> old(overshoot) == 0 && NoneClamped(states, schedule[..k])
      {
        Perform(schedule[k]);
        Bounded();
        RunGoesOn(capacity, states, schedule, k, Now());
        GuardsGoOn(states, schedule, k, Now());
        states := states + [Now()];
      }
      assert schedule[..|schedule|] == schedule;
      forall key, i: nat | key !in old(writers) ensures ContentAt(capacity, states, schedule, key, i) {
        ContentKept(capacity, states, schedule, key, i);
      }
      if writers == map[] {
        Quiescent();
      }
    }

    /**
      The disk never holds more than the counters and what start-up missed, and the counters never exceed the
      ceiling.
     */
    lemma Bounded()
      requires Valid()
      ensures Within(Now(), ceiling, uncounted)
    {
      SumPointwise(writers, Staged, Unaccounted, Reserved);
    }

    /**
      With no writer in flight `used` is the published bytes plus what clamped deletes left behind;
      a restart computes the same number exactly when there was no overshoot and no non-empty object
      whose version id ends in ".upload".
     */
    lemma Quiescent()
      requires Valid() && writers == map[]
      ensures reserved == 0
      ensures used + uncounted == PublishedBytes(published) + overshoot
      ensures !earlyDelete && uncounted == 0 ==> overshoot == 0
      ensures uncounted == 0 ==> (used == Rescan(published) <==> overshoot == 0 && HiddenAreEmpty(published))
    {
      RescanMisses(published);
    }
  }

  /** The scan misses exactly the objects under ".upload" directories. */
  lemma {:induction false} RescanMisses(published: map<Key, Bytes>)
    ensures Rescan(published) <= PublishedBytes(published)
    ensures Rescan(published) == PublishedBytes(published) <==> HiddenAreEmpty(published)
    decreases |published|
  {
    var seen := map k | k in published && !EndsWith(k.1, UPLOAD_SUFFIX) :: published[k];
    if published == map[] {
      assert seen == map[];
    } else {
      var k :| k in published;
      var rest := published - {k};
      SumRemove(published, k, Size);
      RescanMisses(rest);
      var seenRest := map j | j in rest && !EndsWith(j.1, UPLOAD_SUFFIX) :: rest[j];
      if EndsWith(k.1, UPLOAD_SUFFIX) {
        assert seen == seenRest;
      } else {
        SumRemove(seen, k, Size);
        assert seen - {k} == seenRest;
      }
    }
  }

  lemma NothingStored(empty: map<Key, Bytes>)
    requires empty == map[]
    ensures PublishedBytes(empty) == 0 && Rescan(empty) == 0
  {
    var seen := map k | k in empty && !EndsWith(k.1, UPLOAD_SUFFIX) :: empty[k];
    assert seen == map[];
  }

  /** An undisturbed upload whose only piece has been reserved. */
  method UploadStart(e: StorageEngine, key: Key, data: Bytes)
    requires e.Valid() && ValidId(key.0) && ValidId(key.1) && key !in e.inflight && key !in e.published
    requires 0 < |data| <= e.capacity - e.used - e.reserved
    modifies e`reserved, e`inflight, e`writers
    ensures e.Valid() && e.writers == old(e.writers)[key := Accepted(Writer(Receiving, 0, [], [], [], 0), data)]
  {
    var _ := e.Begin(key);
    var _ := e.Receive(key, data, |data|);
  }

  /** The same, up to the end of the stream. */
  method UploadWhole(e: StorageEngine, key: Key, data: Bytes)
    requires e.Valid() && ValidId(key.0) && ValidId(key.1) && key !in e.inflight && key !in e.published
    requires 0 < |data| <= e.capacity - e.used - e.reserved
    modifies e`reserved, e`inflight, e`writers
    ensures e.Valid() && e.writers == old(e.writers)[key := Writer(Receiving, |data|, data, [], data, |data|)]
  {
    WholePiece(data);
    UploadStart(e, key, data);
    e.WritePart(key, |data|);
  }

  lemma WholePiece(data: Bytes)
    ensures Advanced(Accepted(Writer(Receiving, 0, [], [], [], 0), data), |data|) == Writer(Receiving, |data|, data, [],
                                                                                            data, |data|)
  {
  }

  /**
    A delete between rename and accounting on an otherwise empty engine: the clamp at zero keeps the
    object's bytes in `used` for good, although nothing is stored and a restart would count nothing.
   */
  method DeleteBeforeAccounting(capacity: nat, key: Key, data: Bytes) returns (e: StorageEngine)
    requires ValidId(key.0) && ValidId(key.1) && 0 < |data| <= capacity
    ensures e.Valid() && e.writers == map[] && e.published == map[]
    ensures e.used == |data| == e.overshoot && Rescan(e.published) == 0
  {
    var empty: map<Key, Bytes> := map[];
    assert (map k | k in empty && !LooksStaged(k.1) :: empty[k]) == empty;
    NothingStored(empty);
    e := new StorageEngine(capacity, empty);
    assert e.inflight == {};
    UploadWhole(e, key, data);
    var _ := e.Publish(key);
    var _ := e.Delete(key);
    var _ := e.Account(key);
    assert e.writers == map[] && e.published == map[];
  }
}

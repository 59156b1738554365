/** The weekly rotation (src/App.tsx, generateSchedule). The pool is the class
    list in a shuffled order, taken here as an input; a cursor into the pool runs
    across all twelve slots of the week (Monday to Saturday, morning then
    afternoon). For each slot the scan tries at most one pass of the pool from the
    cursor, skipping classes that are busy in that slot, and the first free class
    takes the duty. */
module RotationScheduler {
  import opened Seqs
  import opened DutyTypes
  import opened ClassRegistry
  import opened WeekAnchor
  import opened DutyLedger

  const MORNING_TASK: string := "Trực cổng & Vệ sinh sân trường"
  const AFTERNOON_TASK: string := "Trực hành lang & Kiểm tra lớp"
  const SUPERVISOR: string := "Giáo viên trực tuần"

  /** Slots in a week: six days of two shifts. */
  const SLOT_COUNT: nat := 12

  /** The fixed task of a generated record, which depends on the shift only. */
  function DefaultTask(shift: Shift): string
  {
    if shift == Morning then MORNING_TASK else AFTERNOON_TASK
  }

  /** The day of slot i: slots run day-major, two per day, Monday first. */
  function SlotDay(i: nat): DayOfWeek
    requires i < SLOT_COUNT
  {
    if i < 2 then Mon else if i < 4 then Tue else if i < 6 then Wed
    else if i < 8 then Thu else if i < 10 then Fri else Sat
  }

  function SlotShift(i: nat): Shift
    requires i < SLOT_COUNT
  {
    if i % 2 == 0 then Morning else Afternoon
  }

  /** Every busy time names one of the twelve slots of the week. */
  lemma EveryBusyTimeIsASlot(bt: BusyTime)
    ensures exists i :: 0 <= i < SLOT_COUNT && SlotDay(i) == bt.day && SlotShift(i) == bt.shift
  {
    var i := 2 * DayIndex(bt.day) + (if bt.shift == Morning then 0 else 1);
    assert SlotDay(i) == bt.day && SlotShift(i) == bt.shift;
  }

  /** The class under cursor position k: positions wrap around the pool. */
  function PoolAt(pool: seq<ClassConfig>, k: nat): (c: ClassConfig)
    requires |pool| > 0
    ensures c in pool
  {
    pool[k % |pool|]
  }

  /** The scan for one slot, from the cursor, with `left` of the pass's
      |pool| attempts still to make: the class found (if any) and the cursor
      afterwards. An empty pool leaves no attempt, so the modulo is never reached. */
  function Scan(pool: seq<ClassConfig>, cursor: nat, left: nat, day: DayOfWeek, shift: Shift): (Option<ClassConfig>, nat)
    requires left <= |pool|
    decreases left
  {
    if left == 0 then (None, cursor)
    else
      var candidate := pool[cursor % |pool|];
      if !IsBusy(candidate, day, shift) then (Some(candidate), cursor + 1)
      else Scan(pool, cursor + 1, left - 1, day, shift)
  }

  /** A scan that finds a class takes the first class free in the slot from the
      cursor on: every position before it was busy, it is a pool class, and the
      cursor moves just past it, at most `left` places. A scan that finds none has
      met a busy class at each of the `left` positions and moves the cursor past
      all of them. */
  lemma {:induction false} ScanOutcome(pool: seq<ClassConfig>, cursor: nat, left: nat, day: DayOfWeek, shift: Shift)
    requires left <= |pool|
    ensures var r := Scan(pool, cursor, left, day, shift);
      && (r.0.Some? ==> && cursor < r.1 <= cursor + left
                        && r.0.value == PoolAt(pool, r.1 - 1)
                        && r.0.value in pool && !IsBusy(r.0.value, day, shift)
                        && forall k :: cursor <= k < r.1 - 1 ==> IsBusy(PoolAt(pool, k), day, shift))
      && (r.0.None? ==> r.1 == cursor + left && forall k :: cursor <= k < cursor + left ==> IsBusy(PoolAt(pool, k), day, shift))
    decreases left
  {
    if left > 0 && IsBusy(pool[cursor % |pool|], day, shift) {
      ScanOutcome(pool, cursor + 1, left - 1, day, shift);
    }
  }

  /** Some class of the pool is free in the slot. */
  predicate SlotOpen(pool: seq<ClassConfig>, i: nat)
    requires i < SLOT_COUNT
  {
    exists c :: c in pool && !IsBusy(c, SlotDay(i), SlotShift(i))
  }

  lemma MulAtLeast(n: int, k: int)
    requires n > 0 && k >= 1
    ensures n * k >= n
  {
  }

  lemma MulAtMost(n: int, k: int)
    requires n > 0 && k <= -1
    ensures n * k <= -n
  {
  }

  /** Euclidean remainder of a multiple of n plus a small m is m. */
  lemma ModOfMultiplePlus(a: int, n: int, m: int)
    requires 0 <= m < n
    ensures (n * a + m) % n == m
  {
    var x := n * a + m;
    var q := x / n;
    assert x == n * q + x % n;
    assert n * (a - q) == x % n - m;
    if a - q > 0 { MulAtLeast(n, a - q); }
    if a - q < 0 { MulAtMost(n, a - q); }
  }

  /** A pass of n consecutive cursor positions meets every index of the pool. */
  lemma PassCoversPool(cursor: nat, m: nat, n: nat)
    requires m < n
    ensures exists k :: cursor <= k < cursor + n && k % n == m
  {
    var q, r := cursor / n, cursor % n;
    assert cursor == n * q + r;
    var k := if r <= m then n * q + m else n * (q + 1) + m;
    if r <= m {
      ModOfMultiplePlus(q, n, m);
    } else {
      ModOfMultiplePlus(q + 1, n, m);
      assert n * (q + 1) == n * q + n;
    }
    assert cursor <= k < cursor + n && k % n == m;
  }

  /** A scan from any cursor that finds nothing has met every class of the pool busy. */
  lemma FailedScanMeansAllBusy(pool: seq<ClassConfig>, cursor: nat, day: DayOfWeek, shift: Shift)
    requires Scan(pool, cursor, |pool|, day, shift).0.None?
    ensures forall c :: c in pool ==> IsBusy(c, day, shift)
  {
    ScanOutcome(pool, cursor, |pool|, day, shift);
    forall c | c in pool ensures IsBusy(c, day, shift) {
      var m :| 0 <= m < |pool| && pool[m] == c;
      PassCoversPool(cursor, m, |pool|);
      var k :| cursor <= k < cursor + |pool| && k % |pool| == m;
      assert PoolAt(pool, k) == c;
    }
  }

  /** A slot is left unfilled only when every class of the pool is busy in it,
      and filled whenever some class is free. */
  lemma ScanFindsOpenSlot(pool: seq<ClassConfig>, cursor: nat, i: nat)
    requires i < SLOT_COUNT
    ensures Scan(pool, cursor, |pool|, SlotDay(i), SlotShift(i)).0.Some? <==> SlotOpen(pool, i)
  {
    var r := Scan(pool, cursor, |pool|, SlotDay(i), SlotShift(i));
    ScanOutcome(pool, cursor, |pool|, SlotDay(i), SlotShift(i));
    if r.0.None? {
      FailedScanMeansAllBusy(pool, cursor, SlotDay(i), SlotShift(i));
    } else {
      assert r.0.value in pool;
    }
  }

  /** The record written for a filled slot. */
  function SlotRecord(id: string, date: string, shift: Shift, className: string): DutyRecord
  {
    DutyRecord(id, date, shift, className, DefaultTask(shift), SUPERVISOR, Good, None)
  }

  /** The records after slot i, given what the slot's scan found: the found class's
      record, with the next fresh id, is appended to those written so far. */
  function Written(done: seq<DutyRecord>, found: Option<ClassConfig>, i: nat, monday: int,
                   newId: nat -> string, formatDate: int -> string): seq<DutyRecord>
    requires i < SLOT_COUNT
  {
    if found.Some? then done + [SlotRecord(newId(|done|), formatDate(monday + i / 2), SlotShift(i), found.value.name)]
    else done
  }

  /** A filled slot appends exactly its record. */
  lemma WrittenFilled(done: seq<DutyRecord>, found: Option<ClassConfig>, i: nat, monday: int,
                   newId: nat -> string, formatDate: int -> string)
    requires i < SLOT_COUNT && found.Some?
    ensures Written(done, found, i, monday, newId, formatDate) == done + [SlotRecord(newId(|done|), formatDate(monday + i / 2), SlotShift(i), found.value.name)]
  {
  }

  /** The run over slots i.. of the week with the cursor at `cursor`, appending to
      the records `done` already written. */
  function RunFrom(pool: seq<ClassConfig>, cursor: nat, i: nat, monday: int,
                   newId: nat -> string, formatDate: int -> string, done: seq<DutyRecord>): seq<DutyRecord>
    decreases SLOT_COUNT - i
  {
    if i >= SLOT_COUNT then done
    else
      var scan := Scan(pool, cursor, |pool|, SlotDay(i), SlotShift(i));
      RunFrom(pool, scan.1, i + 1, monday, newId, formatDate, Written(done, scan.0, i, monday, newId, formatDate))
  }

  /** The batch one run of the rotation produces for the week starting on `monday`. */
  function Schedule(pool: seq<ClassConfig>, monday: int, newId: nat -> string, formatDate: int -> string): seq<DutyRecord>
  {
    RunFrom(pool, 0, 0, monday, newId, formatDate, [])
  }

  /** One slot of the run: the scan's result decides what is written, and the run
      goes on from the scan's cursor. */
  lemma SlotStep(pool: seq<ClassConfig>, cursor: nat, i: nat, monday: int,
                 newId: nat -> string, formatDate: int -> string,
                 done: seq<DutyRecord>, found: Option<ClassConfig>, next: nat)
    requires i < SLOT_COUNT
    requires (found, next) == Scan(pool, cursor, |pool|, SlotDay(i), SlotShift(i))
    ensures RunFrom(pool, cursor, i, monday, newId, formatDate, done)
      == RunFrom(pool, next, i + 1, monday, newId, formatDate, Written(done, found, i, monday, newId, formatDate))
  {
  }

  /** The run never changes the records already written and adds at most one record
      per remaining slot. */
  lemma {:induction false} RunFromExtends(pool: seq<ClassConfig>, cursor: nat, i: nat, monday: int,
                                         newId: nat -> string, formatDate: int -> string, done: seq<DutyRecord>)
    requires i <= SLOT_COUNT
    ensures var r := RunFrom(pool, cursor, i, monday, newId, formatDate, done);
      |done| <= |r| <= |done| + (SLOT_COUNT - i) && r[..|done|] == done
    decreases SLOT_COUNT - i
  {
    if i < SLOT_COUNT {
      var scan := Scan(pool, cursor, |pool|, SlotDay(i), SlotShift(i));
      var next := Written(done, scan.0, i, monday, newId, formatDate);
      SlotStep(pool, cursor, i, monday, newId, formatDate, done, scan.0, scan.1);
      WrittenExtends(done, scan.0, i, monday, newId, formatDate);
      RunFromExtends(pool, scan.1, i + 1, monday, newId, formatDate, next);
      PrefixOfPrefix(RunFrom(pool, scan.1, i + 1, monday, newId, formatDate, next), next, done);
    }
  }

  /** A slot adds at most one record and keeps those already written. */
  lemma WrittenExtends(done: seq<DutyRecord>, found: Option<ClassConfig>, i: nat, monday: int,
                       newId: nat -> string, formatDate: int -> string)
    requires i < SLOT_COUNT
    ensures var next := Written(done, found, i, monday, newId, formatDate);
      |done| <= |next| <= |done| + 1 && next[..|done|] == done
  {
  }

  lemma PrefixOfPrefix(r: seq<DutyRecord>, next: seq<DutyRecord>, done: seq<DutyRecord>)
    requires |done| <= |next| <= |r| && r[..|next|] == next && next[..|done|] == done
    ensures r[..|done|] == done
  {
    assert r[..|next|][..|done|] == r[..|done|];
  }

  /** The open slots among the first n slots of the week, in week order. */
  function OpenSlotsBefore(pool: seq<ClassConfig>, n: nat): seq<nat>
    requires n <= SLOT_COUNT
  {
    if n == 0 then []
    else if SlotOpen(pool, n - 1) then OpenSlotsBefore(pool, n - 1) + [n - 1]
    else OpenSlotsBefore(pool, n - 1)
  }

  /** The open slots of the week, in week order. */
  function OpenSlots(pool: seq<ClassConfig>): seq<nat>
  {
    OpenSlotsBefore(pool, SLOT_COUNT)
  }

  /** The slots listed below n are open, every open slot below n is listed,
      and the list is strictly increasing (so no slot is listed twice). */
  lemma {:induction false} OpenSlotsBeforeAreTheOpenSlots(pool: seq<ClassConfig>, n: nat)
    requires n <= SLOT_COUNT
    ensures var slots := OpenSlotsBefore(pool, n);
      && |slots| <= n
      && (forall k :: 0 <= k < |slots| ==> slots[k] < n && SlotOpen(pool, slots[k]))
      && (forall j :: 0 <= j < n && SlotOpen(pool, j) ==> j in slots)
      && (forall a, b :: 0 <= a < b < |slots| ==> slots[a] < slots[b])
    decreases n
  {
    if n > 0 {
      OpenSlotsBeforeAreTheOpenSlots(pool, n - 1);
      var prev := OpenSlotsBefore(pool, n - 1);
      if SlotOpen(pool, n - 1) {
        var slots := prev + [n - 1];
        assert forall k :: 0 <= k < |prev| ==> slots[k] == prev[k];
      }
    }
  }

  /** Record r fills slot i of the week: its date and shift are the slot's, it names a
      class of the pool that is free in the slot, and it carries the default task,
      supervisor, evaluation and no notes. */
  predicate FillsSlot(r: DutyRecord, pool: seq<ClassConfig>, i: nat, monday: int, formatDate: int -> string)
    requires i < SLOT_COUNT
  {
    && r.date == formatDate(monday + i / 2)
    && r.shift == SlotShift(i)
    && r.mainTask == DefaultTask(r.shift)
    && r.supervisor == SUPERVISOR
    && r.evaluation == Good
    && r.notes == None
    && exists c :: c in pool && c.name == r.className && !IsBusy(c, SlotDay(i), SlotShift(i))
  }

  /** Record k of `out` fills slot slots[k] and carries the k-th fresh id. */
  predicate FillsInOrder(out: seq<DutyRecord>, slots: seq<nat>, pool: seq<ClassConfig>, monday: int,
                         newId: nat -> string, formatDate: int -> string)
  {
    && |out| == |slots|
    && forall k :: 0 <= k < |out| ==>
         slots[k] < SLOT_COUNT && out[k].id == newId(k) && FillsSlot(out[k], pool, slots[k], monday, formatDate)
  }

  /** The record written for a slot where the scan found a class fills that slot,
      so appending it and the slot keeps records and slots in step. */
  lemma FilledSlotInOrder(pool: seq<ClassConfig>, cursor: nat, i: nat, monday: int,
                          newId: nat -> string, formatDate: int -> string,
                          out: seq<DutyRecord>, slots: seq<nat>, found: Option<ClassConfig>, next: nat)
    requires i < SLOT_COUNT
    requires (found, next) == Scan(pool, cursor, |pool|, SlotDay(i), SlotShift(i))
    requires found.Some?
    requires FillsInOrder(out, slots, pool, monday, newId, formatDate)
    ensures FillsInOrder(out + [SlotRecord(newId(|out|), formatDate(monday + i / 2), SlotShift(i), found.value.name)],
                         slots + [i], pool, monday, newId, formatDate)
  {
    ScanOutcome(pool, cursor, |pool|, SlotDay(i), SlotShift(i));
    var record := SlotRecord(newId(|out|), formatDate(monday + i / 2), SlotShift(i), found.value.name);
    assert FillsSlot(record, pool, i, monday, formatDate);
    var out', slots' := out + [record], slots + [i];
    assert forall k :: 0 <= k < |out| ==> out'[k] == out[k] && slots'[k] == slots[k];
  }

  /** The batch holds one record per open slot, in week order (day-major, morning
      before afternoon): each names a pool class free in its slot, carries the fixed
      defaults and the k-th fresh id. Slots where every class is busy are skipped. */
  lemma ScheduleFillsOpenSlots(pool: seq<ClassConfig>, monday: int, newId: nat -> string, formatDate: int -> string)
    ensures var out := Schedule(pool, monday, newId, formatDate);
      var slots := OpenSlots(pool);
      && |out| == |slots| <= SLOT_COUNT
      && forall k :: 0 <= k < |out| ==> slots[k] < SLOT_COUNT && out[k].id == newId(k) && FillsSlot(out[k], pool, slots[k], monday, formatDate)
  {
    var schedule := Schedule(pool, monday, newId, formatDate);
    var out: seq<DutyRecord> := [];
    var slots: seq<nat> := [];
    var cursor: nat := 0;
    var i: nat := 0;
    while i < SLOT_COUNT
      invariant i <= SLOT_COUNT && slots == OpenSlotsBefore(pool, i) && |slots| <= i
      invariant RunFrom(pool, cursor, i, monday, newId, formatDate, out) == schedule
      invariant FillsInOrder(out, slots, pool, monday, newId, formatDate)
      decreases SLOT_COUNT - i
    {
      var scan := Scan(pool, cursor, |pool|, SlotDay(i), SlotShift(i));
      ScanFindsOpenSlot(pool, cursor, i);
      SlotStep(pool, cursor, i, monday, newId, formatDate, out, scan.0, scan.1);
      if scan.0.Some? {
        WrittenFilled(out, scan.0, i, monday, newId, formatDate);
        FilledSlotInOrder(pool, cursor, i, monday, newId, formatDate, out, slots, scan.0, scan.1);
        out := out + [SlotRecord(newId(|out|), formatDate(monday + i / 2), SlotShift(i), scan.0.value.name)];
        slots := slots + [i];
      }
      cursor := scan.1;
      i := i + 1;
    }
  }

  /** Every generated record carries the morning task in the morning shift and the
      afternoon task otherwise, the week's supervisor, a "Tốt" evaluation and no notes. */
  lemma GeneratedRecordsCarryDefaults(pool: seq<ClassConfig>, monday: int, newId: nat -> string, formatDate: int -> string)
    ensures forall r :: r in Schedule(pool, monday, newId, formatDate) ==> CarriesDefaults(r)
  {
    var out := Schedule(pool, monday, newId, formatDate);
    ScheduleFillsOpenSlots(pool, monday, newId, formatDate);
    var slots := OpenSlots(pool);
    forall r | r in out ensures CarriesDefaults(r) {
      var k :| 0 <= k < |out| && out[k] == r;
      FilledRecordDefaults(r, pool, slots[k], monday, formatDate);
    }
  }

  /** A record that fills a slot carries the defaults, read through the labels. */
  lemma FilledRecordDefaults(r: DutyRecord, pool: seq<ClassConfig>, i: nat, monday: int, formatDate: int -> string)
    requires i < SLOT_COUNT && FillsSlot(r, pool, i, monday, formatDate)
    ensures CarriesDefaults(r)
  {
  }

  /** The fixed fields of a generated record, read through the stored labels: the
      morning task exactly in the "Sáng" shift, the week's supervisor, a "Tốt"
      evaluation and no notes. */
  predicate CarriesDefaults(r: DutyRecord)
  {
    && r.mainTask == (if r.shift.Label() == "Sáng" then "Trực cổng & Vệ sinh sân trường" else "Trực hành lang & Kiểm tra lớp")
    && r.supervisor == "Giáo viên trực tuần"
    && r.evaluation.Label() == "Tốt"
    && r.notes.None?
  }

  /** Putting the batch in front of a ledger with unique ids keeps ids unique when
      the fresh ids are distinct and none is already in the ledger. */
  lemma ScheduleKeepsUniqueIds(pool: seq<ClassConfig>, monday: int, newId: nat -> string, formatDate: int -> string,
                               records: seq<DutyRecord>)
    requires UniqueIds(records)
    requires forall a, b :: 0 <= a < b < SLOT_COUNT ==> newId(a) != newId(b)
    requires forall k, r :: 0 <= k < SLOT_COUNT && r in records ==> r.id != newId(k)
    ensures UniqueIds(Schedule(pool, monday, newId, formatDate) + records)
  {
    var out := Schedule(pool, monday, newId, formatDate);
    ScheduleFillsOpenSlots(pool, monday, newId, formatDate);
    var all := out + records;
    forall i, j | 0 <= i < j < |all| ensures all[i].id != all[j].id {
      if j >= |out| {
        assert all[j] == records[j - |out|];
        if i >= |out| {
          assert all[i] == records[i - |out|];
        } else {
          assert all[j] in records;
        }
      }
    }
  }

  /** With an empty pool the batch is empty. */
  lemma EmptyPoolSchedulesNothing(monday: int, newId: nat -> string, formatDate: int -> string)
    ensures Schedule([], monday, newId, formatDate) == []
  {
    ScheduleFillsOpenSlots([], monday, newId, formatDate);
  }

  /** When no class is busy, the scan takes the class under the cursor. */
  lemma FirstCandidateIsFree(pool: seq<ClassConfig>, cursor: nat, day: DayOfWeek, shift: Shift)
    requires |pool| > 0
    requires forall c :: c in pool ==> c.busyTimes == []
    ensures Scan(pool, cursor, |pool|, day, shift) == (Some(PoolAt(pool, cursor)), cursor + 1)
  {
    assert !IsBusy(PoolAt(pool, cursor), day, shift);
  }

  /** Appending the record that names the next class of the pool keeps record k
      naming the class at cursor position k. */
  lemma NamesExtend(out: seq<DutyRecord>, record: DutyRecord, pool: seq<ClassConfig>)
    requires |pool| > 0
    requires forall k :: 0 <= k < |out| ==> out[k].className == PoolAt(pool, k).name
    requires record.className == PoolAt(pool, |out|).name
    ensures forall k :: 0 <= k < |out| + 1 ==> (out + [record])[k].className == PoolAt(pool, k).name
  {
  }

  /** With no busy class every slot is filled and the cursor walks the pool
      round-robin: record k names pool[k mod |pool|]. */
  lemma RoundRobinWhenNoneBusy(pool: seq<ClassConfig>, monday: int, newId: nat -> string, formatDate: int -> string)
    requires |pool| > 0
    requires forall c :: c in pool ==> c.busyTimes == []
    ensures var out := Schedule(pool, monday, newId, formatDate);
      && |out| == SLOT_COUNT
      && forall k :: 0 <= k < |out| ==> out[k].className == PoolAt(pool, k).name
  {
    var schedule := Schedule(pool, monday, newId, formatDate);
    var out: seq<DutyRecord> := [];
    var i: nat := 0;
    while i < SLOT_COUNT
      invariant i <= SLOT_COUNT && |out| == i
      invariant RunFrom(pool, i, i, monday, newId, formatDate, out) == schedule
      invariant forall k :: 0 <= k < i ==> out[k].className == PoolAt(pool, k).name
      decreases SLOT_COUNT - i
    {
      var candidate := PoolAt(pool, i);
      FirstCandidateIsFree(pool, i, SlotDay(i), SlotShift(i));
      SlotStep(pool, i, i, monday, newId, formatDate, out, Some(candidate), i + 1);
      WrittenFilled(out, Some(candidate), i, monday, newId, formatDate);
      var record := SlotRecord(newId(i), formatDate(monday + i / 2), SlotShift(i), candidate.name);
      NamesExtend(out, record, pool);
      out := out + [record];
      i := i + 1;
    }
  }

  /** Slot i is shift j of day d, for i = 2 * d + j. */
  lemma SlotOfDayAndShift(i: nat, d: nat, j: nat, monday: int, formatDate: int -> string)
    requires d < |DAYS| && j < |SHIFTS| && i == 2 * d + j
    ensures i < SLOT_COUNT
    ensures SlotDay(i) == DAYS[d] && SlotShift(i) == SHIFTS[j]
    ensures formatDate(monday + i / 2) == formatDate(monday + d)
  {
  }

  /** Records that fill slots name classes of the pool. */
  lemma FilledRecordsNamePoolClasses(out: seq<DutyRecord>, slots: seq<nat>, pool: seq<ClassConfig>, monday: int,
                                     newId: nat -> string, formatDate: int -> string)
    requires FillsInOrder(out, slots, pool, monday, newId, formatDate)
    ensures forall r :: r in out ==> exists c :: c in pool && c.name == r.className
  {
    forall r | r in out ensures exists c :: c in pool && c.name == r.className {
      var k :| 0 <= k < |out| && out[k] == r;
      assert FillsSlot(out[k], pool, slots[k], monday, formatDate);
    }
  }

  /** Every record of the batch names a class of the registry that the pool was shuffled from. */
  lemma ScheduleNamesRegistryClasses(classes: seq<ClassConfig>, classPool: seq<ClassConfig>, monday: int,
                                     newId: nat -> string, formatDate: int -> string)
    requires multiset(classPool) == multiset(classes)
    ensures forall r :: r in Schedule(classPool, monday, newId, formatDate) ==>
      exists c :: c in classes && c.name == r.className
  {
    var out := Schedule(classPool, monday, newId, formatDate);
    ScheduleFillsOpenSlots(classPool, monday, newId, formatDate);
    FilledRecordsNamePoolClasses(out, OpenSlots(classPool), classPool, monday, newId, formatDate);
    forall r | r in out ensures exists c :: c in classes && c.name == r.className {
      var c :| c in classPool && c.name == r.className;
      assert c in multiset(classPool);
    }
  }

  /** The scan loop for one slot: from the cursor, try at most one pass of the
      pool, skipping classes busy in the slot; stop at the first free class. */
  method FindFreeClass(classPool: seq<ClassConfig>, cursor: nat, day: DayOfWeek, shift: Shift)
    returns (foundClass: Option<ClassConfig>, classIndex: nat)
    ensures (foundClass, classIndex) == Scan(classPool, cursor, |classPool|, day, shift)
  {
    foundClass := None;
    classIndex := cursor;
    var attempts: nat := 0;
    while attempts < |classPool|
      invariant attempts <= |classPool|
      invariant Scan(classPool, classIndex, |classPool| - attempts, day, shift) == Scan(classPool, cursor, |classPool|, day, shift)
      decreases |classPool| - attempts
    {
      var candidate := classPool[classIndex % |classPool|];
      var isBusy := IsBusy(candidate, day, shift);
      if !isBusy {
        foundClass := Some(candidate);
        classIndex := classIndex + 1;
        return;
      }
      classIndex := classIndex + 1;
      attempts := attempts + 1;
    }
  }

  /** One run of the rotation: anchor the week on a Monday, walk the twelve slots
      with a cursor that persists across slots, write a record for each slot where
      a free class is found, and put the batch in front of the ledger.
      `classPool` is the registry in shuffled order; `newId(k)` is the fresh id of
      the k-th new record and `formatDate` renders a day number as a date. */
  method GenerateSchedule(classes: seq<ClassConfig>, classPool: seq<ClassConfig>, records: seq<DutyRecord>,
                          startDay: int, newId: nat -> string, formatDate: int -> string)
    returns (monday: int, newRecords: seq<DutyRecord>, ledger: seq<DutyRecord>)
    requires multiset(classPool) == multiset(classes)
    ensures monday == AnchorMonday(startDay)
    ensures newRecords == Schedule(classPool, monday, newId, formatDate)
    ensures |newRecords| <= SLOT_COUNT
    ensures forall r :: r in newRecords ==> exists c :: c in classes && c.name == r.className
    ensures ledger == newRecords + records
  {
    monday := StartOfWeek(startDay);

    newRecords := [];
    var classIndex: nat := 0;
    ghost var schedule := Schedule(classPool, monday, newId, formatDate);
    ghost var slot: nat := 0;

    for d := 0 to 6
      invariant slot == 2 * d
      invariant RunFrom(classPool, classIndex, slot, monday, newId, formatDate, newRecords) == schedule
    {
      var dateStr := formatDate(monday + d);
      var dayName := DAYS[d];

      for j := 0 to |SHIFTS|
        invariant slot == 2 * d + j
        invariant RunFrom(classPool, classIndex, slot, monday, newId, formatDate, newRecords) == schedule
      {
        var shift := SHIFTS[j];
        SlotOfDayAndShift(slot, d, j, monday, formatDate);
        ghost var cursor := classIndex;

        var foundClass;
        foundClass, classIndex := FindFreeClass(classPool, classIndex, dayName, shift);

        SlotStep(classPool, cursor, slot, monday, newId, formatDate, newRecords, foundClass, classIndex);

        if foundClass.Some? {
          var record := SlotRecord(newId(|newRecords|), dateStr, shift, foundClass.value.name);
          WrittenFilled(newRecords, foundClass, slot, monday, newId, formatDate);
          newRecords := newRecords + [record];
        }
        slot := slot + 1;
      }
    }

    ScheduleFillsOpenSlots(classPool, monday, newId, formatDate);
    ScheduleNamesRegistryClasses(classes, classPool, monday, newId, formatDate);
    ledger := newRecords + records;
  }
}

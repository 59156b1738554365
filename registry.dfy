/** The class registry: each class's busy times and the settings toggle that
    flips one (day, shift) pair in a class's list (src/App.tsx, toggleBusyTime). */
module ClassRegistry {
  import opened Seqs
  import opened DutyTypes

  /** The class cannot take duty in the given slot. */
  predicate IsBusy(c: ClassConfig, day: DayOfWeek, shift: Shift)
  {
    BusyTime(day, shift) in c.busyTimes
  }

  /** The membership test is the application's scan of the busy list for an entry
      with the same day and the same shift. */
  lemma IsBusyIsSomeMatch(c: ClassConfig, day: DayOfWeek, shift: Shift)
    ensures IsBusy(c, day, shift) <==>
      exists i :: 0 <= i < |c.busyTimes| && c.busyTimes[i].day == day && c.busyTimes[i].shift == shift
  {
    if IsBusy(c, day, shift) {
      var i :| 0 <= i < |c.busyTimes| && c.busyTimes[i] == BusyTime(day, shift);
    }
  }

  /** Flip one pair in a busy list: drop every copy of it when present,
      otherwise append it at the end. */
  function ToggleBusyTimes(busyTimes: seq<BusyTime>, day: DayOfWeek, shift: Shift): (r: seq<BusyTime>)
    ensures BusyTime(day, shift) in r <==> BusyTime(day, shift) !in busyTimes
    ensures forall bt :: bt != BusyTime(day, shift) ==> (bt in r <==> bt in busyTimes)
  {
    if BusyTime(day, shift) in busyTimes then
      Filter(busyTimes, (bt: BusyTime) => !(bt.day == day && bt.shift == shift))
    else
      busyTimes + [BusyTime(day, shift)]
  }

  /** Toggle the pair in the class with the given id; every other class is left alone.
      An id that names no class changes nothing. */
  function ToggleBusyTime(classes: seq<ClassConfig>, classId: string, day: DayOfWeek, shift: Shift): (r: seq<ClassConfig>)
    ensures |r| == |classes|
    ensures forall i :: 0 <= i < |classes| && classes[i].id != classId ==> r[i] == classes[i]
    ensures forall i :: 0 <= i < |classes| && classes[i].id == classId ==>
      && r[i].id == classes[i].id && r[i].name == classes[i].name
      && (IsBusy(r[i], day, shift) <==> !IsBusy(classes[i], day, shift))
      && forall bt :: bt != BusyTime(day, shift) ==> (bt in r[i].busyTimes <==> bt in classes[i].busyTimes)
    ensures (forall c :: c in classes ==> c.id != classId) ==> r == classes
  {
    seq(|classes|, i requires 0 <= i < |classes| =>
      var c := classes[i];
      if c.id != classId then c
      else c.(busyTimes := ToggleBusyTimes(c.busyTimes, day, shift)))
  }

  /** Toggling a pair that was absent and toggling it again restores the exact list. */
  lemma ToggleTwiceRestoresAbsent(busyTimes: seq<BusyTime>, day: DayOfWeek, shift: Shift)
    requires BusyTime(day, shift) !in busyTimes
    ensures ToggleBusyTimes(ToggleBusyTimes(busyTimes, day, shift), day, shift) == busyTimes
  {
    var p := (bt: BusyTime) => !(bt.day == day && bt.shift == shift);
    FilterAppend(busyTimes, [BusyTime(day, shift)], p);
    FilterKeepsAll(busyTimes, p);
    assert Filter([BusyTime(day, shift)], p) == [];
  }

  /** Toggling twice always restores which pairs are busy, whatever the list held. */
  lemma ToggleTwiceRestoresMembership(busyTimes: seq<BusyTime>, day: DayOfWeek, shift: Shift)
    ensures forall bt :: bt in ToggleBusyTimes(ToggleBusyTimes(busyTimes, day, shift), day, shift) <==> bt in busyTimes
  {
  }

  /** Toggling a present pair twice removes every copy of it and appends one copy
      at the end. */
  lemma ToggleTwiceMovesPresentToEnd(busyTimes: seq<BusyTime>, day: DayOfWeek, shift: Shift)
    requires BusyTime(day, shift) in busyTimes
    ensures ToggleBusyTimes(ToggleBusyTimes(busyTimes, day, shift), day, shift)
         == Filter(busyTimes, (bt: BusyTime) => !(bt.day == day && bt.shift == shift)) + [BusyTime(day, shift)]
  {
    assert BusyTime(day, shift) !in ToggleBusyTimes(busyTimes, day, shift);
  }

  /** When the pair was present and is not last, toggling twice moves it to the end:
      the list is restored as a set but not as a list. */
  lemma ToggleTwiceReordersPresent()
    ensures var before := [BusyTime(Mon, Morning), BusyTime(Tue, Morning)];
      ToggleBusyTimes(ToggleBusyTimes(before, Mon, Morning), Mon, Morning)
        == [BusyTime(Tue, Morning), BusyTime(Mon, Morning)]
  {
    var before := [BusyTime(Mon, Morning), BusyTime(Tue, Morning)];
    var p := (bt: BusyTime) => !(bt.day == Mon && bt.shift == Morning);
    assert before[1..] == [BusyTime(Tue, Morning)];
    assert Filter(before[1..][1..], p) == [];
    assert Filter(before, p) == [BusyTime(Tue, Morning)];
  }

  /** Toggling absent pairs twice on the registry gives back the same registry. */
  lemma RegistryToggleTwiceRestores(classes: seq<ClassConfig>, classId: string, day: DayOfWeek, shift: Shift)
    requires forall c :: c in classes && c.id == classId ==> !IsBusy(c, day, shift)
    ensures ToggleBusyTime(ToggleBusyTime(classes, classId, day, shift), classId, day, shift) == classes
  {
    var once := ToggleBusyTime(classes, classId, day, shift);
    var twice := ToggleBusyTime(once, classId, day, shift);
    forall i | 0 <= i < |classes| ensures twice[i] == classes[i] {
      if classes[i].id == classId {
        ToggleTwiceRestoresAbsent(classes[i].busyTimes, day, shift);
      }
    }
  }

  /** A busy list without repeated pairs keeps that property under toggling. */
  lemma ToggleKeepsNoDuplicates(busyTimes: seq<BusyTime>, day: DayOfWeek, shift: Shift)
    requires UniqueBy(busyTimes, (bt: BusyTime) => bt)
    ensures UniqueBy(ToggleBusyTimes(busyTimes, day, shift), (bt: BusyTime) => bt)
  {
    if BusyTime(day, shift) in busyTimes {
      FilterUniqueBy(busyTimes, (bt: BusyTime) => !(bt.day == day && bt.shift == shift), (bt: BusyTime) => bt);
    }
  }
}

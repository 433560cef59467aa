/** The WorldClockApp component as an object: its six pieces of state are
    fields, each event handler is a method that updates them step by step,
    and every method is proved to perform the step function of module
    EditSession on the state it starts from. The host's
    `getTimezoneOffset()` is the constant `hostOffset`. */
module WorldClockApp {
  import opened Options
  import opened Calendar
  import opened Text
  import opened Zones
  import opened Projection
  import opened EditSession

  /** How a call of handleSave ended: no editor was open, the draft was
      rejected ("Invalid time values"), the lookup found no zone (the
      TypeError the same handler catches), or the edit was committed. */
  datatype SaveOutcome = NotEditing | Rejected | NoSuchZone | Committed

  /** `generateTimeOptions(max)`: the option values "00", "01", ... up to
      max - 1. Every value is its index in two digits, reads back as that
      index, and no two are equal, so the `key`s React sees are unique. */
  method GenerateTimeOptions(max: int) returns (options: seq<string>)
    ensures |options| == if max < 0 then 0 else max
    ensures forall i :: 0 <= i < |options| ==> options[i] == TwoDigits(i)
    ensures forall i :: 0 <= i < |options| ==> ParseInt(options[i]) == Some(i)
    ensures forall i, j :: 0 <= i < |options| && 0 <= j < |options| && options[i] == options[j] ==> i == j
  {
    options := [];
    var i := 0;
    while i < max
      invariant i == 0 || i <= max
      invariant |options| == i
      invariant forall k :: 0 <= k < i ==> options[k] == TwoDigits(k)
    {
      var value := TwoDigits(i);
      options := options + [value];
      i := i + 1;
    }
    forall k | 0 <= k < |options| ensures ParseInt(options[k]) == Some(k) {
      ParsePadded(k, 2);
    }
    forall k, j | 0 <= k < |options| && 0 <= j < |options| && options[k] == options[j] ensures k == j {
      TwoDigitsInjective(k, j);
    }
  }

  class WorldClock {
    /** `getTimezoneOffset()` of the host, in minutes (UTC minus local). */
    const hostOffset: int
    var currentTime: int
    var editMode: Option<int>
    var editHours: string
    var editMinutes: string
    var editSeconds: string
    var isLive: bool

    /** The component's state as a value. */
    function Snapshot(): Session
      reads this
    {
      Session(currentTime, editMode, editHours, editMinutes, editSeconds, isLive)
    }

    /** Mounting: the six `useState` initial values. */
    constructor (now: int, hostOffset: int)
      ensures this.hostOffset == hostOffset
      ensures Snapshot() == Initial(now)
    {
      this.hostOffset := hostOffset;
      currentTime := now;
      editMode := None;
      editHours := "";
      editMinutes := "";
      editSeconds := "";
      isLive := true;
    }

    /** getTimeForTimezone(offset): a copy of currentTime, moved back to UTC
        by the host's offset and then forward by the zone's. */
    method GetTimeForTimezone(offset: int) returns (time: int)
      ensures LocalTime(time, hostOffset) == ZoneWallClock(currentTime, offset)
      ensures time == TimeForTimezone(currentTime, hostOffset, offset)
    {
      time := currentTime;
      time := time + hostOffset * MsPerMinute;
      time := time + offset * MsPerMinute;
    }

    /** The hour, minute and second the zone with this id shows, as the
        two-digit strings handleEdit puts into the draft. */
    method ShownDraft(id: int) returns (hours: string, minutes: string, seconds: string)
      requires IsZoneId(id)
      ensures var w := Shown(currentTime, hostOffset, id);
              hours == TwoDigits(HourFromTime(w)) && minutes == TwoDigits(MinFromTime(w)) &&
              seconds == TwoDigits(SecFromTime(w))
    {
      var clock := Find(Clocks(currentTime, hostOffset), id);
      assert clock.Some? && clock.value.offset == ZoneOffset(currentTime, hostOffset, id) by {
        FindClock(currentTime, hostOffset, id);
      }
      var time := GetTimeForTimezone(clock.value.offset);
      var local := LocalTime(time, hostOffset);
      hours := TwoDigits(HourFromTime(local));
      minutes := TwoDigits(MinFromTime(local));
      seconds := TwoDigits(SecFromTime(local));
    }

    /** handleEdit(id), for an id of the table (the only ids the edit
        buttons pass). */
    method HandleEdit(id: int)
      requires IsZoneId(id)
      modifies this
      ensures Snapshot() == Edit(old(Snapshot()), hostOffset, id)
    {
      ghost var before := Snapshot();
      isLive := false;
      var hours, minutes, seconds := ShownDraft(id);
      editHours := hours;
      editMinutes := minutes;
      editSeconds := seconds;
      editMode := Some(id);
      assert Snapshot() == before.(isLive := false, editHours := hours, editMinutes := minutes,
                                   editSeconds := seconds, editMode := Some(id));
    }

    /** The select's onChange handler for the hours. */
    method SetEditHours(value: string)
      modifies this
      ensures Snapshot() == old(Snapshot()).(editHours := value)
    {
      editHours := value;
    }

    /** The select's onChange handler for the minutes. */
    method SetEditMinutes(value: string)
      modifies this
      ensures Snapshot() == old(Snapshot()).(editMinutes := value)
    {
      editMinutes := value;
    }

    /** The select's onChange handler for the seconds. */
    method SetEditSeconds(value: string)
      modifies this
      ensures Snapshot() == old(Snapshot()).(editSeconds := value)
    {
      editSeconds := value;
    }

    /** The try block of handleSave once the draft is accepted: look the
        zone up in the table built for the current time, project, set the
        fields, and move back to UTC. None is the TypeError of a lookup that
        finds nothing. */
    method EditedInstant(id: int, h: int, m: int, sec: int) returns (t: Option<int>)
      ensures t.None? <==> !IsZoneId(id)
      ensures IsZoneId(id) ==> t == Some(SavedTime(currentTime, hostOffset, ZoneOffset(currentTime, hostOffset, id), h, m, sec))
    {
      FindClock(currentTime, hostOffset, id);
      var editedClock := Find(Clocks(currentTime, hostOffset), id);
      if editedClock.None? {
        return None;
      }
      assert editedClock.value.offset == ZoneOffset(currentTime, hostOffset, id);
      var editedTime := GetTimeForTimezone(editedClock.value.offset);
      editedTime := SetHours(editedTime, hostOffset, h, m, sec);
      var newUtcTime := editedTime - editedClock.value.offset * MsPerMinute;
      var localTime := newUtcTime - hostOffset * MsPerMinute;
      return Some(localTime);
    }

    /** handleSave. `if (editMode)` also treats an id of 0 as no editor;
        0 is not a zone id either, so Save leaves such a state alone too. */
    method HandleSave() returns (outcome: SaveOutcome)
      modifies this
      ensures Snapshot() == Save(old(Snapshot()), hostOffset)
      ensures outcome == NotEditing <==> old(editMode).None? || old(editMode) == Some(0)
      ensures outcome == Rejected <==> old(editMode).Some? && old(editMode) != Some(0) && DraftTime(old(Snapshot())).None?
      ensures outcome == NoSuchZone <==> old(editMode).Some? && old(editMode) != Some(0) && DraftTime(old(Snapshot())).Some? &&
                                         !IsZoneId(old(editMode).value)
      ensures outcome != Committed <==> Snapshot() == old(Snapshot())
    {
      ghost var before := Snapshot();
      if editMode.None? || editMode.value == 0 {
        return NotEditing;
      }
      var hours := ParseInt(editHours);
      var minutes := ParseInt(editMinutes);
      var seconds := ParseInt(editSeconds);
      if hours.None? || minutes.None? || seconds.None? ||
         hours.value < 0 || hours.value > 23 || minutes.value < 0 || minutes.value > 59 ||
         seconds.value < 0 || seconds.value > 59 {
        return Rejected;
      }
      assert DraftTime(before) == Some((hours.value, minutes.value, seconds.value));
      var edited := EditedInstant(editMode.value, hours.value, minutes.value, seconds.value);
      if edited.None? {
        return NoSuchZone;
      }
      SaveCommits(before, hostOffset);
      currentTime := edited.value;
      editMode := None;
      return Committed;
    }

    /** handleCancelEdit. */
    method HandleCancelEdit()
      modifies this
      ensures Snapshot() == Cancel(old(Snapshot()))
    {
      editMode := None;
      isLive := true;
    }

    /** handleReset, with `new Date()` as the parameter `now`. */
    method HandleReset(now: int)
      modifies this
      ensures Snapshot() == Reset(old(Snapshot()), now)
    {
      currentTime := now;
      editMode := None;
      isLive := true;
    }

    /** toggleLiveUpdates. */
    method ToggleLiveUpdates()
      modifies this
      ensures Snapshot() == ToggleLive(old(Snapshot()))
    {
      isLive := !isLive;
    }

    /** One firing of the one-second interval, with `new Date()` as `now`;
        the interval is cleared whenever isLive is false. */
    method Tick(now: int)
      modifies this
      ensures Snapshot() == EditSession.Tick(old(Snapshot()), now)
    {
      if isLive {
        currentTime := now;
      }
    }
  }
}

/** The widget's state and its transitions, as values: one step function per
    event handler. The class in module WorldClockApp performs the same steps
    on fields and is proved to agree with these functions. */
module EditSession {
  import opened Options
  import opened Calendar
  import opened Text
  import opened Zones
  import opened Projection

  /** currentTime, editMode (None for null), the three draft strings and
      isLive. */
  datatype Session = Session(
    currentTime: int,
    editMode: Option<int>,
    editHours: string,
    editMinutes: string,
    editSeconds: string,
    isLive: bool)

  /** The state the component mounts with. */
  function Initial(now: int): Session
  {
    Session(now, None, "", "", "", true)
  }

  /** The offset of the zone with this id in the table built for time t. */
  function ZoneOffset(t: int, hostOffset: int, id: int): (offset: int)
    requires IsZoneId(id)
    ensures Find(Clocks(t, hostOffset), id) == Some(Clock(id, Table[id - 1].timezone, offset, Table[id - 1].major))
  {
    FindClock(t, hostOffset, id);
    TableIds();
    Find(Clocks(t, hostOffset), id).value.offset
  }

  /** What the zone with this id shows at time t (its wall clock). */
  function Shown(t: int, hostOffset: int, id: int): int
    requires IsZoneId(id)
  {
    LocalTime(TimeForTimezone(t, hostOffset, ZoneOffset(t, hostOffset, id)), hostOffset)
  }

  /** The draft as handleSave reads it: each string through parseInt, and
      the hour in 0..23, minute and second in 0..59. None is the
      "Invalid time values" error. */
  function DraftTime(s: Session): (r: Option<(int, int, int)>)
    ensures r.Some? ==> var (h, m, sec) := r.value;
              && ParseInt(s.editHours) == Some(h) && ParseInt(s.editMinutes) == Some(m)
              && ParseInt(s.editSeconds) == Some(sec)
              && 0 <= h < 24 && 0 <= m < 60 && 0 <= sec < 60
    ensures r.None? ==> ParseInt(s.editHours).None? || ParseInt(s.editMinutes).None? ||
                        ParseInt(s.editSeconds).None? ||
                        !(0 <= ParseInt(s.editHours).value < 24) ||
                        !(0 <= ParseInt(s.editMinutes).value < 60) ||
                        !(0 <= ParseInt(s.editSeconds).value < 60)
  {
    match (ParseInt(s.editHours), ParseInt(s.editMinutes), ParseInt(s.editSeconds))
    case (Some(h), Some(m), Some(sec)) =>
      if h < 0 || h > 23 || m < 0 || m > 59 || sec < 0 || sec > 59 then None else Some((h, m, sec))
    case _ => None
  }

  /** A draft made of the two-digit strings the selects offer is accepted,
      and handleSave reads back the numbers chosen. */
  lemma DraftOfOptions(s: Session, h: nat, m: nat, sec: nat)
    requires h < 24 && m < 60 && sec < 60
    requires s.editHours == TwoDigits(h) && s.editMinutes == TwoDigits(m) && s.editSeconds == TwoDigits(sec)
    ensures DraftTime(s) == Some((h, m, sec))
  {
    ParseTwoDigits(h);
    ParseTwoDigits(m);
    ParseTwoDigits(sec);
  }

  /** handleEdit(id): pause, fill the draft with the zone's shown hours,
      minutes and seconds as two-digit strings (EditShowsDigits), and open
      the editor on id. The instant is kept. */
  function Edit(s: Session, hostOffset: int, id: int): (r: Session)
    requires IsZoneId(id)
    ensures r == s.(isLive := false, editMode := Some(id), editHours := r.editHours,
                    editMinutes := r.editMinutes, editSeconds := r.editSeconds)
  {
    var w := Shown(s.currentTime, hostOffset, id);
    s.(isLive := false,
       editHours := TwoDigits(HourFromTime(w)),
       editMinutes := TwoDigits(MinFromTime(w)),
       editSeconds := TwoDigits(SecFromTime(w)),
       editMode := Some(id))
  }

  /** The draft strings Edit fills in are the tens and units digits of the
      hour, minute and second the zone shows. */
  lemma EditShowsDigits(s: Session, hostOffset: int, id: int)
    requires IsZoneId(id)
    ensures var r := Edit(s, hostOffset, id);
            var w := Shown(s.currentTime, hostOffset, id);
            var (h, m, sec) := (HourFromTime(w), MinFromTime(w), SecFromTime(w));
            && r.editHours == [DigitChar(h / 10), DigitChar(h % 10)]
            && r.editMinutes == [DigitChar(m / 10), DigitChar(m % 10)]
            && r.editSeconds == [DigitChar(sec / 10), DigitChar(sec % 10)]
  {
    var w := Shown(s.currentTime, hostOffset, id);
    TwoDigitsShape(HourFromTime(w));
    TwoDigitsShape(MinFromTime(w));
    TwoDigitsShape(SecFromTime(w));
  }

  /** The draft Edit fills in is accepted by Save, which reads back exactly
      the hours, minutes and seconds the zone showed. */
  lemma EditDraftReadsBack(s: Session, hostOffset: int, id: int)
    requires IsZoneId(id)
    ensures var w := Shown(s.currentTime, hostOffset, id);
            DraftTime(Edit(s, hostOffset, id)) == Some((HourFromTime(w), MinFromTime(w), SecFromTime(w)))
  {
    var w := Shown(s.currentTime, hostOffset, id);
    DraftOfOptions(Edit(s, hostOffset, id), HourFromTime(w), MinFromTime(w), SecFromTime(w));
  }

  /** handleSave. Nothing happens when no editor is open, when the draft is
      rejected, or when the lookup finds no zone (the TypeError is caught by
      the same handler). Otherwise only the instant changes and the editor
      closes: isLive and the draft strings are left as they were
      (SaveShowsDraft says which instant). */
  function Save(s: Session, hostOffset: int): (r: Session)
    ensures s.editMode.None? || DraftTime(s).None? || !IsZoneId(s.editMode.value) ==> r == s
    ensures s.editMode.Some? && DraftTime(s).Some? && IsZoneId(s.editMode.value) ==>
              r == s.(currentTime := r.currentTime, editMode := None)
  {
    if s.editMode.None? then s
    else match DraftTime(s)
      case None => s
      case Some((h, m, sec)) =>
        FindClock(s.currentTime, hostOffset, s.editMode.value);
        match Find(Clocks(s.currentTime, hostOffset), s.editMode.value)
        case None => s
        case Some(clock) =>
          s.(currentTime := SavedTime(s.currentTime, hostOffset, clock.offset, h, m, sec), editMode := None)
  }

  /** Save as the handler performs it when it commits. */
  lemma SaveCommits(s: Session, hostOffset: int)
    requires s.editMode.Some? && DraftTime(s).Some? && IsZoneId(s.editMode.value)
    ensures var (h, m, sec) := DraftTime(s).value;
            var offset := ZoneOffset(s.currentTime, hostOffset, s.editMode.value);
            Save(s, hostOffset) == s.(currentTime := SavedTime(s.currentTime, hostOffset, offset, h, m, sec), editMode := None)
  {
  }

  /** A committed save moves the instant to the one whose projection onto
      the edited zone, with the offset used for the edit, shows the draft's
      h:m:s on the zone's previous date and millisecond. */
  lemma SaveShowsDraft(s: Session, hostOffset: int)
    requires s.editMode.Some? && DraftTime(s).Some? && IsZoneId(s.editMode.value)
    ensures var (h, m, sec) := DraftTime(s).value;
            var offset := ZoneOffset(s.currentTime, hostOffset, s.editMode.value);
            var before := ZoneWallClock(s.currentTime, offset);
            var after := LocalTime(TimeForTimezone(Save(s, hostOffset).currentTime, hostOffset, offset), hostOffset);
            && HourFromTime(after) == h && MinFromTime(after) == m && SecFromTime(after) == sec
            && Day(after) == Day(before) && MsFromTime(after) == MsFromTime(before)
  {
    var (h, m, sec) := DraftTime(s).value;
    SaveCommits(s, hostOffset);
    SaveRoundTrip(s.currentTime, hostOffset, ZoneOffset(s.currentTime, hostOffset, s.editMode.value), h, m, sec);
  }

  /** handleCancelEdit: close the editor and resume live updates. */
  function Cancel(s: Session): Session
  {
    s.(editMode := None, isLive := true)
  }

  /** handleReset: jump to now, close the editor, resume live updates. */
  function Reset(s: Session, now: int): Session
  {
    s.(currentTime := now, editMode := None, isLive := true)
  }

  /** toggleLiveUpdates. */
  function ToggleLive(s: Session): Session
  {
    s.(isLive := !s.isLive)
  }

  /** One firing of the one-second interval, which exists only while live. */
  function Tick(s: Session, now: int): Session
  {
    if s.isLive then s.(currentTime := now) else s
  }

  /** Saving the draft that Edit filled in, unchanged, keeps the instant:
      the editor closes and the clock stays paused. */
  lemma EditThenSaveKeepsTime(s: Session, hostOffset: int, id: int)
    requires IsZoneId(id)
    ensures Save(Edit(s, hostOffset, id), hostOffset) == Edit(s, hostOffset, id).(editMode := None)
  {
    var e := Edit(s, hostOffset, id);
    var offset := ZoneOffset(s.currentTime, hostOffset, id);
    EditDraftReadsBack(s, hostOffset, id);
    SaveShownTimeIsIdentity(s.currentTime, hostOffset, offset);
  }

  /** Opening an editor while another is open leaves no trace of the first. */
  lemma EditReplacesDraft(s: Session, hostOffset: int, first: int, second: int)
    requires IsZoneId(first) && IsZoneId(second)
    ensures Edit(Edit(s, hostOffset, first), hostOffset, second) == Edit(s, hostOffset, second)
  {
  }

  /** A committed edit does not resume live updates: after Edit, whatever
      is chosen in the three selects, Save leaves the clock paused and the
      editor either closed (committed) or still open (rejected). */
  lemma SavedEditStaysPaused(s: Session, hostOffset: int, id: int, hours: string, minutes: string, seconds: string)
    requires IsZoneId(id)
    ensures var d := Edit(s, hostOffset, id).(editHours := hours, editMinutes := minutes, editSeconds := seconds);
            var r := Save(d, hostOffset);
            && !r.isLive
            && (r.editMode.None? <==> DraftTime(d).Some?)
            && (DraftTime(d).None? ==> r == d)
  {
  }

  /** Whatever is picked in the three selects is committed: the editor
      closes, nothing else but the instant changes, and the edited zone,
      with the offset it had, shows the picked time on the date it showed
      before. */
  lemma SaveChosenOptions(d: Session, hostOffset: int, h: nat, m: nat, sec: nat)
    requires d.editMode.Some? && IsZoneId(d.editMode.value) && h < 24 && m < 60 && sec < 60
    requires d.editHours == TwoDigits(h) && d.editMinutes == TwoDigits(m) && d.editSeconds == TwoDigits(sec)
    ensures var id := d.editMode.value;
            var r := Save(d, hostOffset);
            var offset := ZoneOffset(d.currentTime, hostOffset, id);
            var after := LocalTime(TimeForTimezone(r.currentTime, hostOffset, offset), hostOffset);
            && r == d.(currentTime := r.currentTime, editMode := None)
            && HourFromTime(after) == h && MinFromTime(after) == m && SecFromTime(after) == sec
            && Day(after) == Day(Shown(d.currentTime, hostOffset, id))
  {
    DraftOfOptions(d, h, m, sec);
    SaveShowsDraft(d, hostOffset);
  }

  /** A second Apply changes nothing: the first one either closed the
      editor or left the state as it was. */
  lemma SaveIsIdempotent(s: Session, hostOffset: int)
    ensures Save(Save(s, hostOffset), hostOffset) == Save(s, hostOffset)
  {
  }

  /** Live updates can be switched back on while an editor is open, so
      "paused while editing" is not an invariant of the widget. */
  lemma ToggleWhileEditing(s: Session, hostOffset: int, id: int)
    requires IsZoneId(id)
    ensures var r := ToggleLive(Edit(s, hostOffset, id));
            r.isLive && r.editMode == Some(id)
  {
  }

  /** Cancel keeps the instant and the draft strings; Reset keeps the draft
      strings too. Both resume live updates. */
  lemma CancelAndResetAfterEdit(s: Session, hostOffset: int, id: int, now: int)
    requires IsZoneId(id)
    ensures var e := Edit(s, hostOffset, id);
            var c := Cancel(e);
            var r := Reset(e, now);
            && c.currentTime == s.currentTime && c.editMode.None? && c.isLive
            && c.editHours == e.editHours && c.editMinutes == e.editMinutes && c.editSeconds == e.editSeconds
            && r.currentTime == now && r.editMode.None? && r.isLive
            && r.editHours == e.editHours && r.editMinutes == e.editMinutes && r.editSeconds == e.editSeconds
  {
  }

  /** While paused, no number of ticks moves the instant. */
  lemma {:induction false} TicksWhilePaused(s: Session, nows: seq<int>)
    requires !s.isLive
    ensures Ticks(s, nows) == s
    decreases |nows|
  {
    if nows != [] {
      TicksWhilePaused(Tick(s, nows[0]), nows[1..]);
    }
  }

  /** A run of ticks, oldest first. */
  function Ticks(s: Session, nows: seq<int>): Session
    decreases |nows|
  {
    if nows == [] then s else Ticks(Tick(s, nows[0]), nows[1..])
  }

  /** While live, the instant after a run of ticks is the last tick's time. */
  lemma {:induction false} TicksWhileLive(s: Session, nows: seq<int>)
    requires s.isLive && nows != []
    ensures Ticks(s, nows) == s.(currentTime := nows[|nows| - 1])
    decreases |nows|
  {
    if |nows| > 1 {
      TicksWhileLive(Tick(s, nows[0]), nows[1..]);
    }
  }

  /** A worked scenario, part one: at
      2024-06-15T10:00:00Z UTC shows 10:00:00 and Kolkata 15:30:00, on any
      host. */
  lemma ScenarioShownBeforeEdit(hostOffset: int)
    ensures var a := Shown(1718445600000, hostOffset, 1);
            var b := Shown(1718445600000, hostOffset, 2);
            && HourFromTime(a) == 10 && MinFromTime(a) == 0 && SecFromTime(a) == 0
            && HourFromTime(b) == 15 && MinFromTime(b) == 30 && SecFromTime(b) == 0
  {
    FixedRowOffsets(1718445600000, hostOffset);
    assert Shown(1718445600000, hostOffset, 1) == MakeDate(19889, MakeTime(10, 0, 0, 0));
    assert Shown(1718445600000, hostOffset, 2) == MakeDate(19889, MakeTime(15, 30, 0, 0));
    FieldsOfMakeDate(19889, 10, 0, 0, 0);
    FieldsOfMakeDate(19889, 15, 30, 0, 0);
  }

  /** Part two: handleEdit(2) at that instant pauses the clock and fills the
      draft with "15", "30" and "00". */
  lemma ScenarioEditKolkata(hostOffset: int)
    ensures Edit(Initial(1718445600000), hostOffset, 2) == Session(1718445600000, Some(2), "15", "30", "00", false)
  {
    var t := 1718445600000;
    var w := Shown(t, hostOffset, 2);
    assert w == MakeDate(19889, MakeTime(15, 30, 0, 0)) by {
      FixedRowOffsets(t, hostOffset);
    }
    assert HourFromTime(w) == 15 && MinFromTime(w) == 30 && SecFromTime(w) == 0 by {
      FieldsOfMakeDate(19889, 15, 30, 0, 0);
    }
    TwoDigitsExamples();
  }

  /** Part three: choosing 00, 00 and 00 in the selects and saving commits
      2024-06-14T18:30:00Z, which UTC then shows as 18:30:00 on 14 June, on
      any host; the clock stays paused. */
  lemma ScenarioKolkataSave(hostOffset: int)
    ensures var e := Session(1718445600000, Some(2), "00", "00", "00", false);
            var r := Save(e, hostOffset);
            var u := Shown(r.currentTime, hostOffset, 1);
            && r.currentTime == 1718389800000 && r.editMode.None? && !r.isLive
            && HourFromTime(u) == 18 && MinFromTime(u) == 30 && SecFromTime(u) == 0
            && CivilFromDays(Day(u)) == Date(2024, 6, 14)
  {
    KolkataCommit(hostOffset);
    UtcAfterKolkataSave(hostOffset);
  }

  lemma KolkataCommit(hostOffset: int)
    ensures var e := Session(1718445600000, Some(2), "00", "00", "00", false);
            Save(e, hostOffset) == e.(currentTime := 1718389800000, editMode := None)
  {
    var t := 1718445600000;
    var e := Session(t, Some(2), "00", "00", "00", false);
    assert DraftTime(e) == Some((0, 0, 0)) by {
      TwoDigitsExamples();
      DraftOfOptions(e, 0, 0, 0);
    }
    assert ZoneOffset(t, hostOffset, 2) == 330 by {
      FixedRowOffsets(t, hostOffset);
    }
    KolkataSavedTime(hostOffset);
    SaveCommits(e, hostOffset);
  }

  /** Midnight typed into Kolkata on 15 June is 18:30 UTC the day before. */
  lemma KolkataSavedTime(hostOffset: int)
    ensures SavedTime(1718445600000, hostOffset, 330, 0, 0, 0) == 1718389800000
  {
    var w := ZoneWallClock(1718445600000, 330);
    assert w == 19889 * MsPerDay + 55800000;
    DivModOf(w, MsPerDay, 19889, 55800000);
    DivModOf(w, MsPerSecond, 1718465400, 0);
  }

  lemma UtcAfterKolkataSave(hostOffset: int)
    ensures var u := Shown(1718389800000, hostOffset, 1);
            && HourFromTime(u) == 18 && MinFromTime(u) == 30 && SecFromTime(u) == 0
            && CivilFromDays(Day(u)) == Date(2024, 6, 14)
  {
    var t := 1718389800000;
    assert Shown(t, hostOffset, 1) == MakeDate(19888, MakeTime(18, 30, 0, 0)) by {
      FixedRowOffsets(t, hostOffset);
    }
    FieldsOfMakeDate(19888, 18, 30, 0, 0);
    CivilFromDaysJune14();
  }

  /** An hour of 24 is refused ("Invalid time values"): whatever else the
      state holds, Save leaves the instant, the draft and the editor as
      they were. */
  lemma ScenarioHour24Rejected(s: Session, hostOffset: int)
    requires s.editHours == "24"
    ensures Save(s, hostOffset) == s
    ensures DraftTime(s).None?
  {
    ParseTwentyFour();
  }

  /** A save re-projects with the offset of the NEW instant. On a host
      running on UTC, Berlin shows 00:30 on 1 November at
      2024-10-31T23:30:00Z, one hour ahead because the host month is still
      October. Typing 23:00:00 into Berlin commits 2024-11-01T22:00:00Z
      (SaveAcrossSeasonChange); the host month is then November, Berlin has
      dropped to offset 0, and it shows 22:00, not the 23:00 that was typed
      (ShownAfterSeasonChange). */
  lemma SaveAcrossSeasonChange(hostOffset: int)
    requires hostOffset == 0
    ensures var e := Session(1730417400000, Some(3), "23", "00", "00", false);
            Save(e, hostOffset) == e.(currentTime := 1730498400000, editMode := None)
  {
    var e := Session(1730417400000, Some(3), "23", "00", "00", false);
    assert DraftTime(e) == Some((23, 0, 0)) by {
      TwoDigitsExamples();
      DraftOfOptions(e, 23, 0, 0);
    }
    SaveCommits(e, hostOffset);
    assert ZoneOffset(e.currentTime, hostOffset, 3) == 60 by {
      BerlinOffsetOnOctober31();
    }
    assert SavedTime(e.currentTime, hostOffset, 60, 23, 0, 0) == 1730498400000 by {
      BerlinSavedTime();
    }
  }

  /** At 2024-10-31T23:30:00Z a UTC host is still in October, so Berlin is
      on summer time. */
  lemma BerlinOffsetOnOctober31()
    ensures ZoneOffset(1730417400000, 0, 3) == 60
  {
    var t := 1730417400000;
    assert LocalMonth(t, 0) == 10 by {
      assert Day(LocalTime(t, 0)) == 20027;
      CivilFromDaysOctober31();
    }
    ClockOffsets(t, 0);
  }

  /** 23:00:00 typed into Berlin, at offset 60, on its 1 November. */
  lemma BerlinSavedTime()
    ensures SavedTime(1730417400000, 0, 60, 23, 0, 0) == 1730498400000
  {
    var w := ZoneWallClock(1730417400000, 60);
    assert w == 20028 * MsPerDay + 1800000;
    DivModOf(w, MsPerDay, 20028, 1800000);
    DivModOf(w, MsPerSecond, 1730421000, 0);
  }

  lemma ShownAfterSeasonChange()
    ensures var b := Shown(1730498400000, 0, 3);
            HourFromTime(b) == 22 && MinFromTime(b) == 0 && SecFromTime(b) == 0
  {
    var t := 1730498400000;
    assert Shown(t, 0, 3) == MakeDate(20028, MakeTime(22, 0, 0, 0)) by {
      assert LocalMonth(t, 0) == 11 by {
        assert Day(LocalTime(t, 0)) == 20028;
        CivilFromDaysNovember1();
      }
      ClockOffsets(t, 0);
    }
    FieldsOfMakeDate(20028, 22, 0, 0, 0);
  }
}

/** The arithmetic behind every displayed clock and behind a committed edit.
    A Date is its time value in milliseconds; the Date methods that read or
    write fields (getHours, setHours, ...) work on the host's wall clock,
    which is the time value shifted by the host's `getTimezoneOffset()`.
    That offset is one constant here, `hostOffset`, so that the shift made
    when a zone is projected and the shift undone when an edit is saved
    cancel out. Zone offsets are in minutes east of UTC. */
module Projection {
  import opened Calendar

  /** The zone's wall clock at instant t: the UTC fields of t + offset. */
  function ZoneWallClock(t: int, offset: int): int
  {
    t + offset * MsPerMinute
  }

  /** getTimeForTimezone(offset): the copy of the current Date moved first
      by the host's offset, back to UTC, and then by the zone's offset, so
      that its host-local fields read the zone's wall clock. Undoing both
      moves gives the instant back. */
  function TimeForTimezone(t: int, hostOffset: int, offset: int): (p: int)
    ensures LocalTime(p, hostOffset) == ZoneWallClock(t, offset)
    ensures p - offset * MsPerMinute - hostOffset * MsPerMinute == t
  {
    var utc := t + hostOffset * MsPerMinute;
    utc + offset * MsPerMinute
  }

  /** Shifting the instant shifts every projection by the same amount, and
      two zones' projections of one instant differ by their offsets. */
  lemma ProjectionIsAdditive(t: int, d: int, hostOffset: int, offset: int, other: int)
    ensures TimeForTimezone(t + d, hostOffset, offset) == TimeForTimezone(t, hostOffset, offset) + d
    ensures TimeForTimezone(t, hostOffset, other) - TimeForTimezone(t, hostOffset, offset)
            == (other - offset) * MsPerMinute
  {
  }

  /** `date.setHours(h, m, s)`: the host-local hour, minute and second are
      replaced, the host-local day and millisecond are kept (section
      21.4.4.22 of ECMA-262). For in-range fields the result reads them
      back. */
  function SetHours(x: int, hostOffset: int, h: int, m: int, s: int): (y: int)
    ensures 0 <= h < 24 && 0 <= m < 60 && 0 <= s < 60 ==>
              var before, after := LocalTime(x, hostOffset), LocalTime(y, hostOffset);
              && HourFromTime(after) == h && MinFromTime(after) == m && SecFromTime(after) == s
              && Day(after) == Day(before) && MsFromTime(after) == MsFromTime(before)
  {
    var local := LocalTime(x, hostOffset);
    var edited := MakeDate(Day(local), MakeTime(h, m, s, MsFromTime(local)));
    assert 0 <= h < 24 && 0 <= m < 60 && 0 <= s < 60 ==>
             HourFromTime(edited) == h && MinFromTime(edited) == m && SecFromTime(edited) == s &&
             Day(edited) == Day(local) && MsFromTime(edited) == MsFromTime(local) by {
      if 0 <= h < 24 && 0 <= m < 60 && 0 <= s < 60 {
        FieldsOfMakeDate(Day(local), h, m, s, MsFromTime(local));
      }
    }
    Utc(edited, hostOffset)
  }

  /** The instant handleSave commits for the times h:m:s typed into the zone
      with this offset: project, set the fields, take the zone's offset off
      and then the host's. The host's offset drops out: the result is the
      zone's wall clock with its time of day replaced, moved back to UTC. */
  function SavedTime(t: int, hostOffset: int, offset: int, h: int, m: int, s: int): (r: int)
    ensures var w := ZoneWallClock(t, offset);
            r == MakeDate(Day(w), MakeTime(h, m, s, MsFromTime(w))) - offset * MsPerMinute
  {
    var edited := SetHours(TimeForTimezone(t, hostOffset, offset), hostOffset, h, m, s);
    var newUtc := edited - offset * MsPerMinute;
    newUtc - hostOffset * MsPerMinute
  }

  /** Saving h:m:s and projecting the result onto the same zone shows
      exactly h:m:s, on the date and with the millisecond the zone showed
      before the save. */
  lemma {:induction false} SaveRoundTrip(t: int, hostOffset: int, offset: int, h: int, m: int, s: int)
    requires 0 <= h < 24 && 0 <= m < 60 && 0 <= s < 60
    ensures var before := ZoneWallClock(t, offset);
            var after := LocalTime(TimeForTimezone(SavedTime(t, hostOffset, offset, h, m, s), hostOffset, offset), hostOffset);
            && HourFromTime(after) == h && MinFromTime(after) == m && SecFromTime(after) == s
            && Day(after) == Day(before) && MsFromTime(after) == MsFromTime(before)
  {
    var before := ZoneWallClock(t, offset);
    FieldsOfMakeDate(Day(before), h, m, s, MsFromTime(before));
  }

  /** Saving the time a zone already shows leaves the instant where it was. */
  lemma {:induction false} SaveShownTimeIsIdentity(t: int, hostOffset: int, offset: int)
    ensures var w := ZoneWallClock(t, offset);
            SavedTime(t, hostOffset, offset, HourFromTime(w), MinFromTime(w), SecFromTime(w)) == t
  {
    MakeDateOfFields(ZoneWallClock(t, offset));
  }

  /** After a save every other zone shows the edited wall clock moved by the
      difference of the two offsets. */
  lemma SaveSeenFromOtherZone(t: int, hostOffset: int, offset: int, other: int, h: int, m: int, s: int)
    ensures var w := ZoneWallClock(t, offset);
            var edited := MakeDate(Day(w), MakeTime(h, m, s, MsFromTime(w)));
            LocalTime(TimeForTimezone(SavedTime(t, hostOffset, offset, h, m, s), hostOffset, other), hostOffset)
              == edited + (other - offset) * MsPerMinute
  {
  }
}

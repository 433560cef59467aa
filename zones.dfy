/** The fixed table of clocks and the daylight-saving heuristic that picks
    each zone's offset. The heuristic is deliberately crude and is kept as
    the widget has it: a zone whose name mentions 'Europe' or 'America' is
    on summer time from March to October of the HOST's calendar, every other
    zone never is. Offsets are in minutes east of UTC: the table's hours
    times 60 (Kolkata's 5.5 hours is 330). */
module Zones {
  import opened Options
  import opened Calendar
  import opened Text

  datatype OffsetRule =
    | Fixed(minutes: int)
    | Seasonal(summerMinutes: int, winterMinutes: int)

  /** A row of the table, without its display strings and colours. */
  datatype Zone = Zone(id: int, timezone: string, rule: OffsetRule, major: bool)

  /** A row with its offset chosen for the current time. */
  datatype Clock = Clock(id: int, timezone: string, offset: int, major: bool)

  const Table: seq<Zone> := [
    Zone(1, "UTC", Fixed(0), true),
    Zone(2, "Asia/Kolkata", Fixed(330), true),
    Zone(3, "Europe/Berlin", Seasonal(60, 0), true),
    Zone(4, "Europe/Bucharest", Seasonal(120, 60), true),
    Zone(5, "Europe/Paris", Seasonal(60, 0), false),
    Zone(6, "America/New_York", Seasonal(-240, -300), false)
  ]

  /** The ids the table uses; TableIds shows that row i carries id i + 1. */
  predicate IsZoneId(id: int)
  {
    1 <= id <= |Table|
  }

  /** isDST(date, timezone) on a host whose getTimezoneOffset() is
      hostOffset (IsDstSpec). */
  predicate IsDst(date: int, hostOffset: int, timezone: string)
  {
    var month := LocalMonth(date, hostOffset);
    if Contains(timezone, "Europe") || Contains(timezone, "America") then
      month >= 3 && month <= 10
    else
      false
  }

  /** Summer time holds exactly for the names in which 'Europe' or
      'America' occurs, and for those exactly in the host months March to
      October. */
  lemma IsDstSpec(date: int, hostOffset: int, timezone: string)
    ensures IsDst(date, hostOffset, timezone) <==>
              ((exists i :: OccursAt(timezone, "Europe", i)) || (exists i :: OccursAt(timezone, "America", i)))
              && 3 <= LocalMonth(date, hostOffset) <= 10
  {
    ContainsIffOccurs(timezone, "Europe");
    ContainsIffOccurs(timezone, "America");
  }

  /** The offset a rule gives at `date`: the summer value whenever isDST holds. */
  function EffectiveOffset(rule: OffsetRule, date: int, hostOffset: int, timezone: string): (m: int)
    ensures rule.Fixed? ==> m == rule.minutes
    ensures rule.Seasonal? ==> m == rule.summerMinutes || m == rule.winterMinutes
    ensures rule.Seasonal? && rule.summerMinutes != rule.winterMinutes ==>
              (m == rule.summerMinutes <==> IsDst(date, hostOffset, timezone))
  {
    match rule
    case Fixed(minutes) => minutes
    case Seasonal(summer, winter) => if IsDst(date, hostOffset, timezone) then summer else winter
  }

  function ClockAt(z: Zone, date: int, hostOffset: int): Clock
  {
    Clock(z.id, z.timezone, EffectiveOffset(z.rule, date, hostOffset, z.timezone), z.major)
  }

  /** The `clocks` array as it is rebuilt for the current time. */
  function Clocks(date: int, hostOffset: int): (cs: seq<Clock>)
    ensures |cs| == |Table|
    ensures forall i :: 0 <= i < |cs| ==> cs[i] == ClockAt(Table[i], date, hostOffset)
  {
    [ClockAt(Table[0], date, hostOffset), ClockAt(Table[1], date, hostOffset),
     ClockAt(Table[2], date, hostOffset), ClockAt(Table[3], date, hostOffset),
     ClockAt(Table[4], date, hostOffset), ClockAt(Table[5], date, hostOffset)]
  }

  /** `cs.find(c => c.id === id)`: the first clock with that id, if any. */
  function Find(cs: seq<Clock>, id: int): (r: Option<Clock>)
    ensures r.None? <==> forall i :: 0 <= i < |cs| ==> cs[i].id != id
    ensures r.Some? ==> exists i :: 0 <= i < |cs| && cs[i] == r.value && r.value.id == id &&
                                    forall j :: 0 <= j < i ==> cs[j].id != id
  {
    if cs == [] then None
    else if cs[0].id == id then Some(cs[0])
    else
      var r := Find(cs[1..], id);
      assert r.Some? ==> exists i :: 0 <= i < |cs| && cs[i] == r.value && r.value.id == id &&
                                     forall j :: 0 <= j < i ==> cs[j].id != id by {
        if r.Some? {
          var i :| 0 <= i < |cs| - 1 && cs[1..][i] == r.value && r.value.id == id &&
                   forall j :: 0 <= j < i ==> cs[1..][j].id != id;
          assert cs[i + 1] == r.value;
          assert forall j :: 0 <= j < i + 1 ==> cs[j].id != id by {
            forall j | 0 <= j < i + 1 ensures cs[j].id != id {
              if j > 0 { assert cs[j] == cs[1..][j - 1]; }
            }
          }
        }
      }
      r
  }

  /** Row i of the table carries id i + 1, so the ids are 1 to 6, each
      belongs to a row, and no two rows share one. */
  lemma TableIds()
    ensures forall i :: 0 <= i < |Table| ==> Table[i].id == i + 1
    ensures forall i, j :: 0 <= i < |Table| && 0 <= j < |Table| && Table[i].id == Table[j].id ==> i == j
    ensures forall id :: IsZoneId(id) <==> exists i :: 0 <= i < |Table| && Table[i].id == id
  {
    forall id | IsZoneId(id) ensures exists i :: 0 <= i < |Table| && Table[i].id == id {
      assert Table[id - 1].id == id;
    }
  }

  /** The lookup at every edit and save finds exactly the row with that id,
      whatever the time; and it finds nothing for any other id. */
  lemma FindClock(date: int, hostOffset: int, id: int)
    ensures IsZoneId(id) ==> Find(Clocks(date, hostOffset), id) == Some(Clocks(date, hostOffset)[id - 1])
    ensures !IsZoneId(id) ==> Find(Clocks(date, hostOffset), id) == None
  {
    TableIds();
    var cs := Clocks(date, hostOffset);
    var r := Find(cs, id);
    if IsZoneId(id) {
      assert cs[id - 1].id == id;
      var i :| 0 <= i < |cs| && cs[i] == r.value && r.value.id == id &&
               forall j :: 0 <= j < i ==> cs[j].id != id;
      assert i == id - 1;
    }
  }

  /** Every seasonal zone gains exactly one hour in summer. */
  lemma SummerIsOneHourAhead()
    ensures forall i :: 0 <= i < |Table| && Table[i].rule.Seasonal? ==>
              Table[i].rule.summerMinutes == Table[i].rule.winterMinutes + 60
  {
  }

  /** The two table names the heuristic treats as neither European nor
      American. */
  lemma TableRegionsOutside()
    ensures !Contains("UTC", "Europe") && !Contains("UTC", "America")
    ensures !Contains("Asia/Kolkata", "Europe") && !Contains("Asia/Kolkata", "America")
  {
    KolkataNotEuropean();
    KolkataNotAmerican();
  }

  lemma KolkataNotEuropean()
    ensures !Contains("Asia/Kolkata", "Europe")
  {
    NotContains("Asia/Kolkata", "Europe", 0);
  }

  lemma KolkataNotAmerican()
    ensures !Contains("Asia/Kolkata", "America")
  {
    NotContains("Asia/Kolkata", "America", 1);
  }

  /** The four table names the heuristic treats as European or American. */
  lemma TableRegionsInside()
    ensures Contains("Europe/Berlin", "Europe") && Contains("Europe/Bucharest", "Europe")
    ensures Contains("Europe/Paris", "Europe") && Contains("America/New_York", "America")
  {
    assert Contains("Europe/Berlin", "Europe") by { assert "Europe/Berlin"[..6] == "Europe"; }
    assert Contains("Europe/Bucharest", "Europe") by { assert "Europe/Bucharest"[..6] == "Europe"; }
    assert Contains("Europe/Paris", "Europe") by { assert "Europe/Paris"[..6] == "Europe"; }
    assert Contains("America/New_York", "America") by { assert "America/New_York"[..7] == "America"; }
  }

  /** The UTC and Kolkata rows have the same offset at every time. */
  lemma FixedRowOffsets(date: int, hostOffset: int)
    ensures Clocks(date, hostOffset)[0].offset == 0 && Clocks(date, hostOffset)[1].offset == 330
  {
    assert Clocks(date, hostOffset)[0] == ClockAt(Table[0], date, hostOffset);
    assert Clocks(date, hostOffset)[1] == ClockAt(Table[1], date, hostOffset);
  }

  /** The UTC and Kolkata rows never change and are never on summer time;
      the four European and American rows take their summer value exactly
      in the host months March to October, their winter value otherwise. */
  lemma ClockOffsets(date: int, hostOffset: int)
    ensures var cs := Clocks(date, hostOffset);
            var summer := 3 <= LocalMonth(date, hostOffset) <= 10;
            && cs[0].offset == 0 && !IsDst(date, hostOffset, "UTC")
            && cs[1].offset == 330 && !IsDst(date, hostOffset, "Asia/Kolkata")
            && cs[2].offset == (if summer then 60 else 0)
            && cs[3].offset == (if summer then 120 else 60)
            && cs[4].offset == (if summer then 60 else 0)
            && cs[5].offset == (if summer then -240 else -300)
  {
    TableRegionsOutside();
    TableRegionsInside();
    var cs := Clocks(date, hostOffset);
    assert cs[0] == ClockAt(Table[0], date, hostOffset);
    assert cs[1] == ClockAt(Table[1], date, hostOffset);
    assert cs[2] == ClockAt(Table[2], date, hostOffset);
    assert cs[3] == ClockAt(Table[3], date, hostOffset);
    assert cs[4] == ClockAt(Table[4], date, hostOffset);
    assert cs[5] == ClockAt(Table[5], date, hostOffset);
  }
}

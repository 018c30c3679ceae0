/**
 * The catalogue transformation of scrape_njit.py: each raw course entry's
 * sections are reduced to one record per section that has at least one
 * well-formed meeting row, with the day numbers mapped to letters and the
 * meetings collapsed to one block from the earliest start to the latest end.
 * The raw blob is taken as already parsed; downloading it and rewriting the
 * JavaScript into JSON are not part of this model.
 */
module Scrape {
  import opened Wrappers
  import opened Text
  import App

  /** Day numbers of the raw data to the day letters the solver uses. */
  const DAY_MAP: map<int, char> := map[1 := 'U', 2 := 'M', 3 := 'T', 4 := 'W', 5 := 'R', 6 := 'F', 7 := 'S']

  /** DAY_MAP.get(dayNum, "?"). */
  function DayLetter(dayNum: int): (c: char)
    ensures c == '?' <==> !(1 <= dayNum <= 7)
    ensures c in "UMTWRFS?"
  {
    if dayNum in DAY_MAP then DAY_MAP[dayNum] else '?'
  }

  /**
   * `seconds_to_hhmm`: whole minutes of sec split into hours and minutes,
   * each zero-padded to two digits.
   */
  function SecondsToHHMM(sec: nat): string
  {
    var h, m := sec / 60 / 60, sec / 60 % 60;
    Pad2(h) + ":" + Pad2(m)
  }

  /**
   * A rendered time is two digit fields around one ':', hours then minutes,
   * five characters for less than 100 hours, and _mins reads it back as
   * the whole minutes of sec.
   */
  lemma SecondsToHHMMReads(sec: nat)
    ensures Split(SecondsToHHMM(sec), ':') == [Pad2(sec / 60 / 60), Pad2(sec / 60 % 60)]
    ensures App.Mins(SecondsToHHMM(sec)) == Some(sec / 60)
    ensures sec < 360000 ==> |SecondsToHHMM(sec)| == 5
  {
    var h, m := sec / 60 / 60, sec / 60 % 60;
    App.MinsOfFields(Pad2(h), Pad2(m));
    App.NoColonInDigits(Pad2(h));
    App.NoColonInDigits(Pad2(m));
    SplitTwoFields(Pad2(h), Pad2(m), ':');
    assert Pad2(h) + ":" + Pad2(m) == Pad2(h) + [':'] + Pad2(m);
  }

  /** The scraper and Section.to_dict render a time the same way. */
  lemma SecondsToHHMMAsToDict(sec: nat)
    ensures SecondsToHHMM(sec) == App.FormatHHMM(sec / 60)
  {
  }

  /**
   * One row of a section's meetings: Short for a row with fewer than four
   * elements, otherwise day number, start and end in seconds, and room
   * ("" standing for an empty or missing room).
   */
  datatype MeetingRow = Short | Row(day: int, startSec: nat, endSec: nat, room: string)

  /** The fields of a raw section record that the transformation reads. */
  datatype RawSection = RawSection(sectionId: string, crn: int, instructor: string, title: string, meetings: seq<MeetingRow>)

  /** A raw course entry: its code and the section records after its first three elements. */
  datatype RawCourse = RawCourse(code: string, sections: seq<RawSection>)

  /** An output record of the cleaned catalogue. */
  datatype Record = Record(
    crn: int, days: string, start: string, end: string,
    location: string, section: string, instructor: string, title: string)

  /** Letters of the days of the well-formed rows. */
  function RowDays(ms: seq<MeetingRow>): (days: set<char>)
    ensures forall c :: c in days <==> exists k :: 0 <= k < |ms| && ms[k].Row? && DayLetter(ms[k].day) == c
  {
    if ms == [] then {}
    else
      var init, last := ms[..|ms| - 1], ms[|ms| - 1];
      var before := RowDays(init);
      assert forall k :: 0 <= k < |init| ==> init[k] == ms[k];
      before + (if last.Row? then {DayLetter(last.day)} else {})
  }

  /** Start times of the well-formed rows, in row order. */
  function RowStarts(ms: seq<MeetingRow>): (starts: seq<nat>)
    ensures forall x :: x in starts <==> exists k :: 0 <= k < |ms| && ms[k].Row? && ms[k].startSec == x
  {
    if ms == [] then []
    else
      var init, last := ms[..|ms| - 1], ms[|ms| - 1];
      var before := RowStarts(init);
      assert forall k :: 0 <= k < |init| ==> init[k] == ms[k];
      before + (if last.Row? then [last.startSec] else [])
  }

  /** End times of the well-formed rows, in row order. */
  function RowEnds(ms: seq<MeetingRow>): (ends: seq<nat>)
    ensures |ends| == |RowStarts(ms)|
    ensures forall x :: x in ends <==> exists k :: 0 <= k < |ms| && ms[k].Row? && ms[k].endSec == x
  {
    if ms == [] then []
    else
      var init, last := ms[..|ms| - 1], ms[|ms| - 1];
      var before := RowEnds(init);
      assert forall k :: 0 <= k < |init| ==> init[k] == ms[k];
      before + (if last.Row? then [last.endSec] else [])
  }

  /** `room = rm or room` over the rows: the room of the last well-formed row that names one. */
  function LastRoom(ms: seq<MeetingRow>): string
  {
    if ms == [] then ""
    else
      var last := ms[|ms| - 1];
      if last.Row? && last.room != "" then last.room else LastRoom(ms[..|ms| - 1])
  }

  /** No well-formed row after position k names a room. */
  ghost predicate NoRoomAfter(ms: seq<MeetingRow>, k: int)
  {
    forall k' :: 0 <= k' < |ms| && k < k' && ms[k'].Row? ==> ms[k'].room == ""
  }

  /** The room kept is "" exactly when no well-formed row names one, and otherwise the last one named. */
  lemma {:induction false} LastRoomSpec(ms: seq<MeetingRow>)
    ensures LastRoom(ms) == "" <==> NoRoomAfter(ms, -1)
    ensures LastRoom(ms) != "" ==>
      exists k :: 0 <= k < |ms| && ms[k].Row? && ms[k].room == LastRoom(ms) && NoRoomAfter(ms, k)
  {
    if ms != [] {
      var init, last := ms[..|ms| - 1], ms[|ms| - 1];
      LastRoomSpec(init);
      assert forall k :: 0 <= k < |init| ==> init[k] == ms[k];
      if last.Row? && last.room != "" {
        assert NoRoomAfter(ms, |ms| - 1);
      } else {
        assert NoRoomAfter(ms, -1) <==> NoRoomAfter(init, -1);
        if LastRoom(init) != "" {
          var k :| 0 <= k < |init| && init[k].Row? && init[k].room == LastRoom(init) && NoRoomAfter(init, k);
          assert NoRoomAfter(ms, k);
        }
      }
    }
  }

  /** min(s). */
  function SeqMin(s: seq<nat>): (m: nat)
    requires s != []
    ensures m in s && forall x :: x in s ==> m <= x
  {
    if |s| == 1 then s[0]
    else
      var rest := SeqMin(s[1..]);
      assert forall x :: x in s ==> x == s[0] || x in s[1..];
      if s[0] <= rest then s[0] else rest
  }

  /** max(s). */
  function SeqMax(s: seq<nat>): (m: nat)
    requires s != []
    ensures m in s && forall x :: x in s ==> x <= m
  {
    if |s| == 1 then s[0]
    else
      var rest := SeqMax(s[1..]);
      assert forall x :: x in s ==> x == s[0] || x in s[1..];
      if rest <= s[0] then s[0] else rest
  }

  /** The record one raw section becomes, or None when it has no well-formed meeting row. */
  function SectionRecord(rs: RawSection): Option<Record>
  {
    var ms := rs.meetings;
    if ms == [] then None
    else
      var starts, ends := RowStarts(ms), RowEnds(ms);
      if starts == [] then None
      else
        Some(Record(rs.crn, SortedString(RowDays(ms)), SecondsToHHMM(SeqMin(starts)), SecondsToHHMM(SeqMax(ends)),
                    LastRoom(ms), rs.sectionId, rs.instructor, rs.title))
  }

  /** A section yields no record exactly when none of its meeting rows is well formed (no rows at all included). */
  lemma SectionRecordDropped(rs: RawSection)
    ensures SectionRecord(rs).None? <==> forall k :: 0 <= k < |rs.meetings| ==> rs.meetings[k].Short?
  {
    assert SectionRecord(rs).None? <==> RowStarts(rs.meetings) == [];
    RowStartsEmpty(rs.meetings);
  }

  lemma RowStartsEmpty(ms: seq<MeetingRow>)
    ensures RowStarts(ms) == [] <==> forall k :: 0 <= k < |ms| ==> ms[k].Short?
  {
  }

  /** The identifying fields and the room of a record come from its raw section. */
  lemma SectionRecordFields(rs: RawSection)
    requires SectionRecord(rs).Some?
    ensures var r := SectionRecord(rs).value;
      && r.crn == rs.crn && r.section == rs.sectionId
      && r.instructor == rs.instructor && r.title == rs.title
      && r.location == LastRoom(rs.meetings)
  {
  }

  /** A record's days: each letter of a well-formed row once, in sorted order, "?" for an unknown day number. */
  lemma SectionRecordDays(rs: RawSection)
    requires SectionRecord(rs).Some?
    ensures var r := SectionRecord(rs).value;
      && StrictlySorted(r.days)
      && forall c :: c in r.days <==>
           exists k :: 0 <= k < |rs.meetings| && rs.meetings[k].Row? && DayLetter(rs.meetings[k].day) == c
  {
  }

  /** Row k is well formed and starts no later than any well-formed row. */
  ghost predicate EarliestRow(ms: seq<MeetingRow>, k: int)
  {
    0 <= k < |ms| && ms[k].Row? && forall k' :: 0 <= k' < |ms| && ms[k'].Row? ==> ms[k].startSec <= ms[k'].startSec
  }

  /** Row k is well formed and ends no earlier than any well-formed row. */
  ghost predicate LatestRow(ms: seq<MeetingRow>, k: int)
  {
    0 <= k < |ms| && ms[k].Row? && forall k' :: 0 <= k' < |ms| && ms[k'].Row? ==> ms[k'].endSec <= ms[k].endSec
  }

  /** A record starts at the earliest start of the well-formed rows. */
  lemma SectionRecordStart(rs: RawSection)
    requires SectionRecord(rs).Some?
    ensures exists k :: EarliestRow(rs.meetings, k) && SectionRecord(rs).value.start == SecondsToHHMM(rs.meetings[k].startSec)
  {
    var ms := rs.meetings;
    var starts := RowStarts(ms);
    var lo := SeqMin(starts);
    var k :| 0 <= k < |ms| && ms[k].Row? && ms[k].startSec == lo;
    forall k' | 0 <= k' < |ms| && ms[k'].Row?
      ensures lo <= ms[k'].startSec
    {
      assert ms[k'].startSec in starts;
    }
    assert EarliestRow(ms, k);
  }

  /** A record ends at the latest end of the well-formed rows. */
  lemma SectionRecordEnd(rs: RawSection)
    requires SectionRecord(rs).Some?
    ensures exists k :: LatestRow(rs.meetings, k) && SectionRecord(rs).value.end == SecondsToHHMM(rs.meetings[k].endSec)
  {
    var ms := rs.meetings;
    var ends := RowEnds(ms);
    var hi := SeqMax(ends);
    var k :| 0 <= k < |ms| && ms[k].Row? && ms[k].endSec == hi;
    forall k' | 0 <= k' < |ms| && ms[k'].Row?
      ensures ms[k'].endSec <= hi
    {
      assert ms[k'].endSec in ends;
    }
    assert LatestRow(ms, k);
  }

  /** The values f yields for the elements of xs that yield one, in order. */
  function FilterSome<S, R>(f: S -> Option<R>, xs: seq<S>): seq<R>
  {
    if xs == [] then []
    else
      FilterSome(f, xs[..|xs| - 1]) + (match f(xs[|xs| - 1]) case Some(r) => [r] case None => [])
  }

  /** The records of the surviving sections, in input order. */
  function Kept(sections: seq<RawSection>): seq<Record>
  {
    FilterSome(SectionRecord, sections)
  }

  /** What the cleaned catalogue lists under code: the kept records of every entry with that code, in input order. */
  function CourseRecords(blob: seq<RawCourse>, code: string): seq<Record>
  {
    if blob == [] then []
    else
      var last := blob[|blob| - 1];
      CourseRecords(blob[..|blob| - 1], code) + (if last.code == code then Kept(last.sections) else [])
  }

  /**
   * The inner loop of `transform`: days, starts, ends and room accumulated
   * over the rows, skipping rows shorter than four elements.
   */
  method ScanMeetings(ms: seq<MeetingRow>) returns (days: set<char>, starts: seq<nat>, ends: seq<nat>, room: string)
    ensures days == RowDays(ms) && starts == RowStarts(ms) && ends == RowEnds(ms) && room == LastRoom(ms)
  {
    days, starts, ends, room := {}, [], [], "";
    var k := 0;
    while k < |ms|
      invariant 0 <= k <= |ms|
      invariant days == RowDays(ms[..k]) && starts == RowStarts(ms[..k])
      invariant ends == RowEnds(ms[..k]) && room == LastRoom(ms[..k])
    {
      assert ms[..k + 1][..k] == ms[..k];
      var meeting := ms[k];
      if meeting.Row? {
        days := days + {DayLetter(meeting.day)};
        starts := starts + [meeting.startSec];
        ends := ends + [meeting.endSec];
        room := if meeting.room != "" then meeting.room else room;
      }
      k := k + 1;
    }
    assert ms[..k] == ms;
  }

  /**
   * The body of `transform`'s section loop: skip a section without
   * meetings, scan its rows, skip it when no row was well formed, and
   * otherwise build its record.
   */
  method CleanSection(rs: RawSection) returns (r: Option<Record>)
    ensures r == SectionRecord(rs)
  {
    if rs.meetings == [] {
      return None;
    }
    var days, starts, ends, room := ScanMeetings(rs.meetings);
    if starts == [] {
      return None;
    }
    r := Some(Record(rs.crn, SortedString(days), SecondsToHHMM(SeqMin(starts)), SecondsToHHMM(SeqMax(ends)),
                     room, rs.sectionId, rs.instructor, rs.title));
  }

  /**
   * What the cleaned catalogue should list under c once the entries done
   * are finished and the entry with this code has produced the records kept.
   */
  function Pending(done: seq<RawCourse>, code: string, kept: seq<Record>, c: string): seq<Record>
  {
    CourseRecords(done, c) + (if c == code then kept else [])
  }

  /** The cleaned catalogue holds exactly the codes with pending records, each with those records. */
  ghost predicate Tabulates(cleaned: map<string, seq<Record>>, done: seq<RawCourse>, code: string, kept: seq<Record>)
  {
    forall c {:trigger Pending(done, code, kept, c)} ::
      (c in cleaned <==> Pending(done, code, kept, c) != []) &&
      (c in cleaned ==> cleaned[c] == Pending(done, code, kept, c))
  }

  /** cleaned.setdefault(code, []).extend(extra), where extra is empty or one record. */
  function AddRecords(cleaned: map<string, seq<Record>>, code: string, extra: seq<Record>): map<string, seq<Record>>
  {
    if extra == [] then cleaned else cleaned[code := (if code in cleaned then cleaned[code] else []) + extra]
  }

  /** Adding an entry's next records under its code keeps the table in step. */
  lemma TabulatesAdd(cleaned: map<string, seq<Record>>, done: seq<RawCourse>, code: string,
                     kept: seq<Record>, extra: seq<Record>)
    requires Tabulates(cleaned, done, code, kept)
    ensures Tabulates(AddRecords(cleaned, code, extra), done, code, kept + extra)
  {
    var next := AddRecords(cleaned, code, extra);
    forall c
      ensures (c in next <==> Pending(done, code, kept + extra, c) != []) &&
              (c in next ==> next[c] == Pending(done, code, kept + extra, c))
    {
      var before := Pending(done, code, kept, c);
      assert before != [] <==> c in cleaned;
      if c == code {
        assert Pending(done, code, kept + extra, c) == before + extra;
      } else {
        assert Pending(done, code, kept + extra, c) == before;
      }
    }
  }

  /** The kept records grow by the record of the next section, if it has one. */
  lemma KeptStep(sections: seq<RawSection>, j: nat)
    requires j < |sections|
    ensures Kept(sections[..j + 1]) ==
      Kept(sections[..j]) + match SectionRecord(sections[j]) case Some(rec) => [rec] case None => []
  {
    FilterSomeStep(SectionRecord, sections, j);
  }

  lemma FilterSomeStep<S, R>(f: S -> Option<R>, xs: seq<S>, j: nat)
    requires j < |xs|
    ensures FilterSome(f, xs[..j + 1]) ==
      FilterSome(f, xs[..j]) + match f(xs[j]) case Some(r) => [r] case None => []
  {
    assert xs[..j + 1][..j] == xs[..j];
  }

  /** Finishing an entry's sections is finishing the entry. */
  lemma TabulatesCourse(cleaned: map<string, seq<Record>>, blob: seq<RawCourse>, i: nat)
    requires i < |blob| && Tabulates(cleaned, blob[..i], blob[i].code, Kept(blob[i].sections))
    ensures Tabulates(cleaned, blob[..i + 1], "", [])
  {
    assert blob[..i + 1][..i] == blob[..i];
    forall c
      ensures (c in cleaned <==> Pending(blob[..i + 1], "", [], c) != []) &&
              (c in cleaned ==> cleaned[c] == Pending(blob[..i + 1], "", [], c))
    {
      assert Pending(blob[..i], blob[i].code, Kept(blob[i].sections), c) != [] <==> c in cleaned;
    }
  }

  /** Starting an entry: nothing of it is pending yet. */
  lemma TabulatesStart(cleaned: map<string, seq<Record>>, done: seq<RawCourse>, code: string)
    requires Tabulates(cleaned, done, "", [])
    ensures Tabulates(cleaned, done, code, [])
  {
    forall c
      ensures Pending(done, code, [], c) == Pending(done, "", [], c)
    {
    }
  }

  /**
   * `transform`: for every section of every course entry, skip it when it
   * has no meetings or no well-formed row, otherwise append its record
   * under the course code (setdefault(...).append).
   */
  method Transform(blob: seq<RawCourse>) returns (cleaned: map<string, seq<Record>>)
    ensures forall code :: code in cleaned <==> CourseRecords(blob, code) != []
    ensures forall code :: code in cleaned ==> cleaned[code] == CourseRecords(blob, code)
  {
    cleaned := map[];
    var i := 0;
    assert blob[..0] == [];
    while i < |blob|
      invariant 0 <= i <= |blob|
      invariant Tabulates(cleaned, blob[..i], "", [])
    {
      var code := blob[i].code;
      var sections := blob[i].sections;
      var j := 0;
      TabulatesStart(cleaned, blob[..i], code);
      assert sections[..0] == [] && Kept(sections[..0]) == [];
      while j < |sections|
        invariant 0 <= j <= |sections|
        invariant Tabulates(cleaned, blob[..i], code, Kept(sections[..j]))
      {
        KeptStep(sections, j);
        ghost var kept := Kept(sections[..j]);
        var r := CleanSection(sections[j]);
        if r.Some? {
          var rec := r.value;
          TabulatesAdd(cleaned, blob[..i], code, kept, [rec]);
          ghost var next := AddRecords(cleaned, code, [rec]);
          cleaned := cleaned[code := (if code in cleaned then cleaned[code] else []) + [rec]];
          assert cleaned == next;
          assert Kept(sections[..j + 1]) == kept + [rec];
        } else {
          assert Kept(sections[..j + 1]) == kept;
        }
        j := j + 1;
      }
      assert sections[..j] == sections;
      TabulatesCourse(cleaned, blob, i);
      i := i + 1;
    }
    assert blob[..i] == blob;
    assert forall code :: Pending(blob, "", [], code) == CourseRecords(blob, code);
  }

  // ------------------------------------------- properties of the catalogue

  /** Some section has a record exactly when the kept records are not empty. */
  lemma KeptNonEmpty(sections: seq<RawSection>)
    ensures Kept(sections) != [] <==> exists j :: 0 <= j < |sections| && SectionRecord(sections[j]).Some?
  {
    FilterSomeNonEmpty(SectionRecord, sections);
  }

  /** A section with a record puts that record among the kept ones. */
  lemma KeptHas(sections: seq<RawSection>, j: nat, rec: Record)
    requires j < |sections|
    ensures SectionRecord(sections[j]) == Some(rec) ==> rec in Kept(sections)
  {
    if SectionRecord(sections[j]) == Some(rec) {
      FilterSomeHas(SectionRecord, sections, j, rec);
    }
  }

  /** Every kept record is the record of one of the sections. */
  lemma KeptFromSections(sections: seq<RawSection>, rec: Record)
    requires rec in Kept(sections)
    ensures exists j :: 0 <= j < |sections| && SectionRecord(sections[j]) == Some(rec)
  {
    FilterSomeFrom(SectionRecord, sections, rec);
  }

  lemma {:induction false} FilterSomeHas<S, R>(f: S -> Option<R>, xs: seq<S>, j: nat, r: R)
    requires j < |xs| && f(xs[j]) == Some(r)
    ensures r in FilterSome(f, xs)
  {
    var init := xs[..|xs| - 1];
    if j < |xs| - 1 {
      assert init[j] == xs[j];
      FilterSomeHas(f, init, j, r);
    }
  }

  lemma {:induction false} FilterSomeFrom<S, R>(f: S -> Option<R>, xs: seq<S>, r: R)
    requires r in FilterSome(f, xs)
    ensures exists j :: 0 <= j < |xs| && f(xs[j]) == Some(r)
  {
    var init := xs[..|xs| - 1];
    assert forall j :: 0 <= j < |init| ==> init[j] == xs[j];
    if r in FilterSome(f, init) {
      FilterSomeFrom(f, init, r);
    }
  }

  lemma {:induction false} FilterSomeNonEmpty<S, R>(f: S -> Option<R>, xs: seq<S>)
    ensures FilterSome(f, xs) != [] <==> exists j :: 0 <= j < |xs| && f(xs[j]).Some?
  {
    var ys := FilterSome(f, xs);
    if ys != [] {
      FilterSomeFrom(f, xs, ys[0]);
    }
    if exists j :: 0 <= j < |xs| && f(xs[j]).Some? {
      var j :| 0 <= j < |xs| && f(xs[j]).Some?;
      FilterSomeHas(f, xs, j, f(xs[j]).value);
    }
  }

  /** Two surviving sections keep their relative order among the kept records. */
  lemma KeptOrder(sections: seq<RawSection>, j1: nat, j2: nat, r1: Record, r2: Record)
    requires j1 < j2 < |sections|
    ensures SectionRecord(sections[j1]) == Some(r1) && SectionRecord(sections[j2]) == Some(r2) ==>
      exists p1, p2 :: 0 <= p1 < p2 < |Kept(sections)| && Kept(sections)[p1] == r1 && Kept(sections)[p2] == r2
  {
    if SectionRecord(sections[j1]) == Some(r1) && SectionRecord(sections[j2]) == Some(r2) {
      FilterSomeOrder(SectionRecord, sections, j1, j2, r1, r2);
      var ys := FilterSome(SectionRecord, sections);
      var p1, p2 :| 0 <= p1 < p2 < |ys| && ys[p1] == r1 && ys[p2] == r2;
      assert Kept(sections) == ys;
    }
  }

  /** The values of a prefix of xs are a prefix of the values of xs. */
  lemma {:induction false} FilterSomePrefix<S, R>(f: S -> Option<R>, xs: seq<S>, k: nat)
    requires k <= |xs|
    ensures FilterSome(f, xs[..k]) <= FilterSome(f, xs)
    decreases |xs| - k
  {
    if k < |xs| {
      FilterSomePrefix(f, xs, k + 1);
      FilterSomeStep(f, xs, k);
    } else {
      assert xs[..k] == xs;
    }
  }

  lemma FilterSomeOrder<S, R>(f: S -> Option<R>, xs: seq<S>, j1: nat, j2: nat, r1: R, r2: R)
    requires j1 < j2 < |xs| && f(xs[j1]) == Some(r1) && f(xs[j2]) == Some(r2)
    ensures var ys := FilterSome(f, xs);
      exists p1, p2 :: 0 <= p1 < p2 < |ys| && ys[p1] == r1 && ys[p2] == r2
  {
    var ys, before := FilterSome(f, xs), FilterSome(f, xs[..j2]);
    assert xs[..j2][j1] == xs[j1];
    FilterSomeHas(f, xs[..j2], j1, r1);
    var p1 :| 0 <= p1 < |before| && before[p1] == r1;
    FilterSomeStep(f, xs, j2);
    FilterSomePrefix(f, xs, j2 + 1);
    assert FilterSome(f, xs[..j2 + 1]) == before + [r2];
    assert ys[p1] == r1 && ys[|before|] == r2;
  }

  /** The records of earlier entries come first: a prefix of the input gives a prefix of the records. */
  lemma {:induction false} CourseRecordsPrefix(blob: seq<RawCourse>, code: string, i: nat)
    requires i <= |blob|
    ensures CourseRecords(blob[..i], code) <= CourseRecords(blob, code)
    decreases |blob| - i
  {
    if i < |blob| {
      CourseRecordsPrefix(blob, code, i + 1);
      assert blob[..i + 1][..i] == blob[..i];
    } else {
      assert blob[..i] == blob;
    }
  }

  /**
   * A code is a key of the cleaned catalogue exactly when some entry with
   * that code keeps a record (by KeptNonEmpty: has a section with a
   * well-formed meeting row).
   */
  lemma {:induction false} CourseRecordsPresent(blob: seq<RawCourse>, code: string)
    ensures CourseRecords(blob, code) != [] <==>
      exists i :: 0 <= i < |blob| && blob[i].code == code && Kept(blob[i].sections) != []
  {
    if blob != [] {
      var n := |blob|;
      var init, last := blob[..n - 1], blob[n - 1];
      CourseRecordsPresent(init, code);
      var tail := if last.code == code then Kept(last.sections) else [];
      assert CourseRecords(blob, code) == CourseRecords(init, code) + tail;
      if CourseRecords(blob, code) != [] {
        if CourseRecords(init, code) != [] {
          var i :| 0 <= i < |init| && init[i].code == code && Kept(init[i].sections) != [];
          assert blob[i] == init[i];
        } else {
          assert blob[n - 1] == last;
        }
      }
      if exists i :: 0 <= i < n && blob[i].code == code && Kept(blob[i].sections) != [] {
        var i :| 0 <= i < n && blob[i].code == code && Kept(blob[i].sections) != [];
        if i < n - 1 {
          assert init[i] == blob[i];
        } else {
          assert tail != [];
        }
      }
    }
  }

  /** Every record listed under a code is the record of a section of an entry with that code. */
  lemma {:induction false} CourseRecordsOrigin(blob: seq<RawCourse>, code: string, rec: Record)
    requires rec in CourseRecords(blob, code)
    ensures exists i, j ::
      && 0 <= i < |blob| && blob[i].code == code
      && 0 <= j < |blob[i].sections| && SectionRecord(blob[i].sections[j]) == Some(rec)
  {
    var init, last := blob[..|blob| - 1], blob[|blob| - 1];
    assert forall i :: 0 <= i < |init| ==> init[i] == blob[i];
    if rec in CourseRecords(init, code) {
      CourseRecordsOrigin(init, code, rec);
    } else {
      KeptFromSections(last.sections, rec);
      var j :| 0 <= j < |last.sections| && SectionRecord(last.sections[j]) == Some(rec);
      assert blob[|blob| - 1].sections[j] == last.sections[j];
    }
  }

  /**
   * Loading a record into the solver (Section(code, **record)) gives the
   * section's day letters and its block in whole minutes: the earliest
   * start and the latest end, each rounded down to the minute.
   */
  lemma RecordLoads(code: string, rs: RawSection)
    ensures SectionRecord(rs).Some? ==>
      var rec, ms := SectionRecord(rs).value, rs.meetings;
      && RowStarts(ms) != []
      && App.MakeSection(code, rec.crn, rec.days, rec.start, rec.end) ==
         Some(App.Section(code, rs.crn, RowDays(ms), SeqMin(RowStarts(ms)) / 60, SeqMax(RowEnds(ms)) / 60))
  {
    if SectionRecord(rs).Some? {
      var rec, ms := SectionRecord(rs).value, rs.meetings;
      var lo, hi := SeqMin(RowStarts(ms)), SeqMax(RowEnds(ms));
      assert rec.crn == rs.crn && rec.days == SortedString(RowDays(ms));
      assert rec.start == SecondsToHHMM(lo) && rec.end == SecondsToHHMM(hi);
      ScrapedFieldsLoad(code, rs.crn, RowDays(ms), lo, hi);
    }
  }

  /** Sorted day letters and two rendered times load back as those days and the whole minutes. */
  lemma ScrapedFieldsLoad(code: string, crn: int, days: set<char>, lo: nat, hi: nat)
    ensures App.MakeSection(code, crn, SortedString(days), SecondsToHHMM(lo), SecondsToHHMM(hi)) ==
      Some(App.Section(code, crn, days, lo / 60, hi / 60))
  {
    var start, end := SecondsToHHMM(lo), SecondsToHHMM(hi);
    SecondsToHHMMReads(lo);
    SecondsToHHMMReads(hi);
    SortedStringChars(days);
    App.MakeSectionOf(code, crn, SortedString(days), start, end, lo / 60, hi / 60);
  }

  /** The characters of SortedString(cs) are cs. */
  lemma SortedStringChars(cs: set<char>)
    ensures (set c | c in SortedString(cs)) == cs
  {
  }
}

/**
 * The schedule search of app.py: sections, the clash test, the dictionary
 * form of a section, and find_schedules, which walks the Cartesian product
 * of the requested courses' pools in itertools.product order and keeps the
 * first MAX_SOLNS combinations that pass the day, time-window and clash
 * filters. The catalogue is a parameter instead of the module-level SECTIONS.
 */
module App {
  import opened Wrappers
  import opened Text
  import opened Odometer

  /** Hard cap on the number of schedules one search yields. */
  const MAX_SOLNS: nat := 50

  // ----------------------------------------------------------------- times

  /**
   * `_mins`: "H:M" to minutes after midnight, 60 * H + M. None where the
   * source raises ValueError: not exactly two ':'-separated fields, or a
   * field that is not a plain run of decimal digits.
   */
  function Mins(t: string): Option<nat>
  {
    var fields := Split(t, ':');
    if |fields| == 2 && IsDigits(fields[0]) && IsDigits(fields[1])
    then Some(60 * DigitsValue(fields[0]) + DigitsValue(fields[1]))
    else None
  }

  /** Two digit fields around one ':' read as 60 * hours + minutes; the minute field is not range-checked. */
  lemma MinsOfFields(h: string, m: string)
    requires IsDigits(h) && IsDigits(m)
    ensures Mins(h + ":" + m) == Some(60 * DigitsValue(h) + DigitsValue(m))
  {
    NoColonInDigits(h);
    NoColonInDigits(m);
    var t := h + [':'] + m;
    SplitTwoFields(h, m, ':');
    var fields := Split(t, ':');
    assert fields == [h, m];
    assert h + ":" + m == t;
  }

  lemma NoColonInDigits(s: string)
    requires AllDigits(s)
    ensures ':' !in s
  {
  }

  /** Mins accepts exactly the strings made of two digit fields around one ':'. */
  lemma MinsAccepts(t: string)
    ensures Mins(t).Some? <==> exists h, m :: IsDigits(h) && IsDigits(m) && t == h + ":" + m
  {
    var fields := Split(t, ':');
    if Mins(t).Some? {
      JoinSplit(t, ':');
      assert Join(fields, ':') == fields[0] + [':'] + Join(fields[1..], ':');
      assert t == fields[0] + ":" + fields[1];
    }
    if exists h, m :: IsDigits(h) && IsDigits(m) && t == h + ":" + m {
      var h, m :| IsDigits(h) && IsDigits(m) && t == h + ":" + m;
      MinsOfFields(h, m);
    }
  }

  /** The "HH:MM" rendering of a minute count used by to_dict (and the web page). */
  function FormatHHMM(x: nat): string
  {
    Pad2(x / 60) + ":" + Pad2(x % 60)
  }

  /** Reading back a rendered time gives the minute count: _mins inverts the rendering. */
  lemma MinsFormat(x: nat)
    ensures Mins(FormatHHMM(x)) == Some(x)
    ensures x < 6000 ==> |FormatHHMM(x)| == 5 && FormatHHMM(x)[2] == ':'
  {
    MinsOfFields(Pad2(x / 60), Pad2(x % 60));
  }

  // -------------------------------------------------------------- sections

  /** A section as the solver sees it: days as a set, start and end in minutes. */
  datatype Section = Section(course: string, crn: int, days: set<char>, start: nat, end: nat)

  /**
   * `Section.__init__`: days become the set of their characters, the two
   * times go through _mins. Nothing checks that start < end.
   */
  function MakeSection(course: string, crn: int, days: string, start: string, end: string): (r: Option<Section>)
    ensures r.Some? <==> Mins(start).Some? && Mins(end).Some?
    ensures r.Some? ==> r.value.course == course && r.value.crn == crn
    ensures r.Some? ==> forall c :: c in r.value.days <==> c in days
    ensures r.Some? ==> Mins(start) == Some(r.value.start) && Mins(end) == Some(r.value.end)
  {
    match (Mins(start), Mins(end))
    case (Some(s), Some(e)) => Some(Section(course, crn, (set c | c in days), s, e))
    case _ => None
  }

  /** Two readable times make a section with those minutes and the set of the day letters. */
  lemma MakeSectionOf(course: string, crn: int, days: string, start: string, end: string, s: nat, e: nat)
    requires Mins(start) == Some(s) && Mins(end) == Some(e)
    ensures MakeSection(course, crn, days, start, end) == Some(Section(course, crn, (set c | c in days), s, e))
  {
  }

  /** A five-character clock reading "HH:MM" is 60 * HH + MM minutes. */
  lemma MinsClock(h1: char, h0: char, m1: char, m0: char)
    requires IsDigit(h1) && IsDigit(h0) && IsDigit(m1) && IsDigit(m0)
    ensures Mins([h1, h0, ':', m1, m0]) ==
      Some(60 * (10 * DigitValue(h1) + DigitValue(h0)) + 10 * DigitValue(m1) + DigitValue(m0))
  {
    TwoDigitsValue(h1, h0);
    TwoDigitsValue(m1, m0);
    MinsOfFields([h1, h0], [m1, m0]);
    assert [h1, h0] + ":" + [m1, m0] == [h1, h0, ':', m1, m0];
  }

  /** A section that ends before it starts is constructed without complaint. */
  lemma MakeSectionAcceptsInverted()
    ensures MakeSection("CS100", 1, "M", "10:00", "09:00") == Some(Section("CS100", 1, {'M'}, 600, 540))
  {
    MinsClock('1', '0', '0', '0');
    MinsClock('0', '9', '0', '0');
    assert "10:00" == ['1', '0', ':', '0', '0'] && "09:00" == ['0', '9', ':', '0', '0'];
    var r := MakeSection("CS100", 1, "M", "10:00", "09:00");
    assert r.Some? && r.value.start == 600 && r.value.end == 540;
    assert forall c :: c in r.value.days <==> c == 'M';
    assert r.value.days == {'M'};
  }

  /** Minute t lies in the half-open interval [s.start, s.end). */
  predicate Covers(s: Section, t: int)
  {
    s.start <= t < s.end
  }

  /** `Section.clashes`: a shared day and overlapping half-open intervals [start, end). */
  predicate Clashes(a: Section, b: Section)
  {
    a.days * b.days != {} && a.start < b.end && b.start < a.end
  }

  lemma ClashesSymmetric(a: Section, b: Section)
    ensures Clashes(a, b) == Clashes(b, a)
  {
  }

  /** Back-to-back sections (one ends when the other starts) never clash. */
  lemma BackToBackNoClash(a: Section, b: Section)
    requires a.end == b.start
    ensures !Clashes(a, b) && !Clashes(b, a)
  {
  }

  /** A section that meets on no day clashes with nothing. */
  lemma NoDaysNoClash(a: Section, b: Section)
    requires a.days == {}
    ensures !Clashes(a, b) && !Clashes(b, a)
  {
  }

  /**
   * For sections with start < end, clashing means sharing a day and a
   * minute that lies in both intervals.
   */
  lemma ClashesIffSharedMinute(a: Section, b: Section)
    requires a.start < a.end && b.start < b.end
    ensures Clashes(a, b) <==>
      (exists d :: d in a.days && d in b.days) &&
      (exists t: int :: Covers(a, t) && Covers(b, t))
  {
    if Clashes(a, b) {
      var d :| d in a.days * b.days;
      assert d in a.days && d in b.days;
      var t := if a.start < b.start then b.start else a.start;
      assert Covers(a, t) && Covers(b, t);
    }
    if (exists d :: d in a.days && d in b.days) && (exists t: int :: Covers(a, t) && Covers(b, t)) {
      var d :| d in a.days && d in b.days;
      assert d in a.days * b.days;
      var t :| Covers(a, t) && Covers(b, t);
    }
  }

  /**
   * Without start < end the clash test no longer means a shared minute: an
   * inverted section, which covers no minute at all, still clashes.
   */
  lemma InvertedSectionClashes()
    ensures var a, b := Section("A", 1, {'M'}, 600, 540), Section("B", 2, {'M'}, 480, 660);
      Clashes(a, b) && forall t: int :: !Covers(a, t)
  {
    var a, b := Section("A", 1, {'M'}, 600, 540), Section("B", 2, {'M'}, 480, 660);
    assert 'M' in a.days * b.days;
  }

  /** The dictionary `Section.to_dict` returns. */
  datatype SectionDict = SectionDict(course: string, crn: int, days: string, start: string, end: string)

  /**
   * `Section.to_dict`: the days as one sorted string with each day once, the
   * times rendered "HH:MM" so that _mins reads them back unchanged.
   */
  function ToDict(s: Section): (d: SectionDict)
    ensures d.course == s.course && d.crn == s.crn
    ensures StrictlySorted(d.days) && |d.days| == |s.days|
    ensures forall c :: c in d.days <==> c in s.days
    ensures Mins(d.start) == Some(s.start) && Mins(d.end) == Some(s.end)
  {
    MinsFormat(s.start);
    MinsFormat(s.end);
    SectionDict(s.course, s.crn, SortedString(s.days), FormatHHMM(s.start), FormatHHMM(s.end))
  }

  /** Building a section from its own to_dict gives the section back. */
  lemma ToDictRoundTrip(s: Section)
    ensures var d := ToDict(s); MakeSection(d.course, d.crn, d.days, d.start, d.end) == Some(s)
  {
    var d := ToDict(s);
    var r := MakeSection(d.course, d.crn, d.days, d.start, d.end);
    assert r.value.days == s.days;
  }

  // ------------------------------------------------------------- the search

  /** Course code to its ordered pool of candidate sections. */
  type Catalogue = map<string, seq<Section>>

  datatype Error = UnknownCourse(code: string)

  /** The pools of the requested courses, in request order; the first unknown code is the error. */
  function Resolve(catalogue: Catalogue, courses: seq<string>): Result<seq<seq<Section>>, Error>
  {
    if courses == [] then Success([])
    else if courses[0] !in catalogue then Failure(UnknownCourse(courses[0]))
    else match Resolve(catalogue, courses[1..])
      case Success(rest) => Success([catalogue[courses[0]]] + rest)
      case Failure(e) => Failure(e)
  }

  /** Resolve fails exactly when a code is missing, and then names the first missing code. */
  lemma {:induction false} ResolveSpec(catalogue: Catalogue, courses: seq<string>)
    ensures Resolve(catalogue, courses).Success? <==> forall i :: 0 <= i < |courses| ==> courses[i] in catalogue
    ensures Resolve(catalogue, courses).Success? ==>
      var pools := Resolve(catalogue, courses).value;
      |pools| == |courses| && forall i :: 0 <= i < |courses| ==> pools[i] == catalogue[courses[i]]
    ensures Resolve(catalogue, courses).Failure? ==>
      exists i :: 0 <= i < |courses| && courses[i] !in catalogue &&
        (forall j :: 0 <= j < i ==> courses[j] in catalogue) &&
        Resolve(catalogue, courses).error == UnknownCourse(courses[i])
  {
    if courses != [] && courses[0] in catalogue {
      var tail := courses[1..];
      ResolveSpec(catalogue, tail);
      assert forall i :: 1 <= i < |courses| ==> courses[i] == tail[i - 1];
      if Resolve(catalogue, tail).Failure? {
        var i :| 0 <= i < |tail| && tail[i] !in catalogue &&
          (forall j :: 0 <= j < i ==> tail[j] in catalogue) &&
          Resolve(catalogue, tail).error == UnknownCourse(tail[i]);
        assert courses[i + 1] !in catalogue;
        assert forall j :: 1 <= j < i + 1 ==> courses[j] == tail[j - 1];
      } else {
        assert forall i :: 0 <= i < |tail| ==> tail[i] in catalogue;
      }
    }
  }

  /** Filter (a): every section's days lie within the allowed days. */
  predicate DaysOk(combo: seq<Section>, daysOk: set<char>)
  {
    forall i :: 0 <= i < |combo| ==> combo[i].days <= daysOk
  }

  /** Filter (b): every section starts no earlier than startOk and ends no later than endOk. */
  predicate WindowOk(combo: seq<Section>, startOk: int, endOk: int)
  {
    forall i :: 0 <= i < |combo| ==> startOk <= combo[i].start && combo[i].end <= endOk
  }

  /** Filter (c): no pair of positions i < j clashes (itertools.combinations(combo, 2)). */
  predicate ClashFree(combo: seq<Section>)
  {
    forall i, j :: 0 <= i < j < |combo| ==> !Clashes(combo[i], combo[j])
  }

  predicate Acceptable(combo: seq<Section>, startOk: int, endOk: int, daysOk: set<char>)
  {
    DaysOk(combo, daysOk) && WindowOk(combo, startOk, endOk) && ClashFree(combo)
  }

  /** Checking pairs i < j is enough: then no two distinct positions clash, in either order. */
  lemma ClashFreeAllPairs(combo: seq<Section>)
    requires ClashFree(combo)
    ensures forall i, j :: 0 <= i < |combo| && 0 <= j < |combo| && i != j ==> !Clashes(combo[i], combo[j])
  {
  }

  /** The combinations that pass all three filters, in their original order. */
  function Survivors(combos: seq<seq<Section>>, startOk: int, endOk: int, daysOk: set<char>): seq<seq<Section>>
  {
    if combos == [] then []
    else
      var last := combos[|combos| - 1];
      Survivors(combos[..|combos| - 1], startOk, endOk, daysOk) +
        (if Acceptable(last, startOk, endOk, daysOk) then [last] else [])
  }

  lemma {:induction false} SurvivorsConcat(a: seq<seq<Section>>, b: seq<seq<Section>>, startOk: int, endOk: int, daysOk: set<char>)
    ensures Survivors(a + b, startOk, endOk, daysOk) ==
      Survivors(a, startOk, endOk, daysOk) + Survivors(b, startOk, endOk, daysOk)
  {
    if b == [] {
      assert a + b == a;
    } else {
      var b' := b[..|b| - 1];
      assert (a + b)[..|a + b| - 1] == a + b';
      SurvivorsConcat(a, b', startOk, endOk, daysOk);
    }
  }

  /** Survivors keeps the input's order: two survivors come from positions of the input in the same order. */
  lemma {:induction false} SurvivorsOrder(combos: seq<seq<Section>>, startOk: int, endOk: int, daysOk: set<char>, p: nat, q: nat)
    ensures var s := Survivors(combos, startOk, endOk, daysOk);
      p < q < |s| ==> exists i, j :: 0 <= i < j < |combos| && combos[i] == s[p] && combos[j] == s[q]
  {
    var s := Survivors(combos, startOk, endOk, daysOk);
    if p < q < |s| {
      var n := |combos|;
      var init, last := combos[..n - 1], combos[n - 1];
      var si := Survivors(init, startOk, endOk, daysOk);
      assert s == si + (if Acceptable(last, startOk, endOk, daysOk) then [last] else []);
      if q < |si| {
        SurvivorsOrder(init, startOk, endOk, daysOk, p, q);
        var i, j :| 0 <= i < j < |init| && init[i] == si[p] && init[j] == si[q];
        assert combos[i] == s[p] && combos[j] == s[q];
      } else {
        assert s[q] == last;
        SurvivorsMembers(init, startOk, endOk, daysOk, si[p]);
        var i :| 0 <= i < |init| && init[i] == si[p];
        assert combos[i] == s[p] && combos[n - 1] == s[q];
      }
    }
  }

  /** Survivors keeps exactly the acceptable members. */
  lemma {:induction false} SurvivorsMembers(combos: seq<seq<Section>>, startOk: int, endOk: int, daysOk: set<char>, c: seq<Section>)
    ensures c in Survivors(combos, startOk, endOk, daysOk) <==> c in combos && Acceptable(c, startOk, endOk, daysOk)
  {
    if combos != [] {
      var init := combos[..|combos| - 1];
      SurvivorsMembers(init, startOk, endOk, daysOk, c);
      assert combos == init + [combos[|combos| - 1]];
    }
  }

  /** Every valid combination of the requested courses, in product order (the pools must all resolve). */
  function AllValid(pools: seq<seq<Section>>, startOk: int, endOk: int, daysOk: set<char>): seq<seq<Section>>
  {
    Survivors(Product(pools), startOk, endOk, daysOk)
  }

  /** The first MAX_SOLNS entries, or all of them when there are fewer. */
  function Capped(valid: seq<seq<Section>>): seq<seq<Section>>
  {
    if |valid| <= MAX_SOLNS then valid else valid[..MAX_SOLNS]
  }

  /**
   * What find_schedules yields: the first MAX_SOLNS valid combinations in
   * product order, or the unknown-course error before any of them.
   */
  function Solve(catalogue: Catalogue, courses: seq<string>, startOk: int, endOk: int, daysOk: set<char>): Result<seq<seq<Section>>, Error>
  {
    match Resolve(catalogue, courses)
    case Failure(e) => Failure(e)
    case Success(pools) =>
      Success(Capped(AllValid(pools, startOk, endOk, daysOk)))
  }

  /**
   * `find_schedules`: resolve the pools in request order, raising on the
   * first unknown code, then enumerate.
   */
  method FindSchedules(catalogue: Catalogue, courses: seq<string>, startOk: int, endOk: int, daysOk: set<char>)
    returns (r: Result<seq<seq<Section>>, Error>)
    ensures r == Solve(catalogue, courses, startOk, endOk, daysOk)
  {
    ResolveSpec(catalogue, courses);
    var pools: seq<seq<Section>> := [];
    var i := 0;
    while i < |courses|
      invariant 0 <= i <= |courses| && |pools| == i
      invariant forall j :: 0 <= j < i ==> courses[j] in catalogue && pools[j] == catalogue[courses[j]]
    {
      if courses[i] !in catalogue {
        return Failure(UnknownCourse(courses[i]));
      }
      pools := pools + [catalogue[courses[i]]];
      i := i + 1;
    }
    assert pools == Resolve(catalogue, courses).value;
    var schedules := Enumerate(pools, startOk, endOk, daysOk);
    return Success(schedules);
  }

  /**
   * The loop of `find_schedules`: walk the product with the odometer, apply
   * the day, window and clash filters in that order, and stop once
   * MAX_SOLNS schedules have been produced.
   */
  method Enumerate(pools: seq<seq<Section>>, startOk: int, endOk: int, daysOk: set<char>)
    returns (schedules: seq<seq<Section>>)
    ensures schedules == Capped(AllValid(pools, startOk, endOk, daysOk))
  {
    ghost var all := Product(pools);
    ProductSize(pools);
    SizeZero(pools);
    schedules := [];
    var count := 0;
    var idx := Zeros(|pools|);
    var more := forall j :: 0 <= j < |pools| ==> |pools[j]| > 0;
    ghost var k: nat := 0;
    if more {
      RankZeros(pools);
    }
    while more
      invariant more ==> InRange(pools, idx) && Rank(pools, idx) == k && k < |all|
      invariant !more ==> k == |all|
      invariant schedules == Survivors(all[..k], startOk, endOk, daysOk)
      invariant count == |schedules| < MAX_SOLNS
      decreases |all| - k
    {
      var combo := Combo(pools, idx);
      ProductAt(pools, idx);
      SurvivorsStep(all, k, startOk, endOk, daysOk);
      if !DaysOk(combo, daysOk) {
      } else if !WindowOk(combo, startOk, endOk) {
      } else if !ClashFree(combo) {
      } else {
        schedules := schedules + [combo];
        count := count + 1;
        if count >= MAX_SOLNS {
          k := k + 1;
          break;
        }
      }
      idx, more := Advance(pools, idx);
      k := k + 1;
    }
    CappedAtStop(all, k, startOk, endOk, daysOk);
  }

  /** One more combination of the product either survives the filters or not. */
  lemma SurvivorsStep(all: seq<seq<Section>>, k: nat, startOk: int, endOk: int, daysOk: set<char>)
    requires k < |all|
    ensures Survivors(all[..k + 1], startOk, endOk, daysOk) ==
      Survivors(all[..k], startOk, endOk, daysOk) + (if Acceptable(all[k], startOk, endOk, daysOk) then [all[k]] else [])
  {
    assert all[..k + 1][..k] == all[..k];
  }

  /**
   * Where the loop stops: once the whole product is walked, or as soon as
   * MAX_SOLNS survivors exist, the survivors so far are the capped list.
   */
  lemma CappedAtStop(all: seq<seq<Section>>, k: nat, startOk: int, endOk: int, daysOk: set<char>)
    requires k <= |all|
    requires k == |all| ==> |Survivors(all[..k], startOk, endOk, daysOk)| <= MAX_SOLNS
    requires k < |all| ==> |Survivors(all[..k], startOk, endOk, daysOk)| == MAX_SOLNS
    ensures Capped(Survivors(all, startOk, endOk, daysOk)) == Survivors(all[..k], startOk, endOk, daysOk)
  {
    if k < |all| {
      assert all == all[..k] + all[k..];
      SurvivorsConcat(all[..k], all[k..], startOk, endOk, daysOk);
    } else {
      assert all[..k] == all;
    }
  }

  // ------------------------------------------- properties of the search

  /** The pools of a request whose codes are all known. */
  function PoolsOf(catalogue: Catalogue, courses: seq<string>): (pools: seq<seq<Section>>)
    requires forall i :: 0 <= i < |courses| ==> courses[i] in catalogue
    ensures Resolve(catalogue, courses) == Success(pools)
  {
    ResolveSpec(catalogue, courses);
    var pools := seq(|courses|, i requires 0 <= i < |courses| => catalogue[courses[i]]);
    assert Resolve(catalogue, courses).value == pools;
    pools
  }

  lemma CappedPrefix(valid: seq<seq<Section>>)
    ensures |Capped(valid)| == if |valid| < MAX_SOLNS then |valid| else MAX_SOLNS
    ensures Capped(valid) == valid[..|Capped(valid)|]
  {
  }

  /**
   * An unknown code fails the whole request, before any schedule, naming
   * the first code missing from the catalogue.
   */
  lemma SolveUnknownCourse(catalogue: Catalogue, courses: seq<string>, startOk: int, endOk: int, daysOk: set<char>)
    ensures Solve(catalogue, courses, startOk, endOk, daysOk).Failure? <==>
      exists i :: 0 <= i < |courses| && courses[i] !in catalogue
    ensures Solve(catalogue, courses, startOk, endOk, daysOk).Failure? ==>
      exists i :: 0 <= i < |courses| && courses[i] !in catalogue &&
        (forall j :: 0 <= j < i ==> courses[j] in catalogue) &&
        Solve(catalogue, courses, startOk, endOk, daysOk).error == UnknownCourse(courses[i])
  {
    ResolveSpec(catalogue, courses);
  }

  /** Every yielded schedule has one section per requested code, the i-th from the pool of courses[i]. */
  lemma SolveSchedulesFromPools(catalogue: Catalogue, courses: seq<string>, startOk: int, endOk: int, daysOk: set<char>)
    requires forall i :: 0 <= i < |courses| ==> courses[i] in catalogue
    ensures Solve(catalogue, courses, startOk, endOk, daysOk).Success?
    ensures forall s: seq<Section> :: s in Solve(catalogue, courses, startOk, endOk, daysOk).value ==>
      |s| == |courses| && forall i :: 0 <= i < |courses| ==> s[i] in catalogue[courses[i]]
  {
    var pools := PoolsOf(catalogue, courses);
    var valid := AllValid(pools, startOk, endOk, daysOk);
    CappedPrefix(valid);
    forall s | s in Solve(catalogue, courses, startOk, endOk, daysOk).value
      ensures |s| == |courses| && forall i :: 0 <= i < |courses| ==> s[i] in catalogue[courses[i]]
    {
      assert s in valid;
      SurvivorsMembers(Product(pools), startOk, endOk, daysOk, s);
      ProductMembers(pools, s);
    }
  }

  /**
   * Every yielded schedule meets the request: each section's days are
   * allowed, each lies within [startOk, endOk], and no two clash.
   */
  lemma SolveSchedulesMeetConstraints(catalogue: Catalogue, courses: seq<string>, startOk: int, endOk: int, daysOk: set<char>)
    requires Solve(catalogue, courses, startOk, endOk, daysOk).Success?
    ensures forall s: seq<Section> :: s in Solve(catalogue, courses, startOk, endOk, daysOk).value ==>
      (forall i :: 0 <= i < |s| ==> s[i].days <= daysOk && startOk <= s[i].start && s[i].end <= endOk) &&
      (forall i, j :: 0 <= i < |s| && 0 <= j < |s| && i != j ==> !Clashes(s[i], s[j]))
  {
    ResolveSpec(catalogue, courses);
    var pools := Resolve(catalogue, courses).value;
    var valid := AllValid(pools, startOk, endOk, daysOk);
    CappedPrefix(valid);
    forall s: seq<Section> | s in Solve(catalogue, courses, startOk, endOk, daysOk).value
      ensures forall i :: 0 <= i < |s| ==> s[i].days <= daysOk && startOk <= s[i].start && s[i].end <= endOk
      ensures forall i, j :: 0 <= i < |s| && 0 <= j < |s| && i != j ==> !Clashes(s[i], s[j])
    {
      assert s in valid;
      SurvivorsMembers(Product(pools), startOk, endOk, daysOk, s);
      ClashFreeAllPairs(s);
    }
  }

  /** With M valid combinations, exactly min(M, MAX_SOLNS) schedules are yielded. */
  lemma SolveCount(catalogue: Catalogue, courses: seq<string>, startOk: int, endOk: int, daysOk: set<char>)
    requires forall i :: 0 <= i < |courses| ==> courses[i] in catalogue
    ensures Solve(catalogue, courses, startOk, endOk, daysOk).Success?
    ensures var m := |AllValid(PoolsOf(catalogue, courses), startOk, endOk, daysOk)|;
      |Solve(catalogue, courses, startOk, endOk, daysOk).value| == if m < MAX_SOLNS then m else MAX_SOLNS
  {
    CappedPrefix(AllValid(PoolsOf(catalogue, courses), startOk, endOk, daysOk));
  }

  /** For n up to the number of survivors, the first n survivors are all the survivors of some prefix. */
  lemma {:induction false} SurvivorsOfPrefix(combos: seq<seq<Section>>, startOk: int, endOk: int, daysOk: set<char>, n: nat)
    requires n <= |Survivors(combos, startOk, endOk, daysOk)|
    ensures exists k ::
              && 0 <= k <= |combos|
              && Survivors(combos[..k], startOk, endOk, daysOk) == Survivors(combos, startOk, endOk, daysOk)[..n]
  {
    var all := Survivors(combos, startOk, endOk, daysOk);
    if n == |all| {
      assert combos[..|combos|] == combos;
    } else {
      var init := combos[..|combos| - 1];
      var before := Survivors(init, startOk, endOk, daysOk);
      assert n <= |before|;
      SurvivorsOfPrefix(init, startOk, endOk, daysOk, n);
      var k :| 0 <= k <= |init| && Survivors(init[..k], startOk, endOk, daysOk) == before[..n];
      assert init[..k] == combos[..k];
      assert all[..n] == before[..n];
    }
  }

  /**
   * The yielded schedules are exactly the valid combinations among some
   * prefix of the product, in product order: none before the last one is skipped.
   */
  lemma SolveIsFirstValid(catalogue: Catalogue, courses: seq<string>, startOk: int, endOk: int, daysOk: set<char>)
    requires forall i :: 0 <= i < |courses| ==> courses[i] in catalogue
    ensures Solve(catalogue, courses, startOk, endOk, daysOk).Success?
    ensures exists k ::
              && 0 <= k <= |Product(PoolsOf(catalogue, courses))|
              && Solve(catalogue, courses, startOk, endOk, daysOk).value ==
                 Survivors(Product(PoolsOf(catalogue, courses))[..k], startOk, endOk, daysOk)
  {
    var all := Product(PoolsOf(catalogue, courses));
    var valid := Survivors(all, startOk, endOk, daysOk);
    CappedPrefix(valid);
    SurvivorsOfPrefix(all, startOk, endOk, daysOk, |Capped(valid)|);
    var k :| 0 <= k <= |all| && Survivors(all[..k], startOk, endOk, daysOk) == valid[..|Capped(valid)|];
    assert Solve(catalogue, courses, startOk, endOk, daysOk).value == Capped(valid);
    assert Solve(catalogue, courses, startOk, endOk, daysOk).value == Survivors(all[..k], startOk, endOk, daysOk);
  }

  /**
   * When there are at most MAX_SOLNS valid combinations, a combination is
   * yielded exactly when it takes its i-th section from the pool of
   * courses[i] and passes all three filters.
   */
  lemma SolveComplete(catalogue: Catalogue, courses: seq<string>, startOk: int, endOk: int, daysOk: set<char>)
    requires forall i :: 0 <= i < |courses| ==> courses[i] in catalogue
    requires |AllValid(PoolsOf(catalogue, courses), startOk, endOk, daysOk)| <= MAX_SOLNS
    ensures Solve(catalogue, courses, startOk, endOk, daysOk).Success?
    ensures forall c :: c in Solve(catalogue, courses, startOk, endOk, daysOk).value <==>
      |c| == |courses| && (forall i :: 0 <= i < |courses| ==> c[i] in catalogue[courses[i]]) &&
      Acceptable(c, startOk, endOk, daysOk)
  {
    var pools := PoolsOf(catalogue, courses);
    forall c
      ensures c in Solve(catalogue, courses, startOk, endOk, daysOk).value <==>
        |c| == |courses| && (forall i :: 0 <= i < |courses| ==> c[i] in catalogue[courses[i]]) &&
        Acceptable(c, startOk, endOk, daysOk)
    {
      SurvivorsMembers(Product(pools), startOk, endOk, daysOk, c);
      ProductMembers(pools, c);
    }
  }

  /**
   * The web page's "(showing first N)" note: the search returns no
   * truncation flag, the page only compares the count with MAX_SOLNS.
   */
  predicate ShowsTruncationNote(schedules: seq<seq<Section>>)
  {
    |schedules| == MAX_SOLNS
  }

  /**
   * The note appears exactly when there are at least MAX_SOLNS valid
   * combinations, so also when there are exactly MAX_SOLNS and nothing was cut.
   */
  lemma TruncationNote(catalogue: Catalogue, courses: seq<string>, startOk: int, endOk: int, daysOk: set<char>)
    requires forall i :: 0 <= i < |courses| ==> courses[i] in catalogue
    ensures Solve(catalogue, courses, startOk, endOk, daysOk).Success?
    ensures var valid := AllValid(PoolsOf(catalogue, courses), startOk, endOk, daysOk);
      var yielded := Solve(catalogue, courses, startOk, endOk, daysOk).value;
      (ShowsTruncationNote(yielded) <==> |valid| >= MAX_SOLNS) &&
      (|valid| == MAX_SOLNS ==> ShowsTruncationNote(yielded) && yielded == valid)
  {
    CappedPrefix(AllValid(PoolsOf(catalogue, courses), startOk, endOk, daysOk));
  }

  /** An empty request yields one schedule, the empty one, as itertools.product() yields one empty tuple. */
  lemma EmptyRequest(catalogue: Catalogue, startOk: int, endOk: int, daysOk: set<char>)
    ensures Solve(catalogue, [], startOk, endOk, daysOk) == Success([[]])
  {
    var none: seq<seq<Section>> := [];
    assert Resolve(catalogue, []) == Success(none);
    assert Product(none) == [[]];
    assert Acceptable([], startOk, endOk, daysOk);
    assert [[]][..0] == none;
    assert Survivors([[]], startOk, endOk, daysOk) == [[]];
  }

  lemma AppendedOne(c: seq<Section>, x: Section)
    ensures Appended(c, [x]) == [c + [x]]
  {
  }

  lemma AppendedTwo(c: seq<Section>, x: Section, y: Section)
    ensures Appended(c, [x, y]) == [c + [x], c + [y]]
  {
  }

  /**
   * Two courses whose sections meet back to back: both combinations are
   * valid, in product order.
   */
  lemma BackToBackExample()
    ensures
      var cm, ct := Section("CS100", 1, {'M'}, 540, 615), Section("CS100", 2, {'T'}, 540, 615);
      var ma := Section("MA100", 3, {'M'}, 615, 690);
      Solve(map["CS100" := [cm, ct], "MA100" := [ma]], ["CS100", "MA100"], 480, 1020, {'M', 'T', 'W', 'R', 'F'})
        == Success([[cm, ma], [ct, ma]])
  {
    var cm, ct := Section("CS100", 1, {'M'}, 540, 615), Section("CS100", 2, {'T'}, 540, 615);
    var ma := Section("MA100", 3, {'M'}, 615, 690);
    var catalogue := map["CS100" := [cm, ct], "MA100" := [ma]];
    var courses := ["CS100", "MA100"];
    var days := {'M', 'T', 'W', 'R', 'F'};
    var pools := PoolsOf(catalogue, courses);
    assert pools == [[cm, ct], [ma]];
    TwoPoolProduct(cm, ct, ma);
    BackToBackNoClash(cm, ma);
    assert Acceptable([cm, ma], 480, 1020, days);
    assert Acceptable([ct, ma], 480, 1020, days);
    var all := Product(pools);
    assert all[..1] == [[cm, ma]] && all[..1][..0] == [] && all[..2] == all;
    assert Survivors(all[..1], 480, 1020, days) == [[cm, ma]];
  }

  /** The product of pools [[x, y], [z]], spelled out. */
  lemma TwoPoolProduct(x: Section, y: Section, z: Section)
    ensures Product([[x, y], [z]]) == [[x, z], [y, z]]
  {
    var pools := [[x, y], [z]];
    var head := pools[..1];
    assert head == [[x, y]] && head[..0] == [];
    assert Product(head[..0]) == [[]];
    var empty: seq<Section> := [];
    var e: seq<seq<Section>> := [empty];
    assert e[1..] == [];
    AppendedTwo(empty, x, y);
    assert empty + [x] == [x] && empty + [y] == [y];
    assert Extend(e, [x, y]) == Appended(empty, [x, y]) + Extend(e[1..], [x, y]);
    assert Product(head) == Extend(e, [x, y]) == [[x], [y]];
    AppendedOne([x], z);
    AppendedOne([y], z);
    assert [x] + [z] == [x, z] && [y] + [z] == [y, z];
    var xy: seq<seq<Section>> := [[x], [y]];
    assert xy[1..] == [[y]] && xy[1..][1..] == [];
    assert Extend<Section>([], [z]) == [];
    assert Extend(xy[1..], [z]) == Appended([y], [z]) + Extend(xy[1..][1..], [z]);
    assert Extend(xy[1..], [z]) == [[y, z]];
    assert Extend(xy, [z]) == Appended([x], [z]) + Extend(xy[1..], [z]);
    assert Product(pools) == Extend(Product(head), [z]);
  }

  /** The product of pools [[x], [x]], spelled out. */
  lemma SquaredPoolProduct(x: Section)
    ensures Product([[x], [x]]) == [[x, x]]
  {
    var pools := [[x], [x]];
    var head := pools[..1];
    assert head == [[x]] && head[..0] == [];
    assert Product(head[..0]) == [[]];
    var empty: seq<Section> := [];
    var e: seq<seq<Section>> := [empty];
    assert e[1..] == [];
    AppendedOne(empty, x);
    assert empty + [x] == [x];
    assert Extend(e, [x]) == Appended(empty, [x]) + Extend(e[1..], [x]);
    assert Product(head) == Extend(e, [x]) == [[x]];
    AppendedOne([x], x);
    assert [x] + [x] == [x, x];
    var one: seq<seq<Section>> := [[x]];
    assert one[1..] == [];
    assert Extend<Section>([], [x]) == [];
    assert Extend(one, [x]) == Appended([x], [x]) + Extend(one[1..], [x]);
    assert Product(pools) == Extend(Product(head), [x]);
  }

  /**
   * A repeated code is an independent slot, and the same section may fill
   * both slots when it clashes with nothing (here: it meets on no day).
   */
  lemma RepeatedCourseReusesSection()
    ensures
      var s := Section("LAB1", 7, {}, 540, 600);
      Solve(map["LAB1" := [s]], ["LAB1", "LAB1"], 0, 1440, {}) == Success([[s, s]])
  {
    var s := Section("LAB1", 7, {}, 540, 600);
    var catalogue := map["LAB1" := [s]];
    var courses := ["LAB1", "LAB1"];
    var pools := PoolsOf(catalogue, courses);
    assert pools == [[s], [s]];
    SquaredPoolProduct(s);
    NoDaysNoClash(s, s);
    assert Acceptable([s, s], 0, 1440, {});
    var all := Product(pools);
    assert all[..0] == [];
    assert Survivors(all, 0, 1440, {}) == [[s, s]];
    assert Solve(catalogue, courses, 0, 1440, {}) == Success(Capped(Survivors(all, 0, 1440, {})));
  }

  /** A section that meets on some day clashes with itself, so it cannot fill two slots. */
  lemma SectionClashesWithItself(s: Section)
    requires s.days != {} && s.start < s.end
    ensures Clashes(s, s)
  {
  }
}

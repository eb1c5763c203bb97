/** The temperature section of one display cycle (display_system_stats): the primary
    backend is tried first when it loaded at start-up; the operating system's sensor
    query is the fallback, consulted only when the primary source reported no valid
    reading. What is printed is modelled by the groups each source shows; the text
    itself and its number formatting are not part of the model.
 */
module TemperatureReport {
  import opened LhmSensors

  /** A map of groups has an entry: it is not empty and one of its lists is not empty. */
  predicate HasEntries<T>(m: map<string, seq<T>>)
  {
    exists g :: g in m && m[g] != []
  }

  /** The groups of a map whose list is not empty. */
  function NonEmptyGroups<T>(m: map<string, seq<T>>): map<string, seq<T>>
  {
    map g | g in m && m[g] != [] :: m[g]
  }

  /** An entry holds a valid reading when its value is a float that is not NaN. */
  predicate IsValid(e: Entry)
  {
    e.current.Finite? || e.current.Infinite?
  }

  /** The valid entries of a group, in their order. */
  function ValidEntries(entries: seq<Entry>): (r: seq<Entry>)
    ensures |r| <= |entries|
    ensures forall e :: e in r <==> e in entries && IsValid(e)
    decreases |entries|
  {
    if entries == [] then []
    else (if IsValid(entries[0]) then [entries[0]] else []) + ValidEntries(entries[1..])
  }

  /** Filtering a concatenation is concatenating the filtered parts: with
      ValidEntriesOfOne, this fixes the order of the valid entries and how many there are. */
  lemma {:induction false} ValidEntriesAppend(a: seq<Entry>, b: seq<Entry>)
    ensures ValidEntries(a + b) == ValidEntries(a) + ValidEntries(b)
    decreases |a|
  {
    if a == [] {
      assert a + b == b;
    } else {
      var head := if IsValid(a[0]) then [a[0]] else [];
      assert (a + b)[1..] == a[1..] + b;
      assert ValidEntries(a + b) == head + ValidEntries(a[1..] + b);
      ValidEntriesAppend(a[1..], b);
      assert ValidEntries(a) == head + ValidEntries(a[1..]);
    }
  }

  /** One entry survives the filter exactly when it is valid. */
  lemma ValidEntriesOfOne(e: Entry)
    ensures ValidEntries([e]) == if IsValid(e) then [e] else []
  {
    assert [e][1..] == [];
  }

  /** Some group holds an entry with a valid reading. */
  predicate HasValidGroup(temps: Groups)
  {
    exists g, e :: g in temps && e in temps[g] && IsValid(e)
  }

  /** The groups the primary source prints: every group with a valid entry, reduced to
      its valid entries. */
  function ShownGroups(temps: Groups): Groups
  {
    map g | g in temps && ValidEntries(temps[g]) != [] :: ValidEntries(temps[g])
  }

  /** Some group is shown exactly when some group holds a valid reading. */
  lemma ShownIffValidGroup(temps: Groups)
    ensures ShownGroups(temps) != map[] <==> HasValidGroup(temps)
  {
    if ShownGroups(temps) != map[] {
      var g :| g in ShownGroups(temps);
      assert ValidEntries(temps[g])[0] in temps[g];
    }
    if HasValidGroup(temps) {
      var g, e :| g in temps && e in temps[g] && IsValid(e);
      assert e in ValidEntries(temps[g]);
      assert g in ShownGroups(temps);
    }
  }

  /** A map that agrees with ShownGroups on every key is ShownGroups. */
  lemma ShownGroupsPointwise(temps: Groups, shown: Groups)
    requires forall g :: g in shown <==> g in temps && ValidEntries(temps[g]) != []
    requires forall g :: g in shown ==> shown[g] == ValidEntries(temps[g])
    ensures shown == ShownGroups(temps)
  {
  }

  /** Prints the collected groups, skipping empty groups and groups without a valid
      entry; `printed` is the flag that records whether any group was printed. */
  method PrintPrimaryGroups(temps: Groups) returns (shown: Groups, printed: bool)
    ensures shown == ShownGroups(temps)
    ensures printed <==> HasValidGroup(temps)
    ensures printed <==> shown != map[]
  {
    shown := map[];
    printed := false;
    var remaining := temps.Keys;
    while remaining != {}
      invariant remaining <= temps.Keys
      invariant forall g :: g in shown <==>
        g in temps && g !in remaining && ValidEntries(temps[g]) != []
      invariant forall g :: g in shown ==> shown[g] == ValidEntries(temps[g])
      invariant printed <==> shown != map[]
      decreases remaining
    {
      var group :| group in remaining;
      remaining := remaining - {group};
      var entries := temps[group];
      if entries != [] {
        var valid := ValidEntries(entries);
        if valid != [] {
          shown := shown[group := valid];
          printed := true;
        }
      } else {
        assert ValidEntries(entries) == [];
      }
    }
    ShownGroupsPointwise(temps, shown);
    ShownIffValidGroup(temps);
  }

  /** One reading of the fallback source: its label, its value and the optional high
      and critical thresholds. */
  datatype FallbackEntry = FallbackEntry(sensorLabel: string, current: real, high: Option<real>, critical: Option<real>)

  /** What the fallback query did: the query function does not exist on this platform,
      it raised an exception, or it returned groups of readings. */
  datatype FallbackQuery =
    | NoQueryFunction
    | QueryRaised(message: string)
    | Returned(groups: map<string, seq<FallbackEntry>>)

  /** The fallback part of the section. */
  datatype FallbackOutcome =
    | NotConsulted
    | QueryMissing
    | QueryFailed(message: string)
    | NotSupported
    | NoValues
    | Listed(groups: map<string, seq<FallbackEntry>>)

  /** What the fallback part shows once it is consulted: the query's failure, "not
      supported" for no groups at all, "no values" when every group is empty, and the
      non-empty groups otherwise. */
  function FallbackResult(q: FallbackQuery): (r: FallbackOutcome)
  {
    match q
    case NoQueryFunction => QueryMissing
    case QueryRaised(message) => QueryFailed(message)
    case Returned(groups) =>
      if groups == map[] then NotSupported
      else if !HasEntries(groups) then NoValues
      else Listed(NonEmptyGroups(groups))
  }

  /** The fallback part: a loop over the returned groups that prints every non-empty
      one and records whether any reading was printed. */
  method ReportFallback(q: FallbackQuery) returns (outcome: FallbackOutcome)
    ensures outcome == FallbackResult(q)
    ensures outcome.Listed? ==>
      (outcome.groups != map[] && forall g :: g in outcome.groups ==> outcome.groups[g] != [])
  {
    if q.NoQueryFunction? {
      return QueryMissing;
    }
    if q.QueryRaised? {
      return QueryFailed(q.message);
    }
    var groups := q.groups;
    if groups == map[] {
      return NotSupported;
    }
    var listed: map<string, seq<FallbackEntry>> := map[];
    var dataFound := false;
    var remaining := groups.Keys;
    while remaining != {}
      invariant remaining <= groups.Keys
      invariant forall g :: g in listed <==> g in groups && g !in remaining && groups[g] != []
      invariant forall g :: g in listed ==> listed[g] == groups[g]
      invariant dataFound <==> listed != map[]
      decreases remaining
    {
      var name :| name in remaining;
      remaining := remaining - {name};
      var entries := groups[name];
      if entries == [] {
        continue;
      }
      listed := listed[name := entries];
      dataFound := true;
    }
    assert listed == NonEmptyGroups(groups);
    if !dataFound {
      return NoValues;
    }
    return Listed(listed);
  }

  /** The primary part of the section. */
  datatype PrimaryOutcome =
    | Skipped(loadError: string)
    | Failed(error: LhmError)
    | NoData
    | NoValidValues
    | Shown(groups: Groups)

  /** The temperature section of one cycle: which primary outcome is printed, and
      whether and how the fallback source was used. */
  datatype Section = Section(primary: PrimaryOutcome, fallback: FallbackOutcome)

  /** The primary source reports temperatures: it loaded, the query raised nothing, and
      some collected group holds a valid reading. */
  predicate PrimaryReported(available: bool, backend: Backend)
  {
    available && backend.Opened? && HasValidGroup(CollectGroups(backend.items))
  }

  /** The temperature section: the primary attempt when the backend is available, then
      the fallback unless the primary attempt printed a reading. */
  method ShowTemperatures(available: bool, loadError: string, backend: Backend, fallback: FallbackQuery)
    returns (section: Section)
    ensures section.fallback == NotConsulted <==> PrimaryReported(available, backend)
    ensures section.fallback != NotConsulted ==> section.fallback == FallbackResult(fallback)
    ensures !available ==> section.primary == Skipped(loadError)
    ensures available && backend.Raised? ==> section.primary == Failed(OperationFailed(backend.message))
    ensures available && backend.Opened? ==>
      var temps := CollectGroups(backend.items);
      section.primary == (if !HasEntries(temps) then NoData
                          else if !HasValidGroup(temps) then NoValidValues
                          else Shown(ShownGroups(temps)))
  {
    var reported := false;
    var primary: PrimaryOutcome;
    if available {
      var temps, err := GetTemperaturesLhm(available, loadError, backend);
      if err.Some? {
        primary := Failed(err.value);
      } else if temps == map[] || !HasEntries(temps) {
        primary := NoData;
      } else {
        var shown, printed := PrintPrimaryGroups(temps);
        if printed {
          reported := true;
          primary := Shown(shown);
        } else {
          primary := NoValidValues;
        }
      }
    } else {
      primary := Skipped(loadError);
    }
    var outcome := NotConsulted;
    if !reported {
      outcome := ReportFallback(fallback);
      assert outcome != NotConsulted;
    }
    section := Section(primary, outcome);
  }

  /** The fallback is consulted exactly when the backend did not load, its query raised
      an error, it returned no non-empty group, or no group held a valid reading. */
  lemma FallbackConsultedIff(available: bool, backend: Backend)
    ensures !PrimaryReported(available, backend) <==>
      || !available
      || backend.Raised?
      || !HasEntries(CollectGroups(backend.items))
      || !HasValidGroup(CollectGroups(backend.items))
  {
    if backend.Opened? && HasValidGroup(CollectGroups(backend.items)) {
      var temps := CollectGroups(backend.items);
      var g, e :| g in temps && e in temps[g] && IsValid(e);
      assert temps[g] != [];
    }
  }

  /** The collected groups never hold an empty list, so "no non-empty group" is the same
      as "no group at all". */
  lemma NoDataMeansNoGroups(items: seq<HardwareItem>)
    ensures !HasEntries(CollectGroups(items)) <==> CollectGroups(items) == map[]
  {
    var temps := CollectGroups(items);
    if temps != map[] {
      var g :| g in temps;
      assert temps[g] != [];
    }
  }

  /** A temperature sensor with a float reading other than NaN, on an item whose name no
      later item with temperature sensors reuses, makes the primary source report: the
      fallback is then never consulted. */
  lemma ValidReadingSuppressesFallback(items: seq<HardwareItem>, i: nat, k: nat)
    requires i < |items| && k < |items[i].sensors|
    requires IsTemperature(items[i].sensors[k])
    requires items[i].sensors[k].value.Some?
    requires items[i].sensors[k].value.value.Finite? || items[i].sensors[k].value.value.Infinite?
    requires forall j :: i < j < |items| && items[j].name == items[i].name ==>
      GroupEntries(items[j].sensors) == []
    ensures PrimaryReported(true, Opened(items))
  {
    var sensors := items[i].sensors;
    var e := EntryOf(sensors[k]);
    assert e in GroupEntries(sensors);
    LastItemOfNameWins(items, i);
    var temps := CollectGroups(items);
    assert e in temps[items[i].name] && IsValid(e);
  }

  /** When every temperature sensor is missing its value or holds NaN or a non-float,
      no group holds a valid reading and the fallback is consulted. */
  lemma NoValidReadingConsultsFallback(items: seq<HardwareItem>)
    requires forall i, k ::
      (0 <= i < |items| && 0 <= k < |items[i].sensors| &&
       IsTemperature(items[i].sensors[k]) && items[i].sensors[k].value.Some?) ==>
      items[i].sensors[k].value.value in {NaN, NonFloat}
    ensures !PrimaryReported(true, Opened(items))
  {
    var temps := CollectGroups(items);
    if HasValidGroup(temps) {
      var g, e :| g in temps && e in temps[g] && IsValid(e);
      GroupComesFromItem(items, g);
    }
  }
}

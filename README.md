# System monitor core: byte scaling, network rates, temperature source selection

This project models the three pieces of logic inside `systemcheck.py`, a terminal
system monitor, that have behaviour worth stating, and proves properties of them.

- **ByteUnits** (`byte_units.dfy`): the scaler `get_size_gb`. It divides a byte count
  or rate by 1024 until the value drops below 1024 and labels it with one of the
  prefixes `""`, `K`, `M`, `G`, `T`, `P`. `GetSize` is that loop. It returns the
  prefix index and the scaled value as an exact `real`, in place of the formatted string.
  Its contract is the predicate `IsScaling`. The prefix is the first index `k` with
  `v / 1024^k < 1024`. If no index up to 5 fits, the loop has already divided six
  times, so the value `v / 1024^6` is shown with `P`.
- **NetworkRate** (`network_rate.dfy`): the rate calculator `get_network_speed`.
  `NetworkMonitor` holds the module-level baseline (`last_net_io`, `last_time_net`)
  as fields. `GetNetworkSpeed` takes the counter sample and the clock reading as
  parameters. The function `Measure` specifies one call. With zero elapsed time it
  returns zero rates and keeps the baseline. Otherwise it returns delta / elapsed
  and moves the baseline to the sample. Over a run of calls, the rates times the
  elapsed times add up to exactly the bytes moved between the first and the last
  baseline.
- **LhmSensors** (`lhm_sensors.dfy`): collection from the hardware-sensor backend
  (`get_temperatures_lhm`). The backend is modelled by the data it hands back: hardware
  items with their sensors, or the exception it raised. A temperature sensor with no
  value is recorded as NaN. An item becomes a group only when it has a temperature
  sensor. A later item with the same name replaces an earlier one, as a dictionary
  assignment does.
- **TemperatureReport** (`temperature_report.dfy`): the temperature section of
  `display_system_stats`. An entry is valid when it holds a float that is not NaN.
  The primary source counts as having reported only when it loaded, raised nothing,
  and some group holds a valid entry. The operating-system fallback query is consulted
  exactly when it has not reported.

Two details of the code that the model keeps exactly:

- An entry is valid when its value is a float that is not NaN, so an infinite float
  is valid too.
- The scaler picks the first (smallest) prefix whose scaled value is below 1024.

## Model

| member | source | states |
|---|---|---|
| ByteUnits.GetSize | systemcheck.py:35-46 | the loop's result is the scaling of v: the first prefix whose scaled value is below 1024 with that scaled value, or "P" with v/1024^6 on fall-through |
| ByteUnits.ScalingUnique | systemcheck.py:41-46 | the scaling contract determines the result: two results that satisfy it are equal |
| ByteUnits.BelowFactorUnscaled | systemcheck.py:43-44 | any value below 1024, negative rates included, gets the empty prefix and is returned unscaled |
| ByteUnits.OnlyTopUnitOverflows | systemcheck.py:42-46 | a shown value of 1024 or more only happens with prefix "P"; below the top prefix the value is below 1024 |
| ByteUnits.AtLeastPow6FallsThrough | systemcheck.py:42-46 | from 1024^6 on, the result is "P" with v/1024^6; the prefix index never exceeds 5 |
| ByteUnits.ScalingBetweenPowers | systemcheck.py:41-45 | a value in [1024^k, 1024^(k+1)) for k up to 5 gets prefix k and value v/1024^k |
| ByteUnits.UnitMonotone | systemcheck.py:41-45 | a larger value never gets a smaller prefix |
| ByteUnits.DocExamples | systemcheck.py:37-39 | 1253656 shows as 1.20 "M" and 1253656678 as 1.17 "G" |
| ByteUnits.RenderingExamples | systemcheck.py:41-46 | 0 shows as 0 with no prefix, 1536 as 1.5 "K", 1024^4 as 1 "T" |
| ByteUnits.FallThroughMislabels | systemcheck.py:42-46 | as written, 1024^5 and 1024^6 both show as 1 "P", so the shown value times the unit no longer gives back the input |
| ByteUnits.IntendedRoundTrip | systemcheck.py:42-46 | under the corrected scaling, the shown value times the unit it is labelled with is the input |
| ByteUnits.GetSizeIntended | systemcheck.py:41-46 | the corrected loop stops dividing at "P": first fitting prefix or "P", and value times unit is the input for every input |
| ByteUnits.IntendedAgreesBelowPow6 | systemcheck.py:41-45 | below 1024^6 the corrected scaling and the code's scaling are the same |
| NetworkRate.Measure | systemcheck.py:66-79 | totals are the current counters; zero elapsed gives zero rates and keeps the baseline; otherwise rate times elapsed is the counter delta and the baseline becomes the sample |
| NetworkRate.NetworkMonitor.constructor | systemcheck.py:55-56 | the baseline starts as the first counter sample and its time |
| NetworkRate.NetworkMonitor.GetNetworkSpeed | systemcheck.py:59-79 | returns the current totals; zero elapsed returns (0, 0) and leaves the fields unchanged; otherwise returns delta/elapsed per direction and overwrites the baseline with the sample |
| NetworkRate.RateExample | systemcheck.py:70-74 | from (1000, 2000, t=0) to (3000, 2500, t=2) the rates are 1000 and 250 bytes/s |
| NetworkRate.CounterResetGivesNegativeRate | systemcheck.py:70-73 | a counter that went backwards with time moving forward gives a negative rate; nothing is clamped |
| NetworkRate.RatesAccountForAllTraffic | systemcheck.py:66-79 | over any run of calls, rate times elapsed summed per direction equals the counter growth between the first and the final baseline |
| NetworkRate.ZeroElapsedCallsKeepBaseline | systemcheck.py:66-68 | calls with no time elapsed never move the baseline and account for no bytes |
| LhmSensors.GroupEntries | systemcheck.py:106-114 | every entry is built from a temperature sensor of the item and every temperature sensor's entry is present; empty exactly when the item has no temperature sensor |
| LhmSensors.GroupEntriesAppend | systemcheck.py:107-114 | collecting a concatenation of sensor lists concatenates their entries, so entries keep the sensors' order and there is one per temperature sensor |
| LhmSensors.GroupEntriesOfOne | systemcheck.py:108-114 | one sensor gives its entry, with a missing value as NaN, when it measures a temperature, and nothing otherwise |
| LhmSensors.CollectGroups | systemcheck.py:103-116 | every collected group is non-empty; a name is a key exactly when some item of that name has a temperature sensor |
| LhmSensors.GetTemperaturesLhm | systemcheck.py:82-120 | backend not loaded: empty map and the stored load error; backend raised: empty map and the operation error; otherwise the collected groups and no error |
| LhmSensors.GroupComesFromItem | systemcheck.py:103-116 | every collected group is the entry list of some hardware item of that name |
| LhmSensors.MissingValueRecordedAsNaN | systemcheck.py:110 | a temperature sensor without a value appears in its group as a NaN entry |
| LhmSensors.LastItemOfNameWins | systemcheck.py:105-116 | a name's group holds the entries of the last item of that name that has temperature sensors |
| LhmSensors.SameNameOverwrites | systemcheck.py:115-116 | of two items with the same name, both with temperature sensors, only the second's entries are kept |
| TemperatureReport.ValidEntries | systemcheck.py:197-198 | an entry is in the filtered group exactly when it is in the group and is a float that is not NaN |
| TemperatureReport.ValidEntriesAppend | systemcheck.py:197-198 | filtering a concatenation concatenates the filtered parts, so valid entries keep their order and each occurrence is kept |
| TemperatureReport.ValidEntriesOfOne | systemcheck.py:197-198 | a single entry survives the filter exactly when it is valid |
| TemperatureReport.ShownIffValidGroup | systemcheck.py:193-207 | some group is printed exactly when some group holds a valid entry |
| TemperatureReport.PrintPrimaryGroups | systemcheck.py:193-209 | the printed groups are exactly the groups with a valid entry, reduced to their valid entries; the printed flag is set exactly when some group holds a valid entry |
| TemperatureReport.ReportFallback | systemcheck.py:215-242 | the fallback shows the query's failure, "not supported" for no groups, "no values" when every group is empty, and otherwise exactly the non-empty groups |
| TemperatureReport.ShowTemperatures | systemcheck.py:184-242 | the fallback is consulted exactly when the primary source did not report; the primary outcome is skipped, failed, no data, no valid values, or the shown groups, as the backend's data decides |
| TemperatureReport.FallbackConsultedIff | systemcheck.py:184-215 | the primary source did not report exactly when: the backend did not load, it raised, no group is non-empty, or no group holds a valid entry |
| TemperatureReport.NoDataMeansNoGroups | systemcheck.py:190 | on collected data, "no non-empty group" is the same as "no group at all" |
| TemperatureReport.ValidReadingSuppressesFallback | systemcheck.py:184-215 | a temperature sensor with a non-NaN float, whose group no later item of the same name replaces, makes the primary source report, so the fallback is never consulted |
| TemperatureReport.NoValidReadingConsultsFallback | systemcheck.py:184-215 | if every temperature sensor is missing its value or holds NaN or a non-float, the primary source does not report and the fallback is consulted |

## Left out

- The operating-system queries: CPU, memory, swap, disk usage, network counters and sensor temperatures. Their results are parameters (`NetIo`, `FallbackQuery`), or the section is not modelled.
- Loading the hardware-sensor library through the .NET bridge, and the backend's open/update/close lifecycle (lines 8-20, 93-117). These are foreign calls. Only the availability flag, the stored load error and the data the backend hands back (`Backend`) are modelled.
- Screen clearing, every `print`, the `.1f`/`.2f` formatting, and the platform hint lines (lines 212-213, 221-222). These are terminal output. `ByteUnits` returns the prefix index and the exact scaled value, not the string. The `suffix` argument is always `"B"` and is not modelled.
- The main `while True` loop with its sleep, interrupt handling and error hints (lines 250-272). This is process control. The start-up calibration call at line 253 is one more call of `GetNetworkSpeed`.
- The CPU average and per-core listing (lines 134-143) and the per-disk loop (lines 160-170). These are float arithmetic over OS samples and per-item error printing.
- The printing of high and critical thresholds in the fallback (lines 229-234). This is presentation only. The thresholds are kept in `FallbackEntry`.
- Floating point: byte counts, rates, timestamps and temperatures are exact `real`s. Rounding and the float representation of the counters are not modelled.
- Dictionary order: groups are `map`s, so the order in which groups are printed is not modelled. Which groups are printed, and with which entries, is modelled.
- An exception raised part-way through printing a fallback entry is not modelled separately. Every fallback failure is one `QueryRaised` outcome.
- LhmSensors.GroupEntries: its own contract states only which entries are collected. Their order and count are stated by GroupEntriesAppend and GroupEntriesOfOne.
- TemperatureReport.ValidEntries: its own contract states only which entries survive the filter. Their order and count are stated by ValidEntriesAppend and ValidEntriesOfOne.

## Findings

| source | as written | input that shows it | evidently intended | confidence | as-written member | corrected member |
|---|---|---|---|---|---|---|
| systemcheck.py:42-46 | the loop divides after the "P" prefix too, and the line after the loop labels the six-times-divided value with "P" | 1024^6 bytes (1 EiB) shows as 1.00 "P", the same as 1024^5 | from 1024^5 on, show v / 1024^5 with "P" | medium; not executed | ByteUnits.FallThroughMislabels | ByteUnits.GetSizeIntended |

`ByteUnits.GetSize` still models the code as written. The rest of the model shows
values only through it, so the corrected scaler stands beside it:
`ByteUnits.IntendedAgreesBelowPow6` proves the two agree below 1024^6.

/**
 * The thermostat's command arguments and the routing of its reports into
 * groups. Group values are kept in a map from the thermostat's group
 * numbers; the reports and commands are given as records, and the
 * Fahrenheit conversion, whose formula lives outside this model, as a
 * function parameter.
 */
module Thermostat {
  import opened Optional
  import opened Responses

  // Group numbers of the thermostat (climate_control.py lines 62-75).
  const GrpCoolOn: int := 1
  const GrpHeatOn: int := 2
  const GrpTemp: int := 10
  const GrpHumid: int := 11
  const GrpSysMode: int := 12
  const GrpFanMode: int := 13
  const GrpCoolSp: int := 14
  const GrpHeatSp: int := 15
  const GrpHumidHiSp: int := 16
  const GrpHumidLoSp: int := 17

  /** The thermostat modes a set-mode command can carry. */
  datatype ThermostatMode = Off | Heat | Cool | Auto | FanAuto | FanAlwaysOn | Program

  /** A group value: a reading or set point, or a thermostat mode. */
  datatype Value = Num(x: real) | Mode(mode: ThermostatMode)

  type Groups = map<int, Value>

  // ---------------------------------------------------------------------
  // Command arguments
  // ---------------------------------------------------------------------

  /** The set point a cool or heat set-point command sends: `max(1, min(t, 127))`. */
  function ClampSetPoint(t: int): (r: int)
    ensures 1 <= r <= 127
    ensures 1 <= t <= 127 ==> r == t
    ensures t < 1 ==> r == 1
    ensures t > 127 ==> r == 127
  {
    var capped := if t < 127 then t else 127;
    if capped > 1 then capped else 1
  }

  /** Clamping a set point that was already clamped changes nothing. */
  lemma ClampSetPointIdempotent(t: int)
    ensures ClampSetPoint(ClampSetPoint(t)) == ClampSetPoint(t)
  {
  }

  /** Clamping keeps the order of set points. */
  lemma ClampSetPointMonotone(s: int, t: int)
    requires s <= t
    ensures ClampSetPoint(s) <= ClampSetPoint(t)
  {
  }

  /** The outcome of a humidity set-point command: the value sent and the groups afterwards. */
  datatype HumidityCommand = HumidityCommand(sent: int, groups: Groups)

  /**
   * `async_set_humidity_high_set_point(h)`: `min(h, 99)` is sent (no lower
   * bound); the high set-point group takes it only when the send succeeds.
   */
  function SetHumidityHigh(groups: Groups, h: int, result: ResponseStatus): (r: HumidityCommand)
    ensures r.sent <= 99
    ensures r.sent == h <==> h <= 99
    ensures r.sent == if h <= 99 then h else 99
    ensures result == Success ==> r.groups == groups[GrpHumidHiSp := Num(r.sent as real)]
    ensures result != Success ==> r.groups == groups
  {
    var capped := if h < 99 then h else 99;
    HumidityCommand(capped, if result == Success then groups[GrpHumidHiSp := Num(capped as real)] else groups)
  }

  /**
   * `async_set_humidity_low_set_point(h)`: `max(h, 1)` is sent (no upper
   * bound); the low set-point group takes it only when the send succeeds.
   */
  function SetHumidityLow(groups: Groups, h: int, result: ResponseStatus): (r: HumidityCommand)
    ensures r.sent >= 1
    ensures r.sent == h <==> h >= 1
    ensures r.sent == if h >= 1 then h else 1
    ensures result == Success ==> r.groups == groups[GrpHumidLoSp := Num(r.sent as real)]
    ensures result != Success ==> r.groups == groups
  {
    var floored := if h > 1 then h else 1;
    HumidityCommand(floored, if result == Success then groups[GrpHumidLoSp := Num(floored as real)] else groups)
  }

  /** The extended set command of `async_set_day_time`. */
  datatype DayTimeCommand = DayTimeCommand(cmd2: int, data1: int, data2: int, data3: int, data4: int, data5: int)

  /** The device's day number for a `weekday()` (Monday 0 .. Sunday 6): Sunday is day 0. */
  function DeviceDay(weekday: int): (d: int)
    requires 0 <= weekday <= 6
    ensures 0 <= d <= 6
    ensures d == 0 <==> weekday == 6
  {
    if weekday == 6 then 0 else weekday + 1
  }

  /** The `weekday()` of a device day number. */
  function WeekdayOf(day: int): (w: int)
    requires 0 <= day <= 6
    ensures 0 <= w <= 6
  {
    if day == 0 then 6 else day - 1
  }

  /** The day mapping is a bijection on 0..6: WeekdayOf inverts it on both sides. */
  lemma DeviceDayBijective(weekday: int, day: int)
    requires 0 <= weekday <= 6 && 0 <= day <= 6
    ensures WeekdayOf(DeviceDay(weekday)) == weekday
    ensures DeviceDay(WeekdayOf(day)) == day
    ensures DeviceDay(weekday) == day <==> weekday == WeekdayOf(day)
  {
  }

  /**
   * `async_set_day_time()` for the clock reading (`weekday`, `hour`,
   * `minute`, `second`): day in data2, time in data3 to data5.
   */
  function SetDayTime(weekday: int, hour: int, minute: int, second: int): (c: DayTimeCommand)
    requires 0 <= weekday <= 6
    ensures c.cmd2 == 0x02 && c.data1 == 0x02
    ensures 0 <= c.data2 <= 6 && WeekdayOf(c.data2) == weekday
    ensures c.data3 == hour && c.data4 == minute && c.data5 == second
  {
    DayTimeCommand(0x02, 0x02, DeviceDay(weekday), hour, minute, second)
  }

  // ---------------------------------------------------------------------
  // Reports routed into groups
  // ---------------------------------------------------------------------

  /** The composite status report, in the order of `_status_received`'s arguments. */
  datatype StatusReport = StatusReport(
    day: int, hour: int, minute: int, second: int,
    systemMode: Value, fanMode: Value, coolSetPoint: Value, humidity: Value,
    temperature: real, cooling: Value, heating: Value, celsius: Value, heatSetPoint: Value)

  /** The groups a status report writes. */
  predicate StatusGroup(g: int) {
    g in {GrpCoolOn, GrpHeatOn, GrpSysMode, GrpFanMode, GrpCoolSp, GrpHeatSp, GrpTemp, GrpHumid}
  }

  /** Python's truth value of the CELSIUS flag; an unset flag is falsy. */
  predicate CelsiusOn(flag: Option<bool>) {
    flag == Some(true)
  }

  /**
   * `_status_received`: every reading goes to its own group; the
   * temperature is converted to Fahrenheit exactly when the CELSIUS flag
   * (`celsiusFlag`, the device's configuration, not the report's own
   * `celsius` field) is falsy.
   */
  function StatusReceived(groups: Groups, s: StatusReport, celsiusFlag: Option<bool>, toF: real -> real): (r: Groups)
    ensures r.Keys == groups.Keys + {GrpCoolOn, GrpHeatOn, GrpSysMode, GrpFanMode, GrpCoolSp, GrpHeatSp, GrpTemp, GrpHumid}
    ensures forall g :: g in groups && !StatusGroup(g) ==> r[g] == groups[g]
    ensures r[GrpTemp] == Num(if CelsiusOn(celsiusFlag) then s.temperature else toF(s.temperature))
  {
    var temperature := if !CelsiusOn(celsiusFlag) then toF(s.temperature) else s.temperature;
    groups[GrpCoolOn := s.cooling][GrpHeatOn := s.heating]
          [GrpSysMode := s.systemMode][GrpFanMode := s.fanMode]
          [GrpCoolSp := s.coolSetPoint][GrpHeatSp := s.heatSetPoint]
          [GrpTemp := Num(temperature)][GrpHumid := s.humidity]
  }

  /** Each reading of the report lands in its own group. */
  lemma StatusReceivedRoutes(groups: Groups, s: StatusReport, celsiusFlag: Option<bool>, toF: real -> real)
    ensures var r := StatusReceived(groups, s, celsiusFlag, toF);
            && r[GrpCoolOn] == s.cooling && r[GrpHeatOn] == s.heating
            && r[GrpSysMode] == s.systemMode && r[GrpFanMode] == s.fanMode
            && r[GrpCoolSp] == s.coolSetPoint && r[GrpHeatSp] == s.heatSetPoint
            && r[GrpHumid] == s.humidity
  {
  }

  /** The report's day, time and own celsius field affect no group. */
  lemma StatusReceivedIgnoresClock(groups: Groups, s: StatusReport, t: StatusReport, celsiusFlag: Option<bool>, toF: real -> real)
    requires s.(day := t.day, hour := t.hour, minute := t.minute, second := t.second, celsius := t.celsius) == t
    ensures StatusReceived(groups, s, celsiusFlag, toF) == StatusReceived(groups, t, celsiusFlag, toF)
  {
  }

  /**
   * Receiving the same report twice gives what receiving it once gives: the
   * temperature is converted from the report's raw value, never from the
   * group's earlier value, so no reading is converted twice.
   */
  lemma StatusReceivedIdempotent(groups: Groups, s: StatusReport, celsiusFlag: Option<bool>, toF: real -> real)
    ensures var r := StatusReceived(groups, s, celsiusFlag, toF);
            StatusReceived(r, s, celsiusFlag, toF) == r
  {
  }

  /** `_set_point_received`: four set points to their groups; firmware and RF offset are ignored. */
  function SetPointReceived(groups: Groups, humidityHigh: Value, humidityLow: Value, firmware: int,
                            coolSetPoint: Value, heatSetPoint: Value, rfOffset: int): (r: Groups)
    ensures r.Keys == groups.Keys + {GrpCoolSp, GrpHeatSp, GrpHumidHiSp, GrpHumidLoSp}
    ensures forall g :: g in groups && g !in {GrpCoolSp, GrpHeatSp, GrpHumidHiSp, GrpHumidLoSp} ==> r[g] == groups[g]
    ensures r[GrpCoolSp] == coolSetPoint && r[GrpHeatSp] == heatSetPoint
    ensures r[GrpHumidHiSp] == humidityHigh && r[GrpHumidLoSp] == humidityLow
  {
    groups[GrpCoolSp := coolSetPoint][GrpHeatSp := heatSetPoint]
          [GrpHumidHiSp := humidityHigh][GrpHumidLoSp := humidityLow]
  }

  /** `_mode_received`: the system and fan modes to their groups. */
  function ModeReceived(groups: Groups, systemMode: Value, fanMode: Value): (r: Groups)
    ensures r.Keys == groups.Keys + {GrpSysMode, GrpFanMode}
    ensures forall g :: g in groups && g != GrpSysMode && g != GrpFanMode ==> r[g] == groups[g]
    ensures r[GrpSysMode] == systemMode && r[GrpFanMode] == fanMode
  {
    groups[GrpSysMode := systemMode][GrpFanMode := fanMode]
  }

  /** The modes that belong to the fan rather than to the system. */
  predicate IsFanMode(m: ThermostatMode) {
    m == FanAlwaysOn || m == FanAuto
  }

  /**
   * `_mode_set`: a fan mode goes to the fan-mode group, every other mode to
   * the system-mode group, and the other mode group is left alone.
   */
  function ModeSet(groups: Groups, m: ThermostatMode): (r: Groups)
    ensures IsFanMode(m) ==> r.Keys == groups.Keys + {GrpFanMode} && r[GrpFanMode] == Mode(m)
    ensures !IsFanMode(m) ==> r.Keys == groups.Keys + {GrpSysMode} && r[GrpSysMode] == Mode(m)
    ensures IsFanMode(m) && GrpSysMode in groups ==> r[GrpSysMode] == groups[GrpSysMode]
    ensures !IsFanMode(m) && GrpFanMode in groups ==> r[GrpFanMode] == groups[GrpFanMode]
    ensures forall g :: g in groups && g != GrpSysMode && g != GrpFanMode ==> r[g] == groups[g]
  {
    if m in {FanAlwaysOn, FanAuto} then groups[GrpFanMode := Mode(m)]
    else groups[GrpSysMode := Mode(m)]
  }

  /** `_temp_received`: the temperature group takes the degrees as reported, without conversion. */
  function TempReceived(groups: Groups, degrees: real): (r: Groups)
    ensures r.Keys == groups.Keys + {GrpTemp}
    ensures forall g :: g in groups && g != GrpTemp ==> r[g] == groups[g]
    ensures r[GrpTemp] == Num(degrees)
  {
    groups[GrpTemp := Num(degrees)]
  }

  /** `_cool_set_point_set`: the acknowledged set point to the cool set-point group; zone and deadband are ignored. */
  function CoolSetPointSet(groups: Groups, degrees: Value, zone: int, deadband: int): (r: Groups)
    ensures r.Keys == groups.Keys + {GrpCoolSp}
    ensures forall g :: g in groups && g != GrpCoolSp ==> r[g] == groups[g]
    ensures r[GrpCoolSp] == degrees
  {
    groups[GrpCoolSp := degrees]
  }

  /** `_heat_set_point_set`: the acknowledged set point to the heat set-point group; zone and deadband are ignored. */
  function HeatSetPointSet(groups: Groups, degrees: Value, zone: int, deadband: int): (r: Groups)
    ensures r.Keys == groups.Keys + {GrpHeatSp}
    ensures forall g :: g in groups && g != GrpHeatSp ==> r[g] == groups[g]
    ensures r[GrpHeatSp] == degrees
  {
    groups[GrpHeatSp := degrees]
  }

  // ---------------------------------------------------------------------
  // The CELSIUS subscriber
  // ---------------------------------------------------------------------

  /**
   * Which of the two methods is subscribed to the CELSIUS flag: first
   * `_temp_format_first_set`, which on its first call swaps itself for
   * `_async_temp_format_changed`.
   */
  datatype CelsiusListener = FirstSet | FormatChanged

  /** The outcome of one notification: the subscriber afterwards and whether a status request is made. */
  datatype Notified = Notified(listener: CelsiusListener, requestsStatus: bool)

  /** One CELSIUS notification. */
  function Notify(l: CelsiusListener): (r: Notified)
    ensures r.listener == FormatChanged
    ensures r.requestsStatus <==> l == FormatChanged
  {
    match l
    case FirstSet => Notified(FormatChanged, false)
    case FormatChanged => Notified(FormatChanged, true)
  }

  /** `n` notifications in a row: the subscriber afterwards and the number of status requests made. */
  function NotifyMany(l: CelsiusListener, n: nat): (r: (CelsiusListener, nat))
    decreases n
  {
    if n == 0 then (l, 0)
    else
      var step := Notify(l);
      var rest := NotifyMany(step.listener, n - 1);
      (rest.0, rest.1 + (if step.requestsStatus then 1 else 0))
  }

  /**
   * From registration on, the first notification requests nothing and
   * every later one requests a status report: `n` notifications make
   * `n - 1` requests (none for `n == 0`), and after at least one the
   * change subscriber is in place.
   */
  lemma {:induction false} NotifyManyCounts(l: CelsiusListener, n: nat)
    ensures var r := NotifyMany(l, n);
            && r.1 == (if n == 0 then 0 else if l == FirstSet then n - 1 else n)
            && (n > 0 ==> r.0 == FormatChanged)
            && (n == 0 ==> r.0 == l)
    decreases n
  {
    if n > 0 {
      NotifyManyCounts(Notify(l).listener, n - 1);
    }
  }
}

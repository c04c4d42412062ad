/** apsystemsBindingConstants.java: frame signatures, command and status
    codes, and the two enumerations the realtime records use. */
module Constants {
  import opened Results

  const ECU_PATTERN_START: string := "APS"
  const ECU_PATTERN_END: string := "END\n"

  const COMMAND_GROUP_11: int := 11

  const COMMAND_CODE_GET_SYSTEM_INFO: int := 1
  const COMMAND_CODE_GET_REALTIME_DATA: int := 2
  const COMMAND_CODE_GET_POWER_OF_DAY: int := 3
  const COMMAND_CODE_GET_ENERGY_OF_WEEK_MONTH_YEAR: int := 4
  const COMMAND_CODE_GET_INVERTER_SIGNAL: int := 30

  const ECU_RESPONSE_OK: int := 0
  const ECU_RESPONSE_NO_DATA: int := 1
  const ECU_RESPONSE_UNKNOWN: int := 2

  const PERIOD_WEEK: string := "00"
  const PERIOD_MONTH: string := "01"
  const PERIOD_YEAR: string := "02"

  /** The commands the ECU understands. */
  datatype Command = SystemInfo | RealtimeData | PowerOfDay | EnergyOfPeriod | InverterSignal

  /** The command a code on the wire names, if any. */
  function CommandOfCode(code: int): (c: Option<Command>)
    ensures c.None? <==> code !in {1, 2, 3, 4, 30}
  {
    if code == COMMAND_CODE_GET_SYSTEM_INFO then Some(SystemInfo)
    else if code == COMMAND_CODE_GET_REALTIME_DATA then Some(RealtimeData)
    else if code == COMMAND_CODE_GET_POWER_OF_DAY then Some(PowerOfDay)
    else if code == COMMAND_CODE_GET_ENERGY_OF_WEEK_MONTH_YEAR then Some(EnergyOfPeriod)
    else if code == COMMAND_CODE_GET_INVERTER_SIGNAL then Some(InverterSignal)
    else None
  }

  /** The code of a command; reading it back gives the same command, so no
      two commands share a code. */
  function CommandCode(c: Command): (code: int)
    ensures CommandOfCode(code) == Some(c)
  {
    match c
    case SystemInfo => COMMAND_CODE_GET_SYSTEM_INFO
    case RealtimeData => COMMAND_CODE_GET_REALTIME_DATA
    case PowerOfDay => COMMAND_CODE_GET_POWER_OF_DAY
    case EnergyOfPeriod => COMMAND_CODE_GET_ENERGY_OF_WEEK_MONTH_YEAR
    case InverterSignal => COMMAND_CODE_GET_INVERTER_SIGNAL
  }

  // ---------------------------------------------------------------- inverter state

  datatype InverterState = Unknown | Offline | Online

  /** inverterStateFromIntValue: 0 and 1 are Offline and Online, -1 and every
      other value Unknown. */
  function InverterStateFromInt(v: int): (s: InverterState)
    ensures s == Online <==> v == 1
    ensures s == Offline <==> v == 0
    ensures s == Unknown <==> v != 0 && v != 1
  {
    match v
    case -1 => Unknown
    case 0 => Offline
    case 1 => Online
    case _ => Unknown
  }

  /** intValueFromInverterState, the inverse of InverterStateFromInt. */
  function IntFromInverterState(s: InverterState): (v: int)
    ensures -1 <= v <= 1
    ensures InverterStateFromInt(v) == s
  {
    match s
    case Unknown => -1
    case Offline => 0
    case Online => 1
  }

  // ---------------------------------------------------------------- inverter type

  /** The inverter models; `YC600orDS3` is ambiguous on the wire and is
      resolved from the inverter id after decoding. */
  datatype InverterType = unknown | YC600orDS3 | YC100 | QS1 | DS3 | Y600

  /** inverterTypeFromIntValue: codes 0..5 in declaration order, anything
      else `unknown`. */
  function InverterTypeFromInt(v: int): (t: InverterType)
    ensures (v < 0 || v > 5) ==> t == unknown
    ensures t == unknown ==> v < 1 || v > 5
  {
    match v
    case 0 => unknown
    case 1 => YC600orDS3
    case 2 => YC100
    case 3 => QS1
    case 4 => DS3
    case 5 => Y600
    case _ => unknown
  }

  /** intValueFromInverterType, a left inverse of InverterTypeFromInt. */
  function IntFromInverterType(t: InverterType): (v: int)
    ensures 0 <= v <= 5
    ensures InverterTypeFromInt(v) == t
  {
    match t
    case unknown => 0
    case YC600orDS3 => 1
    case YC100 => 2
    case QS1 => 3
    case DS3 => 4
    case Y600 => 5
  }

  /** On the codes 0..5 the two type mappings are inverse to each other. */
  lemma InverterTypeCodesRoundTrip(v: int)
    requires 0 <= v <= 5
    ensures IntFromInverterType(InverterTypeFromInt(v)) == v
  {
  }
}

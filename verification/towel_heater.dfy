/** The towel-heater device wrapper: the table from device commands to the
    single data-point (DPS) write each one sends, and the translation of a
    raw DPS map into the human-readable record published on the data topic.

    Data points of the heater:
      "1"   power (bool)          "2"   child lock (bool)
      "3"   target temperature    "4"   current temperature (read only)
      "5"   timer in minutes      "111" open/close mode ("High" / "Low") */
module TowelHeater {
  import opened Values

  /** The commands a `TowelHeaterDevice` offers, with the argument the two
      setters pass through. */
  datatype Action =
    | TurnOn
    | TurnOff
    | Lock
    | Unlock
    | SetTemp(target: Json)
    | SetTimer(minutes: Json)
    | TimerOff
    | Open
    | Close

  /** The name of the `TowelHeaterDevice` method each command is. */
  function MethodName(a: Action): string
  {
    match a
    case TurnOn => "turn_on"
    case TurnOff => "turn_off"
    case Lock => "lock"
    case Unlock => "unlock"
    case SetTemp(_) => "set_temp"
    case SetTimer(_) => "set_timer"
    case TimerOff => "timer_off"
    case Open => "open"
    case Close => "close"
  }

  /** The one key/value pair a command writes in its CONTROL payload. */
  datatype DpsWrite = DpsWrite(key: string, value: Json)

  /** The raw data-point map reported by the device. */
  type Dps = map<string, Json>

  /** The translated status record. */
  datatype Data = Data(
    state: string,
    lock: string,
    targetTemp: Json,
    currentTemp: Json,
    timer: Json,
    open: string)

  /** The data points a command can write; "4" (current temperature) is
      only ever read. */
  const WritableKeys: set<string> := {"1", "2", "3", "5", "111"}

  /** The payload each command sends. The setters pass their argument through
      without any range check; `timer_off` sends a literal zero. */
  function Payload(a: Action): (w: DpsWrite)
    ensures w.key in WritableKeys
    ensures a.SetTemp? ==> w.value == a.target
    ensures a.SetTimer? ==> w.value == a.minutes
  {
    match a
    case TurnOn => DpsWrite("1", JBool(true))
    case TurnOff => DpsWrite("1", JBool(false))
    case Lock => DpsWrite("2", JBool(true))
    case Unlock => DpsWrite("2", JBool(false))
    case SetTemp(t) => DpsWrite("3", t)
    case SetTimer(m) => DpsWrite("5", m)
    case TimerOff => DpsWrite("5", JInt(0))
    case Open => DpsWrite("111", JStr("High"))
    case Close => DpsWrite("111", JStr("Low"))
  }

  /** Every data point the translation reads is present; a missing one
      raises `KeyError`. */
  predicate DpsComplete(dps: Dps)
  {
    "1" in dps && "2" in dps && "3" in dps && "4" in dps && "5" in dps && "111" in dps
  }

  /** The translation of a DPS map into the published record. */
  function Translate(dps: Dps): (d: Data)
    requires DpsComplete(dps)
    ensures d.state in {"ON", "OFF"} && (d.state == "ON" <==> Truthy(dps["1"]))
    ensures d.lock in {"LOCKED", "UNLOCKED"} && (d.lock == "LOCKED" <==> Truthy(dps["2"]))
    ensures d.open in {"OPEN", "CLOSED"} && (d.open == "OPEN" <==> IsString(dps["111"], "High"))
    ensures d.targetTemp == dps["3"] && d.currentTemp == dps["4"] && d.timer == dps["5"]
  {
    Data(
      state := if Truthy(dps["1"]) then "ON" else "OFF",
      lock := if Truthy(dps["2"]) then "LOCKED" else "UNLOCKED",
      targetTemp := dps["3"],
      currentTemp := dps["4"],
      timer := dps["5"],
      open := if IsString(dps["111"], "High") then "OPEN" else "CLOSED")
  }

  /** What a command means for the translated record, stated on the record
      itself: the one field the command controls takes the value the command
      asks for. */
  function Effect(d: Data, a: Action): Data
  {
    match a
    case TurnOn => d.(state := "ON")
    case TurnOff => d.(state := "OFF")
    case Lock => d.(lock := "LOCKED")
    case Unlock => d.(lock := "UNLOCKED")
    case SetTemp(t) => d.(targetTemp := t)
    case SetTimer(m) => d.(timer := m)
    case TimerOff => d.(timer := JInt(0))
    case Open => d.(open := "OPEN")
    case Close => d.(open := "CLOSED")
  }

  /** Writing a command's payload into a DPS map and translating the result
      gives exactly the command's effect on the translated record: the
      written value reads back as the state the command names, and no other
      field of the record changes. */
  lemma WriteThenTranslate(dps: Dps, a: Action)
    requires DpsComplete(dps)
    ensures DpsComplete(dps[Payload(a).key := Payload(a).value])
    ensures Translate(dps[Payload(a).key := Payload(a).value]) == Effect(Translate(dps), a)
  {
  }

  /** `open` writes the value the translation reads as OPEN, `close` the one
      it reads as CLOSED; likewise ON/OFF and LOCKED/UNLOCKED. */
  lemma CommandTableAgreesWithTranslation(dps: Dps)
    requires DpsComplete(dps)
    ensures Translate(dps["111" := Payload(Open).value]).open == "OPEN"
    ensures Translate(dps["111" := Payload(Close).value]).open == "CLOSED"
    ensures Translate(dps["1" := Payload(TurnOn).value]).state == "ON"
    ensures Translate(dps["1" := Payload(TurnOff).value]).state == "OFF"
    ensures Translate(dps["2" := Payload(Lock).value]).lock == "LOCKED"
    ensures Translate(dps["2" := Payload(Unlock).value]).lock == "UNLOCKED"
  {
    WriteThenTranslate(dps, Open);
    WriteThenTranslate(dps, Close);
    WriteThenTranslate(dps, TurnOn);
    WriteThenTranslate(dps, TurnOff);
    WriteThenTranslate(dps, Lock);
    WriteThenTranslate(dps, Unlock);
  }

  /** `timer_off` is `set_timer(0)`. */
  lemma TimerOffIsSetTimerZero()
    ensures Payload(TimerOff) == Payload(SetTimer(JInt(0)))
    ensures Payload(TimerOff) == DpsWrite("5", JInt(0))
  {
  }

  /** The payload determines the command, with the single exception that
      `timer_off` and `set_timer(0)` send the same bytes. */
  lemma PayloadDeterminesAction(a: Action, b: Action)
    requires Payload(a) == Payload(b)
    ensures a == b || (a.TimerOff? && b == SetTimer(JInt(0))) || (b.TimerOff? && a == SetTimer(JInt(0)))
  {
  }

  /** The status dictionary returned by the device. */
  type Status = map<string, Json>

  /** A status whose `dps` entry, when present, is a complete DPS object. */
  predicate StatusReadable(st: Status)
  {
    "dps" in st ==> st["dps"].JObject? && DpsComplete(st["dps"].fields)
  }

  /** `get_data` as evidently intended: no record when the status carries no
      `dps` entry, otherwise the translation of that entry. */
  function GetData(st: Status): (r: Option<Data>)
    requires StatusReadable(st)
    ensures r.None? <==> "dps" !in st
    ensures r.Some? ==> r.value == Translate(st["dps"].fields)
  {
    if "dps" !in st then None else Some(Translate(st["dps"].fields))
  }

  /** A Python exception raised while executing a method. */
  datatype PyError = UnboundLocalError(name: string)

  /** Outcome of a call that may raise. */
  datatype Result = Success(value: Data) | Failure(error: PyError)

  /** `get_data` as written: its guard tests the local `data`, which is only
      assigned after the guard, so every call raises before any translation
      happens, whatever the device reports. */
  function GetDataAsWritten(st: Status): (r: Result)
    ensures r.Failure? && r.error == UnboundLocalError("data")
  {
    Failure(UnboundLocalError("data"))
  }

  /** A status with every data point present: the corrected `get_data`
      translates it, the one as written raises. */
  lemma GetDataAsWrittenRaisesOnGoodStatus()
    ensures var dps := map["1" := JBool(true), "2" := JBool(false), "3" := JInt(22),
                           "4" := JInt(20), "5" := JInt(0), "111" := JStr("High")];
            var st := map["dps" := JObject(dps)];
            && StatusReadable(st)
            && GetData(st) == Some(Data("ON", "UNLOCKED", JInt(22), JInt(20), JInt(0), "OPEN"))
            && GetDataAsWritten(st).Failure?
  {
  }
}

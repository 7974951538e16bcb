/** The MQTT side of the bridge: the device registry filled by `config`
    messages, the status publisher, and the dispatcher that validates each
    incoming command and turns it into device writes and publishes.

    The MQTT client and the device transport are abstracted into events: a
    call is a pure function from the registry and the decoded message to
    the new registry, the events emitted in order, and the Python return
    value. */
module Mqttuya {
  import opened Values
  import TowelHeater

  // ---------------------------------------------------------------------
  // Devices and the registry
  // ---------------------------------------------------------------------

  /** The Tuya protocol version a handle is set to. */
  datatype Version = V31 | V33

  /** A `TowelHeaterDevice` handle: device id, address, local key and the
      protocol version chosen at registration. */
  datatype Device = Device(id: string, ip: Json, key: Json, version: Version)

  /** The process-wide `device_list`, keyed by device id. */
  type Registry = map<string, Device>

  /** One element of a `config` message's `value` list. */
  datatype ConfigEntry = ConfigEntry(id: string, ip: Json, key: Json, ver: Json)

  /** The version rule: 3.3 exactly for the string "3.3", 3.1 for anything
      else (including the number 3.3 and a missing-looking `null`). */
  function ChooseVersion(ver: Json): (v: Version)
    ensures v == V33 <==> IsString(ver, "3.3")
  {
    if IsString(ver, "3.3") then V33 else V31
  }

  /** The handle `create_device` builds for one entry. */
  function NewDevice(e: ConfigEntry): (d: Device)
    ensures d.id == e.id && d.ip == e.ip && d.key == e.key
    ensures d.version == V33 <==> IsString(e.ver, "3.3")
  {
    Device(e.id, e.ip, e.key, ChooseVersion(e.ver))
  }

  /** Every handle is stored under its own device id. */
  ghost predicate RegistryConsistent(reg: Registry)
  {
    forall k :: k in reg ==> reg[k].id == k
  }

  /** The ids of a list of entries, in order. */
  function Ids(entries: seq<ConfigEntry>): (ids: seq<string>)
    ensures |ids| == |entries|
    ensures forall i :: 0 <= i < |entries| ==> ids[i] == entries[i].id
  {
    if |entries| == 0 then [] else [entries[0].id] + Ids(entries[1..])
  }

  /** The position of the last entry with the given id, found by scanning
      from the end: the reference for "the last entry wins". */
  function LastIndexFor(entries: seq<ConfigEntry>, id: string): (r: Option<nat>)
    ensures r.None? <==> forall j :: 0 <= j < |entries| ==> entries[j].id != id
    ensures r.Some? ==> r.value < |entries| && entries[r.value].id == id
    ensures r.Some? ==> forall j :: r.value < j < |entries| ==> entries[j].id != id
  {
    if |entries| == 0 then None
    else if entries[|entries| - 1].id == id then Some(|entries| - 1)
    else LastIndexFor(entries[..|entries| - 1], id)
  }

  /** What the registry holds under `k` after registering `entries` on top
      of `reg`: the handle built from the last entry for `k`, or the
      previous handle when no entry mentions `k`. */
  function Resolve(reg: Registry, entries: seq<ConfigEntry>, k: string): Option<Device>
  {
    match LastIndexFor(entries, k)
    case Some(i) => Some(NewDevice(entries[i]))
    case None => Get(reg, k)
  }

  /** Scanning `entries` from the front, as the loop does, the last entry
      for `k` is the one in the tail if the tail has one, else the head if
      it is for `k`. */
  lemma {:induction false} LastIndexForCons(entries: seq<ConfigEntry>, k: string)
    requires |entries| > 0
    ensures LastIndexFor(entries, k) ==
              match LastIndexFor(entries[1..], k)
              case Some(i) => Some(i + 1)
              case None => if entries[0].id == k then Some(0) else None
    decreases |entries|
  {
    var n := |entries|;
    var tail := entries[1..];
    if n == 1 {
      assert tail == [];
    } else {
      var front := entries[..n - 1];
      assert tail[..n - 2] == front[1..];
      assert tail[n - 2] == entries[n - 1];
      if entries[n - 1].id == k {
        assert LastIndexFor(tail, k) == Some(n - 2);
      } else {
        assert LastIndexFor(tail, k) == LastIndexFor(front[1..], k);
        assert LastIndexFor(entries, k) == LastIndexFor(front, k);
        assert front[0] == entries[0];
        LastIndexForCons(front, k);
      }
    }
  }

  /** Registering the head first and then the tail resolves every id the
      same way as registering the whole list. */
  lemma ResolveCons(reg: Registry, entries: seq<ConfigEntry>, k: string)
    requires |entries| > 0
    ensures Resolve(reg[entries[0].id := NewDevice(entries[0])], entries[1..], k) == Resolve(reg, entries, k)
  {
    var reg' := reg[entries[0].id := NewDevice(entries[0])];
    var tail := entries[1..];
    LastIndexForCons(entries, k);
    match LastIndexFor(tail, k)
    case Some(i) =>
      assert tail[i] == entries[i + 1];
    case None =>
      if entries[0].id == k {
        assert Get(reg', k) == Some(NewDevice(entries[0]));
      } else {
        assert Get(reg', k) == Get(reg, k);
      }
  }

  /** `create_device`: register every entry, in order, inserting or
      overwriting the handle under its id. */
  function CreateDevices(reg: Registry, entries: seq<ConfigEntry>): (r: Registry)
    ensures forall k :: Get(r, k) == Resolve(reg, entries, k)
    decreases |entries|
  {
    if |entries| == 0 then reg
    else
      var reg' := reg[entries[0].id := NewDevice(entries[0])];
      var r := CreateDevices(reg', entries[1..]);
      assert forall k :: Get(r, k) == Resolve(reg, entries, k) by {
        forall k
          ensures Get(r, k) == Resolve(reg, entries, k)
        {
          ResolveCons(reg, entries, k);
        }
      }
      r
  }

  // ---------------------------------------------------------------------
  // Messages and events
  // ---------------------------------------------------------------------

  /** A decoded incoming message: a JSON object. */
  type Message = map<string, Json>

  /** The Python value a handler returns. */
  datatype PyRet = PyTrue | PyFalse | PyNone

  /** The JSON payload of a publish, abstracted to its kind. An error
      envelope is `{'status': 'error', 'msg': msg, 'original_msg': original}`;
      the status payload is what the device reports, the data payload its
      translation (`null` when the report carries no data points). */
  datatype Body =
    | ErrorEnvelope(msg: string, original: Message)
    | DeviceStatus(status: TowelHeater.Status)
    | TranslatedData(data: Option<TowelHeater.Data>)

  /** What the bridge does to the outside world. */
  datatype Event =
    | Publish(topic: string, body: Body)
    | Send(device: Device, write: TowelHeater.DpsWrite)

  const MonitorTopic: string := "mqttuya/monitor"
  const StatusPrefix: string := "mqttuya/status/"
  const DataPrefix: string := "mqttuya/data/"

  function StatusTopic(id: string): string { StatusPrefix + id }
  function DataTopic(id: string): string { DataPrefix + id }

  /** The three kinds of topic never collide, and the per-device topics
      name their device unambiguously. */
  lemma {:induction false} TopicsDistinct(a: string, b: string)
    ensures StatusTopic(a) != DataTopic(b)
    ensures StatusTopic(a) != MonitorTopic && DataTopic(a) != MonitorTopic
    ensures StatusTopic(a) == StatusTopic(b) ==> a == b
    ensures DataTopic(a) == DataTopic(b) ==> a == b
  {
    assert StatusTopic(a)[8] == 's' && DataTopic(b)[8] == 'd' && MonitorTopic[8] == 'm';
    assert DataTopic(a)[8] == 'd';
    assert StatusTopic(a)[|StatusPrefix|..] == a;
    assert StatusTopic(b)[|StatusPrefix|..] == b;
    assert DataTopic(a)[|DataPrefix|..] == a;
    assert DataTopic(b)[|DataPrefix|..] == b;
  }

  /** The device's `status()` report, a network call outside the model,
      given per device id. */
  type StatusSource = string -> TowelHeater.Status

  /** Every device reports a status the translation can read. */
  ghost predicate Readable(poll: StatusSource)
  {
    forall id :: TowelHeater.StatusReadable(poll(id))
  }

  /** The two publishes for a registered device: the raw status on its
      status topic, then its translation on its data topic. */
  function StatusEvents(id: string, st: TowelHeater.Status): seq<Event>
    requires TowelHeater.StatusReadable(st)
  {
    [Publish(StatusTopic(id), DeviceStatus(st)), Publish(DataTopic(id), TranslatedData(TowelHeater.GetData(st)))]
  }

  /** Result of `publish_status`: its events and its return value. */
  datatype Published = Published(events: seq<Event>, ret: PyRet)

  /** `publish_status`: for an unknown id nothing is published and False is
      returned; otherwise the device status goes to the status topic and then
      the translated data to the data topic, and the function falls off its
      end (None). */
  function PublishStatus(reg: Registry, id: string, poll: StatusSource): (p: Published)
    requires Readable(poll)
    ensures p.ret == PyFalse <==> id !in reg
    ensures p.ret != PyTrue
    ensures p.events == [] <==> id !in reg
    ensures p.events != [] ==> p.events == StatusEvents(id, poll(id))
    ensures p.events != [] ==> (p.events[1].body.data.None? <==> "dps" !in poll(id))
  {
    if id !in reg then Published([], PyFalse)
    else
      var st := poll(id);
      Published([Publish(StatusTopic(id), DeviceStatus(st)), Publish(DataTopic(id), TranslatedData(TowelHeater.GetData(st)))], PyNone)
  }

  /** The publishes of the status loop over a list of ids. */
  function PublishAll(reg: Registry, ids: seq<string>, poll: StatusSource): (events: seq<Event>)
    requires Readable(poll)
    ensures |events| <= 2 * |ids|
    ensures forall e :: e in events ==> e.Publish? && (e.body.DeviceStatus? || e.body.TranslatedData?)
    ensures (forall i :: 0 <= i < |ids| ==> ids[i] !in reg) ==> events == []
  {
    if |ids| == 0 then [] else PublishStatus(reg, ids[0], poll).events + PublishAll(reg, ids[1..], poll)
  }

  // ---------------------------------------------------------------------
  // Commands
  // ---------------------------------------------------------------------

  /** The device commands a message's `cmd` may name (besides `config`). */
  datatype Command =
    | StatusCmd | TurnOnCmd | TurnOffCmd | LockCmd | UnlockCmd
    | SetTempCmd | SetTimerCmd | TimerOffCmd | OpenCmd | CloseCmd

  /** The wire name of each command. */
  function CommandName(c: Command): string
  {
    match c
    case StatusCmd => "status"
    case TurnOnCmd => "turn_on"
    case TurnOffCmd => "turn_off"
    case LockCmd => "lock"
    case UnlockCmd => "unlock"
    case SetTempCmd => "set_temp"
    case SetTimerCmd => "set_timer"
    case TimerOffCmd => "timer_off"
    case OpenCmd => "open"
    case CloseCmd => "close"
  }

  /** The `elif` chain: which command a `cmd` field names, if any. */
  function ParseCommand(cmd: Json): (r: Option<Command>)
    ensures r.Some? ==> cmd == JStr(CommandName(r.value))
  {
    if IsString(cmd, "status") then Some(StatusCmd)
    else if IsString(cmd, "turn_on") then Some(TurnOnCmd)
    else if IsString(cmd, "turn_off") then Some(TurnOffCmd)
    else if IsString(cmd, "lock") then Some(LockCmd)
    else if IsString(cmd, "unlock") then Some(UnlockCmd)
    else if IsString(cmd, "set_temp") then Some(SetTempCmd)
    else if IsString(cmd, "set_timer") then Some(SetTimerCmd)
    else if IsString(cmd, "timer_off") then Some(TimerOffCmd)
    else if IsString(cmd, "open") then Some(OpenCmd)
    else if IsString(cmd, "close") then Some(CloseCmd)
    else None
  }

  /** Every command is recognised by its own name and by no other, and
      `config` is not one of them. */
  lemma ParseCommandRoundTrip(c: Command, j: Json)
    ensures ParseCommand(JStr(CommandName(c))) == Some(c)
    ensures ParseCommand(j) == Some(c) <==> j == JStr(CommandName(c))
    ensures ParseCommand(JStr("config")).None?
  {
  }

  /** The device method a command calls, with the message's `value` passed
      to the two setters; `status` calls none. */
  function ActionFor(c: Command, value: Json): (a: Option<TowelHeater.Action>)
    ensures a.None? <==> c == StatusCmd
    ensures a.Some? ==> TowelHeater.MethodName(a.value) == CommandName(c)
    ensures a.Some? && a.value.SetTemp? ==> a.value.target == value
    ensures a.Some? && a.value.SetTimer? ==> a.value.minutes == value
  {
    match c
    case StatusCmd => None
    case TurnOnCmd => Some(TowelHeater.TurnOn)
    case TurnOffCmd => Some(TowelHeater.TurnOff)
    case LockCmd => Some(TowelHeater.Lock)
    case UnlockCmd => Some(TowelHeater.Unlock)
    case SetTempCmd => Some(TowelHeater.SetTemp(value))
    case SetTimerCmd => Some(TowelHeater.SetTimer(value))
    case TimerOffCmd => Some(TowelHeater.TimerOff)
    case OpenCmd => Some(TowelHeater.Open)
    case CloseCmd => Some(TowelHeater.Close)
  }

  /** The device write a command causes, if any. */
  function CommandEvents(dev: Device, c: Command, value: Json): (events: seq<Event>)
    ensures events == [] <==> c == StatusCmd
    ensures |events| <= 1
    ensures events != [] ==>
              && events[0].Send? && events[0].device == dev
              && events[0].write == TowelHeater.Payload(ActionFor(c, value).value)
  {
    match ActionFor(c, value)
    case None => []
    case Some(a) => [Send(dev, TowelHeater.Payload(a))]
  }

  // ---------------------------------------------------------------------
  // The dispatcher
  // ---------------------------------------------------------------------

  /** One entry object of a `config` value: a dict with a string `id` and
      `ip`, `key` and `ver` keys (a missing one raises `KeyError`). */
  predicate IsEntryObject(j: Json)
  {
    j.JObject? && "id" in j.fields && j.fields["id"].JStr?
    && "ip" in j.fields && "key" in j.fields && "ver" in j.fields
  }

  /** A `config` value the registration loop can iterate without raising:
      a list of entry objects, or an empty dict or string (iterating those
      does nothing). Any other value raises `TypeError`. */
  predicate ConfigIterable(v: Json)
  {
    || (v.JList? && forall i :: 0 <= i < |v.items| ==> IsEntryObject(v.items[i]))
    || v == JObject(map[])
    || v == JStr("")
  }

  /** The entries the registration loop visits, in order. */
  function ConfigEntries(v: Json): (entries: seq<ConfigEntry>)
    requires ConfigIterable(v)
    ensures v.JList? ==> |entries| == |v.items|
    ensures v.JList? ==> forall i :: 0 <= i < |entries| ==>
              && JStr(entries[i].id) == v.items[i].fields["id"]
              && entries[i].ip == v.items[i].fields["ip"]
              && entries[i].key == v.items[i].fields["key"]
              && entries[i].ver == v.items[i].fields["ver"]
    ensures !v.JList? ==> entries == []
  {
    if v.JList? then
      seq(|v.items|, i requires 0 <= i < |v.items| =>
        var f := v.items[i].fields;
        ConfigEntry(f["id"].s, f["ip"], f["key"], f["ver"]))
    else []
  }

  predicate IsConfig(msg: Message)
  {
    "cmd" in msg && IsString(msg["cmd"], "config")
  }

  /** The messages the handler processes without raising outside the
      modelled paths: a `config` value it can iterate, and an `id` it can
      look up in a dict. */
  predicate MessageWellFormed(msg: Message)
  {
    && (IsConfig(msg) && "value" in msg ==> ConfigIterable(msg["value"]))
    && ("cmd" in msg && !IsConfig(msg) && "value" in msg && "id" in msg ==> Hashable(msg["id"]))
  }

  /** `data['id'] in device_list` for a decoded id: keys are strings, so only
      a string id can be known. */
  predicate Known(reg: Registry, id: Json)
  {
    id.JStr? && id.s in reg
  }

  /** Everything one call of the handler produces. */
  datatype Reply = Reply(registry: Registry, events: seq<Event>, ret: PyRet)

  /** The error path: one envelope on the monitor topic. */
  function Reject(reg: Registry, msg: Message, text: string, ret: PyRet): Reply
  {
    Reply(reg, [Publish(MonitorTopic, ErrorEnvelope(text, msg))], ret)
  }

  /** `on_message` on an already-decoded message, with `poll` standing for
      the devices' status reports. */
  function OnMessage(reg: Registry, msg: Message, poll: StatusSource): (r: Reply)
    requires MessageWellFormed(msg) && Readable(poll)
    ensures forall k :: k in reg ==> k in r.registry
    ensures !IsConfig(msg) ==> r.registry == reg
  {
    if "cmd" !in msg then
      Reject(reg, msg, "Invalid message", PyFalse)
    else if IsConfig(msg) then
      if "value" !in msg then
        Reject(reg, msg, "Invalid message", PyFalse)
      else
        var entries := ConfigEntries(msg["value"]);
        var reg' := CreateDevices(reg, entries);
        assert forall k :: k in reg ==> Get(reg', k) == Resolve(reg, entries, k);
        Reply(reg', PublishAll(reg', Ids(entries), poll), PyTrue)
    else if "value" !in msg || "id" !in msg then
      Reject(reg, msg, "Invalid message", PyFalse)
    else if !Known(reg, msg["id"]) then
      Reject(reg, msg, "Unknown device", PyFalse)
    else
      var id := msg["id"].s;
      match ParseCommand(msg["cmd"])
      case None => Reject(reg, msg, "Unknown message", PyNone)
      case Some(c) =>
        Reply(reg, CommandEvents(reg[id], c, msg["value"]) + PublishStatus(reg, id, poll).events, PyNone)
  }
}

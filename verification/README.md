# mqttuya in Dafny

A functional model of the core of mqttuya, a bridge between an MQTT broker
and Tuya "towel heater" devices. The project has two parts.

- `Mqttuya` (mqttuya.dfy) models `on_message`, `create_device` and
  `publish_status`. A call of the handler is a pure function from the device
  registry (`device_list`) and an already-decoded message to three things:
  the new registry, the events emitted in order, and the Python return value
  (True, False or None). An event is either a publish or a send. A publish
  is a topic plus its payload: an error envelope, the device's raw status,
  or its translation. A send is one data-point (DPS) write to a registered
  device handle.
- `TowelHeater` (towel_heater.dfy) models the table from the nine writing device
  commands to the single DPS key/value pair each writes (the tenth command,
  `status`, writes nothing). It also models the
  translation `get_data` applies to a raw DPS map.

`Values` (values.dfy) holds decoded JSON values. It also holds the two pieces
of Python semantics the code relies on: truthiness, and `==` against a string
literal. `DispatchProperties` (dispatch_properties.dfy) holds the lemmas
about the handler. It also holds an independent statement of the five
validation checks in their fixed order: `cmd` present, the `config` special
case, `value` and `id` present, device known, command recognised.

Some behaviours of the code are worth noting, and the model keeps them:

- The `Unknown message` error path and every successful device command fall
  off the end of `on_message`, so they return None. The other error paths
  return False.
- `publish_status` returns None, not True, when it publishes.
- Config iteration does not raise when `value` is an empty dict or an empty
  string; the loop simply registers nothing.
- The version is 3.3 only for the JSON string `"3.3"`. The JSON number 3.3
  gives 3.1.

## Model

| member | source | states |
|---|---|---|
| TowelHeater.Payload | towel_heater.py:24-88 | every command writes one of the keys "1", "2", "3", "5", "111" (never "4"); `set_temp` and `set_timer` pass their argument through unchanged with no range check |
| TowelHeater.PayloadDeterminesAction | towel_heater.py:24-88 | two commands send the same DPS pair only if they are the same command, or are `timer_off` and `set_timer(0)` |
| TowelHeater.TimerOffIsSetTimerZero | towel_heater.py:60-76 | `timer_off` sends exactly what `set_timer(0)` sends: key "5" with value 0 |
| TowelHeater.Translate | towel_heater.py:95-100 | `state` is ON iff dps "1" is truthy, else OFF; `lock` is LOCKED iff dps "2" is truthy; `open` is OPEN iff dps "111" is the string "High", else CLOSED; target, current temperature and timer are copied from "3", "4", "5" |
| TowelHeater.WriteThenTranslate | towel_heater.py:24-100 | writing any command's pair into a complete DPS map and translating gives the old record with only the command's field changed, to the value the command names |
| TowelHeater.CommandTableAgreesWithTranslation | towel_heater.py:24-100 | the value `open` writes reads back as OPEN and the one `close` writes as CLOSED; likewise ON/OFF for `turn_on`/`turn_off` and LOCKED/UNLOCKED for `lock`/`unlock` |
| TowelHeater.GetData | towel_heater.py:90-100 | the evidently intended `get_data`: no record exactly when the status has no `dps` entry, otherwise the translation of that entry |
| TowelHeater.GetDataAsWritten | towel_heater.py:90-95 | `get_data` as written raises UnboundLocalError on `data` for every status |
| TowelHeater.GetDataAsWrittenRaisesOnGoodStatus | towel_heater.py:90-100 | for a status with every data point present, the intended `get_data` yields ON/UNLOCKED/OPEN, but the code as written raises |
| Mqttuya.ChooseVersion | mqttuya.py:34-37 | the handle's version is 3.3 exactly when `ver` is the string "3.3", and 3.1 for every other value |
| Mqttuya.LastIndexFor | mqttuya.py:29-40 | the position of the last entry with a given id: none exactly when no entry has that id, otherwise an entry with that id after which no entry has it |
| Mqttuya.CreateDevices | mqttuya.py:29-40 | registering entries front to back leaves under each id the handle built from the last entry for that id, or the previous handle when no entry names it; no id is removed |
| Mqttuya.ConfigEntries | mqttuya.py:29-34 | the loop visits one entry per list element, in order, carrying the element's `id`, `ip`, `key` and `ver`; an empty dict or string yields no entries |
| Mqttuya.NewDevice | mqttuya.py:32-37 | the handle records the entry's id, ip and key as given to the constructor, and version 3.3 exactly when `ver` is the string "3.3" |
| Mqttuya.TopicsDistinct | mqttuya.py:77-78 | status, data and monitor topics never coincide, and a per-device topic determines its device id |
| Mqttuya.PublishStatus | mqttuya.py:66-83 | nothing is published and False returned exactly for an unknown id; otherwise the device's status goes to its status topic, then its translation to its data topic, and None is returned; the data payload is null exactly when the status has no `dps` |
| Mqttuya.PublishAll | mqttuya.py:110-111 | the status loop publishes at most status and data per id, never an error envelope or a device send, and nothing when no id is registered |
| Mqttuya.ParseCommand | mqttuya.py:128-157 | a recognised `cmd` is exactly the string name of the command it selects |
| Mqttuya.ParseCommandRoundTrip | mqttuya.py:128-157 | each command is recognised by its own name and by no other JSON value, and `config` is not a device command |
| Mqttuya.ActionFor | mqttuya.py:128-156 | every recognised command except `status` calls the device method of the same name, and `set_temp`/`set_timer` receive the message's `value` |
| Mqttuya.CommandEvents | mqttuya.py:130-155 | a recognised command other than `status` emits exactly one send, to the given handle, of its method's DPS pair; `status` emits none |
| Mqttuya.OnMessage | mqttuya.py:86-161 | no registered id is ever removed, and only a `config` message changes the registry |
| DispatchProperties.FirstFailed | mqttuya.py:95-161 | a check the message fails that every earlier check in the list passes; none exactly when every check passes |
| DispatchProperties.DispatchFollowsCheckOrder | mqttuya.py:95-161 | the handler publishes exactly one error envelope, whose text is that of the first failed check (Invalid message, Unknown device, Unknown message), and then leaves the registry unchanged; a message passing every check publishes no error; False is returned exactly when one of the first four checks fails |
| DispatchProperties.MissingCmdIsInvalid | mqttuya.py:95-100 | without `cmd`: exactly one Invalid message envelope on mqttuya/monitor, registry unchanged, False |
| DispatchProperties.ConfigWithoutValueIsInvalid | mqttuya.py:102-108 | `config` without `value`: exactly one Invalid message envelope, nothing registered, False |
| DispatchProperties.MissingValueOrIdIsInvalid | mqttuya.py:114-119 | any other command missing `value` or `id` gets Invalid message whatever the registry holds, so this check comes before the device lookup |
| DispatchProperties.StatusNeedsValue | mqttuya.py:114-129 | a `status` request for a registered id without `value` is still Invalid message |
| DispatchProperties.UnknownDeviceIsRefused | mqttuya.py:121-126 | a complete command for an unregistered id gets exactly one Unknown device envelope and False |
| DispatchProperties.UnknownCommandSendsNothing | mqttuya.py:157-161 | an unrecognised command for a known device gets one Unknown message envelope, sends nothing and returns None |
| DispatchProperties.KnownCommandIsSentOnce | mqttuya.py:128-156 | a recognised command for a known id sends exactly that command's DPS pair, once, to the handle registered under that id (`status` sends none), then publishes status and data for the id (with the corrected get_data); registry unchanged, None returned |
| DispatchProperties.CommandsSendTheirPairs | mqttuya.py:130-155 | for a known id, `turn_on`/`turn_off` send key "1" as true/false, `lock`/`unlock` key "2" as true/false, `set_temp` key "3" and `set_timer` key "5" with the message's value, `timer_off` key "5" as 0, `open`/`close` key "111" as "High"/"Low" |
| DispatchProperties.SettersPassValueThrough | mqttuya.py:142-147 | `set_temp` and `set_timer` send the message's `value` unchanged under key "3" and "5" |
| DispatchProperties.CreateDevicesKeys | mqttuya.py:29-40 | after registration the registry's ids are the old ids plus the listed ids |
| DispatchProperties.CreateDevicesLastWins | mqttuya.py:29-40 | the last entry for an id is the one whose handle is stored |
| DispatchProperties.CreateDevicesKeepsOthers | mqttuya.py:29-40 | ids no entry names keep their previous handles |
| DispatchProperties.ConfigRegistersEveryEntry | mqttuya.py:102-112 | after `config` every listed id is registered, the last entry for an id wins with the version its `ver` selects, unlisted ids keep their handles, and True is returned (with the corrected get_data) |
| DispatchProperties.PublishAllRegistered | mqttuya.py:110-111 | when every id is registered, the status loop publishes status then data (with the corrected get_data) for each id, in list order, and nothing else |
| DispatchProperties.ConfigPublishesEveryEntry | mqttuya.py:109-112 | because registration precedes the status loop, `publish_status` is refused for no listed id: the reply is status and data (with the corrected get_data) for each listed id in order, and True |
| DispatchProperties.RegistryStaysConsistent | mqttuya.py:19-40 | every handle stays stored under its own device id, and no id is removed, across any message |
| DispatchProperties.ConfigIsIdempotent | mqttuya.py:29-40 | handling the same `config` message twice gives an equal registry of handle values as handling it once |

## Left out

- MQTT connection, subscription and the event loop (`connect_mqtt`, `subscribe`, `run`): network plumbing. Reading environment variables and choosing a random client id are left out for the same reason.
- JSON decoding of the payload and encoding of published payloads. The message is modelled as a decoded JSON object, and each publish as its topic plus the kind of payload. The `original_msg` of an error envelope is the decoded message itself.
- Everything inherited from the Tuya device client: building the payload, encryption, framing, `_send_receive` and `set_version`. A device write is an event naming the handle and the DPS pair.
- Mqttuya.NewDevice: a handle is modelled as the constructor's arguments (id, ip, key) plus the chosen version. The handle object's identity and internal state are not modelled, nor is the constructor's network search for the address and version when `ip` is None, "Auto" or "0.0.0.0" (mqttuya.py:30-31), nor a failure of that search. So for such entries the stored `ip` is the argument, not the address found, and a repeated `config` yields equal handle values rather than fresh objects.
- The device's `status()` report is a network call. It is a parameter mapping a device id to the status dictionary it reports. `publish_status` and `get_data` each call `status()`; the model assumes both calls return the same report. Mqttuya.OnMessage and every lemma about it require that every device reports a readable status (a `dps` entry, when present, holds all six data points), on every path of the handler, including the error paths that never call `status()`.
- The effect of a command on the physical device. Only the DPS pair that is sent is modelled.
- The `print` logging.
- Mqttuya.PublishStatus: the data publish uses the intended `get_data` (TowelHeater.GetData), not the code as written. As written, `get_data` raises at towel_heater.py:93, so the data topic is never published and the exception escapes `on_message` after the status publish (see Findings).
- Mqttuya.OnMessage: config entries must be objects with a string `id` and with `ip`, `key` and `ver` keys. A missing key raises KeyError in the source, and a non-string id (which Python would accept as a dict key) is not modelled.
- Mqttuya.OnMessage: the message `id` must be hashable when it is looked up. A list or object id raises TypeError in the source and is a precondition here.
- Mqttuya.OnMessage: a `config` value that is neither a list of entries nor an empty dict or string raises TypeError in the source and is a precondition here.
- TowelHeater.Translate: a DPS map missing one of the six keys raises KeyError in the source and is a precondition here.
- JSON floats are modelled as exact reals, not IEEE doubles. Only their zero test matters, and it is the same for finite values. The non-finite values `NaN`, `Infinity` and `-Infinity` that `json.loads` accepts have no counterpart and are not modelled.
- The `and data['cmd'] != 'config'` at mqttuya.py:121 is always true at that point, since `config` returned earlier, so it is dropped.

## Findings

| source | as written | input that shows it | evidently intended | confidence | as-written member | corrected member |
|---|---|---|---|---|---|---|
| towel_heater.py:93 | the guard tests `'dps' not in data`, but `data` is a local assigned only at line 95, so every call raises UnboundLocalError | any status, e.g. `{'dps': {'1': True, '2': False, '3': 22, '4': 20, '5': 0, '111': 'High'}}` | test `'dps' not in aux_status`: return None without `dps`, else the translation | high; not executed | TowelHeater.GetDataAsWritten | TowelHeater.GetData |

/** Properties of the message handler: the order of its validation checks,
    what each error path emits, what a `config` message does to the
    registry and publishes, and what a device command sends. */
module DispatchProperties {
  import opened Values
  import TowelHeater
  import opened Mqttuya

  // ---------------------------------------------------------------------
  // The validation checks, stated one by one
  // ---------------------------------------------------------------------

  /** The checks a message goes through, in the order they are made. */
  datatype Check = HasCmd | ConfigHasValue | HasValueAndId | DeviceKnown | CommandRecognised

  const CheckOrder: seq<Check> := [HasCmd, ConfigHasValue, HasValueAndId, DeviceKnown, CommandRecognised]

  /** Each check on its own: what a message must satisfy to pass it. The
      checks after the `config` special case do not apply to `config`. */
  predicate Passes(reg: Registry, msg: Message, c: Check)
  {
    match c
    case HasCmd => "cmd" in msg
    case ConfigHasValue => IsConfig(msg) ==> "value" in msg
    case HasValueAndId => IsConfig(msg) || ("value" in msg && "id" in msg)
    case DeviceKnown => IsConfig(msg) || ("id" in msg && Known(reg, msg["id"]))
    case CommandRecognised => IsConfig(msg) || ("cmd" in msg && ParseCommand(msg["cmd"]).Some?)
  }

  /** The `msg` text of the envelope a failed check publishes. */
  function ErrorText(c: Check): string
  {
    match c
    case HasCmd => "Invalid message"
    case ConfigHasValue => "Invalid message"
    case HasValueAndId => "Invalid message"
    case DeviceKnown => "Unknown device"
    case CommandRecognised => "Unknown message"
  }

  /** The first check in `checks` that the message fails. */
  function FirstFailed(reg: Registry, msg: Message, checks: seq<Check>): (r: Option<Check>)
    ensures r.Some? ==> r.value in checks && !Passes(reg, msg, r.value)
    ensures r.Some? ==> exists i :: 0 <= i < |checks| && checks[i] == r.value
                                    && forall j :: 0 <= j < i ==> Passes(reg, msg, checks[j])
    ensures r.None? <==> forall i :: 0 <= i < |checks| ==> Passes(reg, msg, checks[i])
  {
    if |checks| == 0 then None
    else if !Passes(reg, msg, checks[0]) then Some(checks[0])
    else FirstFailed(reg, msg, checks[1..])
  }

  /** The error texts published on the monitor topic, in order. */
  function MonitorErrors(events: seq<Event>): seq<string>
  {
    if |events| == 0 then []
    else
      var e := events[0];
      (if e.Publish? && e.topic == MonitorTopic && e.body.ErrorEnvelope? then [e.body.msg] else [])
      + MonitorErrors(events[1..])
  }

  lemma {:induction false} MonitorErrorsAppend(a: seq<Event>, b: seq<Event>)
    ensures MonitorErrors(a + b) == MonitorErrors(a) + MonitorErrors(b)
    decreases |a|
  {
    if |a| == 0 {
      assert a + b == b;
    } else {
      assert (a + b)[1..] == a[1..] + b;
      MonitorErrorsAppend(a[1..], b);
    }
  }

  /** The status loop publishes no error envelope. */
  lemma {:induction false} PublishAllHasNoErrors(reg: Registry, ids: seq<string>, poll: StatusSource)
    requires Readable(poll)
    ensures MonitorErrors(PublishAll(reg, ids, poll)) == []
    decreases |ids|
  {
    if |ids| > 0 {
      var p := PublishStatus(reg, ids[0], poll).events;
      MonitorErrorsAppend(p, PublishAll(reg, ids[1..], poll));
      PublishAllHasNoErrors(reg, ids[1..], poll);
      if p != [] {
        TopicsDistinct(ids[0], ids[0]);
        assert MonitorErrors(p) == MonitorErrors(p[1..]);
        assert MonitorErrors(p[1..]) == MonitorErrors(p[1..][1..]);
      }
    }
  }

  /** The first failing check of the fixed order, spelled out. */
  lemma FirstFailedInOrder(reg: Registry, msg: Message)
    ensures FirstFailed(reg, msg, CheckOrder) ==
              if !Passes(reg, msg, HasCmd) then Some(HasCmd)
              else if !Passes(reg, msg, ConfigHasValue) then Some(ConfigHasValue)
              else if !Passes(reg, msg, HasValueAndId) then Some(HasValueAndId)
              else if !Passes(reg, msg, DeviceKnown) then Some(DeviceKnown)
              else if !Passes(reg, msg, CommandRecognised) then Some(CommandRecognised)
              else None
  {
    var s4: seq<Check> := [CommandRecognised];
    var s3 := [DeviceKnown] + s4;
    var s2 := [HasValueAndId] + s3;
    var s1 := [ConfigHasValue] + s2;
    assert CheckOrder == [HasCmd] + s1;
    assert s4[1..] == [] && s3[1..] == s4 && s2[1..] == s3 && s1[1..] == s2 && CheckOrder[1..] == s1;
    assert FirstFailed(reg, msg, s4) == if !Passes(reg, msg, CommandRecognised) then Some(CommandRecognised) else None;
    assert FirstFailed(reg, msg, s3) == if !Passes(reg, msg, DeviceKnown) then Some(DeviceKnown) else FirstFailed(reg, msg, s4);
    assert FirstFailed(reg, msg, s2) == if !Passes(reg, msg, HasValueAndId) then Some(HasValueAndId) else FirstFailed(reg, msg, s3);
    assert FirstFailed(reg, msg, s1) == if !Passes(reg, msg, ConfigHasValue) then Some(ConfigHasValue) else FirstFailed(reg, msg, s2);
  }

  /** The publishes of a successful device command carry no error. */
  lemma CommandReplyHasNoErrors(reg: Registry, id: string, c: Command, value: Json, poll: StatusSource)
    requires Readable(poll)
    requires id in reg
    ensures MonitorErrors(CommandEvents(reg[id], c, value) + PublishStatus(reg, id, poll).events) == []
  {
    var cmdEvents := CommandEvents(reg[id], c, value);
    var pub := PublishStatus(reg, id, poll).events;
    MonitorErrorsAppend(cmdEvents, pub);
    TopicsDistinct(id, id);
    assert MonitorErrors(pub) == MonitorErrors(pub[1..]);
    assert MonitorErrors(pub[1..]) == MonitorErrors(pub[1..][1..]);
    if cmdEvents != [] {
      assert MonitorErrors(cmdEvents) == MonitorErrors(cmdEvents[1..]);
    }
  }

  /** The handler makes its checks in the fixed order: exactly one error
      envelope is published, with the text of the first check the message
      fails, and the registry is then left unchanged; a message that passes
      every check publishes no error. The return value is False exactly when
      one of the first four checks fails. */
  lemma DispatchFollowsCheckOrder(reg: Registry, msg: Message, poll: StatusSource)
    requires Readable(poll)
    requires MessageWellFormed(msg)
    ensures var r := OnMessage(reg, msg, poll);
            MonitorErrors(r.events) == match FirstFailed(reg, msg, CheckOrder)
                                       case Some(c) => [ErrorText(c)]
                                       case None => []
    ensures FirstFailed(reg, msg, CheckOrder).Some? ==>
              OnMessage(reg, msg, poll).registry == reg && |OnMessage(reg, msg, poll).events| == 1
    ensures OnMessage(reg, msg, poll).ret == PyFalse <==>
              FirstFailed(reg, msg, CheckOrder) in {Some(HasCmd), Some(ConfigHasValue), Some(HasValueAndId), Some(DeviceKnown)}
  {
    var r := OnMessage(reg, msg, poll);
    FirstFailedInOrder(reg, msg);
    if "cmd" !in msg {
    } else if IsConfig(msg) {
      if "value" in msg {
        var entries := ConfigEntries(msg["value"]);
        PublishAllHasNoErrors(CreateDevices(reg, entries), Ids(entries), poll);
      }
    } else if "value" !in msg || "id" !in msg {
    } else if !Known(reg, msg["id"]) {
    } else if ParseCommand(msg["cmd"]).None? {
    } else {
      CommandReplyHasNoErrors(reg, msg["id"].s, ParseCommand(msg["cmd"]).value, msg["value"], poll);
    }
  }

  // ---------------------------------------------------------------------
  // The error paths
  // ---------------------------------------------------------------------

  /** The one event an error path publishes. */
  function ErrorEvent(text: string, msg: Message): Event
  {
    Publish(MonitorTopic, ErrorEnvelope(text, msg))
  }

  /** A message without `cmd` is invalid: one envelope, registry unchanged,
      False returned. */
  lemma MissingCmdIsInvalid(reg: Registry, msg: Message, poll: StatusSource)
    requires Readable(poll)
    requires "cmd" !in msg
    ensures MessageWellFormed(msg)
    ensures OnMessage(reg, msg, poll) == Reply(reg, [ErrorEvent("Invalid message", msg)], PyFalse)
  {
  }

  /** A `config` message without `value` is invalid and registers nothing. */
  lemma ConfigWithoutValueIsInvalid(reg: Registry, msg: Message, poll: StatusSource)
    requires Readable(poll)
    requires IsConfig(msg) && "value" !in msg
    ensures MessageWellFormed(msg)
    ensures OnMessage(reg, msg, poll) == Reply(reg, [ErrorEvent("Invalid message", msg)], PyFalse)
  {
  }

  /** Any other command missing `value` or `id` is invalid, whether or not
      its id would be known: this check comes before the device lookup, and
      even `status` needs a `value`. */
  lemma MissingValueOrIdIsInvalid(reg: Registry, msg: Message, poll: StatusSource)
    requires Readable(poll)
    requires "cmd" in msg && !IsConfig(msg)
    requires "value" !in msg || "id" !in msg
    ensures MessageWellFormed(msg)
    ensures OnMessage(reg, msg, poll) == Reply(reg, [ErrorEvent("Invalid message", msg)], PyFalse)
  {
  }

  /** A status request with a known id but no value is still invalid. */
  lemma StatusNeedsValue(reg: Registry, id: string, poll: StatusSource)
    requires Readable(poll)
    requires id in reg
    ensures var msg := map["cmd" := JStr("status"), "id" := JStr(id)];
            MessageWellFormed(msg)
            && OnMessage(reg, msg, poll) == Reply(reg, [ErrorEvent("Invalid message", msg)], PyFalse)
  {
    var msg := map["cmd" := JStr("status"), "id" := JStr(id)];
    MissingValueOrIdIsInvalid(reg, msg, poll);
  }

  /** A complete command for an id that is not registered is refused as an
      unknown device. */
  lemma UnknownDeviceIsRefused(reg: Registry, msg: Message, poll: StatusSource)
    requires Readable(poll)
    requires MessageWellFormed(msg)
    requires "cmd" in msg && !IsConfig(msg) && "value" in msg && "id" in msg
    requires !Known(reg, msg["id"])
    ensures OnMessage(reg, msg, poll) == Reply(reg, [ErrorEvent("Unknown device", msg)], PyFalse)
  {
  }

  /** A known device with an unrecognised command: one envelope, nothing
      sent to any device, and the handler falls off its end (None). */
  lemma UnknownCommandSendsNothing(reg: Registry, msg: Message, poll: StatusSource)
    requires Readable(poll)
    requires MessageWellFormed(msg)
    requires "cmd" in msg && !IsConfig(msg) && "value" in msg && "id" in msg
    requires Known(reg, msg["id"]) && ParseCommand(msg["cmd"]).None?
    ensures OnMessage(reg, msg, poll) == Reply(reg, [ErrorEvent("Unknown message", msg)], PyNone)
    ensures forall e :: e in OnMessage(reg, msg, poll).events ==> !e.Send?
  {
  }

  // ---------------------------------------------------------------------
  // Device commands
  // ---------------------------------------------------------------------

  /** A recognised command for a known device sends exactly the command's
      DPS write to the handle registered under that id (status sends
      nothing), then publishes its status and data, in that order; the
      registry is unchanged. */
  lemma KnownCommandIsSentOnce(reg: Registry, msg: Message, c: Command, poll: StatusSource)
    requires Readable(poll)
    requires MessageWellFormed(msg) && RegistryConsistent(reg)
    requires "cmd" in msg && !IsConfig(msg) && "value" in msg && "id" in msg
    requires Known(reg, msg["id"]) && ParseCommand(msg["cmd"]) == Some(c)
    ensures var r := OnMessage(reg, msg, poll);
            var id := msg["id"].s;
            var publishes := StatusEvents(id, poll(id));
            && r.registry == reg
            && r.ret == PyNone
            && (c == StatusCmd ==> r.events == publishes)
            && (c != StatusCmd ==>
                  var w := TowelHeater.Payload(ActionFor(c, msg["value"]).value);
                  && r.events == [Send(reg[id], w)] + publishes
                  && r.events[0].device.id == id)
  {
  }

  /** Each command name sends the pair its device method writes: power on
      key "1", child lock on "2", target temperature on "3", timer on "5"
      and open/close mode on "111". */
  lemma CommandsSendTheirPairs(reg: Registry, msg: Message, poll: StatusSource)
    requires Readable(poll) && MessageWellFormed(msg)
    requires "cmd" in msg && "value" in msg && "id" in msg && Known(reg, msg["id"])
    ensures var r := OnMessage(reg, msg, poll);
            var dev := reg[msg["id"].s];
            var cmd := msg["cmd"];
            var v := msg["value"];
            && (IsString(cmd, "turn_on") ==> r.events[0] == Send(dev, TowelHeater.DpsWrite("1", JBool(true))))
            && (IsString(cmd, "turn_off") ==> r.events[0] == Send(dev, TowelHeater.DpsWrite("1", JBool(false))))
            && (IsString(cmd, "lock") ==> r.events[0] == Send(dev, TowelHeater.DpsWrite("2", JBool(true))))
            && (IsString(cmd, "unlock") ==> r.events[0] == Send(dev, TowelHeater.DpsWrite("2", JBool(false))))
            && (IsString(cmd, "set_temp") ==> r.events[0] == Send(dev, TowelHeater.DpsWrite("3", v)))
            && (IsString(cmd, "set_timer") ==> r.events[0] == Send(dev, TowelHeater.DpsWrite("5", v)))
            && (IsString(cmd, "timer_off") ==> r.events[0] == Send(dev, TowelHeater.DpsWrite("5", JInt(0))))
            && (IsString(cmd, "open") ==> r.events[0] == Send(dev, TowelHeater.DpsWrite("111", JStr("High"))))
            && (IsString(cmd, "close") ==> r.events[0] == Send(dev, TowelHeater.DpsWrite("111", JStr("Low"))))
  {
  }

  /** The setters pass the message's `value` through to the device
      unchanged, with no range check. */
  lemma SettersPassValueThrough(reg: Registry, msg: Message, poll: StatusSource)
    requires Readable(poll)
    requires MessageWellFormed(msg)
    requires "cmd" in msg && "value" in msg && "id" in msg && Known(reg, msg["id"])
    requires IsString(msg["cmd"], "set_temp") || IsString(msg["cmd"], "set_timer")
    ensures var r := OnMessage(reg, msg, poll);
            && |r.events| == 3 && r.events[0].Send?
            && r.events[0].write.value == msg["value"]
            && r.events[0].write.key == (if IsString(msg["cmd"], "set_temp") then "3" else "5")
  {
  }

  // ---------------------------------------------------------------------
  // Configuration
  // ---------------------------------------------------------------------

  /** Under the status loop every id is already registered: each id gets
      its status and then its data published, in list order, and nothing
      else is published. */
  lemma {:induction false} PublishAllRegistered(reg: Registry, ids: seq<string>, poll: StatusSource)
    requires Readable(poll)
    requires forall i :: 0 <= i < |ids| ==> ids[i] in reg
    ensures |PublishAll(reg, ids, poll)| == 2 * |ids|
    ensures forall i :: 0 <= i < |ids| ==>
              && PublishAll(reg, ids, poll)[2 * i] == StatusEvents(ids[i], poll(ids[i]))[0]
              && PublishAll(reg, ids, poll)[2 * i + 1] == StatusEvents(ids[i], poll(ids[i]))[1]
    decreases |ids|
  {
    if |ids| > 0 {
      var rest := PublishAll(reg, ids[1..], poll);
      PublishAllRegistered(reg, ids[1..], poll);
      var all := PublishAll(reg, ids, poll);
      assert all == StatusEvents(ids[0], poll(ids[0])) + rest;
      forall i | 1 <= i < |ids|
        ensures all[2 * i] == StatusEvents(ids[i], poll(ids[i]))[0]
        ensures all[2 * i + 1] == StatusEvents(ids[i], poll(ids[i]))[1]
      {
        assert all[2 * i] == rest[2 * (i - 1)];
        assert all[2 * i + 1] == rest[2 * (i - 1) + 1];
        assert ids[1..][i - 1] == ids[i];
      }
    }
  }

  /** The ids `create_device` stores are the old ones plus the listed ones. */
  lemma CreateDevicesKeys(reg: Registry, entries: seq<ConfigEntry>)
    ensures CreateDevices(reg, entries).Keys == reg.Keys + (set i | 0 <= i < |entries| :: entries[i].id)
  {
    var r := CreateDevices(reg, entries);
    var listed := set i | 0 <= i < |entries| :: entries[i].id;
    forall k
      ensures k in r <==> k in reg || k in listed
    {
      assert Get(r, k) == Resolve(reg, entries, k);
      if k in Ids(entries) {
        var i :| 0 <= i < |Ids(entries)| && Ids(entries)[i] == k;
        assert entries[i].id == k;
      }
      if k in listed {
        var i :| 0 <= i < |entries| && entries[i].id == k;
        assert Ids(entries)[i] == k;
      }
    }
  }

  /** The entry registered last for an id is the one whose handle stays. */
  lemma CreateDevicesLastWins(reg: Registry, entries: seq<ConfigEntry>, i: nat)
    requires i < |entries|
    requires forall j :: i < j < |entries| ==> entries[j].id != entries[i].id
    ensures entries[i].id in CreateDevices(reg, entries)
    ensures CreateDevices(reg, entries)[entries[i].id] == NewDevice(entries[i])
  {
    var k := entries[i].id;
    assert Ids(entries)[i] == k;
    assert Get(CreateDevices(reg, entries), k) == Resolve(reg, entries, k);
    assert LastIndexFor(entries, k) == Some(i);
  }

  /** Ids no entry mentions keep their previous handle. */
  lemma CreateDevicesKeepsOthers(reg: Registry, entries: seq<ConfigEntry>, k: string)
    requires k in reg && k !in Ids(entries)
    ensures k in CreateDevices(reg, entries) && CreateDevices(reg, entries)[k] == reg[k]
  {
    assert Get(CreateDevices(reg, entries), k) == Resolve(reg, entries, k);
  }

  /** After a `config` message every listed id is registered, the last entry
      for an id wins (with its version chosen from its `ver`), ids not
      listed keep their handles, and no id is removed. */
  lemma ConfigRegistersEveryEntry(reg: Registry, msg: Message, poll: StatusSource)
    requires Readable(poll)
    requires MessageWellFormed(msg) && IsConfig(msg) && "value" in msg
    ensures var entries := ConfigEntries(msg["value"]);
            var r := OnMessage(reg, msg, poll);
            && r.registry.Keys == reg.Keys + (set i | 0 <= i < |entries| :: entries[i].id)
            && (forall k :: k in reg && k !in Ids(entries) ==> r.registry[k] == reg[k])
            && (forall i :: 0 <= i < |entries| ==>
                  (forall j :: i < j < |entries| ==> entries[j].id != entries[i].id) ==>
                    && r.registry[entries[i].id] == NewDevice(entries[i])
                    && (r.registry[entries[i].id].version == V33 <==> IsString(entries[i].ver, "3.3")))
            && r.ret == PyTrue
  {
    var entries := ConfigEntries(msg["value"]);
    var r := CreateDevices(reg, entries);
    assert OnMessage(reg, msg, poll).registry == r;
    CreateDevicesKeys(reg, entries);
    forall i | 0 <= i < |entries| && (forall j :: i < j < |entries| ==> entries[j].id != entries[i].id)
      ensures entries[i].id in r && r[entries[i].id] == NewDevice(entries[i])
    {
      CreateDevicesLastWins(reg, entries, i);
    }
    forall k | k in reg && k !in Ids(entries)
      ensures k in r && r[k] == reg[k]
    {
      CreateDevicesKeepsOthers(reg, entries, k);
    }
  }

  /** Registration precedes the status loop, so `publish_status` is refused
      for no listed id: the reply publishes each id's status and data in
      list order, and nothing else. */
  lemma ConfigPublishesEveryEntry(reg: Registry, msg: Message, poll: StatusSource)
    requires Readable(poll)
    requires MessageWellFormed(msg) && IsConfig(msg) && "value" in msg
    ensures var entries := ConfigEntries(msg["value"]);
            var r := OnMessage(reg, msg, poll);
            && |r.events| == 2 * |entries|
            && (forall i :: 0 <= i < |entries| ==>
                  && r.events[2 * i] == Publish(StatusTopic(entries[i].id), DeviceStatus(poll(entries[i].id)))
                  && r.events[2 * i + 1] ==
                       Publish(DataTopic(entries[i].id), TranslatedData(TowelHeater.GetData(poll(entries[i].id)))))
            && (forall i :: 0 <= i < |entries| ==> PublishStatus(r.registry, entries[i].id, poll).ret != PyFalse)
            && r.ret == PyTrue
  {
    var entries := ConfigEntries(msg["value"]);
    var reg' := CreateDevices(reg, entries);
    var ids := Ids(entries);
    forall i | 0 <= i < |ids|
      ensures ids[i] in reg'
    {
      assert Get(reg', ids[i]) == Resolve(reg, entries, ids[i]);
    }
    PublishAllRegistered(reg', ids, poll);
  }

  // ---------------------------------------------------------------------
  // The registry across messages
  // ---------------------------------------------------------------------

  /** Every handle stays stored under its own id, and no id is ever
      removed. */
  lemma RegistryStaysConsistent(reg: Registry, msg: Message, poll: StatusSource)
    requires Readable(poll)
    requires MessageWellFormed(msg) && RegistryConsistent(reg)
    ensures RegistryConsistent(OnMessage(reg, msg, poll).registry)
    ensures reg.Keys <= OnMessage(reg, msg, poll).registry.Keys
  {
    if "cmd" in msg && IsConfig(msg) && "value" in msg {
      var entries := ConfigEntries(msg["value"]);
      var r := CreateDevices(reg, entries);
      forall k | k in r
        ensures r[k].id == k
      {
        assert Get(r, k) == Resolve(reg, entries, k);
      }
    }
  }

  /** Registering the same configuration twice gives the same registry as
      registering it once. */
  lemma ConfigIsIdempotent(reg: Registry, msg: Message, poll: StatusSource)
    requires Readable(poll)
    requires MessageWellFormed(msg) && IsConfig(msg) && "value" in msg
    ensures OnMessage(OnMessage(reg, msg, poll).registry, msg, poll).registry == OnMessage(reg, msg, poll).registry
  {
    var entries := ConfigEntries(msg["value"]);
    var once := CreateDevices(reg, entries);
    var twice := CreateDevices(once, entries);
    forall k
      ensures Get(twice, k) == Get(once, k)
    {
      assert Get(twice, k) == Resolve(once, entries, k);
      assert Get(once, k) == Resolve(reg, entries, k);
    }
    assert forall k :: k in twice <==> k in once by {
      forall k ensures k in twice <==> k in once {
        assert Get(twice, k) == Get(once, k);
      }
    }
    assert forall k :: k in twice ==> twice[k] == once[k] by {
      forall k | k in twice ensures twice[k] == once[k] {
        assert Get(twice, k) == Get(once, k);
      }
    }
  }
}

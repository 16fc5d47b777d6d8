/** The versioned status of devices: `SetDeviceConnected` and `SetDeviceDisconnected` in
    store/mongo/datastore_mongo.go, bracketing a connection in api/http/device.go. */
module DeviceStatus {
  import opened Bytes

  datatype Status = Unknown | Connected | Disconnected

  /** A device document; one that was only provisioned has no version. */
  datatype Device = Device(status: Status, version: Option<int>)

  datatype Key = Key(tenantID: string, deviceID: string)

  type Devices = map<Key, Device>

  function VersionOf(devices: Devices, key: Key): int {
    if key in devices && devices[key].version.Some? then devices[key].version.value else 0
  }

  /** The documents after an open, which increments the version it returns. */
  function Opened(devices: Devices, key: Key): Devices {
    devices[key := Device(Connected, Some(VersionOf(devices, key) + 1))]
  }

  /** The documents after a close, which updates only a document with this version. */
  function Closed(devices: Devices, key: Key, version: int): Devices {
    if key in devices && devices[key].version == Some(version)
    then devices[key := devices[key].(status := Disconnected)]
    else devices
  }

  function Provisioned(devices: Devices, key: Key): Devices {
    if key in devices then devices else devices[key := Device(Unknown, None)]
  }

  /** A connection without another one in between leaves its device disconnected, one version on, and no
      other document changed. */
  lemma {:induction false} OpenThenClose(devices: Devices, key: Key)
    ensures var version := VersionOf(devices, key) + 1;
            Closed(Opened(devices, key), key, version) == devices[key := Device(Disconnected, Some(version))]
  {
  }

  class DeviceStore {
    var devices: Devices

    constructor (devices: Devices)
      ensures this.devices == devices
    {
      this.devices := devices;
    }

    method SetDeviceConnected(tenantID: string, deviceID: string) returns (version: int)
      modifies this
      ensures devices == Opened(old(devices), Key(tenantID, deviceID))
      ensures devices[Key(tenantID, deviceID)].version == Some(version)
    {
      var key := Key(tenantID, deviceID);
      var device := if key in devices then devices[key] else Device(Unknown, None);
      version := if device.version.Some? then device.version.value + 1 else 1;
      devices := devices[key := Device(Connected, Some(version))];
    }

    method SetDeviceDisconnected(tenantID: string, deviceID: string, version: int)
      modifies this
      ensures devices == Closed(old(devices), Key(tenantID, deviceID), version)
    {
      var key := Key(tenantID, deviceID);
      if key in devices && devices[key].version == Some(version) {
        devices := devices[key := devices[key].(status := Disconnected)];
      }
    }

    method ProvisionDevice(tenantID: string, deviceID: string)
      modifies this
      ensures devices == Provisioned(old(devices), Key(tenantID, deviceID))
    {
      var key := Key(tenantID, deviceID);
      if key !in devices {
        devices := devices[key := Device(Unknown, None)];
      }
    }
  }

  // Any number of connections, opening and closing in any order.

  datatype Token = Token(key: Key, version: int)

  /** `tokens` holds, for each connection that opened, the version it was given. */
  datatype State = State(devices: Devices, tokens: map<nat, Token>, closed: set<nat>)

  datatype Event = Open(conn: nat, key: Key) | Close(conn: nat) | Provision(key: Key)

  predicate Enabled(s: State, e: Event) {
    match e
    case Open(conn, _) => conn !in s.tokens
    case Close(conn) => conn in s.tokens && conn !in s.closed
    case Provision(_) => true
  }

  function Apply(s: State, e: Event): State
    requires Enabled(s, e)
  {
    match e
    case Open(conn, key) =>
      var devices := Opened(s.devices, key);
      s.(devices := devices, tokens := s.tokens[conn := Token(key, devices[key].version.value)])
    case Close(conn) =>
      var t := s.tokens[conn];
      s.(devices := Closed(s.devices, t.key, t.version), closed := s.closed + {conn})
    case Provision(key) => s.(devices := Provisioned(s.devices, key))
  }

  function Run(start: Devices, events: seq<Event>): Option<State> {
    if events == [] then Some(State(start, map[], {}))
    else
      match Run(start, events[..|events| - 1])
      case None => None
      case Some(s) => if Enabled(s, events[|events| - 1]) then Some(Apply(s, events[|events| - 1])) else None
  }

  ghost predicate OpenedIn(events: seq<Event>, conn: nat) {
    exists j | 0 <= j < |events| :: events[j].Open? && events[j].conn == conn
  }

  /** Event `i` may come there: a connection opens once, and closes once after that. */
  ghost predicate MayCome(events: seq<Event>, i: nat)
    requires i < |events|
  {
    match events[i]
    case Open(conn, _) => !OpenedIn(events[..i], conn)
    case Close(conn) => OpenedIn(events[..i], conn) && Close(conn) !in events[..i]
    case Provision(_) => true
  }

  /** The runs are all sequences of such events: connections may overlap and close in any order. */
  lemma {:induction false} RunExactly(start: Devices, events: seq<Event>)
    ensures Run(start, events).Some? <==> forall i | 0 <= i < |events| :: MayCome(events, i)
    ensures Run(start, events).Some? ==>
              var s := Run(start, events).value;
              && (forall c: nat :: c in s.tokens <==> OpenedIn(events, c))
              && (forall c: nat :: c in s.closed <==> Close(c) in events)
    decreases |events|
  {
    if events != [] {
      var n := |events| - 1;
      var earlier, last := events[..n], events[n];
      RunExactly(start, earlier);
      assert events == earlier + [last];
      forall i | 0 <= i < n
        ensures MayCome(events, i) <==> MayCome(earlier, i)
      {
        assert events[..i] == earlier[..i];
      }
      if Run(start, earlier).Some? {
        RunNext(start, earlier, last);
      }
    }
  }

  lemma {:induction false} RunNext(start: Devices, earlier: seq<Event>, last: Event)
    requires Run(start, earlier).Some?
    requires var s := Run(start, earlier).value;
             && (forall c: nat :: c in s.tokens <==> OpenedIn(earlier, c))
             && (forall c: nat :: c in s.closed <==> Close(c) in earlier)
    ensures var events := earlier + [last];
            && (Run(start, events).Some? <==> MayCome(events, |earlier|))
            && (Run(start, events).Some? ==>
                  var t := Run(start, events).value;
                  && (forall c: nat :: c in t.tokens <==> OpenedIn(events, c))
                  && (forall c: nat :: c in t.closed <==> Close(c) in events))
  {
    var events := earlier + [last];
    assert events[..|earlier|] == earlier && events[|earlier|] == last;
    assert forall j | 0 <= j < |earlier| :: events[j] == earlier[j];
  }

  /** The connection with the newest token of its device. */
  predicate Newest(s: State, conn: nat)
    requires conn in s.tokens
  {
    var key := s.tokens[conn].key;
    key in s.devices && s.devices[key].version == Some(s.tokens[conn].version)
  }

  /** The connections to a device that have opened. */
  function Opens(tokens: map<nat, Token>, key: Key): set<nat> {
    set conn | conn in tokens && tokens[conn].key == key
  }

  /** The tokens of a device are distinct and lie above the version it started with, and every open
      added one version. */
  predicate TokensInv(start: Devices, s: State, key: Key) {
    var opens := Opens(s.tokens, key);
    && (forall c | c in opens :: VersionOf(start, key) < s.tokens[c].version <= VersionOf(s.devices, key))
    && (forall c, d | c in opens && d in opens && c != d :: s.tokens[c].version != s.tokens[d].version)
    && VersionOf(s.devices, key) == VersionOf(start, key) + |opens|
  }

  /** Some connection holds the newest token of an opened device, and it decides the status. */
  ghost predicate NewestInv(s: State, key: Key) {
    var opens := Opens(s.tokens, key);
    && s.closed <= s.tokens.Keys
    && (opens != {} ==> key in s.devices && s.devices[key].version.Some? && exists c :: c in opens && Newest(s, c))
    && (forall c | c in opens && Newest(s, c) ::
          s.devices[key].status == if c in s.closed then Disconnected else Connected)
  }

  ghost predicate KeyInv(start: Devices, s: State, key: Key) {
    TokensInv(start, s, key) && NewestInv(s, key)
  }

  /** An event of another device leaves the document and the tokens of this one alone. */
  lemma {:induction false} OtherDevice(start: Devices, s: State, t: State, key: Key)
    requires KeyInv(start, s, key)
    requires Opens(t.tokens, key) == Opens(s.tokens, key)
    requires forall c | c in Opens(s.tokens, key) :: t.tokens[c] == s.tokens[c] && (c in t.closed <==> c in s.closed)
    requires key in s.devices <==> key in t.devices
    requires key in s.devices ==> t.devices[key] == s.devices[key]
    requires t.closed <= t.tokens.Keys
    ensures KeyInv(start, t, key)
  {
    if Opens(s.tokens, key) != {} {
      var c :| c in Opens(s.tokens, key) && Newest(s, c);
      assert Newest(t, c);
    }
  }

  lemma {:induction false} OpenKeepsTokens(start: Devices, s: State, conn: nat, key: Key)
    requires TokensInv(start, s, key) && Enabled(s, Open(conn, key))
    ensures var t := Apply(s, Open(conn, key));
            && Opens(t.tokens, key) == Opens(s.tokens, key) + {conn}
            && TokensInv(start, t, key)
            && t.tokens[conn].version == VersionOf(t.devices, key) == VersionOf(s.devices, key) + 1
            && (forall c | c in Opens(s.tokens, key) :: s.tokens[c].version < t.tokens[conn].version)
  {
    var t := Apply(s, Open(conn, key));
    assert Opens(t.tokens, key) == Opens(s.tokens, key) + {conn};
    assert conn !in Opens(s.tokens, key);
    assert VersionOf(t.devices, key) == VersionOf(s.devices, key) + 1;
    assert forall c | c in Opens(s.tokens, key) :: t.tokens[c] == s.tokens[c];
  }

  lemma {:induction false} OpenKeepsInv(start: Devices, s: State, conn: nat, key: Key)
    requires KeyInv(start, s, key) && Enabled(s, Open(conn, key))
    ensures KeyInv(start, Apply(s, Open(conn, key)), key)
    ensures forall c | c in Opens(s.tokens, key) ::
              s.tokens[c].version < Apply(s, Open(conn, key)).tokens[conn].version
  {
    var t := Apply(s, Open(conn, key));
    OpenKeepsTokens(start, s, conn, key);
    assert conn in Opens(t.tokens, key) && Newest(t, conn);
    forall c | c in Opens(t.tokens, key) && Newest(t, c)
      ensures c == conn
    {
    }
  }

  lemma {:induction false} CloseKeepsInv(start: Devices, s: State, conn: nat)
    requires Enabled(s, Close(conn)) && KeyInv(start, s, s.tokens[conn].key)
    ensures KeyInv(start, Apply(s, Close(conn)), s.tokens[conn].key)
  {
    var t, key := Apply(s, Close(conn)), s.tokens[conn].key;
    assert t.tokens == s.tokens && conn in Opens(s.tokens, key);
    var c :| c in Opens(s.tokens, key) && Newest(s, c);
    assert Newest(t, c);
  }

  lemma {:induction false} OtherOpen(start: Devices, s: State, conn: nat, other: Key, key: Key)
    requires KeyInv(start, s, key) && Enabled(s, Open(conn, other)) && other != key
    ensures KeyInv(start, Apply(s, Open(conn, other)), key)
  {
    var t := Apply(s, Open(conn, other));
    assert Opens(t.tokens, key) == Opens(s.tokens, key);
    OtherDevice(start, s, t, key);
  }

  lemma {:induction false} StepKeepsInv(start: Devices, s: State, e: Event, key: Key)
    requires KeyInv(start, s, key) && Enabled(s, e)
    ensures KeyInv(start, Apply(s, e), key)
  {
    var t := Apply(s, e);
    match e {
      case Open(conn, k) =>
        if k == key {
          OpenKeepsInv(start, s, conn, key);
        } else {
          OtherOpen(start, s, conn, k, key);
        }
      case Close(conn) =>
        if s.tokens[conn].key == key {
          CloseKeepsInv(start, s, conn);
        } else {
          OtherDevice(start, s, t, key);
        }
      case Provision(k) =>
        if k != key || key in s.devices {
          OtherDevice(start, s, t, key);
        }
    }
  }

  lemma {:induction false} EveryRunKeepsInv(start: Devices, events: seq<Event>, key: Key)
    requires Run(start, events).Some?
    ensures KeyInv(start, Run(start, events).value, key)
    decreases |events|
  {
    if events == [] {
      assert Opens(map[], key) == {};
    } else {
      var earlier := events[..|events| - 1];
      EveryRunKeepsInv(start, earlier, key);
      StepKeepsInv(start, Run(start, earlier).value, events[|events| - 1], key);
    }
  }

  /** For every interleaving of opens, closes and provisionings: the tokens of a device are distinct,
      every open adds one version, and after the first open the device is connected exactly when the
      connection with the highest token has not closed. */
  lemma {:induction false} VersionedStatus(start: Devices, events: seq<Event>, key: Key)
    requires Run(start, events).Some?
    ensures var s := Run(start, events).value;
            && VersionOf(s.devices, key) == VersionOf(start, key) + |Opens(s.tokens, key)|
            && (forall c, d | c in Opens(s.tokens, key) && d in Opens(s.tokens, key) && c != d ::
                  s.tokens[c].version != s.tokens[d].version)
            && (Opens(s.tokens, key) != {} ==>
                  exists c :: c in Opens(s.tokens, key)
                    && (forall d | d in Opens(s.tokens, key) :: s.tokens[d].version <= s.tokens[c].version)
                    && key in s.devices
                    && s.devices[key].status == (if c in s.closed then Disconnected else Connected))
  {
    EveryRunKeepsInv(start, events, key);
    var s := Run(start, events).value;
    if Opens(s.tokens, key) != {} {
      var c :| c in Opens(s.tokens, key) && Newest(s, c);
    }
  }

  /** A device that no connection opened keeps its document, and one that is only provisioned has an
      unknown status. */
  lemma {:induction false} NeverOpened(start: Devices, events: seq<Event>, key: Key)
    requires Run(start, events).Some? && Opens(Run(start, events).value.tokens, key) == {}
    ensures var s := Run(start, events).value;
            && (key in start ==> key in s.devices && s.devices[key] == start[key])
            && (key !in start ==> (key in s.devices <==> Provision(key) in events))
            && (key !in start && key in s.devices ==> s.devices[key] == Device(Unknown, None))
    decreases |events|
  {
    if events != [] {
      var earlier, last := events[..|events| - 1], events[|events| - 1];
      var s, t := Run(start, earlier).value, Run(start, events).value;
      assert events == earlier + [last];
      assert Opens(s.tokens, key) <= Opens(t.tokens, key);
      assert last.Open? ==> last.conn in t.tokens && t.tokens[last.conn].key == last.key;
      NeverOpened(start, earlier, key);
      EveryRunKeepsInv(start, earlier, key);
      assert last.Close? ==> (last.conn in Opens(s.tokens, key) <==> s.tokens[last.conn].key == key);
    }
  }

  /** A close changes the documents exactly when no connection of its device has opened with a higher
      token: a late close by an older connection changes nothing. */
  lemma {:induction false} LateCloseChangesNothing(start: Devices, events: seq<Event>, conn: nat)
    requires Run(start, events).Some? && Enabled(Run(start, events).value, Close(conn))
    ensures var s := Run(start, events).value;
            Apply(s, Close(conn)).devices != s.devices <==>
            forall d | d in Opens(s.tokens, s.tokens[conn].key) :: s.tokens[d].version <= s.tokens[conn].version
  {
    var s := Run(start, events).value;
    var key := s.tokens[conn].key;
    EveryRunKeepsInv(start, events, key);
    assert conn in Opens(s.tokens, key);
    var c :| c in Opens(s.tokens, key) && Newest(s, c);
    if Newest(s, conn) {
      assert Apply(s, Close(conn)).devices[key].status != s.devices[key].status;
    } else {
      assert s.tokens[conn].version < s.tokens[c].version;
    }
  }

  /** Tokens never change, and a later open of the same device gets a larger one. */
  lemma {:induction false} LaterOpenIsLarger(start: Devices, events: seq<Event>, i: nat, c: nat)
    requires Run(start, events).Some? && i < |events| && events[i].Open?
    requires Run(start, events[..i]).Some?
    requires var s := Run(start, events[..i]).value;
             c in s.tokens && s.tokens[c].key == events[i].key
    ensures var t := Run(start, events).value;
            c in t.tokens && events[i].conn in t.tokens
            && t.tokens[c] == Run(start, events[..i]).value.tokens[c]
            && t.tokens[c].version < t.tokens[events[i].conn].version
    decreases |events|
  {
    var earlier := events[..|events| - 1];
    assert earlier[..i] == events[..i];
    if i == |earlier| {
      EveryRunKeepsInv(start, earlier, events[i].key);
      OpenKeepsInv(start, Run(start, earlier).value, events[i].conn, events[i].key);
      assert c in Opens(Run(start, earlier).value.tokens, events[i].key);
    } else {
      LaterOpenIsLarger(start, earlier, i, c);
    }
  }
}

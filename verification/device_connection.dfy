/** The connection of a device: `ConnectServeWS` in api/http/device.go. */
module DeviceConnection {
  import opened Bytes
  import opened DeviceStatus

  datatype Kind = SpawnShell | StopShell | OtherShell | NotShell

  datatype Message = Malformed | Message(sessionID: string, kind: Kind)

  datatype End = Closed | Undecodable | MissingSessionID | NotPublished

  /** The last message of the session among `ms` spawned a shell. */
  predicate Spawned(ms: seq<Message>, sessionID: string) {
    ms != [] &&
    var m := ms[|ms| - 1];
    if m.Message? && m.sessionID == sessionID then m.kind == SpawnShell else Spawned(ms[..|ms| - 1], sessionID)
  }

  /** That is, one of its messages did, and no later one is of this session. */
  lemma {:induction false} SpawnedExactly(ms: seq<Message>, sessionID: string)
    ensures Spawned(ms, sessionID) <==>
            exists i | 0 <= i < |ms| ::
              && ms[i] == Message(sessionID, SpawnShell)
              && forall j | i < j < |ms| :: ms[j] == Malformed || ms[j].sessionID != sessionID
    decreases |ms|
  {
    if ms != [] {
      var init, m := ms[..|ms| - 1], ms[|ms| - 1];
      SpawnedExactly(init, sessionID);
      assert forall k | 0 <= k < |init| :: init[k] == ms[k];
    }
  }

  lemma {:induction false} SpawnedSnoc(ms: seq<Message>, m: Message, sessionID: string)
    requires m.Message?
    ensures Spawned(ms + [m], sessionID) <==>
            if m.sessionID == sessionID then m.kind.SpawnShell? else Spawned(ms, sessionID)
  {
    assert (ms + [m])[..|ms|] == ms;
  }

  /** `sessMap` marks exactly the sessions whose last message spawned a shell. */
  ghost predicate Marks(sessMap: map<string, bool>, ms: seq<Message>) {
    forall sessionID :: sessionID in sessMap && sessMap[sessionID] <==> Spawned(ms, sessionID)
  }

  /** A message the connection goes on after: well formed, and with a session if it is a shell message. */
  predicate Accepted(m: Message) {
    m.Message? && (m.sessionID != "" || m.kind == NotShell)
  }

  /** The connection ended so at message `n`. */
  predicate EndsAt(messages: seq<Message>, publishable: nat, end: End, n: nat) {
    && n <= |messages| && n <= publishable
    && (forall i | 0 <= i < n :: Accepted(messages[i]))
    && (end == End.Closed <==> n == |messages|)
    && (end == Undecodable <==> n < |messages| && messages[n] == Malformed)
    && (end == MissingSessionID <==>
          n < |messages| && messages[n].Message? && messages[n].sessionID == "" && messages[n].kind != NotShell)
    && (end == NotPublished <==> n < |messages| && Accepted(messages[n]) && n == publishable)
  }

  /** That fixes the end and the number of messages published: the first message that is not accepted ends
      the connection, unless the one that cannot be published does. */
  lemma {:induction false} EndIsFixed(messages: seq<Message>, publishable: nat, end: End, n: nat)
    requires EndsAt(messages, publishable, end, n)
    ensures forall e: End, k: nat | EndsAt(messages, publishable, e, k) :: e == end && k == n
  {
    forall e: End, k: nat | EndsAt(messages, publishable, e, k)
      ensures e == end && k == n
    {
      assert n <= k;
      assert k <= n;
    }
  }

  lemma {:induction false} NoNamelessShell(ms: seq<Message>)
    requires forall i | 0 <= i < |ms| :: Accepted(ms[i])
    ensures !Spawned(ms, "")
    decreases |ms|
  {
    if ms != [] {
      NoNamelessShell(ms[..|ms| - 1]);
    }
  }

  /** The loop over the messages, of which at most `publishable` can be published. `sessMap` says for each
      session whether it has a remote terminal; `handled` counts the messages published and `noted` those
      that had an effect on the map. */
  method HandleMessages(messages: seq<Message>, publishable: nat)
    returns (end: End, handled: nat, noted: nat, sessMap: map<string, bool>)
    ensures EndsAt(messages, publishable, end, handled)
    ensures noted == if end == MissingSessionID || end == NotPublished then handled + 1 else handled
    ensures forall sessionID | sessionID != "" ::
              sessionID in sessMap && sessMap[sessionID] <==> Spawned(messages[..noted], sessionID)
    ensures "" in sessMap ==> !sessMap[""]
  {
    sessMap, handled, noted, end := map[], 0, 0, End.Closed;
    while handled < |messages|
      invariant noted == handled <= |messages| && handled <= publishable && end.Closed?
      invariant forall i | 0 <= i < handled :: Accepted(messages[i])
      invariant Marks(sessMap, messages[..handled])
      decreases |messages| - handled
    {
      var m := messages[handled];
      if m.Malformed? {
        NoNamelessShell(messages[..handled]);
        end := Undecodable;
        return;
      }
      assert messages[..handled + 1] == messages[..handled] + [m];
      forall sessionID
        ensures Spawned(messages[..handled + 1], sessionID) <==>
                if m.sessionID == sessionID then m.kind.SpawnShell? else Spawned(messages[..handled], sessionID)
      {
        SpawnedSnoc(messages[..handled], m, sessionID);
      }
      noted := noted + 1;
      sessMap := sessMap[m.sessionID := false];
      if !m.kind.NotShell? {
        if m.sessionID == "" {
          end := MissingSessionID;
          return;
        } else if m.kind.SpawnShell? {
          sessMap := sessMap[m.sessionID := true];
        } else if m.kind.StopShell? {
          sessMap := sessMap - {m.sessionID};
        }
      }
      assert Accepted(messages[handled]);
      if handled == publishable {
        NoNamelessShell(messages[..handled + 1]);
        end := NotPublished;
        return;
      }
      handled := handled + 1;
    }
    NoNamelessShell(messages[..handled]);
  }

  /** Marks the device connected, handles and publishes its messages, and, when the connection ends,
      tells the users of its remote terminals and marks it disconnected with the version it was given.
      Every message resets the entry of its session, so the sessions told are exactly those whose last
      message was the spawning of their shell. */
  method ConnectServeWS(store: DeviceStore, tenantID: string, deviceID: string, messages: seq<Message>,
                        publishable: nat)
    returns (end: End, published: seq<Message>, noted: nat, told: set<string>)
    modifies store
    ensures EndsAt(messages, publishable, end, |published|) && published == messages[..|published|]
    ensures noted == if end == MissingSessionID || end == NotPublished then |published| + 1 else |published|
    ensures forall sessionID | sessionID != "" ::
              sessionID in told <==> Spawned(messages[..noted], sessionID)
    ensures "" !in told
    ensures var key := Key(tenantID, deviceID);
            var version := VersionOf(old(store.devices), key) + 1;
            && store.devices == DeviceStatus.Closed(Opened(old(store.devices), key), key, version)
            && key in store.devices && store.devices[key] == Device(Disconnected, Some(version))
  {
    OpenThenClose(store.devices, Key(tenantID, deviceID));
    var version := store.SetDeviceConnected(tenantID, deviceID);
    var handled, sessMap;
    end, handled, noted, sessMap := HandleMessages(messages, publishable);
    published := messages[..handled];
    told := set sessionID | sessionID in sessMap && sessMap[sessionID];
    store.SetDeviceDisconnected(tenantID, deviceID, version);
  }
}

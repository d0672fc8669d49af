/** The server's value manager: an index of names over servers, and the input servers. */
module ValueManager {
  import opened AnyValues
  import opened Naming
  import opened Codecs
  import opened ValueSets
  import opened UpdateQueue
  import opened InputRequests

  /** The servers' sets of names are pairwise disjoint, their union is the index, and each
      name is mapped to the server that has it. Servers do not share queues. */
  ghost predicate Partition(index: map<string, EPICSServer>, servers: seq<EPICSServer>) {
    && (forall name :: name in index ==> index[name] in servers && name in NameSet(index[name].initial))
    && (forall s, name :: s in servers && name in NameSet(s.initial) ==> name in index && index[name] == s)
    && (forall s :: s in servers ==> DistinctNames(s.initial))
    && (forall i, j :: 0 <= i < j < |servers| ==>
          servers[i] != servers[j] && servers[i].updateQueue != servers[j].updateQueue)
  }

  ghost predicate Handled(index: map<string, InputRequestServer>, inputServers: seq<InputRequestServer>) {
    && (forall name :: name in index ==> index[name] in inputServers)
    && (forall i, j :: 0 <= i < j < |inputServers| ==> inputServers[i] != inputServers[j])
  }

  lemma PartitionGrows(index: map<string, EPICSServer>, servers: seq<EPICSServer>, server: EPICSServer)
    requires Partition(index, servers)
    requires Acceptable(server.initial, index.Keys)
    requires forall s :: s in servers ==> s != server && s.updateQueue != server.updateQueue
    ensures Partition(index + (map name | name in NameSet(server.initial) :: server), servers + [server])
  {
    var all := servers + [server];
    assert forall s :: s in all <==> s in servers || s == server;
    forall i, j | 0 <= i < j < |all|
      ensures all[i] != all[j] && all[i].updateQueue != all[j].updateQueue
    {
      assert all[i] == servers[i] && servers[i] in servers;
      assert j < |servers| ==> all[j] == servers[j];
    }
  }

  class EPICSAnyValueManager {
    var nameServerMap: map<string, EPICSServer>
    var servers: seq<EPICSServer>
    var nameInputServerMap: map<string, InputRequestServer>
    var inputServers: seq<InputRequestServer>

    ghost predicate Valid()
      reads this
    {
      Partition(nameServerMap, servers) && Handled(nameInputServerMap, inputServers)
    }

    constructor ()
      ensures Valid() && nameServerMap == map[] && nameInputServerMap == map[]
    {
      nameServerMap, servers, nameInputServerMap, inputServers := map[], [], map[], [];
    }

    /** Compares the number of different names with the number of pairs and then looks up
        name by name. */
    method ValidateNameValueSet(values: NameAnyValueSet) returns (ok: bool)
      ensures ok <==> Acceptable(values, nameServerMap.Keys)
    {
      var names := GetNames(values);
      NameCount(values);
      if |names| != |values| {
        return false;
      }
      var left := names;
      while left != {}
        invariant left <= names && (names - left) !! nameServerMap.Keys
      {
        var name :| name in left;
        if name in nameServerMap {
          return false;
        }
        left := left - {name};
      }
      assert names - left == names;
      ok := true;
    }

    /** All or nothing: either the set clashes with itself or with what is there, and nothing
        changes, or one new server is added that owns exactly the names of the set. */
    method AddAnyValues(values: NameAnyValueSet) returns (ok: bool)
      requires Valid()
      modifies this`nameServerMap, this`servers
      ensures Valid()
      ensures ok <==> Acceptable(values, old(nameServerMap).Keys)
      ensures nameServerMap.Keys == old(nameServerMap).Keys + if ok then NameSet(values) else {}
      ensures !ok ==> nameServerMap == old(nameServerMap) && servers == old(servers)
      ensures ok ==>
                && |servers| == |old(servers)| + 1
                && servers[..|old(servers)|] == old(servers)
                && var s := servers[|old(servers)|];
                   && fresh(s) && fresh(s.updateQueue) && s.updateQueue.valueUpdates == [] && s.initial == values
                   && nameServerMap == old(nameServerMap) + (map name | name in NameSet(values) :: s)
    {
      ok := ValidateNameValueSet(values);
      if !ok {
        return;
      }
      var names := GetNames(values);
      var server := new EPICSServer(values);
      PartitionGrows(nameServerMap, servers, server);
      MapNames(names, server);
      servers := servers + [server];
    }

    method MapNames(names: set<string>, server: EPICSServer)
      modifies this`nameServerMap
      ensures nameServerMap == old(nameServerMap) + (map name | name in names :: server)
    {
      var left := names;
      while left != {}
        invariant left <= names
        invariant nameServerMap == old(nameServerMap) + (map name | name in names - left :: server)
      {
        var name :| name in left;
        nameServerMap := nameServerMap[name := server];
        left := left - {name};
      }
      assert names - left == names;
    }

    /** The first critical section of AddInputHandler: a new handler is there at once. */
    method RegisterHandler(inputServerName: string) returns (isNew: bool)
      requires Valid()
      modifies this`nameInputServerMap, this`inputServers
      ensures Valid()
      ensures isNew <==> inputServerName !in old(nameInputServerMap)
      ensures nameInputServerMap.Keys == old(nameInputServerMap).Keys + {inputServerName}
      ensures forall name :: name in old(nameInputServerMap) ==>
                nameInputServerMap[name] == old(nameInputServerMap)[name]
      ensures !isNew ==> nameInputServerMap == old(nameInputServerMap)
    {
      if inputServerName in nameInputServerMap {
        return false;
      }
      var inputServer := new InputRequestServer();
      nameInputServerMap := nameInputServerMap[inputServerName := inputServer];
      inputServers := inputServers + [inputServer];
      isNew := true;
    }

    /** The second critical section: its result depends on what the index is by then. */
    method RegisterChannel(inputServerName: string) returns (ok: bool)
      requires Valid()
      modifies this`nameServerMap, this`servers
      ensures Valid()
      ensures ok <==> GetInputRequestPVName(inputServerName) !in old(nameServerMap)
      ensures nameServerMap.Keys ==
              old(nameServerMap).Keys + if ok then {GetInputRequestPVName(inputServerName)} else {}
      ensures forall name :: name in old(nameServerMap) ==> nameServerMap[name] == old(nameServerMap)[name]
      ensures ok ==> nameServerMap[GetInputRequestPVName(inputServerName)].initial ==
                       [(GetInputRequestPVName(inputServerName), INPUT_REQUEST_ANYVALUE)]
    {
      var requestName := GetInputRequestPVName(inputServerName);
      var values := [(requestName, INPUT_REQUEST_ANYVALUE)];
      assert values[0].0 == requestName;
      assert NameSet(values) == {requestName};
      ok := AddAnyValues(values);
    }

    /** Contrary to the interface's note, a failure may leave the new handler behind: without
        anything in between it does so exactly when the handler was new and the name of its
        request channel was taken. */
    method AddInputHandler(inputServerName: string) returns (ok: bool)
      requires Valid()
      modifies this
      ensures Valid()
      ensures ok <==> inputServerName !in old(nameInputServerMap)
                      && GetInputRequestPVName(inputServerName) !in old(nameServerMap)
      ensures nameServerMap.Keys ==
              old(nameServerMap).Keys + if ok then {GetInputRequestPVName(inputServerName)} else {}
      ensures forall name :: name in old(nameServerMap) ==> nameServerMap[name] == old(nameServerMap)[name]
      ensures ok ==> nameServerMap[GetInputRequestPVName(inputServerName)].initial ==
                       [(GetInputRequestPVName(inputServerName), INPUT_REQUEST_ANYVALUE)]
      ensures nameInputServerMap.Keys == old(nameInputServerMap).Keys + {inputServerName}
      ensures forall name :: name in old(nameInputServerMap) ==>
                nameInputServerMap[name] == old(nameInputServerMap)[name]
      ensures !ok ==> (nameInputServerMap == old(nameInputServerMap) <==> inputServerName in old(nameInputServerMap))
    {
      var isNew := RegisterHandler(inputServerName);
      if !isNew {
        return false;
      }
      ok := RegisterChannel(inputServerName);
    }

    /** AddInputHandler with another thread's registration between its critical sections, when
        the mutex is free. The call succeeds if and only if the handler is new and the channel's
        name is taken neither before nor in between; it leaves the new handler behind whenever
        it fails at the channel, even if the name was free when the call began. */
    method AddInputHandlerInterleaved(inputServerName: string, between: NameAnyValueSet)
      returns (added: bool, ok: bool)
      requires Valid()
      modifies this
      ensures Valid()
      ensures added <==> Acceptable(between, old(nameServerMap).Keys)
      ensures ok <==> inputServerName !in old(nameInputServerMap)
                      && GetInputRequestPVName(inputServerName) !in old(nameServerMap)
                      && !(added && GetInputRequestPVName(inputServerName) in NameSet(between))
      ensures nameInputServerMap.Keys == old(nameInputServerMap).Keys + {inputServerName}
      ensures nameServerMap.Keys ==
              old(nameServerMap).Keys + (if added then NameSet(between) else {})
              + (if ok then {GetInputRequestPVName(inputServerName)} else {})
    {
      var isNew := RegisterHandler(inputServerName);
      added := AddAnyValues(between);
      if !isNew {
        return added, false;
      }
      ok := RegisterChannel(inputServerName);
    }

    method FindServer(name: string) returns (server: Option<EPICSServer>)
      ensures server == if name in nameServerMap then Some(nameServerMap[name]) else None
    {
      server := if name in nameServerMap then Some(nameServerMap[name]) else None;
    }

    /** The update goes to the queue of the one server that has the name, and to no other. */
    method UpdateAnyValue(name: string, value: AnyValue) returns (ok: bool)
      requires Valid()
      modifies set s | s in servers :: s.updateQueue
      ensures Valid()
      ensures ok <==> name in nameServerMap
      ensures forall s :: s in servers ==>
                s.updateQueue.valueUpdates == old(s.updateQueue.valueUpdates) +
                  if name in NameSet(s.initial) then [Update(name, Base64(value))] else []
    {
      var server := FindServer(name);
      if server == None {
        return false;
      }
      server.value.UpdateAnyValue(name, value);
      ok := true;
    }

    method FindInputServer(name: string) returns (server: Option<InputRequestServer>)
      ensures server == if name in nameInputServerMap then Some(nameInputServerMap[name]) else None
    {
      server := if name in nameInputServerMap then Some(nameInputServerMap[name]) else None;
    }

    /** The first half of GetUserInput, up to its wait: the request is set up in the monitor
        before it is published on the request channel, and nowhere else. Without a handler
        or a channel nothing happens and the invalid reply is due. */
    method StartUserInput(inputServerName: string, id: uint64, request: UserInputRequest) returns (started: bool)
      requires Valid()
      modifies set s | s in nameInputServerMap.Values
      modifies set s | s in servers :: s.updateQueue
      ensures Valid()
      ensures started <==>
                inputServerName in nameInputServerMap && GetInputRequestPVName(inputServerName) in nameServerMap
      ensures forall name :: name in nameInputServerMap ==>
                nameInputServerMap[name].State() ==
                  if started && nameInputServerMap[name] == nameInputServerMap[inputServerName] then Initialised(id)
                  else old(nameInputServerMap[name].State())
      ensures forall s :: s in servers ==>
                s.updateQueue.valueUpdates == old(s.updateQueue.valueUpdates) +
                  if started && GetInputRequestPVName(inputServerName) in NameSet(s.initial)
                  then [Update(GetInputRequestPVName(inputServerName), Base64(EncodeInputRequest(id, request)))] else []
    {
      var requestName := GetInputRequestPVName(inputServerName);
      var inputServer := FindInputServer(inputServerName);
      var channelServer := FindServer(requestName);
      if inputServer == None || channelServer == None {
        return false;
      }
      assert nameInputServerMap[inputServerName] in nameInputServerMap.Values;
      inputServer.value.InitNewRequest(id);
      channelServer.value.UpdateAnyValue(requestName, EncodeInputRequest(id, request));
      started := true;
    }

    /** The second half, from a wake-up in the wait on: either the caller goes back to sleep
        and nothing changes, or the idle value is published and the outcome returned. */
    method FinishUserInput(inputServerName: string, id: uint64) returns (done: bool, reply: UserInputReply)
      requires Valid()
      requires inputServerName in nameInputServerMap && GetInputRequestPVName(inputServerName) in nameServerMap
      modifies set s | s in servers :: s.updateQueue
      ensures Valid()
      ensures var current := nameInputServerMap[inputServerName].State();
              && (done <==> id == 0 || Ready(current, id))
              && reply == if done && Outcome(current, id).Some? then Outcome(current, id).value else INVALID_REPLY
      ensures forall s :: s in servers ==>
                s.updateQueue.valueUpdates == old(s.updateQueue.valueUpdates) +
                  if done && GetInputRequestPVName(inputServerName) in NameSet(s.initial)
                  then [Update(GetInputRequestPVName(inputServerName), Base64(INPUT_REQUEST_ANYVALUE))] else []
    {
      var retrieved;
      done, retrieved, reply := nameInputServerMap[inputServerName].TryWaitForReply(id);
      if done {
        nameServerMap[GetInputRequestPVName(inputServerName)].UpdateAnyValue(
          GetInputRequestPVName(inputServerName), INPUT_REQUEST_ANYVALUE);
      }
    }

    /** Interrupting an unknown input server does nothing; otherwise only its monitor changes. */
    method Interrupt(inputServerName: string, id: uint64)
      modifies set s | s in nameInputServerMap.Values
      ensures inputServerName in nameInputServerMap ==>
                var s := nameInputServerMap[inputServerName];
                s.State() == Interrupted(old(s.State()), id)
      ensures forall s | s in nameInputServerMap.Values ::
                inputServerName !in nameInputServerMap || s != nameInputServerMap[inputServerName] ==>
                s.State() == old(s.State())
    {
      var server := FindInputServer(inputServerName);
      if server.Some? {
        assert nameInputServerMap[inputServerName] in nameInputServerMap.Values;
        var matched := server.value.Interrupt(id);
      }
    }
  }

  /** An input handler whose request channel is already a value: the call fails, and the
      handler is there all the same. */
  method TakenChannelKeepsHandler(inputServerName: string, value: AnyValue)
    returns (ok: bool, values: set<string>, handlers: set<string>)
    ensures !ok
    ensures values == {GetInputRequestPVName(inputServerName)} && handlers == {inputServerName}
  {
    var manager := new EPICSAnyValueManager();
    var taken := [(GetInputRequestPVName(inputServerName), value)];
    assert taken[0].0 == GetInputRequestPVName(inputServerName);
    var added := manager.AddAnyValues(taken);
    assert NameSet(taken) == {GetInputRequestPVName(inputServerName)};
    ok := manager.AddInputHandler(inputServerName);
    values, handlers := manager.nameServerMap.Keys, manager.nameInputServerMap.Keys;
  }
}

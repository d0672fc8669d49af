/** The value manager as a concurrent machine: a growing index of names over a growing
    number of servers, each of them an UpdateMachine. Callers look a server up in one
    critical section and push to its queue in later ones. Seen from outside all of it is a
    single map from names to values. */
module PublishMachine {
  import opened AnyValues
  import opened ValueSets
  import opened UpdateQueue
  import U = UpdateMachine

  /** Who calls: calls with the same caller come one after the other. */
  type Thread = U.Thread

  /** A call that has found the server with this number. UpdateAnyValue pushes one value to
      it; GetUserInput keeps it and pushes a request and later the idle value. */
  datatype Found =
    | ForUpdate(server: nat, name: string, value: AnyValue)
    | ForInput(server: nat, name: string)

  datatype Manager = Manager(
    index: map<string, nat>, servers: seq<U.Server>, calls: map<Thread, Found>, closing: bool)

  datatype Step =
    | AddAnyValues(t: Thread, values: NameAnyValueSet, ok: bool)
    | FindServer(t: Thread, name: string, value: AnyValue, found: bool)
    | FindChannel(t: Thread, name: string, found: bool)
    | PushUpdate(t: Thread, name: string, value: AnyValue)
    | Release(t: Thread)                  // GetUserInput is done with its channel
    | Close                               // the destructor begins
    | CloseServer(t: Thread, server: nat) // and destroys one server
    | Within(server: nat, step: U.Step)   // a notification or a worker's own step

  const NEW_MANAGER := Manager(map[], [], map[], false)

  predicate Idle(m: Manager) {
    m.calls == map[] && forall k :: 0 <= k < |m.servers| ==> m.servers[k].owing == {}
  }

  predicate Busy(m: Manager, t: Thread) {
    t in m.calls || exists k :: 0 <= k < |m.servers| && t in m.servers[k].owing
  }

  /** Return values are part of the labels. No call may be under way when the manager is
      destroyed, and none is made afterwards. */
  predicate Enabled(m: Manager, a: Step) {
    match a
    case AddAnyValues(t, values, ok) => !m.closing && !Busy(m, t) && ok == Acceptable(values, m.index.Keys)
    case FindServer(t, name, _, found) => !m.closing && !Busy(m, t) && found == (name in m.index)
    case FindChannel(t, name, found) => !m.closing && !Busy(m, t) && found == (name in m.index)
    case PushUpdate(t, name, value) =>
      && t in m.calls && m.calls[t].name == name && (m.calls[t].ForUpdate? ==> m.calls[t].value == value)
      && m.calls[t].server < |m.servers|
      && U.Enabled(m.servers[m.calls[t].server], U.Push(t, name, Base64(value)))
    case Release(t) => t in m.calls && m.calls[t].ForInput?
    case Close => !m.closing && Idle(m)
    case CloseServer(t, k) =>
      m.closing && k < |m.servers| && U.Accepting(m.servers[k]) && U.Enabled(m.servers[k], U.PushExit(t))
    case Within(k, step) => k < |m.servers| && !step.Push? && !step.PushExit? && U.Enabled(m.servers[k], step)
  }

  function At(m: Manager, k: nat, step: U.Step): Manager
    requires k < |m.servers| && U.Enabled(m.servers[k], step)
  {
    m.(servers := m.servers[k := U.Do(m.servers[k], step)])
  }

  function Do(m: Manager, a: Step): Manager
    requires Enabled(m, a)
  {
    match a
    case AddAnyValues(_, values, ok) =>
      if !ok then m
      else m.(index := m.index + (map name | name in NameSet(values) :: |m.servers|),
              servers := m.servers + [U.NewServer(InitialStore(values))])
    case FindServer(t, name, value, found) =>
      if !found then m else m.(calls := m.calls[t := ForUpdate(m.index[name], name, value)])
    case FindChannel(t, name, found) =>
      if !found then m else m.(calls := m.calls[t := ForInput(m.index[name], name)])
    case PushUpdate(t, name, value) =>
      At(m, m.calls[t].server, U.Push(t, name, Base64(value)))
        .(calls := if m.calls[t].ForUpdate? then m.calls - {t} else m.calls)
    case Release(t) => m.(calls := m.calls - {t})
    case Close => m.(closing := true)
    case CloseServer(t, k) => At(m, k, U.PushExit(t))
    case Within(k, step) => At(m, k, step)
  }

  function Exec(steps: seq<Step>): Option<Manager> {
    if steps == [] then Some(NEW_MANAGER)
    else
      match Exec(steps[..|steps| - 1])
      case None => None
      case Some(m) => if Enabled(m, steps[|steps| - 1]) then Some(Do(m, steps[|steps| - 1])) else None
  }

  // ---- The specification: one map ----

  function SpecStep(spec: map<string, AnyValue>, a: Step): map<string, AnyValue> {
    match a
    case AddAnyValues(_, values, ok) => if ok then spec + AsMap(values) else spec
    case PushUpdate(_, name, value) => spec[name := value]
    case _ => spec
  }

  /** The map after a sequence of steps. Registrations and pushes change it; lookups,
      notifications and everything the workers do leave it alone. */
  function Spec(steps: seq<Step>): map<string, AnyValue> {
    if steps == [] then map[] else SpecStep(Spec(steps[..|steps| - 1]), steps[|steps| - 1])
  }

  // ---- Invariants ----

  /** Stores, one per server, represent the map: each name is in exactly the store that the
      index gives for it, with the value that the map has for it. */
  predicate Represents(index: map<string, nat>, views: seq<Store>, spec: map<string, AnyValue>) {
    && spec.Keys == index.Keys
    && (forall name :: name in index ==>
          && index[name] < |views| && name in views[index[name]]
          && views[index[name]][name] == Base64(spec[name]))
    && (forall k, name :: 0 <= k < |views| && name in views[k] ==> name in index && index[name] == k)
  }

  function Views(servers: seq<U.Server>): (views: seq<Store>)
    ensures |views| == |servers|
    ensures forall k :: 0 <= k < |servers| ==> views[k] == U.View(servers[k])
  {
    seq(|servers|, k requires 0 <= k < |servers| => U.View(servers[k]))
  }

  predicate ServerInv(s: U.Server, closing: bool) {
    && U.Inv(s)
    && U.View(s).Keys == s.initial.Keys
    && (!closing ==> U.Accepting(s))
  }

  predicate ServersInv(m: Manager) {
    forall k :: 0 <= k < |m.servers| ==> ServerInv(m.servers[k], m.closing)
  }

  predicate CallsInv(m: Manager) {
    && (forall t :: t in m.calls ==> m.calls[t].name in m.index && m.calls[t].server == m.index[m.calls[t].name])
    && (m.closing ==> m.calls == map[])
  }

  predicate Inv(m: Manager, spec: map<string, AnyValue>) {
    Represents(m.index, Views(m.servers), spec) && ServersInv(m) && CallsInv(m)
  }

  lemma PushRepresents(
    index: map<string, nat>, views: seq<Store>, spec: map<string, AnyValue>, name: string, value: AnyValue)
    requires Represents(index, views, spec) && name in index
    ensures var k := index[name];
            Represents(index, views[k := views[k][name := Base64(value)]], spec[name := value])
  {
  }

  lemma AddRepresents(
    index: map<string, nat>, views: seq<Store>, spec: map<string, AnyValue>,
    newIndex: map<string, nat>, store: Store, added: map<string, AnyValue>)
    requires Represents(index, views, spec) && added.Keys !! index.Keys
    requires newIndex.Keys == store.Keys == added.Keys
    requires forall name :: name in added ==> newIndex[name] == |views| && store[name] == Base64(added[name])
    ensures Represents(index + newIndex, views + [store], spec + added)
  {
    forall name {
      AddedAt(index, views, spec, newIndex, store, added, name);
    }
  }

  lemma AddedAt(
    index: map<string, nat>, views: seq<Store>, spec: map<string, AnyValue>,
    newIndex: map<string, nat>, store: Store, added: map<string, AnyValue>, name: string)
    requires Represents(index, views, spec) && added.Keys !! index.Keys
    requires newIndex.Keys == store.Keys == added.Keys
    requires name in added ==> newIndex[name] == |views| && store[name] == Base64(added[name])
    ensures var index', views', spec' := index + newIndex, views + [store], spec + added;
            && (name in spec' <==> name in index')
            && (name in index' ==>
                  && index'[name] < |views'| && name in views'[index'[name]]
                  && views'[index'[name]][name] == Base64(spec'[name]))
            && (forall k :: 0 <= k < |views'| && name in views'[k] ==> name in index' && index'[name] == k)
  {
    var views' := views + [store];
    assert forall k :: 0 <= k < |views| ==> views'[k] == views[k];
    assert views'[|views|] == store;
  }

  lemma ServerStep(s: U.Server, a: U.Step, closing: bool)
    requires ServerInv(s, closing) && U.Enabled(s, a)
    requires a.Push? ==> !closing && a.name in s.initial
    requires a.PushExit? ==> closing
    ensures ServerInv(U.Do(s, a), closing)
    ensures U.View(U.Do(s, a)) == if a.Push? then U.View(s)[a.name := a.value] else U.View(s)
  {
    U.StepKeepsInv(s, a);
    U.StepView(s, a);
    InitialKept(s, a);
    assert a.Push? ==> U.View(s)[a.name := a.value].Keys == U.View(s).Keys;
  }

  lemma InitialKept(s: U.Server, a: U.Step)
    requires U.Enabled(s, a)
    ensures U.Do(s, a).initial == s.initial
  {
  }

  lemma AtViews(m: Manager, k: nat, a: U.Step)
    requires ServersInv(m) && k < |m.servers| && U.Enabled(m.servers[k], a)
    requires a.Push? ==> !m.closing && a.name in Views(m.servers)[k]
    requires a.PushExit? ==> m.closing
    ensures ServersInv(At(m, k, a))
    ensures var views := Views(m.servers);
            Views(At(m, k, a).servers) == if a.Push? then views[k := views[k][a.name := a.value]] else views
  {
    var s := m.servers[k];
    assert ServerInv(s, m.closing);
    ServerStep(s, a, m.closing);
  }

  lemma PushKeeps(m: Manager, spec: map<string, AnyValue>, t: Thread, name: string, value: AnyValue)
    requires Inv(m, spec) && Enabled(m, PushUpdate(t, name, value))
    ensures Inv(Do(m, PushUpdate(t, name, value)), spec[name := value])
  {
    AtViews(m, m.index[name], U.Push(t, name, Base64(value)));
    PushRepresents(m.index, Views(m.servers), spec, name, value);
  }

  lemma AddedServersInv(m: Manager, t: Thread, values: NameAnyValueSet)
    requires ServersInv(m) && Enabled(m, AddAnyValues(t, values, true))
    ensures ServersInv(Do(m, AddAnyValues(t, values, true)))
  {
    var r := Do(m, AddAnyValues(t, values, true));
    assert ServerInv(U.NewServer(InitialStore(values)), false);
    forall k | 0 <= k < |r.servers|
      ensures ServerInv(r.servers[k], false)
    {
      assert k < |m.servers| ==> r.servers[k] == m.servers[k] && ServerInv(m.servers[k], false);
    }
  }

  lemma AddKeeps(m: Manager, spec: map<string, AnyValue>, t: Thread, values: NameAnyValueSet)
    requires Inv(m, spec) && Enabled(m, AddAnyValues(t, values, true))
    ensures Inv(Do(m, AddAnyValues(t, values, true)), spec + AsMap(values))
  {
    var r := Do(m, AddAnyValues(t, values, true));
    var s := U.NewServer(InitialStore(values));
    AddedServersInv(m, t, values);
    assert Views(r.servers) == Views(m.servers) + [InitialStore(values)];
    var newIndex := map name | name in NameSet(values) :: |m.servers|;
    AddRepresents(m.index, Views(m.servers), spec, newIndex, InitialStore(values), AsMap(values));
  }

  lemma CloseKeeps(m: Manager, spec: map<string, AnyValue>)
    requires Inv(m, spec) && Enabled(m, Close)
    ensures Inv(Do(m, Close), spec)
  {
    forall k | 0 <= k < |m.servers|
      ensures ServerInv(m.servers[k], true)
    {
      assert ServerInv(m.servers[k], false);
    }
  }

  /** Steps that only begin or end a call. */
  function CallsAfter(m: Manager, a: Step): map<Thread, Found>
    requires Enabled(m, a) && (a.FindServer? || a.FindChannel? || a.Release?)
  {
    Do(m, a).calls
  }

  lemma CallsInvKept(m: Manager, a: Step)
    requires CallsInv(m) && Enabled(m, a) && (a.FindServer? || a.FindChannel? || a.Release?)
    ensures Do(m, a) == m.(calls := CallsAfter(m, a)) && CallsInv(Do(m, a))
  {
  }

  lemma SameServers(m: Manager, spec: map<string, AnyValue>, calls: map<Thread, Found>)
    requires Inv(m, spec) && CallsInv(m.(calls := calls))
    ensures Inv(m.(calls := calls), spec)
  {
    assert ServersInv(m.(calls := calls));
  }

  lemma CallKeeps(m: Manager, spec: map<string, AnyValue>, a: Step)
    requires Inv(m, spec) && Enabled(m, a) && (a.FindServer? || a.FindChannel? || a.Release?)
    ensures Inv(Do(m, a), spec)
  {
    CallsInvKept(m, a);
    SameServers(m, spec, CallsAfter(m, a));
  }

  lemma AtKeeps(m: Manager, spec: map<string, AnyValue>, k: nat, step: U.Step)
    requires Inv(m, spec) && k < |m.servers| && U.Enabled(m.servers[k], step) && !step.Push?
    requires step.PushExit? ==> m.closing
    ensures Inv(At(m, k, step), spec)
  {
    AtViews(m, k, step);
  }

  lemma StepRefines(m: Manager, a: Step, spec: map<string, AnyValue>)
    requires Inv(m, spec) && Enabled(m, a)
    ensures Inv(Do(m, a), SpecStep(spec, a))
  {
    match a
    case AddAnyValues(t, values, ok) => if ok { AddKeeps(m, spec, t, values); }
    case FindServer(_, _, _, _) => CallKeeps(m, spec, a);
    case FindChannel(_, _, _) => CallKeeps(m, spec, a);
    case Release(_) => CallKeeps(m, spec, a);
    case PushUpdate(t, name, value) => PushKeeps(m, spec, t, name, value);
    case Close => CloseKeeps(m, spec);
    case CloseServer(t, k) => AtKeeps(m, spec, k, U.PushExit(t));
    case Within(k, step) => AtKeeps(m, spec, k, step);
  }

  /** In every interleaving, folding the batch in progress and then the pending queue over
      what the owning server serves gives the value that the one map has for the name; the
      servers partition the registered names. */
  lemma {:induction false} Refinement(steps: seq<Step>)
    requires Exec(steps).Some?
    ensures Inv(Exec(steps).value, Spec(steps))
  {
    if steps == [] {
      assert Represents(map[], Views([]), map[]);
    } else {
      Refinement(steps[..|steps| - 1]);
      StepRefines(Exec(steps[..|steps| - 1]).value, steps[|steps| - 1], Spec(steps[..|steps| - 1]));
    }
  }

  // ---- What clients can see ----

  /** The registered names are exactly those of the one map. Each of them is served by one
      server only, and once that server has caught up or exited it serves exactly the last
      update of the name, or the value it was registered with if there was none. */
  lemma DrainedServesLatest(steps: seq<Step>, name: string)
    requires Exec(steps).Some?
    ensures var m := Exec(steps).value;
            && (name in Spec(steps) <==> name in m.index)
            && (name in m.index ==> m.index[name] < |m.servers|)
    ensures var m := Exec(steps).value;
            forall k :: 0 <= k < |m.servers| ==>
              (name in m.servers[k].initial <==> name in m.index && m.index[name] == k)
    ensures var m := Exec(steps).value;
            name in m.index && U.Drained(m.servers[m.index[name]]) ==>
              var served := m.servers[m.index[name]].published;
              name in served && served[name] == Base64(Spec(steps)[name])
  {
    Refinement(steps);
    var m := Exec(steps).value;
    forall k | 0 <= k < |m.servers|
      ensures name in m.servers[k].initial <==> name in m.index && m.index[name] == k
    {
      assert ServerInv(m.servers[k], m.closing);
      assert name in Views(m.servers)[k] <==> name in m.servers[k].initial;
    }
    if name in m.index && U.Drained(m.servers[m.index[name]]) {
      var s := m.servers[m.index[name]];
      assert U.View(s) == s.published;
    }
  }

  // ---- Nobody is stuck ----

  /** As long as the manager is open any caller that is not busy can register any set, update
      any name with any value and look any channel up. */
  lemma CallsArePossible(steps: seq<Step>, t: Thread, values: NameAnyValueSet, name: string, value: AnyValue)
    requires Exec(steps).Some? && !Exec(steps).value.closing && !Busy(Exec(steps).value, t)
    ensures var m := Exec(steps).value;
            && (exists ok :: Enabled(m, AddAnyValues(t, values, ok)))
            && (exists found :: Enabled(m, FindServer(t, name, value, found)))
            && (exists found :: Enabled(m, FindChannel(t, name, found)))
  {
    var m := Exec(steps).value;
    assert Enabled(m, AddAnyValues(t, values, Acceptable(values, m.index.Keys)));
    assert Enabled(m, FindServer(t, name, value, name in m.index));
    assert Enabled(m, FindChannel(t, name, name in m.index));
  }

  /** A caller that has found its server can always go on: it gives the notification that it
      owes there, if it owes one, and otherwise pushes; the one value it came with if it is
      an update, any value if it holds a channel. */
  lemma CallAdvances(steps: seq<Step>, t: Thread, value: AnyValue)
    requires Exec(steps).Some? && t in Exec(steps).value.calls
    ensures var m := Exec(steps).value;
            var call := m.calls[t];
            && call.server < |m.servers|
            && if t in m.servers[call.server].owing then Enabled(m, Within(call.server, U.NotifyOne(t)))
               else Enabled(m, PushUpdate(t, call.name, if call.ForUpdate? then call.value else value))
  {
    Refinement(steps);
    var m := Exec(steps).value;
    assert m.calls[t].name in m.index;
  }

  /** The manager can be closed whenever no call is under way, and then each of its servers can
      be told to exit, whatever it still has to publish. */
  lemma ClosingAdvances(steps: seq<Step>, t: Thread, k: nat)
    requires Exec(steps).Some? && k < |Exec(steps).value.servers|
    ensures var m := Exec(steps).value;
            && (!m.closing && Idle(m) ==> Enabled(m, Close))
            && (m.closing && U.Accepting(m.servers[k]) && t !in m.servers[k].owing ==>
                  && Enabled(m, CloseServer(t, k))
                  && !U.Accepting(Do(m, CloseServer(t, k)).servers[k]))
  {
    var m := Exec(steps).value;
    if m.closing && U.Accepting(m.servers[k]) && t !in m.servers[k].owing {
      Refinement(steps);
      assert ServerInv(m.servers[k], m.closing);
      U.StepView(m.servers[k], U.PushExit(t));
    }
  }
}

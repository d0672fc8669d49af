/** Several callers on one manager. As long as each keeps to names of its own, it finds in
    the manager what it would find if it were alone there. */
module Callers {
  import opened AnyValues
  import opened ValueSets
  import opened ClientManager
  import P = PublishMachine

  type Thread = P.Thread

  // ---- What requests do to a manager ----

  /** The values that each registered name has been given, first of all the one it was
      registered with. */
  type Histories = map<string, seq<AnyValue>>

  function Firsts(values: NameAnyValueSet): (h: Histories)
    ensures h.Keys == NameSet(values)
  {
    map name | name in NameSet(values) :: [AsMap(values)[name]]
  }

  function After(h: Histories, r: Request): Histories {
    match r
    case Register(values) => if Acceptable(values, h.Keys) then h + Firsts(values) else h
    case Publish(name, value) => if name in h then h[name := h[name] + [value]] else h
    case InterruptInput(_, _) => h
  }

  function Fold(requests: seq<Request>): Histories {
    if requests == [] then map[]
    else After(Fold(requests[..|requests| - 1]), requests[|requests| - 1])
  }

  lemma FoldSnoc(requests: seq<Request>, r: Request)
    ensures Fold(requests + [r]) == After(Fold(requests), r)
  {
    assert (requests + [r])[..|requests|] == requests;
  }

  /** The requests that look at the index of names; an interrupt does not. */
  function IndexRequests(requests: seq<Request>): seq<Request> {
    if requests == [] then []
    else
      var front, r := IndexRequests(requests[..|requests| - 1]), requests[|requests| - 1];
      if r.InterruptInput? then front else front + [r]
  }

  lemma {:induction false} FoldOfIndexRequests(requests: seq<Request>)
    ensures Fold(IndexRequests(requests)) == Fold(requests)
  {
    if requests != [] {
      var front, r := requests[..|requests| - 1], requests[|requests| - 1];
      FoldOfIndexRequests(front);
      FoldSnoc(IndexRequests(front), r);
    }
  }

  // ---- The requests of a run ----

  datatype Made = Made(t: Thread, request: Request)

  /** The requests made in a run with their callers, in the order in which they look at the
      index. */
  function AllMade(steps: seq<P.Step>): seq<Made> {
    if steps == [] then []
    else
      var front, a := AllMade(steps[..|steps| - 1]), steps[|steps| - 1];
      match a
      case AddAnyValues(t, values, _) => front + [Made(t, Register(values))]
      case FindServer(t, name, value, _) => front + [Made(t, Publish(name, value))]
      case _ => front
  }

  function Requests(made: seq<Made>): seq<Request> {
    seq(|made|, k requires 0 <= k < |made| => made[k].request)
  }

  function RequestsOf(made: seq<Made>, t: Thread): seq<Request> {
    if made == [] then []
    else
      var front, last := RequestsOf(made[..|made| - 1], t), made[|made| - 1];
      if last.t == t then front + [last.request] else front
  }

  lemma RequestsSnoc(front: seq<Made>, last: Made)
    ensures Fold(Requests(front + [last])) == After(Fold(Requests(front)), last.request)
    ensures forall t :: RequestsOf(front + [last], t) ==
                        RequestsOf(front, t) + if last.t == t then [last.request] else []
  {
    assert (front + [last])[..|front|] == front;
    assert Requests(front + [last]) == Requests(front) + [last.request];
    FoldSnoc(Requests(front), last.request);
  }

  /** Lookups and registrations of the concurrent manager see the names that the requests so
      far have registered. */
  lemma {:induction false} IndexIsFold(steps: seq<P.Step>)
    requires P.Exec(steps).Some?
    ensures Fold(Requests(AllMade(steps))).Keys == P.Exec(steps).value.index.Keys
  {
    if steps != [] {
      var front, a := steps[..|steps| - 1], steps[|steps| - 1];
      IndexIsFold(front);
      IndexStep(P.Exec(front).value, a, Fold(Requests(AllMade(front))));
      if a.AddAnyValues? {
        RequestsSnoc(AllMade(front), Made(a.t, Register(a.values)));
      } else if a.FindServer? {
        RequestsSnoc(AllMade(front), Made(a.t, Publish(a.name, a.value)));
      }
    }
  }

  lemma IndexStep(m: P.Manager, a: P.Step, h: Histories)
    requires P.Enabled(m, a) && h.Keys == m.index.Keys
    ensures P.Do(m, a).index.Keys ==
            if a.AddAnyValues? then After(h, Register(a.values)).Keys
            else if a.FindServer? then After(h, Publish(a.name, a.value)).Keys
            else h.Keys
  {
  }

  // ---- Separation ----

  /** Which caller a name belongs to. */
  type Owner = string -> Option<Thread>

  predicate KeepsTo(own: Owner, made: Made) {
    match made.request
    case Register(values) => forall k :: 0 <= k < |values| ==> own(values[k].0) == Some(made.t)
    case Publish(name, _) => own(name) == Some(made.t)
    case InterruptInput(name, _) => own(name) == Some(made.t)
  }

  predicate Separate(own: Owner, made: seq<Made>) {
    forall k :: 0 <= k < |made| ==> KeepsTo(own, made[k])
  }

  /** Two histories agree on the names of a caller. */
  ghost predicate AgreeFor(own: Owner, t: Thread, h: Histories, h': Histories) {
    forall name :: own(name) == Some(t) ==> (name in h <==> name in h') && (name in h ==> h[name] == h'[name])
  }

  lemma OwnRequest(own: Owner, made: Made, h: Histories, h': Histories)
    requires KeepsTo(own, made) && AgreeFor(own, made.t, h, h')
    ensures AgreeFor(own, made.t, After(h, made.request), After(h', made.request))
  {
    if made.request.Register? {
      forall name | name in NameSet(made.request.values)
        ensures own(name) == Some(made.t)
      {
      }
    }
  }

  lemma ForeignRequest(own: Owner, made: Made, t: Thread, h: Histories, h': Histories)
    requires KeepsTo(own, made) && AgreeFor(own, t, h, h') && made.t != t
    ensures AgreeFor(own, t, After(h, made.request), h')
  {
    if made.request.Register? {
      forall name | name in NameSet(made.request.values)
        ensures own(name) == Some(made.t)
      {
      }
    }
  }

  /** However the requests of the callers are interleaved, what has become of a caller's names
      is what its own requests alone would have led to. */
  lemma {:induction false} Separation(own: Owner, made: seq<Made>, t: Thread)
    requires Separate(own, made)
    ensures AgreeFor(own, t, Fold(Requests(made)), Fold(RequestsOf(made, t)))
  {
    if made != [] {
      var front, last := made[..|made| - 1], made[|made| - 1];
      assert made == front + [last];
      Separation(own, front, t);
      RequestsSnoc(front, last);
      var h, h' := Fold(Requests(front)), Fold(RequestsOf(front, t));
      if last.t == t {
        OwnRequest(own, last, h, h');
        FoldSnoc(RequestsOf(front, t), last.request);
      } else {
        ForeignRequest(own, last, t, h, h');
      }
    }
  }

  /** Every registration and every lookup in a run has the result that it would have if its
      caller were alone on the manager. */
  lemma {:induction false} AsIfAlone(own: Owner, steps: seq<P.Step>, k: nat)
    requires P.Exec(steps).Some? && Separate(own, AllMade(steps)) && k < |steps|
    ensures var a, made := steps[k], AllMade(steps[..k]);
            && (a.AddAnyValues? ==> a.ok == Acceptable(a.values, Fold(RequestsOf(made, a.t)).Keys))
            && (a.FindServer? ==> a.found == (a.name in Fold(RequestsOf(made, a.t))))
    decreases |steps|
  {
    var front, a := steps[..|steps| - 1], steps[|steps| - 1];
    assert AllMade(front) <= AllMade(steps);
    if k < |front| {
      assert front[..k] == steps[..k];
      assert forall j :: 0 <= j < |AllMade(front)| ==> AllMade(front)[j] == AllMade(steps)[j];
      AsIfAlone(own, front, k);
    } else if a.AddAnyValues? || a.FindServer? {
      var made := AllMade(front);
      assert forall j :: 0 <= j < |made| ==> made[j] == AllMade(steps)[j];
      assert KeepsTo(own, AllMade(steps)[|made|]);
      IndexIsFold(front);
      Separation(own, made, a.t);
      ResultAlone(own, P.Exec(front).value, a, Fold(Requests(made)), Fold(RequestsOf(made, a.t)));
    }
  }

  lemma ResultAlone(own: Owner, m: P.Manager, a: P.Step, h: Histories, h': Histories)
    requires P.Enabled(m, a) && h.Keys == m.index.Keys && (a.AddAnyValues? || a.FindServer?)
    requires AgreeFor(own, a.t, h, h')
    requires KeepsTo(own, Made(a.t, if a.AddAnyValues? then Register(a.values) else Publish(a.name, a.value)))
    ensures a.AddAnyValues? ==> a.ok == Acceptable(a.values, h'.Keys)
    ensures a.FindServer? ==> a.found == (a.name in h')
  {
    if a.AddAnyValues? {
      forall name | name in NameSet(a.values)
        ensures own(name) == Some(a.t)
      {
      }
    }
  }

  // ---- The one map in terms of requests ----

  /** Only this caller looks the name up, and not in order to hold on to its server. */
  predicate OnlyCaller(steps: seq<P.Step>, name: string, t: Thread) {
    forall k :: 0 <= k < |steps| ==>
      && (steps[k].FindServer? && steps[k].name == name ==> steps[k].t == t)
      && (steps[k].FindChannel? ==> steps[k].name != name)
  }

  /** The caller has looked the name up and not pushed the value yet. */
  predicate InFlight(m: P.Manager, name: string, t: Thread) {
    t in m.calls && m.calls[t].name == name
  }

  predicate UpToDate(m: P.Manager, spec: map<string, AnyValue>, history: seq<AnyValue>, name: string, t: Thread) {
    && name in spec
    && history != []
    && if !InFlight(m, name, t) then spec[name] == history[|history| - 1]
       else && |history| > 1 && spec[name] == history[|history| - 2]
            && m.calls[t].ForUpdate? && m.calls[t].value == history[|history| - 1]
  }

  predicate NameInv(m: P.Manager, spec: map<string, AnyValue>, h: Histories, name: string, t: Thread) {
    && (forall u :: u in m.calls && m.calls[u].name == name ==> u == t && m.calls[u].ForUpdate?)
    && (name in h <==> name in m.index)
    && (name in h ==> UpToDate(m, spec, h[name], name, t))
  }

  lemma NameStep(m: P.Manager, spec: map<string, AnyValue>, h: Histories, name: string, t: Thread, a: P.Step)
    requires P.CallsInv(m) && P.Enabled(m, a) && OnlyCaller([a], name, t)
    requires NameInv(m, spec, h, name, t) && spec.Keys == h.Keys == m.index.Keys
    ensures var h' := if a.AddAnyValues? then After(h, Register(a.values))
                      else if a.FindServer? then After(h, Publish(a.name, a.value))
                      else h;
            NameInv(P.Do(m, a), P.SpecStep(spec, a), h', name, t)
  {
    assert [a][0] == a;
  }

  /** The one map holds the last value in the history of a name, or the one before it while
      the caller is between its lookup and its push. */
  lemma {:induction false} SpecIsFold(steps: seq<P.Step>, name: string, t: Thread)
    requires P.Exec(steps).Some? && OnlyCaller(steps, name, t)
    ensures NameInv(P.Exec(steps).value, P.Spec(steps), Fold(Requests(AllMade(steps))), name, t)
  {
    if steps != [] {
      var front, a := steps[..|steps| - 1], steps[|steps| - 1];
      SpecIsFold(front, name, t);
      IndexIsFold(front);
      P.Refinement(front);
      assert OnlyCaller([a], name, t);
      NameStep(P.Exec(front).value, P.Spec(front), Fold(Requests(AllMade(front))), name, t, a);
      if a.AddAnyValues? {
        RequestsSnoc(AllMade(front), Made(a.t, Register(a.values)));
      } else if a.FindServer? {
        RequestsSnoc(AllMade(front), Made(a.t, Publish(a.name, a.value)));
      }
    }
  }
}

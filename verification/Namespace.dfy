/** The names of a whole server: jobs are added, announce their instructions and share the
    value managers of a registry. The results of all registrations are thrown away; here is
    why that is all right, and exactly when. */
module Namespace {
  import opened AnyValues
  import opened Naming
  import opened ValueSets

  const INDEX_RANGE: int := 0x1_0000_0000

  /** What has been registered under one job index, and with which manager. */
  datatype Registration = Registration(manager: nat, nVars: uint32, nInstr: uint32)

  predicate Registers(job: Registration, what: JobName): (r: bool)
    ensures r ==> WellFormedName(what)
  {
    what.JobValue? ==> Published(what.info, job.nVars, job.nInstr)
  }

  /** The names that the m-th manager should know when these jobs are registered. */
  ghost predicate Taken(
    serverPrefix: string, registered: map<uint32, Registration>, m: nat, handlers: bool, name: string)
  {
    exists idx: uint32, what: JobName ::
      && idx in registered && registered[idx].manager == m
      && (what == InputServer <==> handlers)
      && Registers(registered[idx], what)
      && name == ComposedName(serverPrefix, idx, what)
  }

  /** A name is taken only by the job, the kind and the index it was made from. */
  lemma TakenOnlyByOwner(
    serverPrefix: string, registered: map<uint32, Registration>, m: nat, idx: uint32, what: JobName)
    requires WellFormedName(what)
    ensures Taken(serverPrefix, registered, m, what == InputServer, ComposedName(serverPrefix, idx, what))
            <==> idx in registered && registered[idx].manager == m && Registers(registered[idx], what)
  {
    var name := ComposedName(serverPrefix, idx, what);
    forall idx': uint32, what': JobName |
      idx' in registered && Registers(registered[idx'], what') && name == ComposedName(serverPrefix, idx', what')
      ensures idx' == idx && what' == what
    {
      ComposedNamesInjective(serverPrefix, idx, what, serverPrefix, idx', what');
    }
  }

  // ---- The names that one registration adds ----

  /** The names of values that a job adds at its construction. */
  function JobNames(prefix: string, nVars: uint32): set<string> {
    NameSet(InitialValueSet(prefix, nVars)) + {GetInputRequestPVName(GetInputServerName(prefix))}
  }

  lemma JobNamesExact(serverPrefix: string, idx: uint32, job: Registration, name: string)
    requires job.nInstr == 0
    ensures name in JobNames(CreateJobPrefix(serverPrefix, idx), job.nVars)
            <==> exists what: JobName :: what != InputServer && Registers(job, what)
                                          && name == ComposedName(serverPrefix, idx, what)
  {
    var prefix := CreateJobPrefix(serverPrefix, idx);
    InitialNames(prefix, job.nVars);
    if name in NameSet(InitialValueSet(prefix, job.nVars)) {
      var info :| Published(info, job.nVars, 0) && name == PVName(prefix, info);
      assert name == ComposedName(serverPrefix, idx, JobValue(info));
      assert Registers(job, JobValue(info));
    }
    if name == ComposedName(serverPrefix, idx, InputRequest) {
      assert Registers(job, InputRequest);
    }
  }

  // ---- How the taken names grow ----

  /** An index that was registered before keeps its names and adds none. */
  function AfterJob(registered: map<uint32, Registration>, idx: uint32, m: nat, nVars: uint32)
    : map<uint32, Registration>
  {
    if idx in registered then registered else registered[idx := Registration(m, nVars, 0)]
  }

  function AfterInstructions(registered: map<uint32, Registration>, idx: uint32, nInstr: uint32)
    : map<uint32, Registration>
    requires idx in registered
  {
    if registered[idx].nInstr > 0 then registered else registered[idx := registered[idx].(nInstr := nInstr)]
  }

  /** A new job adds exactly its names, and none of them was taken before. */
  lemma JobTakes(
    serverPrefix: string, registered: map<uint32, Registration>, idx: uint32, given: nat, nVars: uint32,
    m: nat, name: string)
    requires idx !in registered
    ensures Taken(serverPrefix, AfterJob(registered, idx, given, nVars), m, false, name) <==>
              || Taken(serverPrefix, registered, m, false, name)
              || (m == given && name in JobNames(CreateJobPrefix(serverPrefix, idx), nVars))
    ensures Taken(serverPrefix, AfterJob(registered, idx, given, nVars), m, true, name) <==>
              || Taken(serverPrefix, registered, m, true, name)
              || (m == given && name == ComposedName(serverPrefix, idx, InputServer))
    ensures name in JobNames(CreateJobPrefix(serverPrefix, idx), nVars) ==>
              !Taken(serverPrefix, registered, m, false, name)
  {
    var after := AfterJob(registered, idx, given, nVars);
    assert after[idx] == Registration(given, nVars, 0);
    JobNamesExact(serverPrefix, idx, after[idx], name);
    assert Registers(after[idx], InputServer);
    forall what: JobName | what != InputServer && Registers(after[idx], what)
                           && name == ComposedName(serverPrefix, idx, what)
      ensures !Taken(serverPrefix, registered, m, false, name)
    {
      TakenOnlyByOwner(serverPrefix, registered, m, idx, what);
    }
  }

  /** A job that is there blocks the names of another one with the same index. */
  lemma JobClashes(serverPrefix: string, registered: map<uint32, Registration>, idx: uint32, nVars: uint32)
    requires idx in registered
    ensures var prefix, m := CreateJobPrefix(serverPrefix, idx), registered[idx].manager;
            && Taken(serverPrefix, registered, m, true, GetInputServerName(prefix))
            && Taken(serverPrefix, registered, m, false, GetInputRequestPVName(GetInputServerName(prefix)))
            && exists name ::
                 name in NameSet(InitialValueSet(prefix, nVars)) && Taken(serverPrefix, registered, m, false, name)
  {
    var prefix, m := CreateJobPrefix(serverPrefix, idx), registered[idx].manager;
    TakenOnlyByOwner(serverPrefix, registered, m, idx, InputServer);
    TakenOnlyByOwner(serverPrefix, registered, m, idx, InputRequest);
    TakenOnlyByOwner(serverPrefix, registered, m, idx, JobValue(ValueNameInfo(JobStatusName, 0)));
    var values := InitialValueSet(prefix, nVars);
    assert values[0].0 == GetJobStatePVName(prefix);
    assert GetJobStatePVName(prefix) in NameSet(values);
  }

  lemma InstructionsTake(
    serverPrefix: string, registered: map<uint32, Registration>, idx: uint32, nInstr: uint32, m: nat, name: string)
    requires idx in registered && registered[idx].nInstr == 0
    ensures Taken(serverPrefix, AfterInstructions(registered, idx, nInstr), m, false, name) <==>
              || Taken(serverPrefix, registered, m, false, name)
              || (m == registered[idx].manager
                  && name in NameSet(InstructionValueSet(CreateJobPrefix(serverPrefix, idx), nInstr)))
    ensures Taken(serverPrefix, AfterInstructions(registered, idx, nInstr), m, true, name) <==>
              Taken(serverPrefix, registered, m, true, name)
  {
    InstructionNames(CreateJobPrefix(serverPrefix, idx), nInstr);
    assert forall i: uint32 ::
      GetInstructionPVName(CreateJobPrefix(serverPrefix, idx), i) ==
      ComposedName(serverPrefix, idx, JobValue(ValueNameInfo(InstructionName, i)));
  }

  lemma InstructionTaken(serverPrefix: string, registered: map<uint32, Registration>, idx: uint32, i: uint32)
    requires idx in registered
    ensures Taken(serverPrefix, registered, registered[idx].manager, false,
                  GetInstructionPVName(CreateJobPrefix(serverPrefix, idx), i))
            <==> i < registered[idx].nInstr
  {
    TakenOnlyByOwner(serverPrefix, registered, registered[idx].manager, idx,
                     JobValue(ValueNameInfo(InstructionName, i)));
  }

  // ---- What the managers know ----

  /** The names of values and of input handlers that a manager knows. */
  datatype Names = Names(values: set<string>, handlers: set<string>)

  /** The names a manager knows are exactly those taken with it. */
  ghost predicate Knows(known: Names, serverPrefix: string, registered: map<uint32, Registration>, m: nat) {
    && (forall name :: name in known.values <==> Taken(serverPrefix, registered, m, false, name))
    && (forall name :: name in known.handlers <==> Taken(serverPrefix, registered, m, true, name))
  }

  ghost predicate AllKnow(known: seq<Names>, serverPrefix: string, registered: map<uint32, Registration>) {
    && (forall m :: 0 <= m < |known| ==> Knows(known[m], serverPrefix, registered, m))
    && (forall idx: uint32 :: idx in registered ==> registered[idx].manager < |known|)
  }

  function WithJob(known: Names, prefix: string, nVars: uint32): Names {
    Names(known.values + JobNames(prefix, nVars), known.handlers + {GetInputServerName(prefix)})
  }

  /** What the two registrations of a job return: the one of its values and the one of its
      input handler, which brings the request channel with it. */
  function JobResults(known: Names, prefix: string, nVars: uint32): (bool, bool) {
    (NameSet(InitialValueSet(prefix, nVars)) !! known.values,
     GetInputServerName(prefix) !in known.handlers
     && GetInputRequestPVName(GetInputServerName(prefix)) !in known.values)
  }

  /** What a manager knows after them. */
  function Initialized(known: Names, prefix: string, nVars: uint32): Names {
    var (valuesOk, inputOk) := JobResults(known, prefix, nVars);
    Names(known.values
          + (if valuesOk then NameSet(InitialValueSet(prefix, nVars)) else {})
          + (if inputOk then {GetInputRequestPVName(GetInputServerName(prefix))} else {}),
          known.handlers + {GetInputServerName(prefix)})
  }

  /** What a manager knows after instructions were registered with it. */
  function Instructed(known: Names, prefix: string, nInstr: uint32): Names {
    var names := NameSet(InstructionValueSet(prefix, nInstr));
    if names !! known.values then known.(values := known.values + names) else known
  }

  lemma KnowsWithJob(
    known: Names, serverPrefix: string, registered: map<uint32, Registration>, idx: uint32, given: nat, nVars: uint32,
    m: nat)
    requires Knows(known, serverPrefix, registered, m) && idx !in registered
    ensures Knows(if m == given then WithJob(known, CreateJobPrefix(serverPrefix, idx), nVars) else known,
                  serverPrefix, AfterJob(registered, idx, given, nVars), m)
    ensures JobNames(CreateJobPrefix(serverPrefix, idx), nVars) !! known.values
  {
    forall name {
      JobTakes(serverPrefix, registered, idx, given, nVars, m, name);
    }
  }

  lemma KnowsWithInstructions(
    known: Names, serverPrefix: string, registered: map<uint32, Registration>, idx: uint32, nInstr: uint32, m: nat)
    requires Knows(known, serverPrefix, registered, m) && idx in registered && registered[idx].nInstr == 0
    ensures var names := NameSet(InstructionValueSet(CreateJobPrefix(serverPrefix, idx), nInstr));
            Knows(if m == registered[idx].manager then known.(values := known.values + names) else known,
                  serverPrefix, AfterInstructions(registered, idx, nInstr), m)
  {
    forall name {
      InstructionsTake(serverPrefix, registered, idx, nInstr, m, name);
    }
  }

  /** The names of a job are free if and only if its index is not registered yet. */
  lemma JobIsFree(
    known: seq<Names>, serverPrefix: string, registered: map<uint32, Registration>,
    idx: uint32, given: nat, nVars: uint32)
    requires AllKnow(known, serverPrefix, registered) && given < |known|
    requires idx in registered ==> registered[idx].manager == given
    ensures var prefix, free := CreateJobPrefix(serverPrefix, idx), idx !in registered;
            && JobResults(known[given], prefix, nVars) == (free, free)
            && Initialized(known[given], prefix, nVars) ==
                 if free then WithJob(known[given], prefix, nVars) else known[given]
  {
    assert Knows(known[given], serverPrefix, registered, given);
    if idx in registered {
      JobClashes(serverPrefix, registered, idx, nVars);
    } else {
      KnowsWithJob(known[given], serverPrefix, registered, idx, given, nVars, given);
      TakenOnlyByOwner(serverPrefix, registered, given, idx, InputServer);
    }
  }

  lemma AllKnowJob(
    known: seq<Names>, serverPrefix: string, registered: map<uint32, Registration>,
    idx: uint32, given: nat, nVars: uint32)
    requires AllKnow(known, serverPrefix, registered) && given < |known|
    requires idx in registered ==> registered[idx].manager == given
    ensures AllKnow(known[given := Initialized(known[given], CreateJobPrefix(serverPrefix, idx), nVars)],
                    serverPrefix, AfterJob(registered, idx, given, nVars))
  {
    JobIsFree(known, serverPrefix, registered, idx, given, nVars);
    var after := known[given := Initialized(known[given], CreateJobPrefix(serverPrefix, idx), nVars)];
    if idx in registered {
      assert after == known;
    } else {
      forall m | 0 <= m < |known|
        ensures Knows(after[m], serverPrefix, AfterJob(registered, idx, given, nVars), m)
      {
        KnowsWithJob(known[m], serverPrefix, registered, idx, given, nVars, m);
      }
    }
  }

  /** The names of a job's instructions are free if and only if there are none or the job
      has none yet. */
  lemma InstructionsAreFree(
    known: seq<Names>, serverPrefix: string, registered: map<uint32, Registration>, idx: uint32, nInstr: uint32)
    requires AllKnow(known, serverPrefix, registered) && idx in registered
    ensures NameSet(InstructionValueSet(CreateJobPrefix(serverPrefix, idx), nInstr))
              !! known[registered[idx].manager].values
            <==> nInstr == 0 || registered[idx].nInstr == 0
  {
    var m := registered[idx].manager;
    assert Knows(known[m], serverPrefix, registered, m);
    InstructionNames(CreateJobPrefix(serverPrefix, idx), nInstr);
    forall i: uint32
      ensures GetInstructionPVName(CreateJobPrefix(serverPrefix, idx), i) in known[m].values
              <==> i < registered[idx].nInstr
    {
      InstructionTaken(serverPrefix, registered, idx, i);
    }
    if nInstr > 0 {
      assert GetInstructionPVName(CreateJobPrefix(serverPrefix, idx), 0) in
             NameSet(InstructionValueSet(CreateJobPrefix(serverPrefix, idx), nInstr));
    }
  }

  lemma AllKnowInstructions(
    known: seq<Names>, serverPrefix: string, registered: map<uint32, Registration>, idx: uint32, nInstr: uint32)
    requires AllKnow(known, serverPrefix, registered) && idx in registered
    ensures var m := registered[idx].manager;
            AllKnow(known[m := Instructed(known[m], CreateJobPrefix(serverPrefix, idx), nInstr)],
                    serverPrefix, AfterInstructions(registered, idx, nInstr))
  {
    var given := registered[idx].manager;
    InstructionsAreFree(known, serverPrefix, registered, idx, nInstr);
    var after := known[given := Instructed(known[given], CreateJobPrefix(serverPrefix, idx), nInstr)];
    if registered[idx].nInstr > 0 {
      if nInstr == 0 {
        assert known[given].values + NameSet(InstructionValueSet(CreateJobPrefix(serverPrefix, idx), 0)) ==
               known[given].values;
      }
      assert after == known;
    } else {
      forall m | 0 <= m < |known|
        ensures Knows(after[m], serverPrefix, AfterInstructions(registered, idx, nInstr), m)
      {
        KnowsWithInstructions(known[m], serverPrefix, registered, idx, nInstr, m);
      }
    }
  }
}

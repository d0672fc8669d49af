/** The server's list of jobs and their registrations with the managers of a registry. */
module Automation {
  import opened AnyValues
  import opened Naming
  import opened ValueSets
  import opened ValueManager
  import opened Namespace

  lemma RequestNameIsExtra(prefix: string, nVars: uint32)
    ensures GetInputRequestPVName(GetInputServerName(prefix)) !in NameSet(InitialValueSet(prefix, nVars))
  {
    var request := GetInputRequestPVName(GetInputServerName(prefix));
    InitialNames(prefix, nVars);
    if request in NameSet(InitialValueSet(prefix, nVars)) {
      var info :| Published(info, nVars, 0) && request == PVName(prefix, info);
      NameInInjective(prefix, InputRequest, JobValue(info));
    }
  }

  function NamesOf(avManager: EPICSAnyValueManager): Names
    reads avManager
  {
    Names(avManager.nameServerMap.Keys, avManager.nameInputServerMap.Keys)
  }

  /** Registers the values of a new job and its input handler. The results are for the
      reader; the server's code drops them. */
  method InitializeJobAndVariables(avManager: EPICSAnyValueManager, jobPrefix: string, nVars: uint32)
    returns (valuesOk: bool, inputOk: bool)
    requires avManager.Valid()
    modifies avManager
    ensures avManager.Valid()
    ensures (valuesOk, inputOk) == JobResults(old(NamesOf(avManager)), jobPrefix, nVars)
    ensures NamesOf(avManager) == Initialized(old(NamesOf(avManager)), jobPrefix, nVars)
  {
    InitialNames(jobPrefix, nVars);
    RequestNameIsExtra(jobPrefix, nVars);
    ghost var before := avManager.nameServerMap.Keys;
    var values := GetInitialValueSet(jobPrefix, nVars);
    valuesOk := avManager.AddAnyValues(values);
    assert avManager.nameServerMap.Keys == before + if valuesOk then NameSet(values) else {};
    inputOk := avManager.AddInputHandler(GetInputServerName(jobPrefix));
  }

  method InitializeInstructions(avManager: EPICSAnyValueManager, jobPrefix: string, nInstr: uint32)
    returns (ok: bool)
    requires avManager.Valid()
    modifies avManager
    ensures avManager.Valid()
    ensures ok == (NameSet(InstructionValueSet(jobPrefix, nInstr)) !! old(NamesOf(avManager)).values)
    ensures NamesOf(avManager) == Instructed(old(NamesOf(avManager)), jobPrefix, nInstr)
  {
    InstructionNames(jobPrefix, nInstr);
    var values := GetInstructionValueSet(jobPrefix, nInstr);
    ok := avManager.AddAnyValues(values);
  }

  ghost function KnownBy(registry: seq<EPICSAnyValueManager>): (known: seq<Names>)
    reads registry
    ensures |known| == |registry|
    ensures forall m :: 0 <= m < |known| ==> known[m] == NamesOf(registry[m])
  {
    seq(|registry|, m requires 0 <= m < |registry| reads registry => NamesOf(registry[m]))
  }

  ghost predicate Sound(registry: seq<EPICSAnyValueManager>)
    reads registry
  {
    && (forall i, j :: 0 <= i < j < |registry| ==> registry[i] != registry[j])
    && (forall m :: 0 <= m < |registry| ==> registry[m].Valid())
  }

  /** The job index is cut to 32 bits. */
  function IndexOf(job: nat): uint32 {
    job % INDEX_RANGE
  }

  /** What a job needs to register further values. */
  datatype JobInfoIO = JobInfoIO(jobPrefix: string, avManager: EPICSAnyValueManager)

  function InfoIO(
    serverPrefix: string, registry: seq<EPICSAnyValueManager>, registered: map<uint32, Registration>, idx: uint32)
    : Option<JobInfoIO>
  {
    if idx in registered && registered[idx].manager < |registry|
    then Some(JobInfoIO(CreateJobPrefix(serverPrefix, idx), registry[registered[idx].manager])) else None
  }

  /** Every index below the number of jobs is registered, and a job uses its index's prefix
      and manager. */
  predicate JobsKnown(
    serverPrefix: string, registry: seq<EPICSAnyValueManager>, jobs: seq<JobInfoIO>,
    registered: map<uint32, Registration>)
  {
    && (forall k :: 0 <= k < |jobs| ==> Some(jobs[k]) == InfoIO(serverPrefix, registry, registered, IndexOf(k)))
    && (forall idx: uint32 :: idx in registered <==> idx < |jobs|)
  }

  /** The manager for an index is found by division. */
  function ManagerOf(idx: uint32, nManagers: nat): (m: nat)
    requires nManagers > 0
    ensures m < nManagers
  {
    idx % nManagers
  }

  /** Before the number of jobs reaches 2^32 each has an index of its own. */
  lemma JobsGrow(
    serverPrefix: string, registry: seq<EPICSAnyValueManager>, jobs: seq<JobInfoIO>,
    registered: map<uint32, Registration>, given: nat, nVars: uint32)
    requires JobsKnown(serverPrefix, registry, jobs, registered) && given < |registry|
    requires var idx := IndexOf(|jobs|); idx in registered ==> registered[idx].manager == given
    ensures IndexOf(|jobs|) in registered <==> |jobs| >= INDEX_RANGE
    ensures var idx := IndexOf(|jobs|);
            JobsKnown(serverPrefix, registry, jobs + [JobInfoIO(CreateJobPrefix(serverPrefix, idx), registry[given])],
                      AfterJob(registered, idx, given, nVars))
  {
    var idx := IndexOf(|jobs|);
    var after := AfterJob(registered, idx, given, nVars);
    var info := JobInfoIO(CreateJobPrefix(serverPrefix, idx), registry[given]);
    if |jobs| >= INDEX_RANGE {
      assert after == registered;
    } else {
      assert idx == |jobs|;
    }
    assert InfoIO(serverPrefix, registry, after, idx) == Some(info);
    forall k | 0 <= k < |jobs|
      ensures Some(jobs[k]) == InfoIO(serverPrefix, registry, after, IndexOf(k))
    {
      assert Some(jobs[k]) == InfoIO(serverPrefix, registry, registered, IndexOf(k));
    }
  }

  /** Every manager knows exactly the names of the jobs that were given to it. */
  ghost predicate Consistent(
    known: seq<Names>, serverPrefix: string, registry: seq<EPICSAnyValueManager>, jobs: seq<JobInfoIO>,
    registered: map<uint32, Registration>)
    requires |registry| > 0
  {
    && AllKnow(known, serverPrefix, registered)
    && JobsKnown(serverPrefix, registry, jobs, registered)
    && (forall idx: uint32 :: idx in registered ==> registered[idx].manager == ManagerOf(idx, |registry|))
  }

  lemma JobAdded(
    known: seq<Names>, serverPrefix: string, registry: seq<EPICSAnyValueManager>, jobs: seq<JobInfoIO>,
    registered: map<uint32, Registration>, nVars: uint32)
    requires 0 < |registry| == |known| && Consistent(known, serverPrefix, registry, jobs, registered)
    ensures var idx := IndexOf(|jobs|);
            var given := ManagerOf(idx, |registry|);
            var prefix, ok := CreateJobPrefix(serverPrefix, idx), |jobs| < INDEX_RANGE;
            && JobResults(known[given], prefix, nVars) == (ok, ok)
            && Consistent(known[given := Initialized(known[given], prefix, nVars)], serverPrefix, registry,
                          jobs + [JobInfoIO(prefix, registry[given])], AfterJob(registered, idx, given, nVars))
  {
    var idx := IndexOf(|jobs|);
    var given := ManagerOf(idx, |registry|);
    JobsGrow(serverPrefix, registry, jobs, registered, given, nVars);
    JobIsFree(known, serverPrefix, registered, idx, given, nVars);
    AllKnowJob(known, serverPrefix, registered, idx, given, nVars);
  }

  lemma InstructionsAdded(
    known: seq<Names>, serverPrefix: string, registry: seq<EPICSAnyValueManager>, jobs: seq<JobInfoIO>,
    registered: map<uint32, Registration>, job: nat, nInstr: uint32)
    requires 0 < |registry| == |known| && Consistent(known, serverPrefix, registry, jobs, registered)
    requires job < |jobs|
    ensures var idx := IndexOf(job);
            && idx in registered && registered[idx].manager < |registry|
            && var m := registered[idx].manager;
               var prefix := CreateJobPrefix(serverPrefix, idx);
               && jobs[job] == JobInfoIO(prefix, registry[m])
               && (NameSet(InstructionValueSet(prefix, nInstr)) !! known[m].values
                   <==> nInstr == 0 || registered[idx].nInstr == 0)
               && Consistent(known[m := Instructed(known[m], prefix, nInstr)], serverPrefix, registry,
                             jobs, AfterInstructions(registered, idx, nInstr))
  {
    var idx := IndexOf(job);
    assert Some(jobs[job]) == InfoIO(serverPrefix, registry, registered, idx);
    InstructionsAreFree(known, serverPrefix, registered, idx, nInstr);
    AllKnowInstructions(known, serverPrefix, registered, idx, nInstr);
  }

  lemma OneChanged(before: seq<Names>, after: seq<Names>, given: nat)
    requires given < |before| == |after|
    requires forall m :: 0 <= m < |before| && m != given ==> after[m] == before[m]
    ensures after == before[given := after[given]]
  {
  }

  /** Makes a job's entry with the given manager of the registry; all others stay as they are. */
  method NewJobInfoIO(registry: seq<EPICSAnyValueManager>, given: nat, jobPrefix: string, nVars: uint32)
    returns (info: JobInfoIO, valuesOk: bool, inputOk: bool)
    requires Sound(registry) && given < |registry|
    modifies registry[given]
    ensures info == JobInfoIO(jobPrefix, registry[given])
    ensures (valuesOk, inputOk) == JobResults(old(KnownBy(registry))[given], jobPrefix, nVars)
    ensures Sound(registry)
    ensures KnownBy(registry) ==
            old(KnownBy(registry))[given := Initialized(old(KnownBy(registry))[given], jobPrefix, nVars)]
  {
    ghost var before := KnownBy(registry);
    var avManager := registry[given];
    valuesOk, inputOk := InitializeJobAndVariables(avManager, jobPrefix, nVars);
    OneChanged(before, KnownBy(registry), given);
    info := JobInfoIO(jobPrefix, avManager);
  }

  /** Registers instructions with the manager of a job; all others stay as they are. */
  method NewInstructions(registry: seq<EPICSAnyValueManager>, ghost given: nat, info: JobInfoIO, nInstr: uint32)
    returns (ok: bool)
    requires Sound(registry) && given < |registry| && info.avManager == registry[given]
    modifies registry[given]
    ensures ok == (NameSet(InstructionValueSet(info.jobPrefix, nInstr)) !! old(KnownBy(registry))[given].values)
    ensures Sound(registry)
    ensures KnownBy(registry) ==
            old(KnownBy(registry))[given := Instructed(old(KnownBy(registry))[given], info.jobPrefix, nInstr)]
  {
    ghost var before := KnownBy(registry);
    ok := InitializeInstructions(info.avManager, info.jobPrefix, nInstr);
    OneChanged(before, KnownBy(registry), given);
  }

  class AutomationServer {
    const serverPrefix: string
    const registry: seq<EPICSAnyValueManager>
    var jobs: seq<JobInfoIO>
    ghost var registered: map<uint32, Registration>

    /** Every manager knows exactly the names of the jobs that were given to it. */
    ghost predicate Valid()
      reads this, registry
    {
      && |registry| > 0 && Sound(registry)
      && Consistent(KnownBy(registry), serverPrefix, registry, jobs, registered)
    }

    constructor (serverPrefix: string, registry: seq<EPICSAnyValueManager>)
      requires |registry| > 0 && Sound(registry)
      requires forall m :: 0 <= m < |registry| ==> NamesOf(registry[m]) == Names({}, {})
      ensures Valid() && jobs == [] && registered == map[]
      ensures this.serverPrefix == serverPrefix && this.registry == registry
    {
      this.serverPrefix := serverPrefix;
      this.registry := registry;
      jobs := [];
      registered := map[];
    }

    /** Both registrations of a new job succeed if fewer than 2^32 jobs were added before it,
        and both fail otherwise. */
    method AddJob(nVars: uint32) returns (valuesOk: bool, inputOk: bool)
      requires Valid()
      modifies this, registry
      ensures Valid()
      ensures valuesOk == inputOk == (|old(jobs)| < 0x1_0000_0000)
      ensures |jobs| == |old(jobs)| + 1 && jobs[..|old(jobs)|] == old(jobs)
      ensures var idx := |old(jobs)| % 0x1_0000_0000;
              jobs[|old(jobs)|] == JobInfoIO(CreateJobPrefix(serverPrefix, idx), registry[idx % |registry|])
      ensures var idx := IndexOf(|old(jobs)|);
              registered == AfterJob(old(registered), idx, ManagerOf(idx, |registry|), nVars)
    {
      var idx := IndexOf(|jobs|);
      var jobPrefix := CreateJobPrefix(serverPrefix, idx);
      var given := ManagerOf(idx, |registry|);
      JobAdded(KnownBy(registry), serverPrefix, registry, jobs, registered, nVars);
      var info;
      info, valuesOk, inputOk := NewJobInfoIO(registry, given, jobPrefix, nVars);
      EmplaceBack(info, AfterJob(registered, idx, given, nVars));
    }

    method EmplaceBack(info: JobInfoIO, ghost after: map<uint32, Registration>)
      modifies this
      ensures jobs == old(jobs) + [info] && registered == after
      ensures Sound(registry) == old(Sound(registry)) && KnownBy(registry) == old(KnownBy(registry))
    {
      jobs := jobs + [info];
      registered := after;
    }

    /** Registering instructions succeeds if and only if there are none or the job had none. */
    method InitNumberOfInstructions(job: nat, nInstr: uint32) returns (ok: bool)
      requires Valid() && job < |jobs|
      modifies this`registered, registry
      ensures Valid()
      ensures ok <==> nInstr == 0 || old(registered)[IndexOf(job)].nInstr == 0
      ensures registered == AfterInstructions(old(registered), IndexOf(job), nInstr)
    {
      ghost var idx := IndexOf(job);
      InstructionsAdded(KnownBy(registry), serverPrefix, registry, jobs, registered, job, nInstr);
      ok := NewInstructions(registry, registered[idx].manager, jobs[job], nInstr);
      Register(AfterInstructions(registered, idx, nInstr));
    }

    /** The first k calls of a sequence are behind us. */
    ghost predicate Called(calls: seq<Call>, k: nat)
      requires k <= |calls| && |registry| > 0
      reads this
    {
      |jobs| == JobsAdded(calls[..k]) && registered == RegisteredBy(calls[..k], |registry|)
    }

    method CallNext(calls: seq<Call>, k: nat) returns (results: seq<bool>)
      requires Valid() && k < |calls| && Callable(calls) && Called(calls, k)
      modifies this, registry
      ensures Valid() && Called(calls, k + 1)
      ensures results == ResultsFor(calls[..k], calls[k], |registry|)
    {
      BySnoc(calls, k, |registry|);
      match calls[k]
      case AddJob(nVars) =>
        var valuesOk, inputOk := AddJob(nVars);
        results := [valuesOk, inputOk];
      case InitNumberOfInstructions(job, nInstr) =>
        var ok := InitNumberOfInstructions(job, nInstr);
        results := [ok];
    }

    /** The results of all registrations and what is registered in the end are determined by
        the calls. */
    method CallAll(calls: seq<Call>) returns (results: seq<bool>)
      requires Valid() && Callable(calls) && Called(calls, 0)
      modifies this, registry
      ensures Valid() && Called(calls, |calls|)
      ensures results == ResultsBy(calls, |registry|)
    {
      results := [];
      for k := 0 to |calls|
        invariant Valid() && Called(calls, k)
        invariant results == ResultsBy(calls[..k], |registry|)
      {
        BySnoc(calls, k, |registry|);
        var next := CallNext(calls, k);
        results := results + next;
      }
      assert calls[..|calls|] == calls;
    }

    ghost method Register(after: map<uint32, Registration>)
      modifies this`registered
      ensures registered == after
      ensures Sound(registry) == old(Sound(registry)) && KnownBy(registry) == old(KnownBy(registry))
    {
      registered := after;
    }
  }

  // ---- Whole runs ----

  datatype Call = AddJob(nVars: uint32) | InitNumberOfInstructions(job: nat, nInstr: uint32)

  function JobsAdded(calls: seq<Call>): nat {
    if calls == [] then 0
    else JobsAdded(calls[..|calls| - 1]) + if calls[|calls| - 1].AddJob? then 1 else 0
  }

  /** Instructions are announced on jobs that are there. */
  predicate Callable(calls: seq<Call>) {
    forall k :: 0 <= k < |calls| && calls[k].InitNumberOfInstructions? ==> calls[k].job < JobsAdded(calls[..k])
  }

  /** What a sequence of calls registers. */
  function RegisteredBy(calls: seq<Call>, nManagers: nat): map<uint32, Registration>
    requires nManagers > 0
  {
    if calls == [] then map[]
    else
      var front := calls[..|calls| - 1];
      var registered := RegisteredBy(front, nManagers);
      match calls[|calls| - 1]
      case AddJob(nVars) =>
        var idx := IndexOf(JobsAdded(front));
        AfterJob(registered, idx, ManagerOf(idx, nManagers), nVars)
      case InitNumberOfInstructions(job, nInstr) =>
        if IndexOf(job) in registered then AfterInstructions(registered, IndexOf(job), nInstr) else registered
  }

  /** The results of the registrations that one call makes after others. */
  function ResultsFor(before: seq<Call>, call: Call, nManagers: nat): seq<bool>
    requires nManagers > 0
  {
    match call
    case AddJob(_) => var ok := JobsAdded(before) < INDEX_RANGE; [ok, ok]
    case InitNumberOfInstructions(job, nInstr) =>
      var registered := RegisteredBy(before, nManagers);
      [nInstr == 0 || (IndexOf(job) in registered && registered[IndexOf(job)].nInstr == 0)]
  }

  function ResultsBy(calls: seq<Call>, nManagers: nat): seq<bool>
    requires nManagers > 0
  {
    if calls == [] then []
    else
      var front := calls[..|calls| - 1];
      ResultsBy(front, nManagers) + ResultsFor(front, calls[|calls| - 1], nManagers)
  }

  /** A job index is given to the manager at its remainder, and there are no other indices
      than those of the jobs added. */
  lemma {:induction false} ManagerByIndex(calls: seq<Call>, nManagers: nat, idx: uint32)
    requires nManagers > 0 && idx in RegisteredBy(calls, nManagers)
    ensures RegisteredBy(calls, nManagers)[idx].manager == ManagerOf(idx, nManagers) && idx < JobsAdded(calls)
  {
    var front := calls[..|calls| - 1];
    if idx in RegisteredBy(front, nManagers) {
      ManagerByIndex(front, nManagers, idx);
    }
  }

  /** How jobs are spread over managers: two of them share one exactly when the number of
      managers divides the difference of their indices, the first ones get one each in order,
      and as long as there are enough managers no two jobs share one. */
  lemma JobsAreSpread(calls: seq<Call>, nManagers: nat, i: uint32, j: uint32)
    requires nManagers > 0
    requires i in RegisteredBy(calls, nManagers) && j in RegisteredBy(calls, nManagers)
    ensures var m, m' := RegisteredBy(calls, nManagers)[i].manager, RegisteredBy(calls, nManagers)[j].manager;
            && m < nManagers
            && (m == m' <==> (i - j) % nManagers == 0)
            && (i < nManagers ==> m == i)
            && (JobsAdded(calls) <= nManagers && i != j ==> m != m')
  {
    ManagerByIndex(calls, nManagers, i);
    ManagerByIndex(calls, nManagers, j);
    RemaindersAgree(i, j, nManagers);
  }

  lemma RemaindersAgree(i: nat, j: nat, n: nat)
    requires n > 0
    ensures i % n == j % n <==> (i - j) % n == 0
    ensures i < n ==> i % n == i
    ensures j < n ==> j % n == j
  {
    var q, r := (i - j) / n, (i - j) % n;
    assert i - j == n * q + r;
    assert i == n * (i / n) + i % n && j == n * (j / n) + j % n;
    var k := i / n - j / n - q;
    assert n * k == n * (i / n) - n * (j / n) - n * q;
    assert n * k + (i % n - j % n) == r;
    if r == 0 || i % n == j % n {
      SmallMultiple(n, k, r - (i % n - j % n));
    }
    if i < n {
      SmallMultiple(n, i / n, i - i % n);
    }
    if j < n {
      SmallMultiple(n, j / n, j - j % n);
    }
  }

  /** The only multiple of n nearer to zero than n is zero. */
  lemma SmallMultiple(n: int, k: int, d: int)
    requires n > 0 && d == n * k && -n < d < n
    ensures k == 0 && d == 0
  {
    assert n * -k == -d;
    if k > 0 {
      Multiples(n, k);
    } else if k < 0 {
      Multiples(n, -k);
    }
  }

  lemma {:induction false} Multiples(n: int, k: int)
    requires n > 0 && k > 0
    ensures n * k >= n
    decreases k
  {
    if k > 1 {
      Multiples(n, k - 1);
      assert n * k == n * (k - 1) + n;
    }
  }

  lemma BySnoc(calls: seq<Call>, k: nat, nManagers: nat)
    requires k < |calls| && nManagers > 0
    ensures var front, more := calls[..k], calls[..k + 1];
            && more == front + [calls[k]]
            && JobsAdded(more) == JobsAdded(front) + (if calls[k].AddJob? then 1 else 0)
            && ResultsBy(more, nManagers) == ResultsBy(front, nManagers) + ResultsFor(front, calls[k], nManagers)
            && RegisteredBy(more, nManagers) ==
                 match calls[k]
                 case AddJob(nVars) =>
                   (var idx := IndexOf(JobsAdded(front));
                    AfterJob(RegisteredBy(front, nManagers), idx, ManagerOf(idx, nManagers), nVars))
                 case InitNumberOfInstructions(job, nInstr) =>
                   var registered := RegisteredBy(front, nManagers);
                   if IndexOf(job) in registered then AfterInstructions(registered, IndexOf(job), nInstr)
                   else registered
  {
    assert calls[..k + 1][..k] == calls[..k];
  }

  /** At most 2^32 jobs are added in all, instructions are announced for jobs that are there,
      and for each of them once. */
  predicate InOrder(calls: seq<Call>) {
    && JobsAdded(calls) <= 0x1_0000_0000
    && Callable(calls)
    && (forall i, j :: 0 <= i < j < |calls| && calls[i].InitNumberOfInstructions? && calls[j].InitNumberOfInstructions?
          ==> calls[i].job != calls[j].job)
  }

  lemma {:induction false} JobsAddedMonotone(calls: seq<Call>, k: nat)
    requires k <= |calls|
    ensures JobsAdded(calls[..k]) <= JobsAdded(calls)
    decreases |calls| - k
  {
    if k == |calls| {
      assert calls[..k] == calls;
    } else {
      assert calls[..k + 1][..k] == calls[..k];
      JobsAddedMonotone(calls, k + 1);
    }
  }

  predicate Announces(calls: seq<Call>, idx: uint32) {
    exists j :: 0 <= j < |calls| && calls[j].InitNumberOfInstructions? && calls[j].job == idx
  }

  lemma AnnouncesSnoc(calls: seq<Call>, k: nat, idx: uint32)
    requires k < |calls|
    ensures Announces(calls[..k + 1], idx) <==>
              Announces(calls[..k], idx) || (calls[k].InitNumberOfInstructions? && calls[k].job == idx)
  {
    assert calls[..k + 1] == calls[..k] + [calls[k]];
    if Announces(calls[..k], idx) {
      var j :| 0 <= j < k && calls[..k][j].InitNumberOfInstructions? && calls[..k][j].job == idx;
      assert calls[..k + 1][j] == calls[..k][j];
    }
    assert calls[..k + 1][k] == calls[k];
  }

  /** Only jobs that announced instructions have any. */
  predicate AnnouncedIn(registered: map<uint32, Registration>, calls: seq<Call>) {
    forall idx: uint32 :: idx in registered && registered[idx].nInstr > 0 ==> Announces(calls, idx)
  }

  /** In order, every call is one whose registrations succeed. */
  lemma CallSucceeds(registered: map<uint32, Registration>, calls: seq<Call>, k: nat)
    requires k < |calls| && InOrder(calls) && AnnouncedIn(registered, calls[..k])
    ensures JobsAdded(calls[..k + 1]) == JobsAdded(calls[..k]) + if calls[k].AddJob? then 1 else 0
    ensures calls[k].AddJob? ==> JobsAdded(calls[..k]) < INDEX_RANGE
    ensures calls[k].InitNumberOfInstructions? ==> AnnouncedFirst(registered, calls[k].job, JobsAdded(calls[..k]))
  {
    assert calls[..k + 1][..k] == calls[..k];
    JobsAddedMonotone(calls, k + 1);
    if calls[k].InitNumberOfInstructions? {
      JobsAddedMonotone(calls, k);
      assert !Announces(calls[..k], calls[k].job);
    }
  }

  predicate AnnouncedFirst(registered: map<uint32, Registration>, job: nat, nJobs: nat) {
    job < nJobs && job < INDEX_RANGE && (job in registered ==> registered[job].nInstr == 0)
  }

  lemma AnnouncementsKept(registered: map<uint32, Registration>, calls: seq<Call>, k: nat, idx: uint32, m: nat)
    requires k < |calls| && AnnouncedIn(registered, calls[..k])
    ensures match calls[k]
            case AddJob(nVars) => AnnouncedIn(AfterJob(registered, idx, m, nVars), calls[..k + 1])
            case InitNumberOfInstructions(job, nInstr) =>
              idx == job && idx in registered ==>
                AnnouncedIn(AfterInstructions(registered, idx, nInstr), calls[..k + 1])
  {
    forall i: uint32
      ensures Announces(calls[..k + 1], i) <==>
                Announces(calls[..k], i) || (calls[k].InitNumberOfInstructions? && calls[k].job == i)
    {
      AnnouncesSnoc(calls, k, i);
    }
  }

  /** What is registered in order: the indices of the jobs added, each job with the number of
      instructions it announced, if it did. */
  lemma {:induction false} InOrderRegistered(calls: seq<Call>, k: nat, nManagers: nat)
    requires k <= |calls| && InOrder(calls) && nManagers > 0
    ensures var registered := RegisteredBy(calls[..k], nManagers);
            AnnouncedIn(registered, calls[..k]) && Indexed(registered, JobsAdded(calls[..k]))
  {
    if k > 0 {
      InOrderRegistered(calls, k - 1, nManagers);
      InOrderStep(calls, k - 1, nManagers);
    }
  }

  /** Of the jobs added each has its own index. */
  predicate Indexed(registered: map<uint32, Registration>, nJobs: nat) {
    forall idx: uint32 :: idx in registered <==> idx < nJobs
  }

  lemma AddInOrder(registered: map<uint32, Registration>, calls: seq<Call>, k: nat, m: nat)
    requires k < |calls| && InOrder(calls) && calls[k].AddJob?
    requires AnnouncedIn(registered, calls[..k]) && Indexed(registered, JobsAdded(calls[..k]))
    ensures JobsAdded(calls[..k]) < INDEX_RANGE
    ensures var after := AfterJob(registered, IndexOf(JobsAdded(calls[..k])), m, calls[k].nVars);
            AnnouncedIn(after, calls[..k + 1]) && Indexed(after, JobsAdded(calls[..k]) + 1)
  {
    CallSucceeds(registered, calls, k);
    assert IndexOf(JobsAdded(calls[..k])) == JobsAdded(calls[..k]);
    AnnouncementsKept(registered, calls, k, JobsAdded(calls[..k]), m);
  }

  lemma InitInOrder(registered: map<uint32, Registration>, calls: seq<Call>, k: nat)
    requires k < |calls| && InOrder(calls) && calls[k].InitNumberOfInstructions?
    requires AnnouncedIn(registered, calls[..k]) && Indexed(registered, JobsAdded(calls[..k]))
    ensures var idx := IndexOf(calls[k].job);
            && idx in registered && registered[idx].nInstr == 0
            && var after := AfterInstructions(registered, idx, calls[k].nInstr);
               AnnouncedIn(after, calls[..k + 1]) && Indexed(after, JobsAdded(calls[..k]))
  {
    CallSucceeds(registered, calls, k);
    assert IndexOf(calls[k].job) == calls[k].job;
    AnnouncementsKept(registered, calls, k, calls[k].job, 0);
  }

  lemma InOrderStep(calls: seq<Call>, k: nat, nManagers: nat)
    requires k < |calls| && InOrder(calls) && nManagers > 0
    requires AnnouncedIn(RegisteredBy(calls[..k], nManagers), calls[..k])
    requires Indexed(RegisteredBy(calls[..k], nManagers), JobsAdded(calls[..k]))
    ensures AnnouncedIn(RegisteredBy(calls[..k + 1], nManagers), calls[..k + 1])
    ensures Indexed(RegisteredBy(calls[..k + 1], nManagers), JobsAdded(calls[..k + 1]))
    ensures forall j :: 0 <= j < |ResultsFor(calls[..k], calls[k], nManagers)| ==>
              ResultsFor(calls[..k], calls[k], nManagers)[j]
  {
    BySnoc(calls, k, nManagers);
    if calls[k].AddJob? {
      AddInOrder(RegisteredBy(calls[..k], nManagers), calls, k,
                 ManagerOf(IndexOf(JobsAdded(calls[..k])), nManagers));
    } else {
      InitInOrder(RegisteredBy(calls[..k], nManagers), calls, k);
    }
  }

  /** For calls in order every registration succeeds. */
  lemma {:induction false} AllSucceed(calls: seq<Call>, k: nat, nManagers: nat)
    requires k <= |calls| && InOrder(calls) && nManagers > 0
    ensures forall j :: 0 <= j < |ResultsBy(calls[..k], nManagers)| ==> ResultsBy(calls[..k], nManagers)[j]
  {
    if k > 0 {
      AllSucceed(calls, k - 1, nManagers);
      InOrderRegistered(calls, k - 1, nManagers);
      InOrderStep(calls, k - 1, nManagers);
      BySnoc(calls, k - 1, nManagers);
    }
  }

  method NewRegistry(nManagers: uint32) returns (registry: seq<EPICSAnyValueManager>)
    ensures |registry| == nManagers && fresh(registry)
    ensures Sound(registry) && forall m :: 0 <= m < |registry| ==> NamesOf(registry[m]) == Names({}, {})
  {
    registry := [];
    var idx := 0;
    while idx < nManagers
      invariant idx == |registry| <= nManagers && fresh(registry)
      invariant Sound(registry) && forall m :: 0 <= m < |registry| ==> NamesOf(registry[m]) == Names({}, {})
    {
      var avManager := new EPICSAnyValueManager();
      registry := registry + [avManager];
      idx := idx + 1;
    }
  }

  method GetNamesOf(registry: seq<EPICSAnyValueManager>) returns (known: seq<Names>)
    ensures known == KnownBy(registry)
  {
    known := [];
    for m := 0 to |registry|
      invariant |known| == m && forall i :: 0 <= i < m ==> known[i] == NamesOf(registry[i])
    {
      known := known + [NamesOf(registry[m])];
    }
  }

  /** A whole server: for every prefix, any number of managers and any calls on its jobs, the
      results of all registrations are those that ResultsBy says, and in the end each manager
      knows exactly the names that RegisteredBy puts there. If the calls are in order, names
      never collide: all results are true, so that dropping them is harmless. */
  method Serve(serverPrefix: string, nManagers: uint32, calls: seq<Call>)
    returns (known: seq<Names>, results: seq<bool>)
    requires nManagers > 0 && Callable(calls)
    ensures results == ResultsBy(calls, nManagers)
    ensures InOrder(calls) ==> forall k :: 0 <= k < |results| ==> results[k]
    ensures |known| == nManagers && AllKnow(known, serverPrefix, RegisteredBy(calls, nManagers))
  {
    var registry := NewRegistry(nManagers);
    var server := new AutomationServer(serverPrefix, registry);
    results := server.CallAll(calls);
    assert calls[..|calls|] == calls;
    if InOrder(calls) {
      AllSucceed(calls, |calls|, nManagers);
    }
    known := GetNamesOf(registry);
  }
}

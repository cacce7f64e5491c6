/** The CronJob reconciler: classify the child jobs, trim the histories, and start the last missed
    run; and what every run of reconcile steps keeps. */
module CronReconciler {
  import opened CronSchedule
  import opened Wrappers

  datatype JobStatus = Active | Failed | Complete

  /** A job is named after the time it was scheduled for; `scheduledAt` is its annotation. */
  datatype Job = Job(name: int, scheduledAt: Option<int>, start: Option<int>, status: JobStatus)

  /** The job created for a run. */
  function NewJob(scheduled: int): Job { Job(scheduled, Some(scheduled), None, Active) }

  datatype Spec = Spec(
    schedule: Schedule,
    creation: int,
    deadline: Option<int>,
    replace: bool,
    suspend: bool,
    failedLimit: Option<int>,
    successfulLimit: Option<int>)

  // ---- One pass over the children ----

  function Having(listing: seq<Job>, status: JobStatus): seq<Job> {
    if listing == [] then []
    else Having(listing[..|listing| - 1], status)
         + if listing[|listing| - 1].status == status then [listing[|listing| - 1]] else []
  }

  /** The latest annotation. */
  function MostRecent(listing: seq<Job>): Option<int> {
    if listing == [] then None
    else
      var m, t := MostRecent(listing[..|listing| - 1]), listing[|listing| - 1].scheduledAt;
      if t.Some? && (m.None? || m.value < t.value) then t else m
  }

  /** The comparison the histories are sorted with: jobs that never started come first. */
  predicate Less(a: Option<int>, b: Option<int>) {
    if a.None? then b.Some? else b.Some? && a.value < b.value
  }

  type Sorter = seq<Job> -> seq<Job>

  function Sort(sort: Sorter, s: seq<Job>): seq<Job> { sort(s) }

  /** What a library sort promises: a permutation in order; ties may come out either way. */
  ghost predicate SortedOf(t: seq<Job>, s: seq<Job>) {
    multiset(t) == multiset(s) && forall i, j :: 0 <= i < j < |t| ==> !Less(t[j].start, t[i].start)
  }

  ghost predicate SortsByStart(sort: Sorter) {
    forall s {:trigger SortedOf(Sort(sort, s), s)} :: SortedOf(Sort(sort, s), s)
  }

  /** How many of `n` finished jobs are too many. */
  function Excess(n: nat, limit: Option<int>): nat {
    if limit.None? || n <= limit.value then 0 else if limit.value < 0 then n else n - limit.value
  }

  function Trimmed(sort: Sorter, s: seq<Job>, limit: Option<int>): seq<Job> {
    var sorted := Sort(sort, s);
    sorted[..if Excess(|s|, limit) <= |sorted| then Excess(|s|, limit) else |sorted|]
  }

  /** `s` is cut in two: as many as the limit allows are kept, and none of them started before one that
      goes; a job that never started goes before any that did. */
  ghost predicate KeepsNewest(s: seq<Job>, limit: Option<int>, gone: seq<Job>, kept: seq<Job>) {
    && multiset(gone) + multiset(kept) == multiset(s)
    && |kept| == (if limit.None? || |s| <= limit.value then |s| else if limit.value <= 0 then 0 else limit.value)
    && forall i, j :: 0 <= i < |gone| && 0 <= j < |kept| ==>
         gone[i].start.None? || (kept[j].start.Some? && gone[i].start.value <= kept[j].start.value)
  }

  function Names(s: seq<Job>): set<int> { set i | 0 <= i < |s| :: s[i].name }

  ghost predicate IsListing(listing: seq<Job>, jobs: map<int, Job>) {
    && (forall i :: 0 <= i < |listing| ==> listing[i].name in jobs && jobs[listing[i].name] == listing[i])
    && (forall n :: n in jobs ==> exists i :: 0 <= i < |listing| && listing[i].name == n)
    && (forall i, j :: 0 <= i < j < |listing| ==> listing[i].name != listing[j].name)
  }

  /** The jobs left once the histories are trimmed. */
  function AfterTrim(spec: Spec, jobs: map<int, Job>, listing: seq<Job>, sort: Sorter): map<int, Job> {
    jobs - Names(Trimmed(sort, Having(listing, Failed), spec.failedLimit))
         - Names(Trimmed(sort, Having(listing, Complete), spec.successfulLimit))
  }

  /** The jobs left when a pass is about to create one, or is done if it creates none. */
  function Cleared(spec: Spec, jobs: map<int, Job>, listing: seq<Job>, sort: Sorter, run: Option<int>): map<int, Job> {
    var kept := AfterTrim(spec, jobs, listing, sort);
    if run.Some? && spec.replace then kept - Names(Having(listing, Active)) else kept
  }

  /** What a pass does, given the run it decided to start, if any. */
  function AfterPass(spec: Spec, jobs: map<int, Job>, listing: seq<Job>, sort: Sorter, run: Option<int>): map<int, Job>
  {
    var cleared := Cleared(spec, jobs, listing, sort, run);
    if run.None? || run.value in cleared then cleared
    else cleared[run.value := NewJob(run.value)]
  }

  /** What to start once the search is over; `later` is the clock as read after it. */
  function Decision(spec: Spec, found: Missed, later: int): Option<int> {
    if spec.suspend || found.TooMany? || found.missed.None? then None
    else if spec.deadline.Some? && found.missed.value + spec.deadline.value < later then None
    else found.missed
  }

  /** Where the search starts. */
  function Since(spec: Spec, listing: seq<Job>, now: int): int {
    Earliest(MostRecent(listing), spec.creation, spec.deadline, now)
  }

  ghost predicate Decides(spec: Spec, listing: seq<Job>, now: int, later: int, run: Option<int>) {
    if spec.suspend then run == None
    else exists found ::
           IsMissed(spec.schedule, Since(spec, listing, now), now, found) && run == Decision(spec, found, later)
  }

  /** The cluster's child jobs, the runs created so far, the recorded status, and the clock. */
  datatype System = System(jobs: map<int, Job>, created: seq<int>, status: Option<int>, clock: int)

  /** One pass of the controller, which read the clock at `now` and again at its end. */
  ghost predicate Pass(spec: Spec, s: System, t: System, listing: seq<Job>, sort: Sorter, now: int, run: Option<int>) {
    && IsListing(listing, s.jobs) && SortsByStart(sort) && s.clock <= now <= t.clock
    && Decides(spec, listing, now, t.clock, run)
    && t.jobs == AfterPass(spec, s.jobs, listing, sort, run) && t.status == MostRecent(listing)
    && t.created == s.created +
       if run.Some? && run.value !in Cleared(spec, s.jobs, listing, sort, run) then [run.value] else []
  }

  class Controller {
    const spec: Spec
    var jobs: map<int, Job>
    var lastScheduleTime: Option<int>
    var active: seq<Job>
    ghost var created: seq<int>

    ghost function State(clock: int): System
      reads this
    {
      System(jobs, created, lastScheduleTime, clock)
    }

    method DeleteOldest(finished: seq<Job>, limit: Option<int>, sort: Sorter) returns (ghost kept: seq<Job>)
      requires SortsByStart(sort)
      modifies this`jobs
      ensures jobs == old(jobs) - Names(Trimmed(sort, finished, limit))
      ensures KeepsNewest(finished, limit, Trimmed(sort, finished, limit), kept)
    {
      kept := TrimmingKeepsNewest(sort, finished, limit);
      if limit.Some? {
        var sorted := Sort(sort, finished);
        SameLength(sort, finished);
        var i := 0;
        while i < |sorted|
          invariant i <= |sorted| && i <= Excess(|finished|, limit)
          invariant jobs == old(jobs) - Names(sorted[..i])
        {
          if i >= |sorted| - limit.value {
            break;
          }
          assert Names(sorted[..i + 1]) == Names(sorted[..i]) + {sorted[i].name};
          jobs := jobs - {sorted[i].name};
          i := i + 1;
        }
        assert sorted[..i] == Trimmed(sort, finished, limit);
      }
    }

    method TrimHistories(ghost listing: seq<Job>, failedJobs: seq<Job>, successfulJobs: seq<Job>, sort: Sorter)
      requires SortsByStart(sort)
      requires failedJobs == Having(listing, Failed) && successfulJobs == Having(listing, Complete)
      modifies this`jobs
      ensures jobs == AfterTrim(spec, old(jobs), listing, sort)
    {
      ghost var kept := DeleteOldest(failedJobs, spec.failedLimit, sort);
      kept := DeleteOldest(successfulJobs, spec.successfulLimit, sort);
    }

    method Classify(listing: seq<Job>)
      returns (activeJobs: seq<Job>, successfulJobs: seq<Job>, failedJobs: seq<Job>, mostRecentTime: Option<int>)
      ensures activeJobs == Having(listing, Active) && failedJobs == Having(listing, Failed)
      ensures successfulJobs == Having(listing, Complete) && mostRecentTime == MostRecent(listing)
    {
      activeJobs, successfulJobs, failedJobs, mostRecentTime := [], [], [], None;
      for i := 0 to |listing|
        invariant activeJobs == Having(listing[..i], Active) && failedJobs == Having(listing[..i], Failed)
        invariant successfulJobs == Having(listing[..i], Complete) && mostRecentTime == MostRecent(listing[..i])
      {
        var job := listing[i];
        assert listing[..i + 1][..i] == listing[..i];
        match job.status {
          case Active => activeJobs := activeJobs + [job];
          case Failed => failedJobs := failedJobs + [job];
          case Complete => successfulJobs := successfulJobs + [job];
        }
        if job.scheduledAt.Some? {
          if mostRecentTime.None? || mostRecentTime.value < job.scheduledAt.value {
            mostRecentTime := job.scheduledAt;
          }
        }
      }
      assert listing[..|listing|] == listing;
    }

    /** Clear the active jobs if they are to be replaced, then create the new one; creating fails if
        the name is taken. */
    method StartJob(activeJobs: seq<Job>, scheduled: int) returns (created: bool)
      modifies this`jobs
      ensures var cleared := if spec.replace then old(jobs) - Names(activeJobs) else old(jobs);
              && created == (scheduled !in cleared)
              && jobs == if created then cleared[scheduled := NewJob(scheduled)] else cleared
    {
      if spec.replace {
        for i := 0 to |activeJobs|
          invariant jobs == old(jobs) - Names(activeJobs[..i])
        {
          assert Names(activeJobs[..i + 1]) == Names(activeJobs[..i]) + {activeJobs[i].name};
          jobs := jobs - {activeJobs[i].name};
        }
        assert activeJobs[..|activeJobs|] == activeJobs;
      }
      if scheduled in jobs {
        return false;
      }
      jobs := jobs[scheduled := NewJob(scheduled)];
      return true;
    }

    /** `now`, `later` and `latest` are the clock as read for the search, for the delay until the next
        call and for the deadline; `run` is the run it set out to start. */
    method Reconcile(listing: seq<Job>, sort: Sorter, now: int, later: int, latest: int)
      returns (requeueAfter: Option<int>, ghost run: Option<int>)
      requires Sound(spec.schedule) || (Silent(spec.schedule) && ZERO_TIME <= now)
      requires SortsByStart(sort) && IsListing(listing, jobs) && now <= later <= latest
      modifies this
      ensures Pass(spec, old(State(now)), State(latest), listing, sort, now, run)
      ensures active == Having(listing, Active)
      ensures requeueAfter ==
              if || spec.suspend || GivesUp(spec.schedule, Since(spec, listing, now), now)
                 || (run.Some? && run.value in Cleared(spec, old(jobs), listing, sort, run))
              then None
              else Some(Next(spec.schedule, now) - later)
    {
      run := None;
      var activeJobs, successfulJobs, failedJobs, mostRecentTime := Classify(listing);
      lastScheduleTime := mostRecentTime;
      active := activeJobs;
      TrimHistories(listing, failedJobs, successfulJobs, sort);
      if spec.suspend {
        return None, None;
      }
      var found := GetNextSchedule(spec.schedule, lastScheduleTime, spec.creation, spec.deadline, now);
      assert IsMissed(spec.schedule, Since(spec, listing, now), now, found);
      run := Decision(spec, found, latest);
      if found.TooMany? {
        return None, run;
      }
      requeueAfter := Some(found.next - later);
      if found.missed.None? {
        return;
      }
      var tooLate := spec.deadline.Some? && found.missed.value + spec.deadline.value < latest;
      if tooLate {
        return;
      }
      var started := StartJob(activeJobs, found.missed.value);
      if started {
        created := created + [found.missed.value];
      } else {
        requeueAfter := None;
      }
    }
  }

  lemma SameLength(sort: Sorter, s: seq<Job>)
    requires SortsByStart(sort)
    ensures |Sort(sort, s)| == |s|
  {
    assert SortedOf(Sort(sort, s), s);
    assert |multiset(Sort(sort, s))| == |multiset(s)|;
  }

  // ---- Trimming ----

  lemma TrimmingKeepsNewest(sort: Sorter, s: seq<Job>, limit: Option<int>) returns (kept: seq<Job>)
    requires SortsByStart(sort)
    ensures KeepsNewest(s, limit, Trimmed(sort, s, limit), kept)
  {
    SameLength(sort, s);
    var t := Sort(sort, s);
    assert SortedOf(t, s);
    var k := Excess(|s|, limit);
    kept := t[k..];
    assert t == t[..k] + t[k..];
    forall i, j | 0 <= i < k && 0 <= j < |kept|
      ensures t[i].start.None? || (kept[j].start.Some? && t[i].start.value <= kept[j].start.value)
    {
      assert !Less(t[k + j].start, t[i].start);
    }
  }

  lemma {:induction false} HavingMembers(listing: seq<Job>, status: JobStatus)
    ensures forall j :: j in Having(listing, status) <==> j in listing && j.status == status
  {
    if listing == [] {
    } else {
      var n := |listing| - 1;
      HavingMembers(listing[..n], status);
      assert listing == listing[..n] + [listing[n]];
    }
  }

  /** `m` started after every other job of `s`. */
  ghost predicate StartedLast(m: Job, s: seq<Job>) {
    && m in s && multiset(s)[m] == 1
    && forall j :: j in s && j != m ==> Less(j.start, m.start)
  }

  lemma StartedLastSortsLast(sort: Sorter, s: seq<Job>, m: Job)
    requires SortsByStart(sort) && StartedLast(m, s)
    ensures |Sort(sort, s)| == |s| && Sort(sort, s)[|s| - 1] == m
    ensures m !in Sort(sort, s)[..|s| - 1]
  {
    SameLength(sort, s);
    var t := Sort(sort, s);
    assert SortedOf(t, s) && m in multiset(s);
    assert m in t;
    var i :| 0 <= i < |t| && t[i] == m;
    var last := |t| - 1;
    assert t[last] in multiset(t) && t[last] in s;
    assert t == t[..last] + [t[last]];
    assert multiset(t) == multiset(t[..last]) + multiset{t[last]};
  }

  /** Trimming keeps the job that started last exactly when the limit leaves room for one. */
  lemma TrimKeepsLatestIff(sort: Sorter, s: seq<Job>, m: Job, limit: Option<int>)
    requires SortsByStart(sort) && StartedLast(m, s)
    ensures m !in Trimmed(sort, s, limit) <==> limit.None? || limit.value >= 1
  {
    StartedLastSortsLast(sort, s, m);
    var t := Sort(sort, s);
    var k := Excess(|s|, limit);
    if k == |s| {
      assert Trimmed(sort, s, limit) == t && t[|s| - 1] == m;
    } else {
      assert Trimmed(sort, s, limit) <= t[..|s| - 1];
    }
  }

  lemma TrimmedMembers(sort: Sorter, s: seq<Job>, limit: Option<int>)
    requires SortsByStart(sort)
    ensures forall j :: j in Trimmed(sort, s, limit) ==> j in s
  {
    assert SortedOf(Sort(sort, s), s);
    forall j | j in Trimmed(sort, s, limit) ensures j in s {
      assert j in Sort(sort, s);
      assert j in multiset(Sort(sort, s));
    }
  }

  // ---- Runs ----

  ghost predicate Increasing(created: seq<int>) {
    forall i, j :: 0 <= i < j < |created| ==> created[i] < created[j]
  }

  /** The children are jobs this controller created, under their scheduled times, and the latest one
      it created is among them. */
  ghost predicate Tracks(jobs: map<int, Job>, created: seq<int>) {
    && Increasing(created)
    && (forall n :: n in jobs ==> n in created && jobs[n].name == n && jobs[n].scheduledAt == Some(n))
    && (created != [] ==> created[|created| - 1] in jobs)
  }

  /** Finished jobs of one kind started in the order they were scheduled. */
  ghost predicate Orderly(jobs: map<int, Job>) {
    forall a, b :: a in jobs && b in jobs && a < b && jobs[a].status == jobs[b].status != Active ==>
      Less(jobs[a].start, jobs[b].start)
  }

  ghost predicate KeepsOne(limit: Option<int>) { limit.Some? ==> limit.value >= 1 }

  ghost function Latest(created: seq<int>): Option<int> {
    if created == [] then None else Some(created[|created| - 1])
  }

  lemma {:induction false} MostRecentIsLargest(listing: seq<Job>)
    ensures MostRecent(listing).Some? ==> exists j :: j in listing && j.scheduledAt == MostRecent(listing)
    ensures forall j :: j in listing && j.scheduledAt.Some? ==>
              MostRecent(listing).Some? && j.scheduledAt.value <= MostRecent(listing).value
  {
    if listing == [] {
    } else {
      var n := |listing| - 1;
      MostRecentIsLargest(listing[..n]);
      assert listing == listing[..n] + [listing[n]];
      assert listing[n] in listing;
      if MostRecent(listing) == MostRecent(listing[..n]) && MostRecent(listing).Some? {
        var j :| j in listing[..n] && j.scheduledAt == MostRecent(listing);
        assert j in listing;
      }
    }
  }

  lemma ListingMembers(listing: seq<Job>, jobs: map<int, Job>)
    requires IsListing(listing, jobs)
    ensures forall j :: j in listing ==> j.name in jobs && jobs[j.name] == j
    ensures forall n :: n in jobs ==> jobs[n] in listing
  {
    forall n | n in jobs ensures jobs[n] in listing {
      var i :| 0 <= i < |listing| && listing[i].name == n;
      assert listing[i] in listing;
    }
  }

  /** The status time is the last run created. */
  lemma StatusIsLatest(listing: seq<Job>, jobs: map<int, Job>, created: seq<int>)
    requires IsListing(listing, jobs) && Tracks(jobs, created)
    ensures MostRecent(listing) == Latest(created)
  {
    ListingMembers(listing, jobs);
    MostRecentIsLargest(listing);
    if created != [] {
      var last := created[|created| - 1];
      assert last in jobs && jobs[last] in listing;
      var j :| j in listing && j.scheduledAt == MostRecent(listing);
      assert j.name in created;
    }
  }

  lemma {:induction false} HavingOnce(listing: seq<Job>, status: JobStatus, m: Job)
    requires forall i, j :: 0 <= i < j < |listing| ==> listing[i].name != listing[j].name
    ensures multiset(Having(listing, status))[m] <= if m in listing then 1 else 0
  {
    if listing == [] {
    } else {
      var n := |listing| - 1;
      HavingOnce(listing[..n], status, m);
      assert listing[n] !in listing[..n];
      assert listing == listing[..n] + [listing[n]];
    }
  }

  /** With room for one in each history, the latest job created is never trimmed. */
  lemma LatestSurvivesTrim(spec: Spec, jobs: map<int, Job>, listing: seq<Job>, sort: Sorter, created: seq<int>)
    requires SortsByStart(sort) && IsListing(listing, jobs) && Tracks(jobs, created) && Orderly(jobs)
    requires KeepsOne(spec.failedLimit) && KeepsOne(spec.successfulLimit)
    ensures created != [] ==> created[|created| - 1] in AfterTrim(spec, jobs, listing, sort)
  {
    if created != [] {
      LatestNotNamed(jobs, listing, sort, created, Failed, spec.failedLimit);
      LatestNotNamed(jobs, listing, sort, created, Complete, spec.successfulLimit);
    }
  }

  lemma LatestStartedLast(jobs: map<int, Job>, listing: seq<Job>, created: seq<int>, status: JobStatus)
    requires IsListing(listing, jobs) && Tracks(jobs, created) && Orderly(jobs)
    requires created != [] && jobs[created[|created| - 1]].status == status != Active
    ensures StartedLast(jobs[created[|created| - 1]], Having(listing, status))
  {
    var last := created[|created| - 1];
    var m, s := jobs[last], Having(listing, status);
    ListingMembers(listing, jobs);
    HavingMembers(listing, status);
    HavingOnce(listing, status, m);
    assert m in s && m in multiset(s);
    forall j | j in s && j != m ensures Less(j.start, m.start) {
      assert j in listing && j.status == status && j.name in created;
      assert j.name < last;
    }
  }

  lemma LatestNotNamed(jobs: map<int, Job>, listing: seq<Job>, sort: Sorter, created: seq<int>,
                       status: JobStatus, limit: Option<int>)
    requires SortsByStart(sort) && IsListing(listing, jobs) && Tracks(jobs, created) && Orderly(jobs)
    requires created != [] && status != Active && KeepsOne(limit)
    ensures created[|created| - 1] !in Names(Trimmed(sort, Having(listing, status), limit))
  {
    var last := created[|created| - 1];
    var m, s := jobs[last], Having(listing, status);
    var t := Trimmed(sort, s, limit);
    assert m !in t by {
      if m.status == status {
        LatestStartedLast(jobs, listing, created, status);
        TrimKeepsLatestIff(sort, s, m, limit);
      } else {
        HavingMembers(listing, status);
        TrimmedMembers(sort, s, limit);
      }
    }
    forall i | 0 <= i < |t| ensures t[i].name != last {
      assert t[i] in t && t[i] in listing by {
        HavingMembers(listing, status);
        TrimmedMembers(sort, s, limit);
      }
      ListingMembers(listing, jobs);
      assert jobs[t[i].name] == t[i];
    }
  }

  // ---- The system: the controller's passes and the jobs' own progress ----

  /** Jobs start and finish; none is made, removed or renamed. */
  ghost predicate Progress(s: System, t: System) {
    && t.jobs.Keys == s.jobs.Keys && Orderly(t.jobs)
    && (forall n :: n in s.jobs ==> t.jobs[n].name == s.jobs[n].name && t.jobs[n].scheduledAt == s.jobs[n].scheduledAt)
    && t.created == s.created && t.status == s.status && s.clock <= t.clock
  }

  ghost predicate Step(spec: Spec, s: System, t: System) {
    Progress(s, t) || exists listing, sort, now, run :: Pass(spec, s, t, listing, sort, now, run)
  }

  ghost predicate Later(a: Option<int>, b: Option<int>) {
    a.Some? ==> b.Some? && a.value <= b.value
  }

  /** Only activations that are due have been started. */
  ghost predicate OnSchedule(schedule: Schedule, created: seq<int>, clock: int) {
    forall r :: r in created ==> Activation(schedule, r) && r <= clock
  }

  /** The controller never starts anything: it is suspended, the deadline leaves no window to search,
      or the schedule never fires. */
  ghost predicate NeverStarts(spec: Spec) {
    spec.suspend || (spec.deadline.Some? && spec.deadline.value <= 0) || Silent(spec.schedule)
  }

  /** Each history has room for one job, or there are no jobs to keep. */
  ghost predicate Remembers(spec: Spec) {
    NeverStarts(spec) || (KeepsOne(spec.failedLimit) && KeepsOne(spec.successfulLimit))
  }

  ghost predicate Good(spec: Spec, s: System) {
    && (NeverStarts(spec) ==> s.created == [])
    && Tracks(s.jobs, s.created) && Orderly(s.jobs) && Later(s.status, Latest(s.created))
    && OnSchedule(spec.schedule, s.created, s.clock)
  }

  /** A run that is started is an activation after the last one recorded. */
  lemma RunIsAfterLast(spec: Spec, listing: seq<Job>, now: int, later: int, run: Option<int>)
    requires Decides(spec, listing, now, later, run) && run.Some?
    ensures Activation(spec.schedule, run.value) && run.value <= now
    ensures MostRecent(listing).Some? ==> MostRecent(listing).value < run.value
    ensures !NeverStarts(spec)
  {
    var found :| IsMissed(spec.schedule, Since(spec, listing, now), now, found) && run == Decision(spec, found, later);
    assert run.value in Window(spec.schedule, Since(spec, listing, now), now);
  }

  ghost predicate Restricts(sub: map<int, Job>, jobs: map<int, Job>) {
    forall n :: n in sub ==> n in jobs && sub[n] == jobs[n]
  }

  lemma ClearedRestricts(spec: Spec, jobs: map<int, Job>, listing: seq<Job>, sort: Sorter, run: Option<int>)
    ensures Restricts(Cleared(spec, jobs, listing, sort, run), jobs)
    ensures run.None? ==> Cleared(spec, jobs, listing, sort, run) == AfterTrim(spec, jobs, listing, sort)
  {
  }

  lemma RestrictKeeps(sub: map<int, Job>, jobs: map<int, Job>, created: seq<int>)
    requires Restricts(sub, jobs) && Tracks(jobs, created) && Orderly(jobs)
    requires created == [] || created[|created| - 1] in sub
    ensures Tracks(sub, created) && Orderly(sub)
  {
  }

  /** A later child may join whichever of the others are left. */
  lemma AddKeeps(sub: map<int, Job>, jobs: map<int, Job>, created: seq<int>, t: int)
    requires Restricts(sub, jobs) && Tracks(jobs, created) && Orderly(jobs)
    requires created != [] ==> created[|created| - 1] < t
    ensures t !in sub
    ensures Tracks(sub[t := NewJob(t)], created + [t])
    ensures Orderly(sub[t := NewJob(t)])
  {
    forall i | 0 <= i < |created| ensures created[i] < t {
      assert i == |created| - 1 || created[i] < created[|created| - 1];
    }
    assert forall n :: n in created ==> n in created + [t];
  }

  lemma StartAdds(spec: Spec, s: System, t: System, listing: seq<Job>, sort: Sorter, now: int, run: Option<int>)
    requires Good(spec, s) && Pass(spec, s, t, listing, sort, now, run) && run.Some?
    ensures t.created == s.created + [run.value] && Tracks(t.jobs, t.created) && Orderly(t.jobs)
  {
    var cleared := Cleared(spec, s.jobs, listing, sort, run);
    assert Restricts(cleared, s.jobs) by { ClearedRestricts(spec, s.jobs, listing, sort, run); }
    assert s.created != [] ==> s.created[|s.created| - 1] < run.value by {
      StatusIsLatest(listing, s.jobs, s.created);
      RunIsAfterLast(spec, listing, now, t.clock, run);
    }
    AddKeeps(cleared, s.jobs, s.created, run.value);
  }

  lemma StartKeepsGood(spec: Spec, s: System, t: System, listing: seq<Job>, sort: Sorter, now: int, run: Option<int>)
    requires Good(spec, s) && Pass(spec, s, t, listing, sort, now, run) && run.Some?
    ensures Good(spec, t) && t.created == s.created + [run.value] && t.status == Latest(s.created)
  {
    StartAdds(spec, s, t, listing, sort, now, run);
    RunIsAfterLast(spec, listing, now, t.clock, run);
    assert t.status == Latest(s.created) by { StatusIsLatest(listing, s.jobs, s.created); }
  }

  lemma IdleKeepsGood(spec: Spec, s: System, t: System, listing: seq<Job>, sort: Sorter, now: int)
    requires Good(spec, s) && Pass(spec, s, t, listing, sort, now, None) && Remembers(spec)
    ensures Good(spec, t) && t.created == s.created && t.status == Latest(s.created)
  {
    var kept := AfterTrim(spec, s.jobs, listing, sort);
    assert t.created == s.created && t.jobs == kept && Restricts(kept, s.jobs) by {
      ClearedRestricts(spec, s.jobs, listing, sort, None);
    }
    assert t.status == Latest(s.created) by { StatusIsLatest(listing, s.jobs, s.created); }
    assert s.created == [] || s.created[|s.created| - 1] in kept by {
      if s.created != [] { LatestSurvivesTrim(spec, s.jobs, listing, sort, s.created); }
    }
    RestrictKeeps(kept, s.jobs, s.created);
  }

  lemma PassKeepsGood(spec: Spec, s: System, t: System, listing: seq<Job>, sort: Sorter, now: int, run: Option<int>)
    requires Good(spec, s) && Pass(spec, s, t, listing, sort, now, run) && Remembers(spec)
    ensures Good(spec, t) && Later(s.status, t.status)
    ensures t.created == s.created + if run.Some? then [run.value] else []
  {
    if run.Some? {
      StartKeepsGood(spec, s, t, listing, sort, now, run);
    } else {
      IdleKeepsGood(spec, s, t, listing, sort, now);
    }
  }

  lemma StepKeepsGood(spec: Spec, s: System, t: System)
    requires Good(spec, s) && Step(spec, s, t) && Remembers(spec)
    ensures Good(spec, t) && Later(s.status, t.status) && s.created <= t.created
  {
    if !Progress(s, t) {
      var listing, sort, now, run :| Pass(spec, s, t, listing, sort, now, run);
      PassKeepsGood(spec, s, t, listing, sort, now, run);
    }
  }

  ghost predicate IsHistory(spec: Spec, states: seq<System>) {
    && states != [] && states[0].jobs == map[] && states[0].created == [] && states[0].status == None
    && forall i :: 0 <= i < |states| - 1 ==> Step(spec, states[i], states[i + 1])
  }

  lemma Extended(spec: Spec, states: seq<System>, t: System) returns (more: seq<System>)
    requires IsHistory(spec, states) && Step(spec, states[|states| - 1], t)
    ensures more == states + [t] && IsHistory(spec, more)
  {
    more := states + [t];
  }

  /** Over any run with room for one job in each history: the status time never goes back, what has
      been created stays created, and created runs strictly increase, so no activation gets two jobs. */
  lemma {:induction false} EachActivationOnce(spec: Spec, states: seq<System>, i: nat, j: nat)
    requires IsHistory(spec, states) && i <= j < |states| && Remembers(spec)
    ensures Good(spec, states[i]) && Good(spec, states[j]) && Increasing(states[j].created)
    ensures Later(states[i].status, states[j].status) && states[i].created <= states[j].created
    decreases j
  {
    if i < j {
      EachActivationOnce(spec, states, i, j - 1);
      StepKeepsGood(spec, states[j - 1], states[j]);
    } else if j > 0 {
      EachActivationOnce(spec, states, j - 1, j - 1);
      StepKeepsGood(spec, states[j - 1], states[j]);
    }
  }

  // ---- Exactly when ----

  /** The status time never goes back, and no activation gets two jobs. */
  ghost predicate OnceOnly(states: seq<System>) {
    && (forall i, j :: 0 <= i <= j < |states| ==> Later(states[i].status, states[j].status))
    && (forall i :: 0 <= i < |states| ==> Increasing(states[i].created))
  }

  /** The first activation after the creation is due at once, and not due again while a job records it. */
  lemma FirstIsDueOnce(spec: Spec, listing: seq<Job>, a: int)
    requires Sound(spec.schedule) && !NeverStarts(spec) && a == Next(spec.schedule, spec.creation)
    ensures MostRecent(listing) == None ==> Decides(spec, listing, a, a, Some(a))
    ensures MostRecent(listing) == Some(a) ==> Decides(spec, listing, a, a, None)
  {
    var s, e := spec.schedule, Since(spec, listing, a);
    NextIsLeastActivation(s, spec.creation);
    assert LeastAfter(s, spec.creation);
    EmptyWindow(s, a, a);
    SoundIsNotSilent(s);
    if MostRecent(listing) == None {
      assert spec.creation <= e < a && Next(s, e) == a;
      WindowSplits(s, e, a);
      assert IsMissed(s, e, a, Found(Some(a), Next(s, a)));
      assert Decision(spec, Found(Some(a), Next(s, a)), a) == Some(a);
    } else if MostRecent(listing) == Some(a) {
      assert e == a && IsMissed(s, e, a, Found(None, Next(s, a)));
    }
  }

  /** How the jobs of a history are kept. */
  function Limit(spec: Spec, status: JobStatus): Option<int> {
    match status
    case Active => None
    case Failed => spec.failedLimit
    case Complete => spec.successfulLimit
  }

  /** A pass over a single finished job with no history kept for its kind. */
  lemma OnlyJobIsTrimmed(spec: Spec, sort: Sorter, job: Job)
    requires SortsByStart(sort) && !KeepsOne(Limit(spec, job.status))
    ensures IsListing([job], map[job.name := job]) && MostRecent([job]) == job.scheduledAt
    ensures AfterPass(spec, map[job.name := job], [job], sort, None) == map[]
  {
    assert [job][..0] == [];
    assert Having([job], job.status) == [job];
    assert SortedOf(Sort(sort, [job]), [job]);
    SameLength(sort, [job]);
    assert Sort(sort, [job])[0] in multiset([job]);
    assert Trimmed(sort, [job], Limit(spec, job.status)) == [job];
    assert [job][0].name == job.name;
  }

  /** The first activation is started whenever no job records it. */
  lemma StartsFirst(spec: Spec, sort: Sorter, states: seq<System>, a: int) returns (more: seq<System>)
    requires Sound(spec.schedule) && !NeverStarts(spec) && a == Next(spec.schedule, spec.creation)
    requires SortsByStart(sort) && IsHistory(spec, states)
    requires var s := states[|states| - 1]; s.jobs == map[] && s.clock <= a
    ensures IsHistory(spec, more)
    ensures more == states + [System(map[a := NewJob(a)], states[|states| - 1].created + [a], None, a)]
  {
    var s := states[|states| - 1];
    FirstIsDueOnce(spec, [], a);
    assert Cleared(spec, map[], [], sort, Some(a)) == map[];
    assert Pass(spec, s, System(map[a := NewJob(a)], s.created + [a], None, a), [], sort, a, Some(a));
    more := Extended(spec, states, System(map[a := NewJob(a)], s.created + [a], None, a));
  }

  /** Its job finishes, and is trimmed by the next pass, and the record of it with the job. */
  lemma ForgetsFirst(spec: Spec, sort: Sorter, states: seq<System>, a: int, status: JobStatus)
    returns (more: seq<System>)
    requires Sound(spec.schedule) && !NeverStarts(spec) && a == Next(spec.schedule, spec.creation)
    requires SortsByStart(sort) && IsHistory(spec, states) && !KeepsOne(Limit(spec, status))
    requires var s := states[|states| - 1]; s.jobs == map[a := NewJob(a)] && s.clock <= a
    ensures IsHistory(spec, more) && |more| == |states| + 2
    ensures more[|states| + 1] == System(map[], states[|states| - 1].created, Some(a), a)
  {
    var s, job := states[|states| - 1], Job(a, Some(a), Some(a), status);
    var t, u := System(map[a := job], s.created, s.status, a), System(map[], s.created, Some(a), a);
    assert Progress(s, t);
    more := Extended(spec, states, t);
    assert Pass(spec, t, u, [job], sort, a, None) by {
      OnlyJobIsTrimmed(spec, sort, job);
      FirstIsDueOnce(spec, [job], a);
    }
    more := Extended(spec, more, u);
  }

  /** With no room for a job in one of the histories the record of the last run is deleted with its
      job, so the status time goes back and the same activation is started again. */
  lemma NoRoomRepeats(spec: Spec, sort: Sorter) returns (states: seq<System>)
    requires Sound(spec.schedule) && SortsByStart(sort) && !Remembers(spec)
    ensures IsHistory(spec, states) && !OnceOnly(states)
  {
    var a := Next(spec.schedule, spec.creation);
    var status := if KeepsOne(spec.failedLimit) then Complete else Failed;
    states := [System(map[], [], None, a)];
    states := StartsFirst(spec, sort, states, a);
    states := ForgetsFirst(spec, sort, states, a, status);
    states := StartsFirst(spec, sort, states, a);
    assert states[4].created == [a, a] && states[4].created[0] == states[4].created[1];
  }

  /** The controller starts each activation at most once, over every run, exactly when each history
      has room for one job or it starts nothing at all. */
  lemma OnceOnlyIff(spec: Spec, sort: Sorter)
    requires (Sound(spec.schedule) || Silent(spec.schedule)) && SortsByStart(sort)
    ensures Remembers(spec) <==> forall states :: IsHistory(spec, states) ==> OnceOnly(states)
  {
    if Remembers(spec) {
      forall states: seq<System> | IsHistory(spec, states) ensures OnceOnly(states) {
        forall i, j | 0 <= i <= j < |states|
          ensures Later(states[i].status, states[j].status) && Increasing(states[j].created)
        {
          EachActivationOnce(spec, states, i, j);
        }
      }
    } else {
      var states := NoRoomRepeats(spec, sort);
    }
  }
}

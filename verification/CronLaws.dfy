/** What one pass of the CronJob controller does to the cluster, said of the jobs themselves. */
module CronLaws {
  import opened CronSchedule
  import opened CronReconciler
  import opened Wrappers

  // ---- Classification ----

  /** The jobs of one status in the order of the listing: none of none, and each further job at the end
      if it has that status. */
  lemma HavingLast(s: seq<Job>, job: Job, status: JobStatus)
    ensures Having([], status) == []
    ensures Having(s + [job], status) == Having(s, status) + if job.status == status then [job] else []
  {
    assert (s + [job])[..|s|] == s;
  }

  // ---- Trimming ----

  ghost function OfStatus(jobs: map<int, Job>, status: JobStatus): set<int> {
    set n | n in jobs && jobs[n].status == status
  }

  /** Different jobs of a listing have different names. */
  ghost predicate NamedApart(s: seq<Job>) {
    forall i, j :: 0 <= i < j < |s| ==> s[i].name != s[j].name
  }

  lemma {:induction false} CountNames(s: seq<Job>)
    requires NamedApart(s)
    ensures |Names(s)| == |s|
  {
    if s == [] {
      assert Names(s) == {};
    } else {
      var n := |s| - 1;
      CountNames(s[..n]);
      assert s[n].name !in Names(s[..n]);
      assert Names(s) == Names(s[..n]) + {s[n].name};
    }
  }

  lemma TwiceIn(s: seq<Job>, i: nat, j: nat)
    requires i < j < |s| && s[i] == s[j]
    ensures multiset(s)[s[i]] >= 2
  {
    assert s == s[..j] + [s[j]] + s[j + 1..];
    assert s[i] in s[..j];
    assert multiset(s) == multiset(s[..j]) + multiset{s[j]} + multiset(s[j + 1..]);
  }

  /** A part of the jobs of one status, none taken twice, is named apart. */
  lemma PartNamedApart(listing: seq<Job>, jobs: map<int, Job>, status: JobStatus, part: seq<Job>, rest: seq<Job>)
    requires IsListing(listing, jobs) && multiset(part) + multiset(rest) == multiset(Having(listing, status))
    ensures NamedApart(part)
    ensures forall j :: j in part ==> j in listing && j.status == status
  {
    var all := Having(listing, status);
    HavingMembers(listing, status);
    forall j | j in part ensures j in listing && j.status == status {
      assert j in multiset(part) && j in multiset(all) && j in all;
    }
    forall i, j | 0 <= i < j < |part| ensures part[i].name != part[j].name {
      assert part[i] in part && part[j] in part;
      HavingOnce(listing, status, part[i]);
      assert multiset(part)[part[i]] <= multiset(all)[part[i]] <= 1;
      if part[i] == part[j] {
        TwiceIn(part, i, j);
      }
      ListingMembers(listing, jobs);
    }
  }

  /** The names of one kind of finished jobs are those that go and those that are kept. */
  lemma SplitNames(listing: seq<Job>, jobs: map<int, Job>, status: JobStatus, gone: seq<Job>, kept: seq<Job>)
    requires IsListing(listing, jobs) && multiset(gone) + multiset(kept) == multiset(Having(listing, status))
    ensures OfStatus(jobs, status) == Names(gone) + Names(kept)
    ensures Names(gone) !! Names(kept) && |Names(gone)| == |gone| && |Names(kept)| == |kept|
  {
    var all := Having(listing, status);
    PartNamedApart(listing, jobs, status, gone, kept);
    assert multiset(kept) + multiset(gone) == multiset(all);
    PartNamedApart(listing, jobs, status, kept, gone);
    CountNames(gone);
    CountNames(kept);
    assert multiset(gone + kept) == multiset(all) + multiset([]);
    PartNamedApart(listing, jobs, status, gone + kept, []);
    forall i, j | 0 <= i < |gone| && 0 <= j < |kept| ensures gone[i].name != kept[j].name {
      assert (gone + kept)[i] == gone[i] && (gone + kept)[|gone| + j] == kept[j];
    }
    StatusNames(listing, jobs, status, gone, kept);
  }

  lemma InOnePart(j: Job, gone: seq<Job>, kept: seq<Job>, all: seq<Job>)
    requires multiset(gone) + multiset(kept) == multiset(all)
    ensures j in all <==> j in gone || j in kept
  {
    assert j in all <==> j in multiset(all);
  }

  lemma NameIsOfStatus(listing: seq<Job>, jobs: map<int, Job>, status: JobStatus,
                       gone: seq<Job>, kept: seq<Job>, n: int)
    requires IsListing(listing, jobs) && multiset(gone) + multiset(kept) == multiset(Having(listing, status))
    requires n in Names(gone) + Names(kept)
    ensures n in OfStatus(jobs, status)
  {
    var j :| (j in gone || j in kept) && j.name == n;
    InOnePart(j, gone, kept, Having(listing, status));
    HavingMembers(listing, status);
    ListingMembers(listing, jobs);
  }

  lemma StatusNames(listing: seq<Job>, jobs: map<int, Job>, status: JobStatus, gone: seq<Job>, kept: seq<Job>)
    requires IsListing(listing, jobs) && multiset(gone) + multiset(kept) == multiset(Having(listing, status))
    ensures OfStatus(jobs, status) == Names(gone) + Names(kept)
  {
    forall n | n in OfStatus(jobs, status) ensures n in Names(gone) + Names(kept) {
      var j := jobs[n];
      assert j.name == n && j in listing by { ListingMembers(listing, jobs); }
      HavingMembers(listing, status);
      InOnePart(j, gone, kept, Having(listing, status));
    }
    forall n | n in Names(gone) + Names(kept) ensures n in OfStatus(jobs, status) {
      NameIsOfStatus(listing, jobs, status, gone, kept, n);
    }
  }

  ghost predicate KeepsUpTo(before: set<int>, after: set<int>, limit: Option<int>) {
    && after <= before
    && (limit.None? ==> after == before)
    && (limit.Some? ==>
          |after| == if |before| <= limit.value then |before| else if limit.value <= 0 then 0 else limit.value)
  }

  lemma TrimLeavesOf(jobs: map<int, Job>, left: map<int, Job>, listing: seq<Job>, sort: Sorter,
                     status: JobStatus, limit: Option<int>)
    requires IsListing(listing, jobs) && SortsByStart(sort)
    requires OfStatus(left, status) == OfStatus(jobs, status) - Names(Trimmed(sort, Having(listing, status), limit))
    ensures KeepsUpTo(OfStatus(jobs, status), OfStatus(left, status), limit)
  {
    var all := Having(listing, status);
    var gone := Trimmed(sort, all, limit);
    var kept := TrimmingKeepsNewest(sort, all, limit);
    SplitNames(listing, jobs, status, gone, kept);
    assert OfStatus(left, status) == Names(kept);
    assert |multiset(gone)| == |gone| && |multiset(kept)| == |kept| && |multiset(all)| == |all|;
    if limit.None? {
      assert gone == [];
    }
  }

  lemma TrimmedStatus(jobs: map<int, Job>, listing: seq<Job>, sort: Sorter, status: JobStatus, limit: Option<int>)
    requires IsListing(listing, jobs) && SortsByStart(sort)
    ensures Names(Trimmed(sort, Having(listing, status), limit)) <= OfStatus(jobs, status)
  {
    var kept := TrimmingKeepsNewest(sort, Having(listing, status), limit);
    SplitNames(listing, jobs, status, Trimmed(sort, Having(listing, status), limit), kept);
  }

  lemma RemovingTwice(jobs: map<int, Job>, f: set<int>, c: set<int>)
    requires f <= OfStatus(jobs, Failed) && c <= OfStatus(jobs, Complete)
    ensures var left := jobs - f - c;
            && Restricts(left, jobs) && OfStatus(left, Active) == OfStatus(jobs, Active)
            && OfStatus(left, Failed) == OfStatus(jobs, Failed) - f
            && OfStatus(left, Complete) == OfStatus(jobs, Complete) - c
  {
  }

  /** Of the failed and of the finished jobs as many are left as their limit allows, and all if there is
      none; jobs still active are left alone. */
  lemma TrimLeaves(spec: Spec, jobs: map<int, Job>, listing: seq<Job>, sort: Sorter)
    requires IsListing(listing, jobs) && SortsByStart(sort)
    ensures var left := AfterTrim(spec, jobs, listing, sort);
            && Restricts(left, jobs) && OfStatus(left, Active) == OfStatus(jobs, Active)
            && KeepsUpTo(OfStatus(jobs, Failed), OfStatus(left, Failed), spec.failedLimit)
            && KeepsUpTo(OfStatus(jobs, Complete), OfStatus(left, Complete), spec.successfulLimit)
  {
    var left := AfterTrim(spec, jobs, listing, sort);
    var f := Names(Trimmed(sort, Having(listing, Failed), spec.failedLimit));
    var c := Names(Trimmed(sort, Having(listing, Complete), spec.successfulLimit));
    assert f <= OfStatus(jobs, Failed) by { TrimmedStatus(jobs, listing, sort, Failed, spec.failedLimit); }
    assert c <= OfStatus(jobs, Complete) by { TrimmedStatus(jobs, listing, sort, Complete, spec.successfulLimit); }
    RemovingTwice(jobs, f, c);
    TrimLeavesOf(jobs, left, listing, sort, Failed, spec.failedLimit);
    TrimLeavesOf(jobs, left, listing, sort, Complete, spec.successfulLimit);
  }

  // ---- A whole pass ----

  /** What is left of the trimmed jobs when the new one is made: all, or under Replace all but the
      listed active ones. */
  lemma ReplaceClears(spec: Spec, jobs: map<int, Job>, listing: seq<Job>, sort: Sorter, run: Option<int>)
    requires IsListing(listing, jobs)
    ensures var left, cleared := AfterTrim(spec, jobs, listing, sort), Cleared(spec, jobs, listing, sort, run);
            if run.Some? && spec.replace
            then cleared == map n | n in left && left[n].status != Active :: left[n]
            else cleared == left
  {
    HavingMembers(listing, Active);
    ListingMembers(listing, jobs);
    var left := AfterTrim(spec, jobs, listing, sort);
    forall n | n in left ensures n in Names(Having(listing, Active)) <==> left[n].status == Active {
      var active := Having(listing, Active);
      assert left[n] == jobs[n] && jobs[n] in listing && jobs[n].name == n;
      if left[n].status == Active {
        assert left[n] in active;
        var i :| 0 <= i < |active| && active[i] == left[n];
        assert active[i].name in Names(active);
      }
      if n in Names(active) {
        var i :| 0 <= i < |active| && active[i].name == n;
        assert active[i] in active;
      }
    }
  }

  /** The run that was decided on has a job of its own after the pass; nothing else is added. */
  lemma StartMakesOne(spec: Spec, jobs: map<int, Job>, listing: seq<Job>, sort: Sorter, run: Option<int>)
    ensures var cleared, after := Cleared(spec, jobs, listing, sort, run), AfterPass(spec, jobs, listing, sort, run);
            && (run.None? ==> after == cleared)
            && (run.Some? ==>
                  after.Keys == cleared.Keys + {run.value} && forall n :: n in cleared ==> after[n] == cleared[n])
            && (run.Some? && run.value !in cleared ==>
                  after[run.value] == Job(run.value, Some(run.value), None, Active))
  {
  }

  /** A run is set out on exactly when the controller is not suspended, no more than 100 are due, it is
      the latest of those, and its deadline has not passed when that is checked. */
  lemma DecidesIff(spec: Spec, listing: seq<Job>, now: int, later: int, t: int)
    requires Sound(spec.schedule)
    ensures var last := MostRecent(listing);
            Decides(spec, listing, now, later, Some(t)) <==>
            && !spec.suspend && |DueRuns(spec.schedule, last, spec.creation, spec.deadline, now)| <= 100
            && Due(spec.schedule, last, spec.creation, spec.deadline, now, t)
            && (forall a :: Due(spec.schedule, last, spec.creation, spec.deadline, now, a) ==> a <= t)
            && (spec.deadline.Some? ==> later <= t + spec.deadline.value)
  {
    var s, last, e := spec.schedule, MostRecent(listing), Since(spec, listing, now);
    OutcomeOfMissed(s, last, spec.creation, spec.deadline, now);
    WindowIsDue(s, last, spec.creation, spec.deadline, now);
    SoundIsNotSilent(s);
    var found := Found(Some(t), Next(s, now));
    if IsMissed(s, e, now, found) {
      assert Decision(spec, found, later) ==
        if spec.suspend || (spec.deadline.Some? && t + spec.deadline.value < later) then None else Some(t);
    }
  }
}

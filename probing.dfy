/**
 * The connectivity check: every unique entry becomes a numbered job, each job
 * pings its address and, when it differs, its domain; the thread pool hands the
 * outcomes back in completion order, and the report puts them back in job order.
 *
 * A ping is the parameter `probe`: probe(index, host) is the answer the ping
 * that job `index` sends to `host` gets. Nothing else of the network is modelled.
 */
module Probing {
  import opened HostsParser

  datatype Job = Job(index: nat, total: nat, ip: string, domain: string, category: string)

  /** The dictionary ping_with_info returns. */
  datatype Outcome = Outcome(
    index: nat, ip: string, domain: string, category: string,
    ipSuccess: bool, domainSuccess: bool, success: bool)

  type Probe = (nat, string) -> bool

  /** args_list: the entries numbered from 1, each with the number of entries. */
  function Jobs(entries: seq<Entry>): seq<Job> {
    seq(|entries|, i requires 0 <= i < |entries| =>
      Job(i + 1, |entries|, entries[i].ip, entries[i].domain, entries[i].category))
  }

  function EntryOf(job: Job): Entry {
    Entry(job.ip, job.domain, job.category)
  }

  /** Jobs are numbered 1, 2, ..., n in entry order, and each carries its entry unchanged. */
  lemma JobsNumbered(entries: seq<Entry>)
    ensures |Jobs(entries)| == |entries|
    ensures forall i :: 0 <= i < |entries| ==>
      Jobs(entries)[i].index == i + 1 && Jobs(entries)[i].total == |entries| && EntryOf(Jobs(entries)[i]) == entries[i]
  {
  }

  /** Reading the entries back from the jobs gives the entries again. */
  lemma JobsRoundTrip(entries: seq<Entry>)
    ensures seq(|Jobs(entries)|, i requires 0 <= i < |Jobs(entries)| => EntryOf(Jobs(entries)[i])) == entries
  {
  }

  /** ping_with_info: the address is always pinged; the domain is pinged whenever it
      is a different string, whatever the address's answer. */
  function PingWithInfo(job: Job, probe: Probe): (r: Outcome)
    ensures r.index == job.index && r.ip == job.ip && r.domain == job.domain && r.category == job.category
    ensures r.ipSuccess == probe(job.index, job.ip)
    ensures r.domainSuccess == (job.domain != job.ip && probe(job.index, job.domain))
    ensures r.success <==> r.ipSuccess || r.domainSuccess
    ensures r.success <==> probe(job.index, job.ip) || (job.domain != job.ip && probe(job.index, job.domain))
    ensures !r.domainSuccess || job.domain != job.ip
  {
    var ipSuccess := probe(job.index, job.ip);
    var domainSuccess := if job.domain != job.ip then probe(job.index, job.domain) else false;
    Outcome(job.index, job.ip, job.domain, job.category, ipSuccess, domainSuccess, ipSuccess || domainSuccess)
  }

  /** The check the comment before the domain ping describes: the domain tried only
      after the address failed. */
  function PingDomainOnFailure(job: Job, probe: Probe): Outcome {
    var ipSuccess := probe(job.index, job.ip);
    var domainSuccess := !ipSuccess && job.domain != job.ip && probe(job.index, job.domain);
    Outcome(job.index, job.ip, job.domain, job.category, ipSuccess, domainSuccess, ipSuccess || domainSuccess)
  }

  /** Pinging the domain regardless changes the reported domain column only, never the
      overall status: the two readings differ exactly when the address answered and
      the domain, a different string, answered too. */
  lemma DomainPingedRegardless(job: Job, probe: Probe)
    ensures PingWithInfo(job, probe).success == PingDomainOnFailure(job, probe).success
    ensures PingWithInfo(job, probe).(domainSuccess := false) == PingDomainOnFailure(job, probe).(domainSuccess := false)
    ensures PingWithInfo(job, probe) != PingDomainOnFailure(job, probe) <==>
      probe(job.index, job.ip) && job.domain != job.ip && probe(job.index, job.domain)
  {
  }

  /** The outcomes of the jobs, in job order. */
  function Outcomes(jobs: seq<Job>, probe: Probe): seq<Outcome> {
    seq(|jobs|, i requires 0 <= i < |jobs| => PingWithInfo(jobs[i], probe))
  }

  lemma MultisetSplit(s: seq<Outcome>, t: nat)
    requires t < |s|
    ensures multiset(s) == multiset(s[..t] + s[t + 1..]) + multiset{s[t]}
  {
    assert s == s[..t] + [s[t]] + s[t + 1..];
  }

  /** Taking one job out of the pending ones takes its outcome out of theirs. */
  lemma TakeOut(pending: seq<Job>, t: nat, probe: Probe)
    requires t < |pending|
    ensures multiset(Outcomes(pending, probe))
      == multiset(Outcomes(pending[..t] + pending[t + 1..], probe)) + multiset{PingWithInfo(pending[t], probe)}
  {
    var o := Outcomes(pending, probe);
    var rest := pending[..t] + pending[t + 1..];
    assert Outcomes(rest, probe) == o[..t] + o[t + 1..] by {
      forall i | 0 <= i < |rest|
        ensures Outcomes(rest, probe)[i] == (o[..t] + o[t + 1..])[i]
      {
        if i < t {
          assert rest[i] == pending[i];
        } else {
          assert rest[i] == pending[i + 1];
        }
      }
    }
    MultisetSplit(o, t);
  }

  /** The pool with as_completed: every submitted job finishes exactly once, in an
      order the model does not fix. */
  method CollectResults(jobs: seq<Job>, probe: Probe) returns (results: seq<Outcome>)
    ensures multiset(results) == multiset(Outcomes(jobs, probe))
  {
    results := [];
    var pending := jobs;
    while pending != []
      invariant multiset(results) + multiset(Outcomes(pending, probe)) == multiset(Outcomes(jobs, probe))
      decreases |pending|
    {
      var t :| 0 <= t < |pending|;
      var outcome := PingWithInfo(pending[t], probe);
      TakeOut(pending, t, probe);
      results := results + [outcome];
      pending := pending[..t] + pending[t + 1..];
    }
  }

  // ---------------------------------------------------------------------------
  // sorted(results, key=lambda x: x['index'])

  predicate SortedByIndex(s: seq<Outcome>) {
    forall i, j :: 0 <= i < j < |s| ==> s[i].index <= s[j].index
  }

  /** Inserts o after every outcome whose index is not larger, as a stable sort does. */
  function Insert(o: Outcome, s: seq<Outcome>): (r: seq<Outcome>)
    ensures multiset(r) == multiset(s) + multiset{o}
    decreases |s|
  {
    if s == [] then [o]
    else if o.index < s[0].index then [o] + s
    else
      assert s == [s[0]] + s[1..];
      [s[0]] + Insert(o, s[1..])
  }

  lemma {:induction false} InsertElements(o: Outcome, s: seq<Outcome>)
    ensures forall y :: y in Insert(o, s) ==> y == o || y in s
    decreases |s|
  {
    if s != [] && o.index >= s[0].index {
      InsertElements(o, s[1..]);
    }
  }

  lemma {:induction false} InsertSorted(o: Outcome, s: seq<Outcome>)
    requires SortedByIndex(s)
    ensures SortedByIndex(Insert(o, s))
    decreases |s|
  {
    if s != [] && o.index >= s[0].index {
      var tail := s[1..];
      InsertSorted(o, tail);
      InsertElements(o, tail);
      var rest := Insert(o, tail);
      assert forall y :: y in tail ==> s[0].index <= y.index;
      var r := [s[0]] + rest;
      forall i, j | 0 <= i < j < |r|
        ensures r[i].index <= r[j].index
      {
        assert r[j] == rest[j - 1];
        if i > 0 {
          assert r[i] == rest[i - 1];
        }
      }
    }
  }

  function SortByIndex(s: seq<Outcome>): (r: seq<Outcome>)
    ensures multiset(r) == multiset(s)
    ensures SortedByIndex(r)
    decreases |s|
  {
    if s == [] then []
    else
      var n := |s| - 1;
      assert s == s[..n] + [s[n]];
      InsertSorted(s[n], SortByIndex(s[..n]));
      Insert(s[n], SortByIndex(s[..n]))
  }

  /** Outcomes numbered 1, 2, ..., n in order. */
  predicate NumberedFrom(s: seq<Outcome>, first: nat) {
    forall i :: 0 <= i < |s| ==> s[i].index == first + i
  }

  /** The first outcome of a sorted permutation is the lowest-numbered one. */
  lemma SortedHead(s: seq<Outcome>, r: seq<Outcome>, first: nat)
    requires SortedByIndex(s) && NumberedFrom(r, first)
    requires multiset(s) == multiset(r) && r != []
    ensures s != [] && s[0] == r[0]
  {
    assert |s| == |multiset(s)| == |r|;
    assert r[0] in multiset(s);
    assert s[0] in multiset(r);
    var i :| 0 <= i < |r| && r[i] == s[0];
    var j :| 0 <= j < |s| && s[j] == r[0];
    assert r[i].index == first + i;
    assert s[0].index <= s[j].index;
  }

  lemma DropHead(s: seq<Outcome>, r: seq<Outcome>)
    requires multiset(s) == multiset(r) && s != [] && r != [] && s[0] == r[0]
    ensures multiset(s[1..]) == multiset(r[1..])
  {
    assert s == [s[0]] + s[1..] && r == [r[0]] + r[1..];
    assert multiset(s[1..]) == multiset(s) - multiset{s[0]};
    assert multiset(r[1..]) == multiset(r) - multiset{r[0]};
  }

  /** A sorted permutation of outcomes numbered consecutively is those outcomes in order. */
  lemma {:induction false} SortedPermutationUnique(s: seq<Outcome>, r: seq<Outcome>, first: nat)
    requires SortedByIndex(s) && NumberedFrom(r, first)
    requires multiset(s) == multiset(r)
    ensures s == r
    decreases |r|
  {
    if r == [] {
      assert |s| == |multiset(s)| == 0;
    } else {
      SortedHead(s, r, first);
      DropHead(s, r);
      var s', r' := s[1..], r[1..];
      assert SortedByIndex(s');
      assert NumberedFrom(r', first + 1) by {
        forall k | 0 <= k < |r'|
          ensures r'[k].index == first + 1 + k
        {
          assert r'[k] == r[k + 1];
        }
      }
      SortedPermutationUnique(s', r', first + 1);
      assert s == [s[0]] + s' && r == [r[0]] + r';
    }
  }

  /** Whatever order the pool finishes in, the report's rows are the entries' outcomes
      in entry order. */
  lemma CollectedInEntryOrder(entries: seq<Entry>, probe: Probe, results: seq<Outcome>)
    requires multiset(results) == multiset(Outcomes(Jobs(entries), probe))
    ensures SortByIndex(results) == Outcomes(Jobs(entries), probe)
  {
    var jobs := Jobs(entries);
    var r := Outcomes(jobs, probe);
    assert NumberedFrom(r, 1);
    SortedPermutationUnique(SortByIndex(results), r, 1);
  }
}

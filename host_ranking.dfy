/**
 * Ranking of the cloud's Docker hosts: the hosts whose status and running-job
 * count can be read and that have room for another job, each paired with its
 * remaining capacity, sorted from the most to the least remaining capacity.
 */
module HostRanking {
  import opened Common

  /**
   * A Docker host as the cloud sees it. The results of its remote calls are
   * data here: whether status() answers, what countRunningJobs() answers
   * (None when it throws), and whether provisionSlave() succeeds or throws
   * an IOException.
   */
  datatype Host = Host(name: string, statusOk: bool, runningJobs: Option<nat>, provisionOk: bool)

  /** HostCount: a host and its remaining capacity. */
  datatype HostCount = HostCount(host: Host, capacity: Int32)

  /** HostCount.compareTo: `other.capacity - this.capacity` in Java int arithmetic. */
  function Compare(self: HostCount, other: HostCount): Int32
  {
    Wrap32(other.capacity - self.capacity)
  }

  /** For capacities that are not negative the subtraction cannot wrap: the larger capacity sorts first, equal ones compare equal. */
  lemma CompareOfCapacities(a: HostCount, b: HostCount)
    requires a.capacity >= 0 && b.capacity >= 0
    ensures Compare(a, b) == b.capacity - a.capacity
    ensures Compare(a, b) < 0 <==> a.capacity > b.capacity
    ensures Compare(a, b) == 0 <==> a.capacity == b.capacity
  {
  }

  // ---------------------------------------------------------------------
  // Which hosts are available
  // ---------------------------------------------------------------------

  /** A host is listed when its status and count queries succeed and its count is below the limit. */
  predicate Listed(h: Host, maxExecutors: Int32)
  {
    h.statusOk && h.runningJobs.Some? && h.runningJobs.value < maxExecutors
  }

  /** The entry a host contributes to the list: none, or its remaining capacity. */
  function Entry(h: Host, maxExecutors: Int32): (r: seq<HostCount>)
    ensures |r| <= 1
    ensures r != [] <==> Listed(h, maxExecutors)
    ensures r != [] ==> r[0].host == h && r[0].capacity == maxExecutors - h.runningJobs.value
    ensures r != [] ==> 1 <= r[0].capacity <= maxExecutors
  {
    if Listed(h, maxExecutors) then [HostCount(h, maxExecutors - h.runningJobs.value)] else []
  }

  /** The available hosts in the order listHosts() returns them. */
  function Available(hosts: seq<Host>, maxExecutors: Int32): seq<HostCount>
  {
    if hosts == [] then []
    else Available(hosts[..|hosts| - 1], maxExecutors) + Entry(hosts[|hosts| - 1], maxExecutors)
  }

  /**
   * Every listed entry is a host of the cloud whose queries succeeded and
   * whose count is below the limit, paired with the limit minus the count,
   * which lies in 1..maxExecutors; hosts whose queries throw are left out.
   */
  lemma {:induction false} AvailableEntries(hosts: seq<Host>, maxExecutors: Int32)
    ensures forall k :: 0 <= k < |Available(hosts, maxExecutors)| ==>
      var e := Available(hosts, maxExecutors)[k];
      e.host in hosts && Listed(e.host, maxExecutors) &&
      e.capacity == maxExecutors - e.host.runningJobs.value && 1 <= e.capacity <= maxExecutors
  {
    if hosts != [] {
      var init := hosts[..|hosts| - 1];
      AvailableEntries(init, maxExecutors);
      assert forall h :: h in init ==> h in hosts;
    }
  }

  /** Conversely, every host of the cloud whose queries succeed and whose count is below the limit is listed. */
  lemma {:induction false} ListedHostsAreAvailable(hosts: seq<Host>, maxExecutors: Int32)
    ensures forall h :: h in hosts && Listed(h, maxExecutors) ==>
      HostCount(h, maxExecutors - h.runningJobs.value) in Available(hosts, maxExecutors)
  {
    if hosts != [] {
      var init := hosts[..|hosts| - 1];
      ListedHostsAreAvailable(init, maxExecutors);
      assert hosts == init + [hosts[|hosts| - 1]];
    }
  }

  /** Every entry of the available list has a capacity that is not negative. */
  predicate NonNegative(s: seq<HostCount>)
  {
    forall k :: 0 <= k < |s| ==> s[k].capacity >= 0
  }

  lemma AvailableNonNegative(hosts: seq<Host>, maxExecutors: Int32)
    ensures NonNegative(Available(hosts, maxExecutors))
  {
    AvailableEntries(hosts, maxExecutors);
  }

  // ---------------------------------------------------------------------
  // Collections.sort with compareTo
  // ---------------------------------------------------------------------

  /** Inserts x in front of the first entry it does not sort after. */
  function Insert(x: HostCount, s: seq<HostCount>): (r: seq<HostCount>)
    ensures |r| == |s| + 1
  {
    if s == [] then [x]
    else if Compare(x, s[0]) <= 0 then [x] + s
    else [s[0]] + Insert(x, s[1..])
  }

  /** A stable sort by compareTo: each entry is inserted ahead of the entries with the same capacity that follow it. */
  function SortByCapacity(s: seq<HostCount>): (r: seq<HostCount>)
    ensures |r| == |s|
  {
    if s == [] then [] else Insert(s[0], SortByCapacity(s[1..]))
  }

  /** From the most to the least remaining capacity. */
  predicate SortedByCapacity(s: seq<HostCount>)
  {
    forall i, j :: 0 <= i < j < |s| ==> s[i].capacity >= s[j].capacity
  }

  /** The entries with capacity c, in order. */
  function WithCapacity(s: seq<HostCount>, c: int): seq<HostCount>
  {
    if s == [] then []
    else (if s[0].capacity == c then [s[0]] else []) + WithCapacity(s[1..], c)
  }

  lemma {:induction false} InsertPermutes(x: HostCount, s: seq<HostCount>)
    ensures multiset(Insert(x, s)) == multiset(s) + multiset{x}
  {
    if s != [] && Compare(x, s[0]) > 0 {
      InsertPermutes(x, s[1..]);
      assert s == [s[0]] + s[1..];
    }
  }

  /** Collections.sort only reorders: the sorted list has the same entries, each as often. */
  lemma {:induction false} SortPermutes(s: seq<HostCount>)
    ensures multiset(SortByCapacity(s)) == multiset(s)
  {
    if s != [] {
      SortPermutes(s[1..]);
      InsertPermutes(s[0], SortByCapacity(s[1..]));
      assert s == [s[0]] + s[1..];
    }
  }

  /** Every entry after inserting is x or an entry that was there before. */
  lemma {:induction false} InsertElements(x: HostCount, s: seq<HostCount>)
    ensures forall k :: 0 <= k < |Insert(x, s)| ==> Insert(x, s)[k] == x || Insert(x, s)[k] in s
  {
    if s != [] && Compare(x, s[0]) > 0 {
      InsertElements(x, s[1..]);
      var t := Insert(x, s[1..]);
      assert Insert(x, s) == [s[0]] + t;
      assert forall k :: 0 < k < |Insert(x, s)| ==> Insert(x, s)[k] == t[k - 1];
      assert forall y :: y in s[1..] ==> y in s;
    }
  }

  lemma {:induction false} InsertSorted(x: HostCount, s: seq<HostCount>)
    requires x.capacity >= 0 && NonNegative(s) && SortedByCapacity(s)
    ensures SortedByCapacity(Insert(x, s))
    ensures NonNegative(Insert(x, s))
  {
    InsertElements(x, s);
    if s != [] {
      CompareOfCapacities(x, s[0]);
      if Compare(x, s[0]) > 0 {
        var tail := s[1..];
        assert NonNegative(tail) && SortedByCapacity(tail);
        InsertSorted(x, tail);
        var t := Insert(x, tail);
        InsertElements(x, tail);
        assert forall k :: 0 <= k < |t| ==> t[k].capacity <= s[0].capacity by {
          forall k | 0 <= k < |t| ensures t[k].capacity <= s[0].capacity {
            if t[k] != x {
              var m :| 0 <= m < |tail| && tail[m] == t[k];
              assert tail[m] == s[m + 1];
            }
          }
        }
        var r := Insert(x, s);
        assert r == [s[0]] + t;
        assert forall k :: 0 < k < |r| ==> r[k] == t[k - 1];
      }
    }
  }

  /** With capacities not negative, Collections.sort leaves the list in non-increasing order of capacity. */
  lemma {:induction false} SortIsSorted(s: seq<HostCount>)
    requires NonNegative(s)
    ensures SortedByCapacity(SortByCapacity(s))
    ensures NonNegative(SortByCapacity(s))
  {
    if s != [] {
      assert NonNegative(s[1..]);
      SortIsSorted(s[1..]);
      InsertSorted(s[0], SortByCapacity(s[1..]));
    }
  }

  lemma WithCapacityCons(y: HostCount, t: seq<HostCount>, c: int)
    ensures WithCapacity([y] + t, c) == (if y.capacity == c then [y] else []) + WithCapacity(t, c)
  {
    assert ([y] + t)[0] == y && ([y] + t)[1..] == t;
  }

  lemma {:induction false} InsertKeepsCapacityOrder(x: HostCount, s: seq<HostCount>, c: int)
    requires x.capacity >= 0 && NonNegative(s)
    ensures WithCapacity(Insert(x, s), c) == (if x.capacity == c then [x] else []) + WithCapacity(s, c)
  {
    if s == [] {
      WithCapacityCons(x, [], c);
      assert [x] + [] == [x];
    } else {
      CompareOfCapacities(x, s[0]);
      if Compare(x, s[0]) > 0 {
        assert NonNegative(s[1..]);
        InsertKeepsCapacityOrder(x, s[1..], c);
        WithCapacityCons(s[0], Insert(x, s[1..]), c);
        WithCapacityCons(s[0], s[1..], c);
        assert [s[0]] + s[1..] == s;
        if x.capacity == c {
          assert s[0].capacity != c;
        }
      } else {
        WithCapacityCons(x, s, c);
      }
    }
  }

  /** Stability: the entries with any one capacity keep the order they had before the sort. */
  lemma {:induction false} SortIsStable(s: seq<HostCount>, c: int)
    requires NonNegative(s)
    ensures WithCapacity(SortByCapacity(s), c) == WithCapacity(s, c)
  {
    if s != [] {
      SortIsStable(s[1..], c);
      SortIsSorted(s[1..]);
      InsertKeepsCapacityOrder(s[0], SortByCapacity(s[1..]), c);
    }
  }

  // ---------------------------------------------------------------------
  // listAvailableHosts
  // ---------------------------------------------------------------------

  /** The available hosts in ranked order. */
  function Ranked(hosts: seq<Host>, maxExecutors: Int32): seq<HostCount>
  {
    SortByCapacity(Available(hosts, maxExecutors))
  }

  /**
   * listAvailableHosts: one pass over the hosts collecting the available
   * ones with their remaining capacity, then Collections.sort.
   */
  method ListAvailableHosts(hosts: seq<Host>, maxExecutors: Int32) returns (ranked: seq<HostCount>)
    ensures ranked == Ranked(hosts, maxExecutors)
    ensures SortedByCapacity(ranked)
    ensures multiset(ranked) == multiset(Available(hosts, maxExecutors))
  {
    var available: seq<HostCount> := [];
    var i := 0;
    while i < |hosts|
      invariant 0 <= i <= |hosts|
      invariant available == Available(hosts[..i], maxExecutors)
    {
      var host := hosts[i];
      assert hosts[..i + 1][..i] == hosts[..i];
      assert Available(hosts[..i + 1], maxExecutors) == available + Entry(host, maxExecutors);
      if host.statusOk && host.runningJobs.Some? {
        var count := host.runningJobs.value;
        if count < maxExecutors {
          available := available + [HostCount(host, maxExecutors - count)];
        }
      }
      i := i + 1;
    }
    assert hosts[..i] == hosts;
    AvailableNonNegative(hosts, maxExecutors);
    SortIsSorted(available);
    SortPermutes(available);
    ranked := SortByCapacity(available);
  }

  /**
   * The ranked list holds exactly the available hosts, most remaining
   * capacity first, hosts of equal capacity in listHosts() order.
   */
  lemma RankedHosts(hosts: seq<Host>, maxExecutors: Int32, c: int)
    ensures SortedByCapacity(Ranked(hosts, maxExecutors))
    ensures multiset(Ranked(hosts, maxExecutors)) == multiset(Available(hosts, maxExecutors))
    ensures WithCapacity(Ranked(hosts, maxExecutors), c) == WithCapacity(Available(hosts, maxExecutors), c)
  {
    AvailableNonNegative(hosts, maxExecutors);
    SortIsSorted(Available(hosts, maxExecutors));
    SortPermutes(Available(hosts, maxExecutors));
    SortIsStable(Available(hosts, maxExecutors), c);
  }

  /** Every ranked entry is an available host with capacity in 1..maxExecutors. */
  lemma RankedEntries(hosts: seq<Host>, maxExecutors: Int32)
    ensures forall e :: e in Ranked(hosts, maxExecutors) ==>
      e.host in hosts && Listed(e.host, maxExecutors) &&
      e.capacity == maxExecutors - e.host.runningJobs.value && 1 <= e.capacity <= maxExecutors
  {
    var avail := Available(hosts, maxExecutors);
    AvailableEntries(hosts, maxExecutors);
    SortPermutes(avail);
    forall e | e in Ranked(hosts, maxExecutors)
      ensures e.host in hosts && Listed(e.host, maxExecutors)
      ensures e.capacity == maxExecutors - e.host.runningJobs.value && 1 <= e.capacity <= maxExecutors
    {
      assert e in multiset(avail);
      var k :| 0 <= k < |avail| && avail[k] == e;
    }
  }

  /** A host with strictly more remaining capacity is ranked ahead of one with less. */
  lemma RankedMonotonic(hosts: seq<Host>, maxExecutors: Int32, i: nat, j: nat)
    requires i < |Ranked(hosts, maxExecutors)| && j < |Ranked(hosts, maxExecutors)|
    requires Ranked(hosts, maxExecutors)[i].capacity > Ranked(hosts, maxExecutors)[j].capacity
    ensures i < j
  {
    RankedHosts(hosts, maxExecutors, 0);
  }
}

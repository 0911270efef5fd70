/**
 * The descriptor set buildPollFds hands to poll: the listening socket
 * first, then every mapped fd in ascending order, as the scan of the fd
 * table from 0 up to MAX_FD_VAL meets them.
 */
module PollSet {
  import opened Defs

  /** The mapped fds below hi, in the order the table scan meets them. */
  function MappedFds(keys: set<int>, hi: nat): seq<int>
    decreases hi
  {
    if hi == 0 then []
    else MappedFds(keys, hi - 1) + (if hi - 1 in keys then [hi - 1] else [])
  }

  /** Strictly ascending, so no fd is watched twice, and exactly the mapped fds below hi. */
  lemma {:induction false} MappedFdsAscending(keys: set<int>, hi: nat)
    ensures forall i, j :: 0 <= i < j < |MappedFds(keys, hi)| ==> MappedFds(keys, hi)[i] < MappedFds(keys, hi)[j]
    ensures forall fd :: fd in MappedFds(keys, hi) <==> fd in keys && 0 <= fd < hi
  {
    if hi > 0 {
      MappedFdsAscending(keys, hi - 1);
      var s := MappedFds(keys, hi - 1);
      assert forall i :: 0 <= i < |s| ==> s[i] < hi - 1 by {
        forall i | 0 <= i < |s| ensures s[i] < hi - 1 {
          assert s[i] in s;
        }
      }
    }
  }

  /** The length of the scan result is the number of mapped fds below hi. */
  lemma {:induction false} MappedFdsCount(keys: set<int>, hi: nat)
    ensures |MappedFds(keys, hi)| == |set fd | fd in keys && 0 <= fd < hi|
  {
    if hi > 0 {
      MappedFdsCount(keys, hi - 1);
      var below := set fd | fd in keys && 0 <= fd < hi - 1;
      var upto := set fd | fd in keys && 0 <= fd < hi;
      if hi - 1 in keys {
        assert upto == below + {hi - 1};
        assert hi - 1 !in below;
      } else {
        assert upto == below;
      }
    }
  }

  /** With every key below MAX_FD_VAL the scan has one entry per key. */
  lemma ScanCount(keys: set<int>)
    requires forall fd :: fd in keys ==> 0 <= fd < MAX_FD_VAL
    ensures |MappedFds(keys, MAX_FD_VAL)| == |keys|
  {
    MappedFdsCount(keys, MAX_FD_VAL);
    assert (set fd | fd in keys && 0 <= fd < MAX_FD_VAL) == keys;
  }

  /** With every key below MAX_FD_VAL the scan finds every mapped fd, once. */
  lemma AllMapped(keys: set<int>)
    requires forall fd :: fd in keys ==> 0 <= fd < MAX_FD_VAL
    ensures |MappedFds(keys, MAX_FD_VAL)| == |keys|
    ensures forall fd :: fd in MappedFds(keys, MAX_FD_VAL) <==> fd in keys
  {
    ScanCount(keys);
    MappedFdsAscending(keys, MAX_FD_VAL);
  }

  /** One more step of the table scan. */
  lemma MappedFdsStep(keys: set<int>, fd: nat)
    ensures fd in keys ==> MappedFds(keys, fd + 1) == MappedFds(keys, fd) + [fd]
    ensures fd !in keys ==> MappedFds(keys, fd + 1) == MappedFds(keys, fd)
  {
  }

  /** The scan below lo is a prefix of the scan below hi. */
  lemma {:induction false} MappedFdsPrefix(keys: set<int>, lo: nat, hi: nat)
    requires lo <= hi
    ensures |MappedFds(keys, lo)| <= |MappedFds(keys, hi)|
    ensures MappedFds(keys, lo) == MappedFds(keys, hi)[..|MappedFds(keys, lo)|]
    decreases hi - lo
  {
    if lo < hi {
      MappedFdsPrefix(keys, lo, hi - 1);
    }
  }

  /** The fds poll watches: the listening socket, then the mapped fds. */
  function Watched(sd: int, keys: set<int>): (w: seq<int>)
    ensures |w| >= 1 && w[0] == sd
  {
    [sd] + MappedFds(keys, MAX_FD_VAL)
  }

  /** The events asked for at entry i. */
  function EventsAt(i: nat): bv16 {
    if i == 0 then POLLIN else POLLIN | POLLRDHUP
  }

  /** The first numFds entries watch Watched(sd, keys), entry by entry. */
  predicate Mirrored(sd: int, keys: set<int>, numFds: int, entries: seq<PollFd>) {
    var w := Watched(sd, keys);
    && numFds == |w| <= |entries|
    && forall i :: 0 <= i < numFds ==> entries[i].fd == w[i] && entries[i].events == EventsAt(i)
  }

  /** While the scan is below MAX_FD_VAL, meeting one more mapped fd still fits the table's count. */
  lemma ScanRoom(keys: set<int>, fd: nat)
    requires forall k :: k in keys ==> 0 <= k < MAX_FD_VAL
    requires fd in keys
    ensures |MappedFds(keys, fd)| + 1 <= |keys|
  {
    MappedFdsStep(keys, fd);
    MappedFdsPrefix(keys, fd + 1, MAX_FD_VAL);
    ScanCount(keys);
  }

  /** The first |w| entries watch w, entry by entry, with cleared revents. */
  predicate Filled(entries: seq<PollFd>, w: seq<int>) {
    |w| <= |entries| && forall i :: 0 <= i < |w| ==> entries[i] == PollFd(w[i], EventsAt(i), 0)
  }

  /** Writing the entry for one more fd extends what is filled. */
  lemma FilledExtend(entries: seq<PollFd>, w: seq<int>, fd: int)
    requires Filled(entries, w) && 1 <= |w| < |entries|
    ensures Filled(entries[|w| := PollFd(fd, POLLIN | POLLRDHUP, 0)], w + [fd])
  {
  }

  /**
   * The writes of buildPollFds: entry 0 for the listening socket sd, then
   * one entry per mapped fd as the scan of the table meets it, each with
   * cleared revents. The array is written without a bound check.
   */
  method FillPollFds(pollFds: array<PollFd>, sd: int, fdMap: map<int, Rider>) returns (n: int)
    requires forall fd :: fd in fdMap ==> 0 <= fd < MAX_FD_VAL
    requires 1 + |fdMap| <= pollFds.Length
    modifies pollFds
    ensures n == |Watched(sd, fdMap.Keys)| <= pollFds.Length
    ensures Filled(pollFds[..], Watched(sd, fdMap.Keys))
  {
    ghost var keys := fdMap.Keys;
    assert |keys| == |fdMap|;
    n := 0;
    pollFds[n] := PollFd(sd, POLLIN, 0);
    n := n + 1;
    ghost var w: seq<int> := [sd];
    var fd := 0;
    while fd < MAX_FD_VAL
      invariant 0 <= fd <= MAX_FD_VAL
      invariant w == [sd] + MappedFds(keys, fd)
      invariant n == |w| <= pollFds.Length
      invariant Filled(pollFds[..], w)
    {
      MappedFdsStep(keys, fd);
      if fd in fdMap {
        ScanRoom(keys, fd);
        FilledExtend(pollFds[..], w, fd);
        pollFds[n] := PollFd(fd, POLLIN | POLLRDHUP, 0);
        n := n + 1;
        w := w + [fd];
      }
      fd := fd + 1;
    }
  }

  /** A subset is no larger. */
  lemma SubsetCard(a: set<int>, b: set<int>)
    requires a <= b
    ensures |a| <= |b|
  {
    assert b == a + (b - a);
    assert a * (b - a) == {};
  }
}

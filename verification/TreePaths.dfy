/** Which entries of a tree the walk of internal/ml/detector.go reports, and in which order. */
module TreePaths {
  import opened Walking

  /** `ip` says which entry to take in each listing on the way down: none of them is filtered, and
      all but the last are readable directories. */
  predicate Leads(lim: Limits, listing: seq<Entry>, ip: seq<nat>)
    decreases |ip|
  {
    && ip != [] && ip[0] < |listing| && !Filtered(lim, listing[ip[0]])
    && (|ip| > 1 ==>
          listing[ip[0]].Dir? && listing[ip[0]].readable && Leads(lim, listing[ip[0]].listing, ip[1..]))
  }

  /** The entry at the end of the way, under its names from the listing down. */
  function ReportAt(lim: Limits, listing: seq<Entry>, ip: seq<nat>): Report
    requires Leads(lim, listing, ip)
    decreases |ip|
  {
    var e := listing[ip[0]];
    if |ip| == 1 then Report([e.name], e.Dir?, SizeOf(e))
    else Prefixed([e.name], ReportAt(lim, e.listing, ip[1..]))
  }

  function Prefixed(path: seq<string>, r: Report): Report {
    r.(path := path + r.path)
  }

  /** A directory's own way is before the ways through it, and those are in the order of its listing. */
  predicate Less(p: seq<nat>, q: seq<nat>)
    decreases |p|
  {
    q != [] && (p == [] || p[0] < q[0] || (p[0] == q[0] && Less(p[1..], q[1..])))
  }

  ghost predicate Ascending(ips: seq<seq<nat>>) {
    forall j, k :: 0 <= j < k < |ips| ==> Less(ips[j], ips[k])
  }

  /** `ip` leads to an entry that the walk comes to from this depth on, with a first step in [lo, hi). */
  predicate Due(lim: Limits, listing: seq<Entry>, lo: nat, hi: nat, depth: nat, ip: seq<nat>) {
    Leads(lim, listing, ip) && lo <= ip[0] < hi && !TooDeep(lim, depth + |ip| - 1)
  }

  ghost predicate ReportsMatch(lim: Limits, listing: seq<Entry>, path: seq<string>, rs: seq<Report>,
                               ips: seq<seq<nat>>) {
    |rs| == |ips| &&
    forall k :: 0 <= k < |ips| ==>
      Leads(lim, listing, ips[k]) && rs[k] == Prefixed(path, ReportAt(lim, listing, ips[k]))
  }

  ghost predicate Exactly(lim: Limits, listing: seq<Entry>, lo: nat, hi: nat, depth: nat, ips: seq<seq<nat>>) {
    Ascending(ips) && forall ip :: ip in ips <==> Due(lim, listing, lo, hi, depth, ip)
  }

  lemma Join(lim: Limits, listing: seq<Entry>, lo: nat, mid: nat, hi: nat, depth: nat,
             front: seq<seq<nat>>, back: seq<seq<nat>>)
    requires lo <= mid <= hi
    requires Exactly(lim, listing, lo, mid, depth, front) && Exactly(lim, listing, mid, hi, depth, back)
    ensures Exactly(lim, listing, lo, hi, depth, front + back)
  {
    forall j, k | 0 <= j < |front| && 0 <= k < |back| ensures Less(front[j], back[k]) {
      assert front[j] in front && back[k] in back;
    }
  }

  /** Ways one step longer, with `i` as the first one. */
  function Under(i: nat, ips: seq<seq<nat>>): (r: seq<seq<nat>>)
    ensures |r| == |ips| && forall k :: 0 <= k < |ips| ==> r[k] == [i] + ips[k]
  {
    seq(|ips|, k requires 0 <= k < |ips| => [i] + ips[k])
  }

  lemma StepIn(i: nat, ip: seq<nat>)
    ensures ([i] + ip)[1..] == ip && ([i] + ip)[0] == i
  {
  }

  lemma UnderAscending(i: nat, ips: seq<seq<nat>>)
    requires Ascending(ips) && forall ip :: ip in ips ==> ip != []
    ensures Ascending([[i]] + Under(i, ips))
  {
    var all := [[i]] + Under(i, ips);
    forall j, k | 0 <= j < k < |all| ensures Less(all[j], all[k]) {
      StepIn(i, ips[k - 1]);
      if j > 0 {
        StepIn(i, ips[j - 1]);
      } else {
        assert ips[k - 1] in ips;
      }
    }
  }

  lemma EntryDue(lim: Limits, listing: seq<Entry>, i: nat, depth: nat, below: seq<seq<nat>>)
    requires i < |listing| && !Filtered(lim, listing[i]) && !TooDeep(lim, depth)
    requires if listing[i].Dir? && listing[i].readable
             then Exactly(lim, listing[i].listing, 0, |listing[i].listing|, depth + 1, below)
             else below == []
    ensures Exactly(lim, listing, i, i + 1, depth, [[i]] + Under(i, below))
  {
    var all := [[i]] + Under(i, below);
    UnderAscending(i, below);
    forall ip | ip in all ensures Due(lim, listing, i, i + 1, depth, ip) {
      if ip != [i] {
        var k :| 0 <= k < |below| && ip == [i] + below[k];
        assert below[k] in below;
        StepIn(i, below[k]);
      }
    }
    forall ip | Due(lim, listing, i, i + 1, depth, ip) ensures ip in all {
      if |ip| == 1 {
        assert ip == [i] && [i] in all;
      } else {
        DueBelow(lim, listing, i, depth, ip);
        UnderHolds(i, below, ip[1..]);
        assert ip == [i] + ip[1..];
      }
    }
  }

  lemma DueBelow(lim: Limits, listing: seq<Entry>, i: nat, depth: nat, ip: seq<nat>)
    requires Due(lim, listing, i, i + 1, depth, ip) && |ip| > 1
    ensures var e := listing[i];
            e.Dir? && e.readable && Due(lim, e.listing, 0, |e.listing|, depth + 1, ip[1..])
  {
    assert ip[0] == i;
  }

  lemma UnderHolds(i: nat, ips: seq<seq<nat>>, rest: seq<nat>)
    requires rest in ips
    ensures [i] + rest in Under(i, ips)
  {
    var k :| 0 <= k < |ips| && ips[k] == rest;
    assert Under(i, ips)[k] == [i] + rest;
  }

  lemma EntryMatches(lim: Limits, listing: seq<Entry>, i: nat, path: seq<string>, rs: seq<Report>,
                     below: seq<seq<nat>>)
    requires i < |listing| && !Filtered(lim, listing[i])
    requires if listing[i].Dir? && listing[i].readable
             then ReportsMatch(lim, listing[i].listing, path + [listing[i].name], rs, below)
             else rs == [] && below == []
    ensures ReportsMatch(lim, listing, path,
                         [Report(path + [listing[i].name], listing[i].Dir?, SizeOf(listing[i]))] + rs,
                         [[i]] + Under(i, below))
  {
    var all := [[i]] + Under(i, below);
    var name := listing[i].name;
    var reports := [Report(path + [name], listing[i].Dir?, SizeOf(listing[i]))] + rs;
    forall k | 0 <= k < |all|
      ensures Leads(lim, listing, all[k]) && reports[k] == Prefixed(path, ReportAt(lim, listing, all[k]))
    {
      if k > 0 {
        StepIn(i, below[k - 1]);
        var r := ReportAt(lim, listing[i].listing, below[k - 1]);
        assert path + [name] + r.path == path + ([name] + r.path);
      }
    }
  }

  lemma MatchesJoin(lim: Limits, listing: seq<Entry>, path: seq<string>, rs: seq<Report>, ips: seq<seq<nat>>,
                    rs': seq<Report>, ips': seq<seq<nat>>)
    requires ReportsMatch(lim, listing, path, rs, ips) && ReportsMatch(lim, listing, path, rs', ips')
    ensures ReportsMatch(lim, listing, path, rs + rs', ips + ips')
  {
  }

  /** The ways to entry `i` of a listing and to what is below it. */
  lemma {:induction false} EntryExactly(lim: Limits, listing: seq<Entry>, i: nat, path: seq<string>, depth: nat)
    returns (ips: seq<seq<nat>>)
    requires i < |listing| && !TooDeep(lim, depth)
    ensures ReportsMatch(lim, listing, path, EntryReports(lim, listing[i], path, depth), ips)
    ensures Exactly(lim, listing, i, i + 1, depth, ips)
    decreases listing, |listing| - i, 0
  {
    var e, below := listing[i], [];
    if Filtered(lim, e) {
      return [];
    }
    if e.Dir? && e.readable && !TooDeep(lim, depth + 1) {
      below := EntriesExactly(lim, e.listing, 0, path + [e.name], depth + 1);
      assert e.listing[0..] == e.listing;
      assert Below(lim, e, path, depth) == Entries(lim, e.listing, path + [e.name], depth + 1);
    } else {
      assert Below(lim, e, path, depth) == [];
    }
    EntryDue(lim, listing, i, depth, below);
    EntryMatches(lim, listing, i, path, Below(lim, e, path, depth), below);
    ips := [[i]] + Under(i, below);
  }

  /** The ways to the entries from position `i` of a listing on, and to what is below them. */
  lemma {:induction false} EntriesExactly(lim: Limits, listing: seq<Entry>, i: nat, path: seq<string>, depth: nat)
    returns (ips: seq<seq<nat>>)
    requires i <= |listing| && !TooDeep(lim, depth)
    ensures ReportsMatch(lim, listing, path, Entries(lim, listing[i..], path, depth), ips)
    ensures Exactly(lim, listing, i, |listing|, depth, ips)
    decreases listing, |listing| - i, 1
  {
    if i == |listing| {
      return [];
    }
    var first := EntryExactly(lim, listing, i, path, depth);
    var rest := EntriesExactly(lim, listing, i + 1, path, depth);
    assert listing[i..][1..] == listing[i + 1..];
    MatchesJoin(lim, listing, path, EntryReports(lim, listing[i], path, depth), first,
                Entries(lim, listing[i + 1..], path, depth), rest);
    Join(lim, listing, i, i + 1, |listing|, depth, first, rest);
    ips := first + rest;
  }

  /** The walk reports, one way each in ascending order, exactly the entries that an unfiltered way
      through readable directories leads to, within the depth limit. */
  lemma PreorderExactly(lim: Limits, root: seq<Entry>) returns (ips: seq<seq<nat>>)
    ensures forall ip :: ip in ips <==> Leads(lim, root, ip) && (lim.maxDepth > 0 ==> |ip| <= lim.maxDepth + 1)
    ensures |Preorder(lim, root, [], 0)| == |ips| && Ascending(ips)
    ensures forall k :: 0 <= k < |ips| ==>
              ips[k] in ips && Preorder(lim, root, [], 0)[k] == ReportAt(lim, root, ips[k])
  {
    ips := EntriesExactly(lim, root, 0, [], 0);
    assert root[0..] == root;
    forall ip ensures ip in ips <==> Leads(lim, root, ip) && (lim.maxDepth > 0 ==> |ip| <= lim.maxDepth + 1) {
      assert ip in ips <==> Due(lim, root, 0, |root|, 0, ip);
    }
    forall k | 0 <= k < |ips| ensures Preorder(lim, root, [], 0)[k] == ReportAt(lim, root, ips[k]) {
      var r := ReportAt(lim, root, ips[k]);
      assert [] + r.path == r.path;
    }
  }

  /** `r` is an entry of the tree: each name on its path is in the listing come to so far, none of
      these is filtered, and all but the last are readable directories. */
  ghost predicate InTree(lim: Limits, listing: seq<Entry>, r: Report)
    decreases |r.path|
  {
    r.path != [] && exists i :: 0 <= i < |listing| && Starts(lim, listing[i], r)
  }

  ghost predicate Starts(lim: Limits, e: Entry, r: Report)
    requires r.path != []
    decreases |r.path|, 0
  {
    && e.name == r.path[0] && !Filtered(lim, e)
    && if |r.path| == 1 then r.isDir == e.Dir? && r.size == SizeOf(e)
       else e.Dir? && e.readable && InTree(lim, e.listing, r.(path := r.path[1..]))
  }

  lemma {:induction false} WayIsInTree(lim: Limits, listing: seq<Entry>, ip: seq<nat>)
    requires Leads(lim, listing, ip)
    ensures InTree(lim, listing, ReportAt(lim, listing, ip)) && |ReportAt(lim, listing, ip).path| == |ip|
    decreases |ip|
  {
    var e, r := listing[ip[0]], ReportAt(lim, listing, ip);
    if |ip| > 1 {
      WayIsInTree(lim, e.listing, ip[1..]);
      assert r.(path := r.path[1..]) == ReportAt(lim, e.listing, ip[1..]);
    }
    assert Starts(lim, e, r);
  }

  lemma {:induction false} WayTo(lim: Limits, listing: seq<Entry>, r: Report) returns (ip: seq<nat>)
    requires InTree(lim, listing, r)
    ensures Leads(lim, listing, ip) && |ip| == |r.path| && ReportAt(lim, listing, ip) == r
    decreases |r.path|
  {
    var i :| 0 <= i < |listing| && Starts(lim, listing[i], r);
    if |r.path| == 1 {
      ip := [i];
    } else {
      var rest := WayTo(lim, listing[i].listing, r.(path := r.path[1..]));
      StepIn(i, rest);
      ip := [i] + rest;
      assert [r.path[0]] + r.path[1..] == r.path;
    }
  }

  /** What is reported is what is in the tree, down to the depth limit. */
  lemma ReportedExactly(lim: Limits, root: seq<Entry>, r: Report)
    ensures r in Preorder(lim, root, [], 0) <==>
              InTree(lim, root, r) && (lim.maxDepth > 0 ==> |r.path| <= lim.maxDepth + 1)
  {
    var ips := PreorderExactly(lim, root);
    if r in Preorder(lim, root, [], 0) {
      var k :| 0 <= k < |ips| && r == ReportAt(lim, root, ips[k]);
      WayIsInTree(lim, root, ips[k]);
    }
    if InTree(lim, root, r) && (lim.maxDepth > 0 ==> |r.path| <= lim.maxDepth + 1) {
      var ip := WayTo(lim, root, r);
      var k :| 0 <= k < |ips| && ips[k] == ip;
      assert Preorder(lim, root, [], 0)[k] == r;
    }
  }

  // ---- Order ----

  lemma {:induction false} LessIsOneWay(p: seq<nat>, q: seq<nat>)
    requires Less(p, q)
    ensures !Less(q, p)
    decreases |p|
  {
    if p != [] && p[0] == q[0] {
      LessIsOneWay(p[1..], q[1..]);
    }
  }

  lemma {:induction false} ForkOrders(d: seq<nat>, a: nat, x: seq<nat>, b: nat, y: seq<nat>)
    requires a < b
    ensures Less(d + [a] + x, d + [b] + y)
    decreases |d|
  {
    var p, q := d + [a] + x, d + [b] + y;
    if d != [] {
      ForkOrders(d[1..], a, x, b, y);
      assert p[1..] == d[1..] + [a] + x && q[1..] == d[1..] + [b] + y;
    }
  }

  /** In a listing with its subtrees, all of an earlier entry is reported before any of a later one. */
  lemma SiblingsInOrder(ips: seq<seq<nat>>, d: seq<nat>,
                        j: nat, a: nat, x: seq<nat>, k: nat, b: nat, y: seq<nat>)
    requires Ascending(ips) && j < |ips| && k < |ips|
    requires ips[j] == d + [a] + x && ips[k] == d + [b] + y && a < b
    ensures j < k
  {
    ForkOrders(d, a, x, b, y);
    LessIsOneWay(ips[j], ips[k]);
  }

  lemma {:induction false} WayUp(lim: Limits, listing: seq<Entry>, ip: seq<nat>)
    requires Leads(lim, listing, ip) && |ip| > 1
    ensures var up, r := ip[..|ip| - 1], ReportAt(lim, listing, ip);
            && Leads(lim, listing, up) && Less(up, ip)
            && |r.path| == |ip| && ReportAt(lim, listing, up).path == r.path[..|ip| - 1]
            && ReportAt(lim, listing, up).isDir
    decreases |ip|
  {
    var e, up := listing[ip[0]], ip[..|ip| - 1];
    WayIsInTree(lim, listing, ip);
    if |ip| > 2 {
      WayUp(lim, e.listing, ip[1..]);
      assert up[1..] == ip[1..][..|ip| - 2];
    } else {
      assert up == [ip[0]];
    }
  }

  /** A directory is reported before anything below it. */
  lemma DirectoriesFirst(lim: Limits, root: seq<Entry>, k: nat)
    requires k < |Preorder(lim, root, [], 0)| && |Preorder(lim, root, [], 0)[k].path| > 1
    ensures var rs := Preorder(lim, root, [], 0);
            exists j :: 0 <= j < k && rs[j].isDir && rs[j].path == rs[k].path[..|rs[k].path| - 1]
  {
    var rs := Preorder(lim, root, [], 0);
    var ips := PreorderExactly(lim, root);
    WayIsInTree(lim, root, ips[k]);
    WayUp(lim, root, ips[k]);
    var up := ips[k][..|ips[k]| - 1];
    var j :| 0 <= j < |ips| && ips[j] == up;
    LessIsOneWay(up, ips[k]);
    assert rs[j].isDir && rs[j].path == rs[k].path[..|rs[k].path| - 1];
  }

  /** No listing in the tree has two entries of one name. */
  ghost predicate DistinctNames(listing: seq<Entry>) {
    && (forall i, j :: 0 <= i < j < |listing| ==> listing[i].name != listing[j].name)
    && forall i :: 0 <= i < |listing| && listing[i].Dir? ==> DistinctNames(listing[i].listing)
  }

  lemma {:induction false} PathTellsWay(lim: Limits, listing: seq<Entry>, p: seq<nat>, q: seq<nat>)
    requires DistinctNames(listing) && Leads(lim, listing, p) && Leads(lim, listing, q)
    requires ReportAt(lim, listing, p).path == ReportAt(lim, listing, q).path
    ensures p == q
    decreases |p|
  {
    WayIsInTree(lim, listing, p);
    WayIsInTree(lim, listing, q);
    assert ReportAt(lim, listing, p).path[0] == listing[p[0]].name;
    assert ReportAt(lim, listing, q).path[0] == listing[q[0]].name;
    if |p| > 1 {
      var below := listing[p[0]].listing;
      assert ReportAt(lim, listing, p).path[1..] == ReportAt(lim, below, p[1..]).path;
      assert ReportAt(lim, listing, q).path[1..] == ReportAt(lim, below, q[1..]).path;
      PathTellsWay(lim, below, p[1..], q[1..]);
      assert p == [p[0]] + p[1..] && q == [q[0]] + q[1..];
    }
  }

  /** With distinct names each path is reported once. */
  lemma EachPathOnce(lim: Limits, root: seq<Entry>, j: nat, k: nat)
    requires DistinctNames(root) && j < k < |Preorder(lim, root, [], 0)|
    ensures Preorder(lim, root, [], 0)[j].path != Preorder(lim, root, [], 0)[k].path
  {
    var ips := PreorderExactly(lim, root);
    LessIsOneWay(ips[j], ips[k]);
    if Preorder(lim, root, [], 0)[j].path == Preorder(lim, root, [], 0)[k].path {
      PathTellsWay(lim, root, ips[j], ips[k]);
    }
  }
}

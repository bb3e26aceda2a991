/** Lines 105-112: grouping the drivers by zodiac sign and ranking the
    groups by size. */
module Aggregator {
  import opened Wrappers

  /** One scraped driver: the record of line 96. */
  datatype Driver = Driver(name: string, link: Option<string>, birthDate: Option<string>, sign: Option<string>)

  /** One item of `zodiac_groups`: a sign and the names filed under it. */
  datatype Group = Group(sign: string, names: seq<string>)

  /** Line 108: `if driver['zodiac_sign']`: neither None nor the empty string. */
  predicate Labelled(d: Driver) {
    d.sign.Some? && d.sign.value != ""
  }

  /** Where `sign` sits among the groups, or `|groups|` when it is absent. */
  function IndexOfSign(groups: seq<Group>, sign: string): (k: nat)
    ensures k <= |groups|
    ensures k < |groups| ==> groups[k].sign == sign
    ensures forall j :: 0 <= j < k ==> groups[j].sign != sign
  {
    if groups == [] then 0
    else if groups[0].sign == sign then 0
    else 1 + IndexOfSign(groups[1..], sign)
  }

  /** Line 109 for one driver: `defaultdict(list)` files the name at the end
      of its sign's list, creating that list after all the others when the
      sign is new. */
  function AddDriver(groups: seq<Group>, d: Driver): seq<Group> {
    if !Labelled(d) then groups
    else
      var k := IndexOfSign(groups, d.sign.value);
      if k == |groups| then groups + [Group(d.sign.value, [d.name])]
      else groups[k := Group(d.sign.value, groups[k].names + [d.name])]
  }

  /** `zodiac_groups.items()` after the loop of lines 107-109, in the dict's
      insertion order. */
  function Grouped(drivers: seq<Driver>): seq<Group> {
    if drivers == [] then []
    else AddDriver(Grouped(drivers[..|drivers| - 1]), drivers[|drivers| - 1])
  }

  /** `zodiac_groups[sign].append(name)` as a dict update: every key keeps
      its place, only the driver's own sign gets the name appended at the
      end of its list, and a sign not yet present becomes the last key with
      a one-name list. A driver without a sign changes nothing. */
  lemma AddDriverUpdates(groups: seq<Group>, d: Driver)
    ensures var r := AddDriver(groups, d);
      && |r| == |groups| + (if Labelled(d) && IndexOfSign(groups, d.sign.value) == |groups| then 1 else 0)
      && (forall k :: 0 <= k < |groups| ==> r[k].sign == groups[k].sign)
      && (forall k :: 0 <= k < |groups| ==>
            r[k].names == groups[k].names + (if Labelled(d) && k == IndexOfSign(groups, d.sign.value) then [d.name] else []))
      && (|r| > |groups| ==> r[|groups|] == Group(d.sign.value, [d.name]))
  {
  }

  /** `defaultdict` creates a key only to append to it: no group of the
      result is empty. */
  lemma {:induction false} GroupedHasNoEmptyGroup(drivers: seq<Driver>)
    ensures forall k :: 0 <= k < |Grouped(drivers)| ==> Grouped(drivers)[k].names != []
  {
    if drivers != [] {
      var init := drivers[..|drivers| - 1];
      GroupedHasNoEmptyGroup(init);
      AddDriverUpdates(Grouped(init), drivers[|drivers| - 1]);
    }
  }

  /** The dict, given as its keys in insertion order and its key-to-list
      map, holds exactly `groups`. */
  ghost predicate Represents(order: seq<string>, dict: map<string, seq<string>>, groups: seq<Group>) {
    && |order| == |groups|
    && (forall k :: 0 <= k < |order| ==> order[k] == groups[k].sign && order[k] in dict
                                         && dict[order[k]] == groups[k].names)
    && (forall s :: s in dict ==> s in order)
    && (forall a, b :: 0 <= a < b < |order| ==> order[a] != order[b])
  }

  /** Lines 106-109: the loop that appends each labelled driver's name to
      its sign's list in the dict. */
  method GroupBySign(drivers: seq<Driver>) returns (groups: seq<Group>)
    ensures groups == Grouped(drivers)
  {
    var order: seq<string> := [];
    var zodiacGroups: map<string, seq<string>> := map[];
    for i := 0 to |drivers|
      invariant Represents(order, zodiacGroups, Grouped(drivers[..i]))
    {
      var driver := drivers[i];
      GroupBySignStep(drivers, i, order, zodiacGroups);
      if driver.sign.Some? && driver.sign.value != "" {
        var sign := driver.sign.value;
        // `defaultdict(list)` gives a missing key an empty list, placed last
        var names := if sign in zodiacGroups then zodiacGroups[sign] else [];
        if sign !in zodiacGroups {
          order := order + [sign];
        }
        zodiacGroups := zodiacGroups[sign := names + [driver.name]];
      }
    }
    assert drivers[..|drivers|] == drivers;
    groups := seq(|order|, k requires 0 <= k < |order| && order[k] in zodiacGroups
                              => Group(order[k], zodiacGroups[order[k]]));
  }

  /** One step of the loop: `zodiac_groups[sign].append(name)` on the dict
      files the next driver as `AddDriver` does. */
  lemma GroupBySignStep(drivers: seq<Driver>, i: nat, order: seq<string>, dict: map<string, seq<string>>)
    requires i < |drivers| && Represents(order, dict, Grouped(drivers[..i]))
    ensures var d := drivers[i];
      if !Labelled(d) then Represents(order, dict, Grouped(drivers[..i + 1]))
      else
        var s := d.sign.value;
        var names := if s in dict then dict[s] else [];
        Represents(if s in dict then order else order + [s], dict[s := names + [d.name]], Grouped(drivers[..i + 1]))
  {
    assert drivers[..i + 1][..i] == drivers[..i];
    var groups := Grouped(drivers[..i]);
    var d := drivers[i];
    if Labelled(d) {
      var s := d.sign.value;
      var k := IndexOfSign(groups, s);
      if s in dict {
        var m :| 0 <= m < |order| && order[m] == s;
        assert groups[m].sign == s;
        assert k == m;
      } else {
        assert k == |groups|;
      }
    }
  }

  /** The position of the first driver with `sign`, or `|drivers|` when no
      driver has it. */
  function FirstIndexOf(drivers: seq<Driver>, sign: string): (i: nat)
    ensures i <= |drivers|
    ensures i < |drivers| ==> drivers[i].sign == Some(sign)
    ensures forall j :: 0 <= j < i ==> drivers[j].sign != Some(sign)
  {
    if drivers == [] then 0
    else if drivers[0].sign == Some(sign) then 0
    else 1 + FirstIndexOf(drivers[1..], sign)
  }

  /** `[d.name for d in drivers if d.zodiac_sign == sign]`. */
  function NamesWithSign(drivers: seq<Driver>, sign: string): seq<string> {
    if drivers == [] then []
    else (if drivers[0].sign == Some(sign) then [drivers[0].name] else []) + NamesWithSign(drivers[1..], sign)
  }

  /** Every sign appears once among the groups. */
  ghost predicate DistinctSigns(groups: seq<Group>) {
    forall a, b :: 0 <= a < b < |groups| ==> groups[a].sign != groups[b].sign
  }

  /** What the dict holds after reading `drivers`: one group per sign that
      some driver carries (the empty sign excluded), listing that sign's
      drivers in driver order, the groups ordered by each sign's first
      driver. */
  ghost predicate GroupsOf(drivers: seq<Driver>, groups: seq<Group>) {
    && DistinctSigns(groups)
    && SignsSeen(drivers, groups)
    && NamesListed(drivers, groups)
    && SignsCovered(drivers, groups)
    && FirstSeenOrder(drivers, groups)
  }

  /** Every group's sign is a non-empty sign some driver carries. */
  ghost predicate SignsSeen(drivers: seq<Driver>, groups: seq<Group>) {
    forall k :: 0 <= k < |groups| ==>
      groups[k].sign != "" && FirstIndexOf(drivers, groups[k].sign) < |drivers|
  }

  /** Every group lists the names of its sign's drivers, in driver order. */
  ghost predicate NamesListed(drivers: seq<Driver>, groups: seq<Group>) {
    forall k :: 0 <= k < |groups| ==> groups[k].names == NamesWithSign(drivers, groups[k].sign)
  }

  /** Every non-empty sign some driver carries has a group. */
  ghost predicate SignsCovered(drivers: seq<Driver>, groups: seq<Group>) {
    forall s :: s != "" && FirstIndexOf(drivers, s) < |drivers| ==> IndexOfSign(groups, s) < |groups|
  }

  /** The groups come in the order in which their signs first occur. */
  ghost predicate FirstSeenOrder(drivers: seq<Driver>, groups: seq<Group>) {
    forall a, b :: 0 <= a < b < |groups| ==>
      FirstIndexOf(drivers, groups[a].sign) < FirstIndexOf(drivers, groups[b].sign)
  }

  lemma FirstIndexOfAppend(drivers: seq<Driver>, d: Driver, sign: string)
    ensures FirstIndexOf(drivers + [d], sign)
         == if FirstIndexOf(drivers, sign) < |drivers| then FirstIndexOf(drivers, sign)
            else if d.sign == Some(sign) then |drivers|
            else |drivers| + 1
  {
    var all := drivers + [d];
    var k := FirstIndexOf(all, sign);
    var k0 := FirstIndexOf(drivers, sign);
    if k0 < |drivers| {
      assert all[k0] == drivers[k0];
    } else if d.sign == Some(sign) {
      assert all[|drivers|] == d;
    }
  }

  lemma {:induction false} NamesWithSignAppend(drivers: seq<Driver>, d: Driver, sign: string)
    ensures NamesWithSign(drivers + [d], sign)
         == NamesWithSign(drivers, sign) + (if d.sign == Some(sign) then [d.name] else [])
  {
    if drivers == [] {
      assert [d][1..] == [];
    } else {
      var head := if drivers[0].sign == Some(sign) then [drivers[0].name] else [];
      var last := if d.sign == Some(sign) then [d.name] else [];
      assert (drivers + [d])[0] == drivers[0];
      assert (drivers + [d])[1..] == drivers[1..] + [d];
      NamesWithSignAppend(drivers[1..], d, sign);
      assert head + (NamesWithSign(drivers[1..], sign) + last) == (head + NamesWithSign(drivers[1..], sign)) + last;
    }
  }

  lemma {:induction false} NamesWithSignAbsent(drivers: seq<Driver>, sign: string)
    requires FirstIndexOf(drivers, sign) == |drivers|
    ensures NamesWithSign(drivers, sign) == []
  {
    if drivers != [] {
      NamesWithSignAbsent(drivers[1..], sign);
    }
  }

  lemma GroupedStepUnlabelled(drivers: seq<Driver>, groups: seq<Group>, d: Driver)
    requires GroupsOf(drivers, groups) && !Labelled(d)
    ensures GroupsOf(drivers + [d], AddDriver(groups, d))
  {
    var all := drivers + [d];
    forall k | 0 <= k < |groups|
      ensures groups[k].names == NamesWithSign(all, groups[k].sign)
      ensures FirstIndexOf(all, groups[k].sign) == FirstIndexOf(drivers, groups[k].sign)
    {
      NamesWithSignAppend(drivers, d, groups[k].sign);
      FirstIndexOfAppend(drivers, d, groups[k].sign);
    }
    forall s | s != "" && FirstIndexOf(all, s) < |all|
      ensures IndexOfSign(groups, s) < |groups|
    {
      FirstIndexOfAppend(drivers, d, s);
    }
  }

  lemma GroupedStepNewSign(drivers: seq<Driver>, groups: seq<Group>, d: Driver)
    requires GroupsOf(drivers, groups) && Labelled(d)
    requires IndexOfSign(groups, d.sign.value) == |groups|
    ensures GroupsOf(drivers + [d], AddDriver(groups, d))
  {
    var all := drivers + [d];
    var sign := d.sign.value;
    var after := AddDriver(groups, d);
    var added := Group(sign, [d.name]);
    assert after == groups + [added];
    OtherSignsUnaffected(drivers, groups, d);
    FirstIndexOfAppend(drivers, d, sign);
    assert FirstIndexOf(all, sign) == |drivers|;
    NamesWithSignAbsent(drivers, sign);
    NamesWithSignAppend(drivers, d, sign);
    assert added.names == NamesWithSign(all, sign);
    assert NamesListed(all, after) by {
      forall k | 0 <= k < |after| ensures after[k].names == NamesWithSign(all, after[k].sign) {
        if k < |groups| {
          assert after[k] == groups[k];
        }
      }
    }
    assert SignsSeen(all, after) by {
      forall k | 0 <= k < |after| ensures after[k].sign != "" && FirstIndexOf(all, after[k].sign) < |all| {
        if k < |groups| {
          assert after[k] == groups[k];
        }
      }
    }
    assert FirstSeenOrder(all, after) by {
      forall a, b | 0 <= a < b < |after|
        ensures FirstIndexOf(all, after[a].sign) < FirstIndexOf(all, after[b].sign)
      {
        assert after[a] == groups[a];
        if b < |groups| {
          assert after[b] == groups[b];
        }
      }
    }
    assert SignsCovered(all, after) by {
      forall s | s != "" && FirstIndexOf(all, s) < |all|
        ensures IndexOfSign(after, s) < |after|
      {
        FirstIndexOfAppend(drivers, d, s);
        if s != sign {
          var k := IndexOfSign(groups, s);
          assert after[k] == groups[k];
        } else {
          assert after[|groups|].sign == s;
        }
      }
    }
  }

  /** A driver whose sign has no group leaves every group as it was. */
  lemma OtherSignsUnaffected(drivers: seq<Driver>, groups: seq<Group>, d: Driver)
    requires NamesListed(drivers, groups) && SignsSeen(drivers, groups)
    requires forall k :: 0 <= k < |groups| ==> d.sign != Some(groups[k].sign)
    ensures NamesListed(drivers + [d], groups)
    ensures forall k :: 0 <= k < |groups| ==>
      FirstIndexOf(drivers + [d], groups[k].sign) == FirstIndexOf(drivers, groups[k].sign)
  {
    forall k | 0 <= k < |groups|
      ensures groups[k].names == NamesWithSign(drivers + [d], groups[k].sign)
      ensures FirstIndexOf(drivers + [d], groups[k].sign) == FirstIndexOf(drivers, groups[k].sign)
    {
      NamesWithSignAppend(drivers, d, groups[k].sign);
      FirstIndexOfAppend(drivers, d, groups[k].sign);
    }
  }

  lemma GroupedStepKnownSign(drivers: seq<Driver>, groups: seq<Group>, d: Driver)
    requires GroupsOf(drivers, groups) && Labelled(d)
    requires IndexOfSign(groups, d.sign.value) < |groups|
    ensures GroupsOf(drivers + [d], AddDriver(groups, d))
  {
    var all := drivers + [d];
    var sign := d.sign.value;
    var at := IndexOfSign(groups, sign);
    var after := AddDriver(groups, d);
    assert after == groups[at := Group(sign, groups[at].names + [d.name])];
    forall k | 0 <= k < |groups|
      ensures after[k].sign == groups[k].sign
      ensures after[k].names == NamesWithSign(all, after[k].sign)
      ensures FirstIndexOf(all, after[k].sign) == FirstIndexOf(drivers, groups[k].sign)
    {
      NamesWithSignAppend(drivers, d, groups[k].sign);
      FirstIndexOfAppend(drivers, d, groups[k].sign);
    }
    assert NamesListed(all, after);
    assert SignsSeen(all, after);
    assert DistinctSigns(after);
    assert FirstSeenOrder(all, after);
    forall s | s != "" && FirstIndexOf(all, s) < |all|
      ensures IndexOfSign(after, s) < |after|
    {
      FirstIndexOfAppend(drivers, d, s);
      var k := if s == sign then at else IndexOfSign(groups, s);
      assert after[k].sign == s;
    }
    assert SignsCovered(all, after);
  }

  /** The groups that the loop builds are the groups of `GroupsOf`. */
  lemma {:induction false} GroupedIsGroupsOf(drivers: seq<Driver>)
    ensures GroupsOf(drivers, Grouped(drivers))
  {
    if drivers != [] {
      var init := drivers[..|drivers| - 1];
      var d := drivers[|drivers| - 1];
      GroupedIsGroupsOf(init);
      assert init + [d] == drivers;
      if !Labelled(d) {
        GroupedStepUnlabelled(init, Grouped(init), d);
      } else if IndexOfSign(Grouped(init), d.sign.value) == |Grouped(init)| {
        GroupedStepNewSign(init, Grouped(init), d);
      } else {
        GroupedStepKnownSign(init, Grouped(init), d);
      }
    }
  }

  /** The number of names over all groups. */
  function TotalSize(groups: seq<Group>): nat {
    if groups == [] then 0 else |groups[0].names| + TotalSize(groups[1..])
  }

  /** The number of drivers that carry a non-empty sign. */
  function LabelledCount(drivers: seq<Driver>): nat {
    if drivers == [] then 0 else (if Labelled(drivers[0]) then 1 else 0) + LabelledCount(drivers[1..])
  }

  lemma {:induction false} TotalSizeAppend(groups: seq<Group>, g: Group)
    ensures TotalSize(groups + [g]) == TotalSize(groups) + |g.names|
  {
    if groups == [] {
      assert [g][1..] == [];
    } else {
      assert (groups + [g])[1..] == groups[1..] + [g];
      TotalSizeAppend(groups[1..], g);
    }
  }

  lemma {:induction false} TotalSizeUpdate(groups: seq<Group>, k: nat, g: Group)
    requires k < |groups|
    ensures TotalSize(groups[k := g]) == TotalSize(groups) - |groups[k].names| + |g.names|
  {
    if k > 0 {
      assert groups[k := g][1..] == groups[1..][k - 1 := g];
      TotalSizeUpdate(groups[1..], k - 1, g);
    } else {
      assert groups[k := g][1..] == groups[1..];
    }
  }

  lemma {:induction false} LabelledCountAppend(drivers: seq<Driver>, d: Driver)
    ensures LabelledCount(drivers + [d]) == LabelledCount(drivers) + (if Labelled(d) then 1 else 0)
  {
    if drivers == [] {
      assert [d][1..] == [];
    } else {
      assert (drivers + [d])[1..] == drivers[1..] + [d];
      LabelledCountAppend(drivers[1..], d);
    }
  }

  /** No driver with a sign is lost or counted twice: the groups hold as
      many names as there are drivers with a non-empty sign. */
  lemma {:induction false} GroupedKeepsEveryLabelledDriver(drivers: seq<Driver>)
    ensures TotalSize(Grouped(drivers)) == LabelledCount(drivers)
  {
    if drivers != [] {
      var init := drivers[..|drivers| - 1];
      var d := drivers[|drivers| - 1];
      GroupedKeepsEveryLabelledDriver(init);
      assert init + [d] == drivers;
      LabelledCountAppend(init, d);
      var groups := Grouped(init);
      if Labelled(d) {
        var k := IndexOfSign(groups, d.sign.value);
        if k == |groups| {
          TotalSizeAppend(groups, Group(d.sign.value, [d.name]));
        } else {
          TotalSizeUpdate(groups, k, Group(d.sign.value, groups[k].names + [d.name]));
        }
      }
    }
  }

  // ---------------------------------------------------------------------
  // Line 112: the groups sorted by their number of names, largest first
  // ---------------------------------------------------------------------

  /** The sort key: the number of drivers in the group. */
  function Size(g: Group): nat {
    |g.names|
  }

  /** Larger groups first. */
  predicate NonIncreasing(groups: seq<Group>) {
    forall a, b :: 0 <= a < b < |groups| ==> Size(groups[a]) >= Size(groups[b])
  }

  /** The groups of size `n`, in their order. */
  function WithSize(groups: seq<Group>, n: nat): seq<Group> {
    if groups == [] then []
    else (if Size(groups[0]) == n then [groups[0]] else []) + WithSize(groups[1..], n)
  }

  /** Where `g`, which precedes every group of `sorted`, goes: in front of
      the first group that is not larger than it. */
  function InsertPosition(g: Group, sorted: seq<Group>): (p: nat)
    ensures p <= |sorted|
    ensures forall j :: 0 <= j < p ==> Size(sorted[j]) > Size(g)
    ensures p < |sorted| ==> Size(sorted[p]) <= Size(g)
  {
    if sorted == [] || Size(sorted[0]) <= Size(g) then 0
    else 1 + InsertPosition(g, sorted[1..])
  }

  function InsertBySize(g: Group, sorted: seq<Group>): (r: seq<Group>)
    ensures multiset(r) == multiset(sorted) + multiset{g}
    ensures |r| == |sorted| + 1
  {
    var p := InsertPosition(g, sorted);
    assert sorted == sorted[..p] + sorted[p..];
    sorted[..p] + [g] + sorted[p..]
  }

  /** Python's stable `sorted` on the group size with `reverse=True`:
      groups of equal size keep their relative order. */
  function SortBySizeDesc(groups: seq<Group>): (r: seq<Group>)
    ensures multiset(r) == multiset(groups)
    ensures |r| == |groups|
  {
    if groups == [] then []
    else
      assert groups == [groups[0]] + groups[1..];
      InsertBySize(groups[0], SortBySizeDesc(groups[1..]))
  }

  lemma InsertBySizeSorted(g: Group, sorted: seq<Group>)
    requires NonIncreasing(sorted)
    ensures NonIncreasing(InsertBySize(g, sorted))
  {
    var p := InsertPosition(g, sorted);
    var r := InsertBySize(g, sorted);
    forall a, b | 0 <= a < b < |r| ensures Size(r[a]) >= Size(r[b]) {
      if b < p {
        assert r[a] == sorted[a] && r[b] == sorted[b];
      } else if b == p {
        assert r[a] == sorted[a];
      } else if a < p {
        assert r[a] == sorted[a] && r[b] == sorted[b - 1];
      } else if a == p {
        assert r[b] == sorted[b - 1];
      } else {
        assert r[a] == sorted[a - 1] && r[b] == sorted[b - 1];
      }
    }
  }

  lemma {:induction false} WithSizeAppend(x: seq<Group>, y: seq<Group>, n: nat)
    ensures WithSize(x + y, n) == WithSize(x, n) + WithSize(y, n)
  {
    if x == [] {
      assert x + y == y;
    } else {
      var head := if Size(x[0]) == n then [x[0]] else [];
      assert (x + y)[0] == x[0];
      assert (x + y)[1..] == x[1..] + y;
      WithSizeAppend(x[1..], y, n);
      assert head + (WithSize(x[1..], n) + WithSize(y, n)) == (head + WithSize(x[1..], n)) + WithSize(y, n);
    }
  }

  lemma {:induction false} WithSizeNone(x: seq<Group>, n: nat)
    requires forall j :: 0 <= j < |x| ==> Size(x[j]) != n
    ensures WithSize(x, n) == []
  {
    if x != [] {
      WithSizeNone(x[1..], n);
    }
  }

  lemma InsertBySizeWithSize(g: Group, sorted: seq<Group>, n: nat)
    ensures WithSize(InsertBySize(g, sorted), n)
         == (if Size(g) == n then [g] else []) + WithSize(sorted, n)
  {
    var p := InsertPosition(g, sorted);
    if Size(g) == n {
      WithSizeNone(sorted[..p], n);
    }
    WithSizeAround(sorted[..p], g, sorted[p..], n);
    assert sorted[..p] + sorted[p..] == sorted;
  }

  /** Placing `g` between `front` and `back` puts it first among the groups
      of its size when `front` holds none of them. */
  lemma WithSizeAround(front: seq<Group>, g: Group, back: seq<Group>, n: nat)
    requires Size(g) == n ==> WithSize(front, n) == []
    ensures WithSize(front + [g] + back, n)
         == (if Size(g) == n then [g] else []) + WithSize(front + back, n)
  {
    var mine := if Size(g) == n then [g] else [];
    WithSizeAppend(front + [g], back, n);
    WithSizeAppend(front, [g], n);
    assert WithSize([g], n) == mine by {
      assert [g][1..] == [];
    }
    WithSizeAppend(front, back, n);
  }

  /** The result is ordered by decreasing size. */
  lemma {:induction false} SortBySizeDescSorted(groups: seq<Group>)
    ensures NonIncreasing(SortBySizeDesc(groups))
  {
    if groups != [] {
      SortBySizeDescSorted(groups[1..]);
      InsertBySizeSorted(groups[0], SortBySizeDesc(groups[1..]));
    }
  }

  /** Stability: the groups of any one size appear in the result in the
      order they had before sorting. */
  lemma {:induction false} SortBySizeDescStable(groups: seq<Group>, n: nat)
    ensures WithSize(SortBySizeDesc(groups), n) == WithSize(groups, n)
  {
    if groups != [] {
      SortBySizeDescStable(groups[1..], n);
      InsertBySizeWithSize(groups[0], SortBySizeDesc(groups[1..]), n);
    }
  }

  /** Groups of equal size come in the order in which their signs first
      occur among the drivers. */
  ghost predicate TiesInFirstSeenOrder(drivers: seq<Driver>, groups: seq<Group>) {
    forall a, b :: 0 <= a < b < |groups| && Size(groups[a]) == Size(groups[b]) ==>
      FirstIndexOf(drivers, groups[a].sign) < FirstIndexOf(drivers, groups[b].sign)
  }

  lemma InsertBySizeKeepsTies(drivers: seq<Driver>, g: Group, sorted: seq<Group>)
    requires TiesInFirstSeenOrder(drivers, sorted)
    requires forall x | x in sorted :: FirstIndexOf(drivers, g.sign) < FirstIndexOf(drivers, x.sign)
    ensures TiesInFirstSeenOrder(drivers, InsertBySize(g, sorted))
  {
    var p := InsertPosition(g, sorted);
    var r := InsertBySize(g, sorted);
    forall a, b | 0 <= a < b < |r| && Size(r[a]) == Size(r[b])
      ensures FirstIndexOf(drivers, r[a].sign) < FirstIndexOf(drivers, r[b].sign)
    {
      if b < p {
        assert r[a] == sorted[a] && r[b] == sorted[b];
      } else if a < p < b {
        assert r[a] == sorted[a] && r[b] == sorted[b - 1];
      } else if a == p {
        assert r[b] == sorted[b - 1];
      } else if p < a {
        assert r[a] == sorted[a - 1] && r[b] == sorted[b - 1];
      }
      // b == p is impossible: every group in front of `g` is larger.
    }
  }

  lemma {:induction false} SortBySizeDescKeepsTies(drivers: seq<Driver>, groups: seq<Group>)
    requires FirstSeenOrder(drivers, groups)
    ensures TiesInFirstSeenOrder(drivers, SortBySizeDesc(groups))
  {
    if groups != [] {
      var rest := SortBySizeDesc(groups[1..]);
      assert FirstSeenOrder(drivers, groups[1..]) by {
        forall a, b | 0 <= a < b < |groups[1..]|
          ensures FirstIndexOf(drivers, groups[1..][a].sign) < FirstIndexOf(drivers, groups[1..][b].sign)
        {
          assert groups[1..][a] == groups[a + 1] && groups[1..][b] == groups[b + 1];
        }
      }
      SortBySizeDescKeepsTies(drivers, groups[1..]);
      forall x | x in rest ensures FirstIndexOf(drivers, groups[0].sign) < FirstIndexOf(drivers, x.sign) {
        assert x in multiset(groups[1..]);
        var j :| 0 <= j < |groups[1..]| && groups[1..][j] == x;
        assert groups[j + 1] == x;
      }
      InsertBySizeKeepsTies(drivers, groups[0], rest);
    }
  }

  /** The report order: the groups of all drivers, largest first, groups of
      equal size in the order their signs first occur, and nothing added or
      dropped. */
  lemma ReportOrder(drivers: seq<Driver>)
    ensures var report := SortBySizeDesc(Grouped(drivers));
      && multiset(report) == multiset(Grouped(drivers))
      && NonIncreasing(report)
      && TiesInFirstSeenOrder(drivers, report)
      && DistinctSigns(report)
  {
    var groups := Grouped(drivers);
    var report := SortBySizeDesc(groups);
    GroupedIsGroupsOf(drivers);
    SortBySizeDescSorted(groups);
    SortBySizeDescKeepsTies(drivers, groups);
    forall a, b | 0 <= a < b < |report| ensures report[a].sign != report[b].sign {
      assert report[a] in multiset(groups) && report[b] in multiset(groups);
      var i :| 0 <= i < |groups| && groups[i] == report[a];
      var j :| 0 <= j < |groups| && groups[j] == report[b];
    }
  }

  lemma InsertBySizeTotalSize(g: Group, sorted: seq<Group>)
    ensures TotalSize(InsertBySize(g, sorted)) == TotalSize(sorted) + Size(g)
  {
    var p := InsertPosition(g, sorted);
    TotalSizeAround(sorted[..p], g, sorted[p..]);
    assert sorted[..p] + sorted[p..] == sorted;
  }

  lemma TotalSizeAround(front: seq<Group>, g: Group, back: seq<Group>)
    ensures TotalSize(front + [g] + back) == TotalSize(front + back) + Size(g)
  {
    TotalSizeConcat(front, [g] + back);
    TotalSizeConcat(front, back);
    assert ([g] + back)[1..] == back;
    assert front + [g] + back == front + ([g] + back);
  }

  lemma {:induction false} TotalSizeConcat(x: seq<Group>, y: seq<Group>)
    ensures TotalSize(x + y) == TotalSize(x) + TotalSize(y)
  {
    if x == [] {
      assert x + y == y;
    } else {
      assert (x + y)[1..] == x[1..] + y;
      TotalSizeConcat(x[1..], y);
    }
  }

  /** Sorting neither adds nor drops a name. */
  lemma {:induction false} SortKeepsTotalSize(groups: seq<Group>)
    ensures TotalSize(SortBySizeDesc(groups)) == TotalSize(groups)
  {
    if groups != [] {
      SortKeepsTotalSize(groups[1..]);
      InsertBySizeTotalSize(groups[0], SortBySizeDesc(groups[1..]));
    }
  }
}

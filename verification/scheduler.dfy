/** The two daily jobs over the inventory: the expired scan, which lists the
    expired rows of all users and groups them by owner, and the
    expiring-soon reminder, which only announces its date window. A job
    reports a failure instead of raising it, and neither job changes the
    table: each takes the table as input and returns only a report. */
module Scheduler {
  import opened Base
  import opened Entity
  import opened Repository
  import opened Service

  // ---------------------------------------------------------------------
  // Sizes of groups

  /** The total size of the groups under the keys `ks`. */
  ghost function TotalSize(groups: map<Id, seq<Medicine>>, ks: set<Id>): nat
    requires ks <= groups.Keys
    decreases |ks|
  {
    if ks == {} then 0
    else
      var k := Least(ks);
      |groups[k]| + TotalSize(groups, ks - {k})
  }

  /** Any key, not only the least, can be taken out of the total first. */
  lemma {:induction false} TotalSizeRemove(groups: map<Id, seq<Medicine>>, ks: set<Id>, k: Id)
    requires ks <= groups.Keys
    requires k in ks
    ensures TotalSize(groups, ks) == |groups[k]| + TotalSize(groups, ks - {k})
    decreases |ks|
  {
    var l := Least(ks);
    if k != l {
      TotalSizeRemove(groups, ks - {l}, k);
      var l2 := Least(ks - {k});
      assert IsLeast(l, ks - {k});
      assert l2 <= l && l <= l2;
      assert ks - {l} - {k} == ks - {k} - {l};
    }
  }

  /** The total only depends on the groups under the keys summed. */
  lemma {:induction false} TotalSizeFrame(a: map<Id, seq<Medicine>>, b: map<Id, seq<Medicine>>, ks: set<Id>)
    requires ks <= a.Keys && ks <= b.Keys
    requires forall k :: k in ks ==> |a[k]| == |b[k]|
    ensures TotalSize(a, ks) == TotalSize(b, ks)
    decreases |ks|
  {
    if ks != {} {
      TotalSizeFrame(a, b, ks - {Least(ks)});
    }
  }

  // ---------------------------------------------------------------------
  // The expired scan

  /** The rows of `listing` owned by `user`, in listing order. */
  function GroupOf(listing: seq<Medicine>, user: Id): (g: seq<Medicine>)
    ensures forall m :: m in g <==> m in listing && m.userId == Some(user)
  {
    var c := OwnedBy(user);
    assert forall m :: Matches(m, c) <==> m.userId == Some(user);
    Filter(listing, Test(c))
  }

  /** The message of the failure raised when a row with a null owner is
      grouped. */
  const NullKeyMessage: string := "element cannot be mapped to a null key"

  /** `groups` is `prefix` grouped by owner: one group per owner that
      occurs, each holding that owner's rows in listing order, and the group
      sizes adding up to the length of `prefix`. */
  ghost predicate GroupsOf(prefix: seq<Medicine>, groups: map<Id, seq<Medicine>>) {
    && (forall u :: u in groups <==> exists x :: x in prefix && x.userId == Some(u))
    && (forall u :: u in groups ==> groups[u] == GroupOf(prefix, u))
    && TotalSize(groups, groups.Keys) == |prefix|
  }

  /** The grouping after one more row with owner `m.userId`. */
  function AddToGroup(groups: map<Id, seq<Medicine>>, m: Medicine): (r: map<Id, seq<Medicine>>)
    requires m.userId.Some?
    ensures r.Keys == groups.Keys + {m.userId.value}
  {
    var u := m.userId.value;
    if u in groups then groups[u := groups[u] + [m]] else groups[u := [m]]
  }

  /** An owner with no row in `prefix` has an empty group. */
  lemma {:induction false} NoGroupWithoutOwner(prefix: seq<Medicine>, u: Id)
    requires forall x :: x in prefix ==> x.userId != Some(u)
    ensures GroupOf(prefix, u) == []
    decreases |prefix|
  {
    if prefix != [] {
      assert prefix[0] in prefix;
      assert forall x :: x in prefix[1..] ==> x in prefix;
      NoGroupWithoutOwner(prefix[1..], u);
    }
  }

  /** Filing one more row into its owner's group keeps `GroupsOf`: its
      owner's group grows by that row at the end, every other group stays. */
  lemma GroupsAfterAppend(prefix: seq<Medicine>, m: Medicine, groups: map<Id, seq<Medicine>>)
    requires m.userId.Some?
    requires forall u :: u in groups ==> groups[u] == GroupOf(prefix, u)
    requires forall u :: u in groups <==> exists x :: x in prefix && x.userId == Some(u)
    ensures forall u :: u in AddToGroup(groups, m) ==>
              AddToGroup(groups, m)[u] == GroupOf(prefix + [m], u)
  {
    var next := AddToGroup(groups, m);
    var u := m.userId.value;
    forall v | v in next
      ensures next[v] == GroupOf(prefix + [m], v)
    {
      FilterAppend(prefix, [m], Test(OwnedBy(v)));
      if v == u {
        assert GroupOf([m], v) == [m];
        if u !in groups {
          NoGroupWithoutOwner(prefix, u);
        }
      } else {
        assert GroupOf([m], v) == [];
      }
    }
  }

  /** Filing one more row adds one to the total size of the groups. */
  lemma TotalAfterAppend(groups: map<Id, seq<Medicine>>, m: Medicine)
    requires m.userId.Some?
    ensures TotalSize(AddToGroup(groups, m), AddToGroup(groups, m).Keys)
            == TotalSize(groups, groups.Keys) + 1
  {
    var next := AddToGroup(groups, m);
    var u := m.userId.value;
    TotalSizeRemove(next, next.Keys, u);
    if u in groups {
      assert next.Keys == groups.Keys;
      assert |next[u]| == |groups[u]| + 1;
      TotalSizeRemove(groups, groups.Keys, u);
      TotalSizeFrame(groups, next, groups.Keys - {u});
    } else {
      assert next.Keys - {u} == groups.Keys;
      TotalSizeFrame(groups, next, groups.Keys);
    }
  }

  /** Filing one more row into the grouping of a prefix gives the grouping
      of the longer prefix. */
  lemma GroupsOfAppend(prefix: seq<Medicine>, m: Medicine, groups: map<Id, seq<Medicine>>)
    requires m.userId.Some?
    requires GroupsOf(prefix, groups)
    ensures GroupsOf(prefix + [m], AddToGroup(groups, m))
  {
    var next := AddToGroup(groups, m);
    GroupsAfterAppend(prefix, m, groups);
    TotalAfterAppend(groups, m);
    forall u
      ensures u in next <==> exists x :: x in prefix + [m] && x.userId == Some(u)
    {
      if exists x :: x in prefix + [m] && x.userId == Some(u) {
        var x :| x in prefix + [m] && x.userId == Some(u);
        if x != m {
          assert x in prefix;
        }
      }
      if u in groups {
        var x :| x in prefix && x.userId == Some(u);
        assert x in prefix + [m];
      }
      if u == m.userId.value {
        assert m in prefix + [m];
      }
    }
  }

  /** `groupingBy(getUserId)`: the rows of `listing` grouped by owner; no
      grouping at all when some row has a null owner. */
  method GroupByUser(listing: seq<Medicine>) returns (r: Option<map<Id, seq<Medicine>>>)
    ensures r.None? <==> exists x :: x in listing && x.userId.None?
    ensures r.Some? ==> GroupsOf(listing, r.value)
  {
    var groups: map<Id, seq<Medicine>> := map[];
    var i := 0;
    while i < |listing|
      invariant 0 <= i <= |listing|
      invariant forall x :: x in listing[..i] ==> x.userId.Some?
      invariant GroupsOf(listing[..i], groups)
    {
      var m := listing[i];
      if m.userId.None? {
        assert m in listing;
        return None;
      }
      var prefix := listing[..i];
      assert listing[..i + 1] == prefix + [m];
      GroupsOfAppend(prefix, m, groups);
      groups := AddToGroup(groups, m);
      i := i + 1;
    }
    assert listing[..i] == listing;
    return Some(groups);
  }

  /** What the expired scan reports. */
  datatype ExpiredScan =
    | AllClear
    | Report(listed: seq<Medicine>, perUser: map<Id, seq<Medicine>>)
    | ScanFailed(listed: seq<Medicine>, message: string)

  /** `checkExpiredMedicines`: all-clear when nothing has expired; otherwise
      every expired row listed once and the list grouped by owner with the
      size of each group. A failure while grouping is reported, not raised. */
  method CheckExpiredMedicines(s: Store, today: Date) returns (r: ExpiredScan)
    ensures r.AllClear? <==> forall m :: m in s.records.Values ==> !ExpiredBy(m, today)
    ensures !r.AllClear? ==> forall m :: m in r.listed <==> m in s.records.Values && ExpiredBy(m, today)
    ensures !r.AllClear? && KeyedById(s) ==> NoDuplicates(r.listed)
    ensures r.ScanFailed? <==>
              exists m :: m in s.records.Values && ExpiredBy(m, today) && m.userId.None?
    ensures r.ScanFailed? ==> r.message == NullKeyMessage
    ensures Wf(s) ==> !r.ScanFailed?
    ensures r.Report? ==> GroupsOf(r.listed, r.perUser)
  {
    if Wf(s) {
      StoredRowsPersistable(s);
    }
    var expired := GetAllExpiredMedicines(s, today);
    if expired == [] {
      return AllClear;
    }
    assert expired[0] in expired;
    var groups := GroupByUser(expired);
    if groups.None? {
      return ScanFailed(expired, NullKeyMessage);
    }
    assert forall x :: x in expired ==> x.userId.Some?;
    return Report(expired, groups.value);
  }

  // ---------------------------------------------------------------------
  // The expiring-soon reminder

  /** The date window the reminder announces. */
  datatype Reminder = Reminder(first: Date, last: Date)

  /** `checkMedicinesExpiringSoon`: the window from today to thirty days on. */
  function CheckMedicinesExpiringSoon(today: Date): (r: Reminder)
    ensures r.first == today
    ensures r.last - r.first == 30
  {
    Reminder(today, today + ExpiringSoonDays)
  }

  /** The reminder's window is the one the per-user expiring-soon query
      uses: a row is in that query's answer exactly when its expiry lies in
      the announced window. */
  lemma ReminderWindowIsQueryWindow(s: Store, user: Id, today: Date)
    ensures var w := CheckMedicinesExpiringSoon(today);
            forall m :: m in GetMedicinesExpiringSoon(s, Some(user), today).value <==>
              m in s.records.Values && m.userId == Some(user) && ExpiresWithin(m, w.first, w.last)
  {
  }
}

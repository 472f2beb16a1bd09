/** GetDeviceIDs: on every device-change notification the full device list is
    queried again and compared with the retained list. Every device in the new
    list that the old list does not contain is reported as added, then every
    device in the old list that the new list does not contain as removed, and the
    new list is retained. */
module DeviceIds {
  import opened Wrappers

  /** A Win32_PnPEntity record as GetDevices reads it: its DeviceID and its
      Description, either of which may be null. Equality is on both components. */
  datatype Device = Device(id: Option<string>, description: Option<string>)

  /** One printed report; the device is printed as Item1 then Item2. */
  datatype Report = Added(device: Device) | Removed(device: Device)

  /** The entries of xs that ys does not contain, in the order of xs (duplicates
      in xs are kept). */
  function Missing(xs: seq<Device>, ys: seq<Device>): seq<Device>
    decreases |xs|
  {
    if xs == [] then []
    else
      var last := xs[|xs| - 1];
      Missing(xs[..|xs| - 1], ys) + (if last in ys then [] else [last])
  }

  function AddedReports(devices: seq<Device>): seq<Report>
  {
    seq(|devices|, i requires 0 <= i < |devices| => Added(devices[i]))
  }

  function RemovedReports(devices: seq<Device>): seq<Report>
  {
    seq(|devices|, i requires 0 <= i < |devices| => Removed(devices[i]))
  }

  /** The reports of one notification: first the added devices in new-list order,
      then the removed devices in old-list order. */
  function Diff(retained: seq<Device>, current: seq<Device>): seq<Report>
  {
    AddedReports(Missing(current, retained)) + RemovedReports(Missing(retained, current))
  }

  /** The devices of the added reports, and of the removed reports, in order. */
  function AddedDevices(reports: seq<Report>): seq<Device>
    decreases |reports|
  {
    if reports == [] then []
    else (if reports[0].Added? then [reports[0].device] else []) + AddedDevices(reports[1..])
  }

  function RemovedDevices(reports: seq<Report>): seq<Device>
    decreases |reports|
  {
    if reports == [] then []
    else (if reports[0].Removed? then [reports[0].device] else []) + RemovedDevices(reports[1..])
  }

  /** A device is reported missing exactly when xs has it and ys does not. */
  lemma {:induction false} MissingMembers(xs: seq<Device>, ys: seq<Device>)
    ensures forall d :: d in Missing(xs, ys) <==> d in xs && d !in ys
    decreases |xs|
  {
    if xs != [] {
      var init := xs[..|xs| - 1];
      MissingMembers(init, ys);
      assert xs == init + [xs[|xs| - 1]];
    }
  }

  /** Missing keeps the order of xs: it distributes over concatenation. */
  lemma {:induction false} MissingAppend(xs: seq<Device>, zs: seq<Device>, ys: seq<Device>)
    ensures Missing(xs + zs, ys) == Missing(xs, ys) + Missing(zs, ys)
    decreases |zs|
  {
    if zs == [] {
      assert xs + zs == xs;
    } else {
      var init := zs[..|zs| - 1];
      MissingAppend(xs, init, ys);
      assert (xs + zs)[..|xs + zs| - 1] == xs + init;
    }
  }

  /** Nothing is missing exactly when every entry of xs is contained in ys. */
  lemma {:induction false} MissingEmpty(xs: seq<Device>, ys: seq<Device>)
    ensures Missing(xs, ys) == [] <==> forall d :: d in xs ==> d in ys
    decreases |xs|
  {
    MissingMembers(xs, ys);
    if Missing(xs, ys) != [] {
      assert Missing(xs, ys)[0] in Missing(xs, ys);
    }
  }

  lemma {:induction false} DevicesOfReports(added: seq<Device>, removed: seq<Device>)
    ensures AddedDevices(AddedReports(added) + RemovedReports(removed)) == added
    ensures RemovedDevices(AddedReports(added) + RemovedReports(removed)) == removed
    decreases |added| + |removed|
  {
    var r := AddedReports(added) + RemovedReports(removed);
    if added != [] {
      assert r[1..] == AddedReports(added[1..]) + RemovedReports(removed);
      DevicesOfReports(added[1..], removed);
      assert [added[0]] + added[1..] == added;
    } else if removed != [] {
      assert r == RemovedReports(removed);
      assert r[1..] == AddedReports([]) + RemovedReports(removed[1..]);
      DevicesOfReports([], removed[1..]);
      assert [removed[0]] + removed[1..] == removed;
    }
  }

  /** What a notification reports as added is exactly what the reverse
      notification would report as removed, and vice versa. */
  lemma DiffSymmetry(a: seq<Device>, b: seq<Device>)
    ensures AddedDevices(Diff(a, b)) == RemovedDevices(Diff(b, a)) == Missing(b, a)
    ensures RemovedDevices(Diff(a, b)) == AddedDevices(Diff(b, a)) == Missing(a, b)
  {
    DevicesOfReports(Missing(b, a), Missing(a, b));
    DevicesOfReports(Missing(a, b), Missing(b, a));
  }

  /** Every added report comes before every removed report; a device is reported
      added exactly when the new list has it and the retained list does not, and
      removed exactly when the retained list has it and the new list does not;
      there are at most as many reports as entries in the two lists. */
  lemma DiffReports(retained: seq<Device>, current: seq<Device>)
    ensures forall i, j :: 0 <= i < j < |Diff(retained, current)| && Diff(retained, current)[i].Removed? ==> Diff(retained, current)[j].Removed?
    ensures forall r :: r in Diff(retained, current) && r.Added? ==> r.device in current && r.device !in retained
    ensures forall r :: r in Diff(retained, current) && r.Removed? ==> r.device in retained && r.device !in current
    ensures forall d :: d in current && d !in retained ==> Added(d) in Diff(retained, current)
    ensures forall d :: d in retained && d !in current ==> Removed(d) in Diff(retained, current)
    ensures |Diff(retained, current)| <= |retained| + |current|
  {
    MissingMembers(current, retained);
    MissingMembers(retained, current);
    var added := Missing(current, retained);
    var removed := Missing(retained, current);
    assert |added| <= |current| by { MissingLength(current, retained); }
    assert |removed| <= |retained| by { MissingLength(retained, current); }
    forall d | d in current && d !in retained ensures Added(d) in Diff(retained, current) {
      var k :| 0 <= k < |added| && added[k] == d;
      assert Diff(retained, current)[k] == Added(d);
    }
    forall d | d in retained && d !in current ensures Removed(d) in Diff(retained, current) {
      var k :| 0 <= k < |removed| && removed[k] == d;
      assert Diff(retained, current)[|added| + k] == Removed(d);
    }
  }

  lemma {:induction false} MissingLength(xs: seq<Device>, ys: seq<Device>)
    ensures |Missing(xs, ys)| <= |xs|
    decreases |xs|
  {
    if xs != [] {
      MissingLength(xs[..|xs| - 1], ys);
    }
  }

  /** Missing keeps every occurrence of an entry ys lacks, and no occurrence of
      one ys contains. */
  lemma {:induction false} MissingCount(xs: seq<Device>, ys: seq<Device>, d: Device)
    ensures multiset(Missing(xs, ys))[d] == if d in ys then 0 else multiset(xs)[d]
    decreases |xs|
  {
    if xs != [] {
      var init := xs[..|xs| - 1];
      var last := xs[|xs| - 1];
      MissingCount(init, ys, d);
      assert xs == init + [last];
      assert multiset(xs) == multiset(init) + multiset{last};
      if last in ys {
        assert Missing(xs, ys) == Missing(init, ys) + [];
      } else {
        assert multiset(Missing(xs, ys)) == multiset(Missing(init, ys)) + multiset{last};
      }
    }
  }

  /** Each entry is reported as often as it occurs, and no more: an entry only the
      new list has is reported added once per occurrence in the new list, one
      only the retained list has removed once per occurrence there, and an entry
      both lists contain is not reported at all. */
  lemma DiffCounts(retained: seq<Device>, current: seq<Device>, d: Device)
    ensures multiset(AddedDevices(Diff(retained, current)))[d] == if d in retained then 0 else multiset(current)[d]
    ensures multiset(RemovedDevices(Diff(retained, current)))[d] == if d in current then 0 else multiset(retained)[d]
  {
    DevicesOfReports(Missing(current, retained), Missing(retained, current));
    MissingCount(current, retained, d);
    MissingCount(retained, current, d);
  }

  /** Debounce: a list compared with itself, or with any reordering of itself,
      yields no reports. */
  lemma NoChangeNoReports(a: seq<Device>, b: seq<Device>)
    requires multiset(a) == multiset(b)
    ensures Diff(a, b) == []
  {
    forall d | d in a ensures d in b {
      assert d in multiset(a);
    }
    forall d | d in b ensures d in a {
      assert d in multiset(b);
    }
    MissingEmpty(a, b);
    MissingEmpty(b, a);
  }

  /** Equality takes both components: a device whose DeviceID stays the same but
      whose Description changes is reported as added and as removed. */
  lemma DescriptionChangeReportsBoth(id: Option<string>, before: Option<string>, after: Option<string>)
    requires before != after
    ensures Diff([Device(id, before)], [Device(id, after)]) == [Added(Device(id, after)), Removed(Device(id, before))]
  {
    assert Missing([Device(id, after)], [Device(id, before)]) == [Device(id, after)];
    assert Missing([Device(id, before)], [Device(id, after)]) == [Device(id, before)];
  }

  /** The static `devices` field of GetDeviceIDs and its notification handler. */
  class DeviceListener {
    var devices: seq<Device>

    /** Main: the list retained before subscribing is the initial query's. */
    constructor (initial: seq<Device>)
      ensures devices == initial
    {
      devices := initial;
    }

    /** ProcessEvent: report added then removed devices and retain the new list.
        `query` is the answer of GetDevices, or None when it threw: then nothing
        is reported and the retained list stays as it was. */
    method ProcessEvent(query: Option<seq<Device>>) returns (reports: Option<seq<Report>>)
      modifies this
      ensures query.None? ==> reports.None? && devices == old(devices)
      ensures query.Some? ==> reports == Some(Diff(old(devices), query.value)) && devices == query.value
    {
      if query.None? {
        return None;
      }
      var newDevices := query.value;
      var printed: seq<Report> := [];
      for i := 0 to |newDevices|
        invariant printed == AddedReports(Missing(newDevices[..i], devices))
      {
        assert newDevices[..i + 1][..i] == newDevices[..i];
        var device := newDevices[i];
        if device !in devices {
          printed := printed + [Added(device)];
        }
      }
      assert newDevices[..|newDevices|] == newDevices;
      ghost var added := printed;
      for i := 0 to |devices|
        invariant printed == added + RemovedReports(Missing(devices[..i], newDevices))
      {
        assert devices[..i + 1][..i] == devices[..i];
        var device := devices[i];
        if device !in newDevices {
          printed := printed + [Removed(device)];
        }
      }
      assert devices[..|devices|] == devices;
      devices := newDevices;
      reports := Some(printed);
    }
  }

  /** A failed query between two notifications leaves the retained list intact,
      so the next notification is compared with the list before the failure. */
  method FailedQueryScenario(a: Device, b: Device)
    requires a != b
  {
    var listener := new DeviceListener([a]);
    var first := listener.ProcessEvent(None);
    assert first == None && listener.devices == [a];
    var second := listener.ProcessEvent(Some([a, b]));
    assert [a, b][..1] == [a] && [a][..0] == [];
    assert Missing([a], [a]) == [];
    assert Missing([a, b], [a]) == [b];
    assert Missing([a], [a, b]) == [];
    assert AddedReports([b]) == [Added(b)] && RemovedReports([]) == [];
    assert Diff([a], [a, b]) == [Added(b)] + [];
    assert [Added(b)] + [] == [Added(b)];
    assert second == Some(Diff([a], [a, b]));
    assert second == Some([Added(b)]);
    var third := listener.ProcessEvent(Some([a, b]));
    NoChangeNoReports([a, b], [a, b]);
    assert third == Some([]);
  }
}

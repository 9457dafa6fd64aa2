/** A whole vendor file, written in any spelling, is read back as the document it stands for. */
module TomlFile {
  import opened Common
  import opened TomlValue
  import opened TomlDocument

  /** One key and its value, in the order they are written. */
  datatype Entry = Entry(key: string, value: Value)

  predicate Distinct(entries: seq<Entry>) {
    forall i, j :: 0 <= i < j < |entries| ==> entries[i].key != entries[j].key
  }

  predicate Known(entries: seq<Entry>, scope: Scope) {
    forall i :: 0 <= i < |entries| ==> entries[i].key in Allowed(scope)
  }

  predicate GoodEntries(entries: seq<Entry>, scope: Scope) { Distinct(entries) && Known(entries, scope) }

  predicate GoodDevices(devices: seq<seq<Entry>>) {
    forall i :: 0 <= i < |devices| ==> GoodEntries(devices[i], InDevice)
  }

  function TableOf(entries: seq<Entry>): (t: Table)
    ensures forall k :: k in t <==> exists i :: 0 <= i < |entries| && entries[i].key == k
  {
    if entries == [] then map[]
    else
      var last := entries[|entries| - 1];
      TableOf(entries[..|entries| - 1])[last.key := last.value]
  }

  function TablesOf(devices: seq<seq<Entry>>): seq<Table> {
    if devices == [] then [] else TablesOf(devices[..|devices| - 1]) + [TableOf(devices[|devices| - 1])]
  }

  // ----- The acts of a document -----

  function Sets(entries: seq<Entry>): seq<Act> {
    if entries == [] then []
    else
      var last := entries[|entries| - 1];
      Sets(entries[..|entries| - 1]) + [Set(last.key, last.value)]
  }

  function DeviceActs(devices: seq<seq<Entry>>): seq<Act> {
    if devices == [] then []
    else DeviceActs(devices[..|devices| - 1]) + [OpenDevice] + Sets(devices[|devices| - 1])
  }

  function DocumentActs(vendor: seq<Entry>, devices: seq<seq<Entry>>): seq<Act> {
    [OpenVendor] + Sets(vendor) + DeviceActs(devices)
  }

  /** The state after all acts, if none fails. */
  function Run(acts: seq<Act>): (r: Option<Reader>)
    ensures r.Some? ==> r.value.Valid()
  {
    if acts == [] then Some(EMPTY) else Then(Run(acts[..|acts| - 1]), acts[|acts| - 1])
  }

  function Then(st: Option<Reader>, act: Act): (r: Option<Reader>)
    requires st.Some? ==> st.value.Valid()
    ensures r.Some? ==> r.value.Valid()
  {
    if st.Some? && Perform(st.value, act).Ok? then Some(Perform(st.value, act).value) else None
  }

  lemma RunOneMore(acts: seq<Act>, act: Act)
    ensures Run(acts + [act]) == Then(Run(acts), act)
  {
    assert (acts + [act])[..|acts|] == acts;
  }

  lemma SetLands(st: Reader, key: string, value: Value)
    requires st.Valid() && st.scope != Outside && key in Allowed(st.scope) && key !in st.Target()
    ensures Then(Some(st), Set(key, value)) == Some(st.Put(key, value))
  {
  }

  /** A state reached from `st` by filling its empty current table, and nothing else. */
  predicate Filled(st: Reader, table: Table, r: Reader)
    requires st.Valid()
  {
    && r.Valid() && r.scope == st.scope && r.Target() == table
    && r.Closed() == st.Closed() && (st.scope == InDevice ==> r.doc.vendor == st.doc.vendor)
  }

  lemma FilledStep(st: Reader, table: Table, r: Reader, key: string, value: Value)
    requires st.Valid() && st.scope != Outside && Filled(st, table, r)
    ensures Filled(st, table[key := value], r.Put(key, value))
  {
  }

  lemma OneMoreSet(acts: seq<Act>, st: Reader, table: Table, before: Reader, e: Entry)
    requires st.Valid() && st.scope != Outside && Run(acts) == Some(before) && Filled(st, table, before)
    requires e.key in Allowed(st.scope) && e.key !in table
    ensures before.Valid() && Run(acts + [Set(e.key, e.value)]) == Some(before.Put(e.key, e.value))
    ensures Filled(st, table[e.key := e.value], before.Put(e.key, e.value))
  {
    SetLands(before, e.key, e.value);
    RunOneMore(acts, Set(e.key, e.value));
    FilledStep(st, table, before, e.key, e.value);
  }

  lemma FewerEntries(entries: seq<Entry>, scope: Scope)
    requires GoodEntries(entries, scope) && entries != []
    ensures GoodEntries(entries[..|entries| - 1], scope)
    ensures
      var key := entries[|entries| - 1].key;
      key in Allowed(scope) && key !in TableOf(entries[..|entries| - 1])
  {
  }

  /** Assignments with fresh allowed keys all land in the current table. */
  lemma {:induction false} SetsLand(acts: seq<Act>, st: Reader, entries: seq<Entry>) returns (r: Reader)
    requires Run(acts) == Some(st) && st.scope != Outside && st.Target() == map[]
    requires GoodEntries(entries, st.scope)
    ensures Run(acts + Sets(entries)) == Some(r) && Filled(st, TableOf(entries), r)
  {
    if entries == [] {
      r := st;
      assert acts + Sets(entries) == acts;
    } else {
      var fewer, last := entries[..|entries| - 1], entries[|entries| - 1];
      FewerEntries(entries, st.scope);
      var before := SetsLand(acts, st, fewer);
      OneMoreSet(acts + Sets(fewer), st, TableOf(fewer), before, last);
      r := before.Put(last.key, last.value);
      assert acts + Sets(entries) == (acts + Sets(fewer)) + [Set(last.key, last.value)];
    }
  }

  lemma DeviceIsFilled(st: Reader, table: Table, r: Reader)
    requires Filled(st.NewDevice(), table, r)
    ensures r.doc == Document(st.doc.vendor, st.doc.devices + [table])
  {
    var n := |r.doc.devices| - 1;
    assert r.doc.devices == r.doc.devices[..n] + [r.doc.devices[n]];
    assert (st.doc.devices + [map[]])[..|st.doc.devices|] == st.doc.devices;
  }

  lemma FewerDevices(devices: seq<seq<Entry>>)
    requires GoodDevices(devices) && devices != []
    ensures GoodDevices(devices[..|devices| - 1]) && GoodEntries(devices[|devices| - 1], InDevice)
  {
  }

  lemma OneMoreDevice(acts: seq<Act>, devices: seq<seq<Entry>>)
    requires devices != []
    ensures acts + DeviceActs(devices)
         == acts + DeviceActs(devices[..|devices| - 1]) + [OpenDevice] + Sets(devices[|devices| - 1])
  {
    Regroup(acts, DeviceActs(devices[..|devices| - 1]), [OpenDevice], Sets(devices[|devices| - 1]));
  }

  lemma Regroup(a: seq<Act>, b: seq<Act>, c: seq<Act>, d: seq<Act>)
    ensures a + (b + c + d) == a + b + c + d
  {
  }

  lemma {:induction false} DevicesLand(acts: seq<Act>, st: Reader, devices: seq<seq<Entry>>) returns (r: Reader)
    requires GoodDevices(devices)
    requires Run(acts) == Some(st) && st.doc.devices == []
    ensures Run(acts + DeviceActs(devices)) == Some(r)
    ensures r.doc == Document(st.doc.vendor, TablesOf(devices))
  {
    if devices == [] {
      r := st;
      assert acts + DeviceActs(devices) == acts;
    } else {
      var last := devices[|devices| - 1];
      var fewer := acts + DeviceActs(devices[..|devices| - 1]);
      FewerDevices(devices);
      var before := DevicesLand(acts, st, devices[..|devices| - 1]);
      r := DeviceLands(fewer, before, last);
      OneMoreDevice(acts, devices);
    }
  }

  lemma DeviceLands(acts: seq<Act>, st: Reader, entries: seq<Entry>) returns (r: Reader)
    requires Run(acts) == Some(st) && GoodEntries(entries, InDevice)
    ensures Run(acts + [OpenDevice] + Sets(entries)) == Some(r)
    ensures r.doc == Document(st.doc.vendor, st.doc.devices + [TableOf(entries)])
  {
    RunOneMore(acts, OpenDevice);
    r := SetsLand(acts + [OpenDevice], st.NewDevice(), entries);
    DeviceIsFilled(st, TableOf(entries), r);
  }

  lemma DocumentLands(vendor: seq<Entry>, devices: seq<seq<Entry>>) returns (r: Reader)
    requires GoodEntries(vendor, InVendor)
    requires GoodDevices(devices)
    ensures Run(DocumentActs(vendor, devices)) == Some(r) && r.doc == Document(TableOf(vendor), TablesOf(devices))
  {
    RunOneMore([], OpenVendor);
    assert [] + [OpenVendor] == [OpenVendor];
    var headed := EMPTY.(scope := InVendor);
    var filled := SetsLand([OpenVendor], headed, vendor);
    r := DevicesLand([OpenVendor] + Sets(vendor), filled, devices);
  }

  // ----- Remarks in between change nothing -----

  /** The acts other than blank and comment lines. */
  function Busy(acts: seq<Act>): seq<Act> {
    if acts == [] then []
    else Busy(acts[..|acts| - 1]) + if acts[|acts| - 1].Skip? then [] else [acts[|acts| - 1]]
  }

  lemma {:induction false} RunBusy(acts: seq<Act>)
    ensures Run(Busy(acts)) == Run(acts)
  {
    if acts != [] {
      var init, last := acts[..|acts| - 1], acts[|acts| - 1];
      RunBusy(init);
      if last.Skip? {
        assert Busy(acts) == Busy(init);
      } else {
        RunOneMore(Busy(init), last);
      }
    }
  }

  lemma {:induction false} RunPrefix(acts: seq<Act>, n: nat)
    requires n <= |acts| && Run(acts).Some?
    ensures Run(acts[..n]).Some?
    decreases |acts|
  {
    if n < |acts| {
      assert acts[..|acts| - 1][..n] == acts[..n];
      RunPrefix(acts[..|acts| - 1], n);
    } else {
      assert acts[..n] == acts;
    }
  }

  lemma {:induction false} PerformFollowsRun(acts: seq<Act>, i: nat, st: Reader)
    requires i <= |acts| && Run(acts[..i]) == Some(st) && Run(acts).Some?
    ensures PerformAll(st, acts, i) == Ok(Run(acts).value.doc)
    decreases |acts| - i
  {
    if i < |acts| {
      RunPrefix(acts, i + 1);
      assert acts[..i + 1] == acts[..i] + [acts[i]];
      RunOneMore(acts[..i], acts[i]);
      PerformFollowsRun(acts, i + 1, Run(acts[..i + 1]).value);
    } else {
      assert acts[..i] == acts;
    }
  }

  /**
   Any document over the known keys, with its values in any spelling, any spacing and
   comments, blank and remark lines anywhere and either line end, is read back as itself.
   */
  lemma DocumentRoundTrip(vendor: seq<Entry>, devices: seq<seq<Entry>>, lines: seq<Line>, acts: seq<Act>, eol: string)
    requires GoodEntries(vendor, InVendor)
    requires GoodDevices(devices)
    requires Busy(acts) == DocumentActs(vendor, devices)
    requires eol in {"\n", "\r\n"} && Spell(lines, acts)
    requires forall i :: 0 <= i < |lines| ==> OneLine(RenderLine(lines[i]))
    ensures ReadLines(EMPTY, Lines(Join(RenderLines(lines), eol)), 0)
         == Ok(Document(TableOf(vendor), TablesOf(devices)))
  {
    var r := DocumentLands(vendor, devices);
    RunBusy(acts);
    assert acts != [];
    assert acts[..0] == [];
    FileRead(lines, acts, eol);
    PerformFollowsRun(acts, 0, EMPTY);
  }
}

/** `Sync.collate` and `Sync.expand_right_aws`: both fold a flat record list
    into a name -> type -> entry table, with different overwrite rules. */
module Collation {
  import opened Hashes
  import opened Records

  /** Putting a leaf table under a name keeps a table well formed. */
  lemma PutWellFormed(t: Table, name: string, types: Types)
    requires WellFormed(t) && DistinctKeys(types)
    ensures WellFormed(Put(t, name, types))
  {
    PutKeys(t, name, types);
  }

  /** The leaf table stored under `name`, or `{}`. */
  lemma TypesAtWellFormed(t: Table, name: string)
    requires WellFormed(t)
    ensures DistinctKeys(GetOr(t, name, []))
  {
    if HasKey(t, name) {
      assert GetOr(t, name, []) == t[IndexOf(t, name)].1;
    }
  }

  // ---- collate -------------------------------------------------------------------

  /** The leaf `collate` leaves for `r`'s name and type, given the leaf it
      found there. */
  function CollateLeaf(found: Option<Entry>, r: Record): Entry {
    var entry := match found                                  // acc[name][type] ||= { :ttl => ttl }
      case Some(e) => e
      case None => Entry(r.ttl, RRNil);
    var values := if entry.rrs.RRList? then entry.rrs.values else [];   // [:resource_records] ||= []
    var values' := if r.rtype == "CNAME" then [r.data] else values + [r.data];
    Entry(entry.ttl, RRList(values'))
  }

  /** One turn of the `inject` in `collate`. */
  function CollateStep(acc: Table, r: Record): Table {
    var types := GetOr(acc, r.name, []);                        // acc[name] ||= {}
    Put(acc, r.name, Put(types, r.rtype, CollateLeaf(Get(types, r.rtype), r)))
  }

  /** `collate(captured)`, as a left fold. */
  function Collated(rs: seq<Record>): Table {
    if rs == [] then [] else CollateStep(Collated(rs[..|rs| - 1]), rs[|rs| - 1])
  }

  /** The records of `rs` with this name and type, in input order. */
  function Matching(rs: seq<Record>, name: string, rtype: string): (ms: seq<Record>)
    ensures forall m :: m in ms ==> m in rs && m.name == name && m.rtype == rtype
    ensures forall m :: m in rs && m.name == name && m.rtype == rtype ==> m in ms
  {
    if rs == [] then []
    else
      var last := rs[|rs| - 1];
      assert rs == rs[..|rs| - 1] + [last];
      Matching(rs[..|rs| - 1], name, rtype) + (if last.name == name && last.rtype == rtype then [last] else [])
  }

  function DataOf(ms: seq<Record>): (ds: seq<string>)
    ensures |ds| == |ms| && forall i :: 0 <= i < |ms| ==> ds[i] == ms[i].data
  {
    seq(|ms|, i requires 0 <= i < |ms| => ms[i].data)
  }

  /** What `collate` stores for a name and type: the ttl of the first record
      seen; for a CNAME only the last value seen, for any other type every
      value in input order, duplicates kept. */
  function CollateRef(rs: seq<Record>, name: string, rtype: string): Option<Entry> {
    var ms := Matching(rs, name, rtype);
    if ms == [] then None
    else Some(Entry(ms[0].ttl, RRList(if rtype == "CNAME" then [ms[|ms| - 1].data] else DataOf(ms))))
  }

  /** A step only touches the leaf of its own name and type. */
  lemma CollateStepLookup(acc: Table, r: Record, name: string, rtype: string)
    ensures Lookup(CollateStep(acc, r), name, rtype) ==
      if name == r.name && rtype == r.rtype then Some(CollateLeaf(Lookup(acc, name, rtype), r))
      else Lookup(acc, name, rtype)
  {
    var types := GetOr(acc, r.name, []);
    var e' := CollateLeaf(Get(types, r.rtype), r);
    PutGet(acc, r.name, Put(types, r.rtype, e'), name);
    if name == r.name {
      PutGet(types, r.rtype, e', rtype);
      assert Get(types, rtype) == Lookup(acc, name, rtype);
    }
  }

  /** The reference description grows the same way. */
  lemma CollateRefStep(rs: seq<Record>, name: string, rtype: string)
    requires rs != []
    ensures var front, r := rs[..|rs| - 1], rs[|rs| - 1];
      CollateRef(rs, name, rtype) ==
        if name == r.name && rtype == r.rtype then Some(CollateLeaf(CollateRef(front, name, rtype), r))
        else CollateRef(front, name, rtype)
  {
    var front, r := rs[..|rs| - 1], rs[|rs| - 1];
    var ms0 := Matching(front, name, rtype);
    var ms := Matching(rs, name, rtype);
    if name == r.name && rtype == r.rtype {
      assert ms == ms0 + [r];
      assert ms[|ms| - 1] == r;
      assert DataOf(ms) == DataOf(ms0) + [r.data];
      if ms0 != [] {
        assert ms[0] == ms0[0];
      }
    } else {
      assert ms == ms0;
    }
  }

  lemma {:induction false} CollatedLookup(rs: seq<Record>, name: string, rtype: string)
    ensures Lookup(Collated(rs), name, rtype) == CollateRef(rs, name, rtype)
  {
    if rs != [] {
      var front, r := rs[..|rs| - 1], rs[|rs| - 1];
      CollatedLookup(front, name, rtype);
      CollateStepLookup(Collated(front), r, name, rtype);
      CollateRefStep(rs, name, rtype);
    }
  }

  lemma {:induction false} CollatedWellFormed(rs: seq<Record>)
    ensures WellFormed(Collated(rs))
  {
    if rs != [] {
      var front, r := rs[..|rs| - 1], rs[|rs| - 1];
      CollatedWellFormed(front);
      var acc := Collated(front);
      TypesAtWellFormed(acc, r.name);
      var types := GetOr(acc, r.name, []);
      var e' := CollateLeaf(Get(types, r.rtype), r);
      PutKeys(types, r.rtype, e');
      PutWellFormed(acc, r.name, Put(types, r.rtype, e'));
    }
  }

  /** `Sync.collate(captured)`. */
  method Collate(captured: seq<Record>) returns (acc: Table)
    ensures acc == Collated(captured)
    ensures WellFormed(acc)
    ensures forall name, rtype :: Lookup(acc, name, rtype) == CollateRef(captured, name, rtype)
  {
    acc := [];
    var k := 0;
    while k < |captured|
      invariant 0 <= k <= |captured|
      invariant acc == Collated(captured[..k])
    {
      var record := captured[k];
      var name, rtype, ttl, data := record.name, record.rtype, record.ttl, record.data;
      var types := GetOr(acc, name, []);
      var entry := GetOr(types, rtype, Entry(ttl, RRNil));
      var values := if entry.rrs.RRList? then entry.rrs.values else [];
      if rtype == "CNAME" {   // Enforce singularity of CNAMEs.
        values := [data];
      } else {
        values := values + [data];
      }
      acc := Put(acc, name, Put(types, rtype, Entry(entry.ttl, RRList(values))));
      assert captured[..k + 1][..k] == captured[..k];
      k := k + 1;
    }
    assert captured[..k] == captured;
    CollatedWellFormed(captured);
    forall name, rtype ensures Lookup(acc, name, rtype) == CollateRef(captured, name, rtype) {
      CollatedLookup(captured, name, rtype);
    }
  }

  // ---- expand_right_aws ----------------------------------------------------------

  /** One turn of the `inject` in `expand_right_aws`. */
  function ExpandStep(acc: Table, r: ProviderRecord): Table {
    var types := GetOr(acc, r.name, []);                        // acc[name] ||= {}
    Put(acc, r.name, Put(types, r.rtype, Entry(r.ttl, r.rrs)))  // acc[name][type] = ...
  }

  /** `expand_right_aws(records)`, as a left fold. */
  function Expanded(rs: seq<ProviderRecord>): Table {
    if rs == [] then [] else ExpandStep(Expanded(rs[..|rs| - 1]), rs[|rs| - 1])
  }

  /** The last record of `rs` with this name and type. */
  function LastMatching(rs: seq<ProviderRecord>, name: string, rtype: string): (r: Option<ProviderRecord>)
    ensures r.Some? ==> r.value in rs && r.value.name == name && r.value.rtype == rtype
    ensures r.None? ==> forall p :: p in rs ==> !(p.name == name && p.rtype == rtype)
  {
    if rs == [] then None
    else
      var last := rs[|rs| - 1];
      assert rs == rs[..|rs| - 1] + [last];
      if last.name == name && last.rtype == rtype then Some(last)
      else LastMatching(rs[..|rs| - 1], name, rtype)
  }

  /** What `expand_right_aws` stores for a name and type: ttl and values of
      the last record listed. */
  function ExpandRef(rs: seq<ProviderRecord>, name: string, rtype: string): Option<Entry> {
    match LastMatching(rs, name, rtype)
    case None => None
    case Some(r) => Some(Entry(r.ttl, r.rrs))
  }

  lemma {:induction false} ExpandedLookup(rs: seq<ProviderRecord>, name: string, rtype: string)
    ensures Lookup(Expanded(rs), name, rtype) == ExpandRef(rs, name, rtype)
  {
    if rs != [] {
      var front, r := rs[..|rs| - 1], rs[|rs| - 1];
      ExpandedLookup(front, name, rtype);
      var acc := Expanded(front);
      var types := GetOr(acc, r.name, []);
      var types' := Put(types, r.rtype, Entry(r.ttl, r.rrs));
      PutGet(acc, r.name, types', name);
      if name == r.name {
        PutGet(types, r.rtype, Entry(r.ttl, r.rrs), rtype);
        assert Get(types, rtype) == Lookup(acc, name, rtype);
      }
    }
  }

  lemma {:induction false} ExpandedWellFormed(rs: seq<ProviderRecord>)
    ensures WellFormed(Expanded(rs))
  {
    if rs != [] {
      var front, r := rs[..|rs| - 1], rs[|rs| - 1];
      ExpandedWellFormed(front);
      var acc := Expanded(front);
      TypesAtWellFormed(acc, r.name);
      var types := GetOr(acc, r.name, []);
      PutKeys(types, r.rtype, Entry(r.ttl, r.rrs));
      PutWellFormed(acc, r.name, Put(types, r.rtype, Entry(r.ttl, r.rrs)));
    }
  }

  /** `Sync.expand_right_aws(records)`. */
  method ExpandRightAws(records: seq<ProviderRecord>) returns (acc: Table)
    ensures acc == Expanded(records)
    ensures WellFormed(acc)
    ensures forall name, rtype :: Lookup(acc, name, rtype) == ExpandRef(records, name, rtype)
  {
    acc := [];
    var k := 0;
    while k < |records|
      invariant 0 <= k <= |records|
      invariant acc == Expanded(records[..k])
    {
      var record := records[k];
      var name, rtype, ttl, data := record.name, record.rtype, record.ttl, record.rrs;
      var types := GetOr(acc, name, []);
      acc := Put(acc, name, Put(types, rtype, Entry(ttl, data)));
      assert records[..k + 1][..k] == records[..k];
      k := k + 1;
    }
    assert records[..k] == records;
    ExpandedWellFormed(records);
    forall name, rtype ensures Lookup(acc, name, rtype) == ExpandRef(records, name, rtype) {
      ExpandedLookup(records, name, rtype);
    }
  }
}

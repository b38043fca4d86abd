/** `Capture`: turns what the compute and load-balancer services describe
    into the flat list of records the zone should hold. The service calls
    themselves are parameters. */
module Capture {
  import opened Hashes
  import opened Records
  import opened Names

  /** `@suffixes`: the labels under which hosts, load balancers and security
      groups are published. */
  datatype Suffixes = Suffixes(host: string, elb: string, sg: string)

  /** `(suffixes[:host] or 'inst')` and its two siblings: an option that is
      absent (or `nil`) takes the default; any string, the empty one
      included, is kept. */
  function SuffixesFrom(host: Option<string>, elb: Option<string>, sg: Option<string>): (r: Suffixes)
    ensures r.host == (if host.Some? then host.value else "inst")
    ensures r.elb == (if elb.Some? then elb.value else "elb")
    ensures r.sg == (if sg.Some? then sg.value else "sg")
  {
    Suffixes(
      match host case Some(h) => h case None => "inst",
      match elb case Some(e) => e case None => "elb",
      match sg case Some(g) => g case None => "sg")
  }

  // ---- instances --------------------------------------------------------------------

  datatype GroupRef = GroupRef(groupName: string)

  /** One entry of `describe_instances`, with the keys the capture reads. */
  datatype DescribedInstance = DescribedInstance(
    awsInstanceId: string,
    dnsName: Option<string>,
    awsGroups: Option<seq<string>>,
    groups: Option<seq<GroupRef>>)

  /** `{ :sg => groups, :dns => dns }`. */
  datatype HostInfo = HostInfo(sg: Option<seq<string>>, dns: string)

  /** instance id -> host info. */
  type Hosts = Hash<string, HostInfo>

  /** The `case` choosing an instance's groups: `aws_groups` when given,
      otherwise the names of `groups`, otherwise `nil`. */
  function GroupsOf(i: DescribedInstance): (r: Option<seq<string>>)
    ensures i.awsGroups.Some? ==> r == i.awsGroups
    ensures i.awsGroups.None? && i.groups.Some? ==>
      r.Some? && |r.value| == |i.groups.value| &&
      forall k :: 0 <= k < |r.value| ==> r.value[k] == i.groups.value[k].groupName
    ensures i.awsGroups.None? && i.groups.None? ==> r.None?
  {
    if i.awsGroups.Some? then i.awsGroups
    else if i.groups.Some? then
      Some(seq(|i.groups.value|, k requires 0 <= k < |i.groups.value| => i.groups.value[k].groupName))
    else None
  }

  /** `dns.nil? or dns.empty?` fails: the instance is published. */
  predicate Usable(i: DescribedInstance) {
    i.dnsName.Some? && i.dnsName.value != ""
  }

  function InfoOf(i: DescribedInstance): HostInfo
    requires Usable(i)
  {
    HostInfo(GroupsOf(i), DotTerminated(i.dnsName.value))
  }

  /** One turn of the `inject` in `instances`. */
  function InstanceStep(acc: Hosts, i: DescribedInstance): Hosts {
    if Usable(i) then Put(acc, i.awsInstanceId, InfoOf(i)) else acc
  }

  /** `instances`, as a left fold over the described instances. */
  function HostsFold(ds: seq<DescribedInstance>): Hosts {
    if ds == [] then [] else InstanceStep(HostsFold(ds[..|ds| - 1]), ds[|ds| - 1])
  }

  /** The last published instance listed with this id. */
  function LastUsable(ds: seq<DescribedInstance>, id: string): (r: Option<DescribedInstance>)
    ensures r.Some? ==> r.value in ds && Usable(r.value) && r.value.awsInstanceId == id
    ensures r.None? ==> forall i :: i in ds ==> !(Usable(i) && i.awsInstanceId == id)
  {
    if ds == [] then None
    else
      var last := ds[|ds| - 1];
      assert ds == ds[..|ds| - 1] + [last];
      if Usable(last) && last.awsInstanceId == id then Some(last)
      else LastUsable(ds[..|ds| - 1], id)
  }

  /** What the host map should hold for `id`: the info of the last instance
      listed with that id and a dns name. */
  function PublishedAs(ds: seq<DescribedInstance>, id: string): Option<HostInfo> {
    match LastUsable(ds, id)
    case None => None
    case Some(i) => Some(InfoOf(i))
  }

  /** The host map holds an id exactly when some instance with it has a dns
      name, and then the info of the last such instance. */
  lemma {:induction false} HostsFoldGet(ds: seq<DescribedInstance>, id: string)
    ensures Get(HostsFold(ds), id) == PublishedAs(ds, id)
  {
    if ds != [] {
      var front, last := ds[..|ds| - 1], ds[|ds| - 1];
      HostsFoldGet(front, id);
      if Usable(last) {
        PutGet(HostsFold(front), last.awsInstanceId, InfoOf(last), id);
      }
    }
  }

  lemma {:induction false} HostsFoldDistinct(ds: seq<DescribedInstance>)
    ensures DistinctKeys(HostsFold(ds))
  {
    if ds != [] {
      var front, last := ds[..|ds| - 1], ds[|ds| - 1];
      HostsFoldDistinct(front);
      if Usable(last) {
        PutKeys(HostsFold(front), last.awsInstanceId, InfoOf(last));
      }
    }
  }

  /** `Capture#instances`, with the `describe_instances` answer as input. */
  method Instances(described: seq<DescribedInstance>) returns (acc: Hosts)
    ensures acc == HostsFold(described)
    ensures DistinctKeys(acc)
    ensures forall id :: Get(acc, id) == PublishedAs(described, id)
  {
    acc := [];
    var k := 0;
    while k < |described|
      invariant 0 <= k <= |described|
      invariant acc == HostsFold(described[..k])
    {
      var i := described[k];
      var dns := i.dnsName;
      if !(dns.None? || dns.value == "") {
        acc := Put(acc, i.awsInstanceId, InfoOf(i));
      }
      assert described[..k + 1][..k] == described[..k];
      k := k + 1;
    }
    assert described[..k] == described;
    HostsFoldDistinct(described);
    forall id ensures Get(acc, id) == PublishedAs(described, id) {
      HostsFoldGet(described, id);
    }
  }

  // ---- load_balancers ---------------------------------------------------------------

  /** One entry of `describe_load_balancers`. */
  datatype DescribedElb = DescribedElb(instances: seq<string>, dnsName: string)

  /** `{ :instances => ..., :prefix => cut_down_elb_name(dns_name) }`. */
  datatype LoadBalancer = LoadBalancer(instances: seq<string>, prefix: Option<string>)

  /** `Capture#load_balancers`, with the `describe_load_balancers` answer as
      input. */
  function LoadBalancers(ds: seq<DescribedElb>): (r: seq<LoadBalancer>)
    requires forall k :: 0 <= k < |ds| ==> NoNewline(ds[k].dnsName)
    ensures |r| == |ds|
    ensures forall k :: 0 <= k < |ds| ==>
      r[k].instances == ds[k].instances && r[k].prefix == CutDownElbName(ds[k].dnsName)
  {
    seq(|ds|, k requires 0 <= k < |ds| => LoadBalancer(ds[k].instances, CutDownElbName(ds[k].dnsName)))
  }

  // ---- zonedata: the record builders ------------------------------------------------

  /** `"\"zonify // #{dns}\""`. */
  function Quoted(dns: string): string {
    "\"zonify // " + dns + "\""
  }

  function HostCname(sfx: Suffixes, id: string, info: HostInfo): Record {
    Record(id + "." + sfx.host, "CNAME", TtlInt(86400), info.dns)
  }

  function HostTxt(sfx: Suffixes, info: HostInfo): Record {
    Record(sfx.host, "TXT", TtlStr("100"), Quoted(info.dns))
  }

  /** `host_records`: a CNAME and a TXT per host, in host order. */
  function HostRecords(sfx: Suffixes, hosts: Hosts): (r: seq<Record>)
    ensures |r| == 2 * |hosts|
    ensures forall x :: x in r <==>
      exists k :: 0 <= k < |hosts| && (x == HostCname(sfx, hosts[k].0, hosts[k].1) || x == HostTxt(sfx, hosts[k].1))
  {
    if hosts == [] then []
    else
      var rest := HostRecords(sfx, hosts[1..]);
      assert forall k :: 0 <= k < |hosts[1..]| ==> hosts[1..][k] == hosts[k + 1];
      assert forall k :: 1 <= k < |hosts| ==> hosts[k] == hosts[1..][k - 1];
      [HostCname(sfx, hosts[0].0, hosts[0].1), HostTxt(sfx, hosts[0].1)] + rest
  }

  /** The records of the `k`th host are the `k`th pair: its CNAME, then its TXT. */
  lemma {:induction false} HostRecordsAt(sfx: Suffixes, hosts: Hosts, k: nat)
    requires k < |hosts|
    ensures var r := HostRecords(sfx, hosts);
      r[2 * k] == HostCname(sfx, hosts[k].0, hosts[k].1) && r[2 * k + 1] == HostTxt(sfx, hosts[k].1)
  {
    if k > 0 {
      HostRecordsAt(sfx, hosts[1..], k - 1);
      assert hosts[1..][k - 1] == hosts[k];
    }
  }

  /** `elb[:instances].map{|i| hosts[i] }.compact`. */
  function Running(hosts: Hosts, ids: seq<string>): (r: seq<HostInfo>)
    ensures |r| <= |ids|
  {
    if ids == [] then [] else Known(hosts, ids[0]) + Running(hosts, ids[1..])
  }

  /** `[hosts[id]].compact`. */
  function Known(hosts: Hosts, id: string): (r: seq<HostInfo>)
    ensures |r| <= 1
  {
    match Get(hosts, id) case Some(info) => [info] case None => []
  }

  /** The running members are exactly the known hosts among the members. */
  lemma {:induction false} RunningIn(hosts: Hosts, ids: seq<string>, info: HostInfo)
    ensures info in Running(hosts, ids) <==> exists k :: 0 <= k < |ids| && Get(hosts, ids[k]) == Some(info)
  {
    if ids != [] {
      RunningIn(hosts, ids[1..], info);
      assert forall k :: 0 <= k < |ids[1..]| ==> ids[1..][k] == ids[k + 1];
      assert forall k :: 1 <= k < |ids| ==> ids[k] == ids[1..][k - 1];
    }
  }

  lemma RunningCons(hosts: Hosts, id: string, rest: seq<string>)
    ensures Running(hosts, [id] + rest) == Known(hosts, id) + Running(hosts, rest)
  {
    assert ([id] + rest)[0] == id && ([id] + rest)[1..] == rest;
  }

  /** A member the host map does not know adds nothing. */
  lemma {:induction false} RunningSkipsUnknown(hosts: Hosts, a: seq<string>, id: string, b: seq<string>)
    requires !HasKey(hosts, id)
    ensures Running(hosts, a + [id] + b) == Running(hosts, a + b)
  {
    assert Known(hosts, id) == [];
    if a == [] {
      assert a + [id] + b == [id] + b && a + b == b;
      RunningCons(hosts, id, b);
      assert [] + Running(hosts, b) == Running(hosts, b);
    } else {
      RunningSkipsUnknown(hosts, a[1..], id, b);
      assert a + [id] + b == [a[0]] + (a[1..] + [id] + b);
      assert a + b == [a[0]] + (a[1..] + b);
      RunningCons(hosts, a[0], a[1..] + [id] + b);
      RunningCons(hosts, a[0], a[1..] + b);
    }
  }

  /** `"#{elb[:prefix]}.#{@suffixes[:elb]}"`; a `nil` prefix reads as empty. */
  function ElbName(sfx: Suffixes, prefix: Option<string>): string {
    (match prefix case Some(p) => p case None => "") + "." + sfx.elb
  }

  /** The records of one load balancer: a TXT per running member. */
  function ElbRecordsFor(sfx: Suffixes, hosts: Hosts, elb: LoadBalancer): (r: seq<Record>)
    ensures var running := Running(hosts, elb.instances);
      |r| == |running| &&
      forall k :: 0 <= k < |r| ==> r[k] == Record(ElbName(sfx, elb.prefix), "TXT", TtlInt(100), Quoted(running[k].dns))
  {
    var running := Running(hosts, elb.instances);
    seq(|running|, k requires 0 <= k < |running| => Record(ElbName(sfx, elb.prefix), "TXT", TtlInt(100), Quoted(running[k].dns)))
  }

  /** `elb_records`: the records of every load balancer, in order. */
  function ElbRecords(sfx: Suffixes, hosts: Hosts, elbs: seq<LoadBalancer>): (r: seq<Record>)
    ensures forall x :: x in r <==> exists k :: 0 <= k < |elbs| && x in ElbRecordsFor(sfx, hosts, elbs[k])
  {
    if elbs == [] then []
    else
      var rest := ElbRecords(sfx, hosts, elbs[1..]);
      assert forall k :: 0 <= k < |elbs[1..]| ==> elbs[1..][k] == elbs[k + 1];
      assert forall k :: 1 <= k < |elbs| ==> elbs[k] == elbs[1..][k - 1];
      ElbRecordsFor(sfx, hosts, elbs[0]) + rest
  }

  /** A load balancer publishes a member exactly when the member is a known
      host, and then under the load balancer's name with the host's dns. */
  lemma ElbRecordsForIn(sfx: Suffixes, hosts: Hosts, elb: LoadBalancer, x: Record)
    ensures x in ElbRecordsFor(sfx, hosts, elb) <==>
      exists k, info :: 0 <= k < |elb.instances| && Get(hosts, elb.instances[k]) == Some(info)
        && x == Record(ElbName(sfx, elb.prefix), "TXT", TtlInt(100), Quoted(info.dns))
  {
    var r, running := ElbRecordsFor(sfx, hosts, elb), Running(hosts, elb.instances);
    if x in r {
      var m :| 0 <= m < |r| && r[m] == x;
      RunningIn(hosts, elb.instances, running[m]);
    }
    if exists k, info :: 0 <= k < |elb.instances| && Get(hosts, elb.instances[k]) == Some(info)
        && x == Record(ElbName(sfx, elb.prefix), "TXT", TtlInt(100), Quoted(info.dns)) {
      var k, info :| 0 <= k < |elb.instances| && Get(hosts, elb.instances[k]) == Some(info)
        && x == Record(ElbName(sfx, elb.prefix), "TXT", TtlInt(100), Quoted(info.dns));
      RunningIn(hosts, elb.instances, info);
      var m :| 0 <= m < |running| && running[m] == info;
      assert r[m] == x;
    }
  }

  // ---- zonedata: grouping by security group -----------------------------------------

  /** security group -> dns names of its members. */
  type Groups = Hash<string, seq<string>>

  /** `acc[sg] ||= []; acc[sg] << dns`. */
  function AddMember(acc: Groups, sg: string, dns: string): Groups {
    Put(acc, sg, GetOr(acc, sg, []) + [dns])
  }

  /** `info[:sg].each do |sg| ... end`, as a left fold. */
  function AddToGroups(acc: Groups, sgs: seq<string>, dns: string): Groups {
    if sgs == [] then acc else AddMember(AddToGroups(acc, sgs[..|sgs| - 1], dns), sgs[|sgs| - 1], dns)
  }

  /** One turn of the `inject` over the hosts. */
  function SgStep(acc: Groups, info: HostInfo): Groups {
    if info.sg.Some? then AddToGroups(acc, info.sg.value, info.dns) else acc
  }

  /** The `inject` that groups hosts by security group. */
  function SgFold(hosts: Hosts): Groups {
    if hosts == [] then [] else SgStep(SgFold(hosts[..|hosts| - 1]), hosts[|hosts| - 1].1)
  }

  /** `dns` once for each time `g` occurs in `sgs`. */
  function Occurrences(sgs: seq<string>, g: string, dns: string): (r: seq<string>)
    ensures forall x :: x in r ==> x == dns
    ensures r == [] <==> g !in sgs
  {
    if sgs == [] then []
    else
      assert sgs == sgs[..|sgs| - 1] + [sgs[|sgs| - 1]];
      Occurrences(sgs[..|sgs| - 1], g, dns) + (if sgs[|sgs| - 1] == g then [dns] else [])
  }

  /** The dns names filed under `g`: host by host, one per listing of `g`. */
  function Members(hosts: Hosts, g: string): (r: seq<string>)
    ensures r == [] <==> forall k :: 0 <= k < |hosts| ==> hosts[k].1.sg.None? || g !in hosts[k].1.sg.value
  {
    if hosts == [] then []
    else
      var last := hosts[|hosts| - 1];
      assert forall k :: 0 <= k < |hosts| - 1 ==> hosts[..|hosts| - 1][k] == hosts[k];
      Members(hosts[..|hosts| - 1], g) + (if last.1.sg.Some? then Occurrences(last.1.sg.value, g, last.1.dns) else [])
  }

  lemma {:induction false} AddToGroupsGet(acc: Groups, sgs: seq<string>, dns: string, g: string)
    ensures Get(AddToGroups(acc, sgs, dns), g) ==
      if Occurrences(sgs, g, dns) == [] then Get(acc, g) else Some(GetOr(acc, g, []) + Occurrences(sgs, g, dns))
  {
    if sgs != [] {
      var front, s := sgs[..|sgs| - 1], sgs[|sgs| - 1];
      var prev := AddToGroups(acc, front, dns);
      AddToGroupsGet(acc, front, dns, g);
      PutGet(prev, s, GetOr(prev, s, []) + [dns], g);
      if s == g {
        assert Occurrences(sgs, g, dns) == Occurrences(front, g, dns) + [dns];
        assert GetOr(prev, g, []) == GetOr(acc, g, []) + Occurrences(front, g, dns) by {
          if Occurrences(front, g, dns) == [] {
            assert GetOr(acc, g, []) + [] == GetOr(acc, g, []);
          }
        }
        assert GetOr(acc, g, []) + Occurrences(front, g, dns) + [dns] == GetOr(acc, g, []) + (Occurrences(front, g, dns) + [dns]);
      } else {
        assert Occurrences(sgs, g, dns) == Occurrences(front, g, dns) by {
          assert Occurrences(front, g, dns) + [] == Occurrences(front, g, dns);
        }
      }
    }
  }

  lemma {:induction false} AddToGroupsDistinct(acc: Groups, sgs: seq<string>, dns: string)
    requires DistinctKeys(acc)
    ensures DistinctKeys(AddToGroups(acc, sgs, dns))
  {
    if sgs != [] {
      var front, s := sgs[..|sgs| - 1], sgs[|sgs| - 1];
      var prev := AddToGroups(acc, front, dns);
      AddToGroupsDistinct(acc, front, dns);
      PutKeys(prev, s, GetOr(prev, s, []) + [dns]);
    }
  }

  /** The grouping files each host's dns under each of its groups, one copy
      per listing, host by host; a group nobody lists is absent. */
  lemma {:induction false} SgFoldGet(hosts: Hosts, g: string)
    ensures Get(SgFold(hosts), g) == if Members(hosts, g) == [] then None else Some(Members(hosts, g))
  {
    if hosts != [] {
      var front, info := hosts[..|hosts| - 1], hosts[|hosts| - 1].1;
      SgFoldGet(front, g);
      assert GetOr(SgFold(front), g, []) == Members(front, g);
      if info.sg.Some? {
        AddToGroupsGet(SgFold(front), info.sg.value, info.dns, g);
        assert Members(hosts, g) == Members(front, g) + Occurrences(info.sg.value, g, info.dns);
        if Occurrences(info.sg.value, g, info.dns) == [] {
          assert Members(hosts, g) == Members(front, g);
        }
      } else {
        assert SgFold(hosts) == SgFold(front);
        assert Members(hosts, g) == Members(front, g) by {
          assert Members(front, g) + [] == Members(front, g);
        }
      }
    }
  }

  lemma {:induction false} SgFoldDistinct(hosts: Hosts)
    ensures DistinctKeys(SgFold(hosts))
  {
    if hosts != [] {
      var front, info := hosts[..|hosts| - 1], hosts[|hosts| - 1].1;
      SgFoldDistinct(front);
      if info.sg.Some? {
        AddToGroupsDistinct(SgFold(front), info.sg.value, info.dns);
      }
    }
  }

  /** The security-group `inject` in `zonedata`. */
  method GroupBySg(hosts: Hosts) returns (acc: Groups)
    ensures acc == SgFold(hosts)
    ensures DistinctKeys(acc)
    ensures forall g :: Get(acc, g) == if Members(hosts, g) == [] then None else Some(Members(hosts, g))
  {
    acc := [];
    var k := 0;
    while k < |hosts|
      invariant 0 <= k <= |hosts|
      invariant acc == SgFold(hosts[..k])
    {
      var info := hosts[k].1;
      if info.sg.Some? {
        var sgs := info.sg.value;
        ghost var acc0 := acc;
        var m := 0;
        while m < |sgs|
          invariant 0 <= m <= |sgs|
          invariant acc == AddToGroups(acc0, sgs[..m], info.dns)
        {
          var sg := sgs[m];
          var members := GetOr(acc, sg, []);
          acc := Put(acc, sg, members + [info.dns]);
          assert sgs[..m + 1][..m] == sgs[..m];
          m := m + 1;
        }
        assert sgs[..m] == sgs;
      }
      assert hosts[..k + 1][..k] == hosts[..k];
      k := k + 1;
    }
    assert hosts[..k] == hosts;
    SgFoldDistinct(hosts);
    forall g ensures Get(acc, g) == if Members(hosts, g) == [] then None else Some(Members(hosts, g)) {
      SgFoldGet(hosts, g);
    }
  }

  /** `"#{sg_ldh}.#{@suffixes[:sg]}"`, where `ldh` turns the group name into
      a label: `Names.SgNameToLdh` as the code has it, or the corrected
      `Names.SgNameToLdhIntended`. */
  function SgName(sfx: Suffixes, ldh: string -> string, sg: string): string {
    ldh(sg) + "." + sfx.sg
  }

  /** The records of one group: a TXT per member, in order. */
  function GroupRecords(sfx: Suffixes, ldh: string -> string, sg: string, hostnames: seq<string>): (r: seq<Record>)
    ensures |r| == |hostnames|
    ensures forall k :: 0 <= k < |r| ==> r[k] == Record(SgName(sfx, ldh, sg), "TXT", TtlInt(100), Quoted(hostnames[k]))
  {
    seq(|hostnames|, k requires 0 <= k < |hostnames| => Record(SgName(sfx, ldh, sg), "TXT", TtlInt(100), Quoted(hostnames[k])))
  }

  /** `sg_records`: the records of every group, in grouping order. */
  function SgRecords(sfx: Suffixes, ldh: string -> string, groups: Groups): (r: seq<Record>)
    ensures forall x :: x in r <==> exists k :: 0 <= k < |groups| && x in GroupRecords(sfx, ldh, groups[k].0, groups[k].1)
  {
    if groups == [] then []
    else
      var rest := SgRecords(sfx, ldh, groups[1..]);
      assert forall k :: 0 <= k < |groups[1..]| ==> groups[1..][k] == groups[k + 1];
      assert forall k :: 1 <= k < |groups| ==> groups[k] == groups[1..][k - 1];
      GroupRecords(sfx, ldh, groups[0].0, groups[0].1) + rest
  }

  /** A host in the group `(web)`: as written its TXT is published at
      `0web-.<sg>`, whose first label is no LDH label; with the corrected
      label function it goes to `0web0.<sg>`. */
  lemma SgRecordsEdgeHyphen(sfx: Suffixes, dns: string)
    ensures SgRecords(sfx, SgNameToLdh, [("(web)", [dns])]) == [Record("0web-." + sfx.sg, "TXT", TtlInt(100), Quoted(dns))]
    ensures SgRecords(sfx, SgNameToLdhIntended, [("(web)", [dns])]) == [Record("0web0." + sfx.sg, "TXT", TtlInt(100), Quoted(dns))]
  {
    SgNameToLdhKeepsTrailingHyphen();
    var groups: Groups := [("(web)", [dns])];
    assert groups[1..] == [];
    assert SgName(sfx, SgNameToLdh, "(web)") == "0web-." + sfx.sg;
    assert SgName(sfx, SgNameToLdhIntended, "(web)") == "0web0." + sfx.sg;
    assert GroupRecords(sfx, SgNameToLdh, "(web)", [dns]) == [Record("0web-." + sfx.sg, "TXT", TtlInt(100), Quoted(dns))];
    assert GroupRecords(sfx, SgNameToLdhIntended, "(web)", [dns]) == [Record("0web0." + sfx.sg, "TXT", TtlInt(100), Quoted(dns))];
  }

  /** Every listing of a group by a host yields a TXT at the group's name that
      points at the host. */
  lemma SgRecordsCover(sfx: Suffixes, ldh: string -> string, hosts: Hosts, g: string, k: int)
    requires 0 <= k < |hosts| && hosts[k].1.sg.Some? && g in hosts[k].1.sg.value
    ensures Record(SgName(sfx, ldh, g), "TXT", TtlInt(100), Quoted(hosts[k].1.dns)) in SgRecords(sfx, ldh, SgFold(hosts))
  {
    var groups := SgFold(hosts);
    SgFoldGet(hosts, g);
    MembersHas(hosts, g, k);
    SgFoldDistinct(hosts);
    GetIff(groups, g, Members(hosts, g));
    var i :| 0 <= i < |groups| && groups[i] == (g, Members(hosts, g));
    var m :| 0 <= m < |Members(hosts, g)| && Members(hosts, g)[m] == hosts[k].1.dns;
    assert GroupRecords(sfx, ldh, g, Members(hosts, g))[m] == Record(SgName(sfx, ldh, g), "TXT", TtlInt(100), Quoted(hosts[k].1.dns));
  }

  lemma {:induction false} MembersHas(hosts: Hosts, g: string, k: int)
    requires 0 <= k < |hosts| && hosts[k].1.sg.Some? && g in hosts[k].1.sg.value
    ensures hosts[k].1.dns in Members(hosts, g)
  {
    var front, last := hosts[..|hosts| - 1], hosts[|hosts| - 1];
    var occ := if last.1.sg.Some? then Occurrences(last.1.sg.value, g, last.1.dns) else [];
    if k == |hosts| - 1 {
      assert occ != [] && occ[0] in occ;
      assert occ[0] == last.1.dns;
    } else {
      assert front[k] == hosts[k];
      MembersHas(front, g, k);
    }
  }

  // ---- zonedata -----------------------------------------------------------------------

  /** The records `zonedata` emits for a host map and load-balancer list.
      Load balancers and groups publish only TXT records, so the zone's
      CNAMEs are exactly the hosts' `<id>.<host suffix>` CNAMEs. */
  function ZoneData(sfx: Suffixes, ldh: string -> string, hosts: Hosts, elbs: seq<LoadBalancer>): (r: seq<Record>)
    ensures forall x :: x in r && x.rtype == "CNAME" <==>
      exists k :: 0 <= k < |hosts| && x == HostCname(sfx, hosts[k].0, hosts[k].1)
  {
    var hs, es, gs := HostRecords(sfx, hosts), ElbRecords(sfx, hosts, elbs), SgRecords(sfx, ldh, SgFold(hosts));
    assert forall x :: x in es ==> x.rtype == "TXT";
    assert forall x :: x in gs ==> x.rtype == "TXT";
    hs + es + gs
  }

  /** `Capture#zonedata`, with both service answers as input. */
  method Zonedata(sfx: Suffixes, described: seq<DescribedInstance>, balancers: seq<DescribedElb>) returns (records: seq<Record>)
    requires forall k :: 0 <= k < |balancers| ==> NoNewline(balancers[k].dnsName)
    ensures records == ZoneData(sfx, SgNameToLdh, HostsFold(described), LoadBalancers(balancers))
  {
    var hosts := Instances(described);
    var elbs := LoadBalancers(balancers);
    var hostRecords := HostRecords(sfx, hosts);
    var elbRecords := ElbRecords(sfx, hosts, elbs);
    var groups := GroupBySg(hosts);
    var sgRecords := SgRecords(sfx, SgNameToLdh, groups);
    records := hostRecords + elbRecords + sgRecords;
  }
}

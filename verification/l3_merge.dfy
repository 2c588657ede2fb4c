/** nm_l3_config_data_new_combined: several sealed configurations of one
    interface, each with merge flags and per-family route penalties, are
    folded in order into one new sealed configuration. */
module L3Merge {
  import opened Common
  import opened L3Flags
  import opened L3ConfigData
  import KeyedList

  /** NML3ConfigDatMergeInfo. The two penalties are the struct view of a
      union whose array view is `default_route_penalty_x`. */
  datatype MergeInfo<O> = MergeInfo(
    l3cd: L3ConfigData<O>,
    mergeFlags: MergeFlags,
    defaultRoutePenalty6: uint32,
    defaultRoutePenalty4: uint32)
  {
    /** `default_route_penalty_x[i]`: the array overlays the struct, so
        element 0 is the IPv6 penalty and element 1 the IPv4 penalty. */
    function PenaltyX(i: nat): (p: uint32)
      requires i < 2
      ensures i == 0 ==> p == defaultRoutePenalty6
      ensures i == 1 ==> p == defaultRoutePenalty4
    {
      [defaultRoutePenalty6, defaultRoutePenalty4][i]
    }

    /** The penalty of a family, selected as `default_route_penalty_x[IS_IPv4]`. */
    function Penalty(isIPv4: bool): (p: uint32)
      ensures isIPv4 ==> p == defaultRoutePenalty4
      ensures !isIPv4 ==> p == defaultRoutePenalty6
    {
      PenaltyX(if isIPv4 then 1 else 0)
    }
  }

  /** The union layout: the array view and the struct view of the two
      penalties name the same values, and a family's penalty is the array
      element indexed by IS_IPv4. */
  lemma PenaltyUnionLayout<O>(info: MergeInfo<O>)
    ensures info.PenaltyX(0) == info.defaultRoutePenalty6
    ensures info.PenaltyX(1) == info.defaultRoutePenalty4
    ensures info.Penalty(true) == info.PenaltyX(1) && info.Penalty(false) == info.PenaltyX(0)
    ensures info.Penalty(true) == info.Penalty(false) <==> info.defaultRoutePenalty4 == info.defaultRoutePenalty6
  {
  }

  /** The collaborators the combination relies on but does not define: which
      routes are default routes, how a penalty alters a route, and how an
      address is marked external. */
  datatype MergeOps<!O> = MergeOps(
    isDefaultRoute: O -> bool,
    penalize: (O, uint32) -> O,
    markExternal: O -> O)

  /** Marking an address external keeps its key. */
  ghost predicate MarkKeepsKey<O(!new), K>(ops: ObjOps<O, K>, mops: MergeOps<O>) {
    forall a :: ops.key(mops.markExternal(a)) == ops.key(a)
  }

  function Af(isIPv4: bool): int {
    if isIPv4 then AF_INET else AF_INET6
  }

  /** The source's NO_DEFAULT_ROUTES merge flag takes effect: it is set and
      the source's own dat-flags do not carry IGNORE_MERGE_NO_DEFAULT_ROUTES. */
  function DropsDefaultRoutes<O>(info: MergeInfo<O>): (b: bool)
    ensures b ==> info.mergeFlags.NoDefaultRoutes()
    ensures info.l3cd.flags.Has(DAT_IGNORE_MERGE_NO_DEFAULT_ROUTES) ==> !b
    ensures info.mergeFlags.NoDefaultRoutes() && !info.l3cd.flags.Has(DAT_IGNORE_MERGE_NO_DEFAULT_ROUTES) ==> b
  {
    info.mergeFlags.NoDefaultRoutes() && !info.l3cd.flags.Has(DAT_IGNORE_MERGE_NO_DEFAULT_ROUTES)
  }

  /** The routes of one family a source contributes, in source order and
      with the family's penalty applied: none under NO_ROUTES, all but the
      default routes when DropsDefaultRoutes, all of them otherwise. */
  function RouteContribution<O(==,!new)>(mops: MergeOps<O>, info: MergeInfo<O>, isIPv4: bool): (r: seq<O>)
    ensures var routes := Entries(info.l3cd, RouteType(Af(isIPv4)));
            && (info.mergeFlags.NoRoutes() ==> r == [])
            && |r| <= |routes|
            && (forall x :: x in r ==>
                  exists y :: y in routes && x == mops.penalize(y, info.Penalty(isIPv4))
                              && !(DropsDefaultRoutes(info) && mops.isDefaultRoute(y)))
            && (forall y :: y in routes && !info.mergeFlags.NoRoutes()
                              && !(DropsDefaultRoutes(info) && mops.isDefaultRoute(y))
                  ==> mops.penalize(y, info.Penalty(isIPv4)) in r)
  {
    if info.mergeFlags.NoRoutes() then []
    else
      var routes := Entries(info.l3cd, RouteType(Af(isIPv4)));
      var drops := DropsDefaultRoutes(info);
      var kept := Filter(routes, y => !(drops && mops.isDefaultRoute(y)));
      var p := info.Penalty(isIPv4);
      var r := seq(|kept|, i requires 0 <= i < |kept| => mops.penalize(kept[i], p));
      assert forall y :: y in kept ==> mops.penalize(y, p) in r by {
        forall y | y in kept ensures mops.penalize(y, p) in r {
          var i :| 0 <= i < |kept| && kept[i] == y;
          assert r[i] == mops.penalize(y, p);
        }
      }
      r
  }

  /** With IGNORE_MERGE_NO_DEFAULT_ROUTES in the source's dat-flags, the
      NO_DEFAULT_ROUTES merge flag has no effect: unless NO_ROUTES is set,
      every route of the source, default routes included, is contributed. */
  lemma IgnoreFlagOverridesNoDefaultRoutes<O(!new)>(mops: MergeOps<O>, info: MergeInfo<O>, isIPv4: bool, y: O)
    requires info.l3cd.flags.Has(DAT_IGNORE_MERGE_NO_DEFAULT_ROUTES)
    requires !info.mergeFlags.NoRoutes()
    requires y in Entries(info.l3cd, RouteType(Af(isIPv4)))
    ensures mops.penalize(y, info.Penalty(isIPv4)) in RouteContribution(mops, info, isIPv4)
  {
  }

  /** Without the IGNORE dat-flag, NO_DEFAULT_ROUTES keeps every default
      route of the source out of its contribution. */
  lemma NoDefaultRoutesExcludesDefaults<O(!new)>(mops: MergeOps<O>, info: MergeInfo<O>, isIPv4: bool, x: O)
    requires info.mergeFlags.NoDefaultRoutes()
    requires !info.l3cd.flags.Has(DAT_IGNORE_MERGE_NO_DEFAULT_ROUTES)
    requires x in RouteContribution(mops, info, isIPv4)
    ensures exists y :: y in Entries(info.l3cd, RouteType(Af(isIPv4)))
                        && !mops.isDefaultRoute(y) && x == mops.penalize(y, info.Penalty(isIPv4))
  {
  }

  /** Inserts the source's addresses in order with MERGE; under EXTERNAL an
      address whose key is not yet present is marked external first. */
  function AddAddresses<O(==,!new), K(==)>(ops: ObjOps<O, K>, mops: MergeOps<O>, acc: seq<O>, xs: seq<O>, external: bool): seq<O>
    decreases |xs|
  {
    if |xs| == 0 then acc
    else
      var a := if external && ops.key(xs[0]) !in KeyedList.Keys(acc, ops.key) then mops.markExternal(xs[0]) else xs[0];
      AddAddresses(ops, mops, KeyedList.Add(acc, a, ops.key, ops.merge, AddFlags(ADD_MERGE)).entries, xs[1..], external)
  }

  /** The address keys after the insertion are the old ones plus the
      source's, and keys stay unique. */
  lemma {:induction false} AddAddressesKeys<O(!new), K>(ops: ObjOps<O, K>, mops: MergeOps<O>, acc: seq<O>, xs: seq<O>, external: bool)
    requires KeyedList.MergeKeepsKey(ops.key, ops.merge)
    requires MarkKeepsKey(ops, mops)
    ensures KeyedList.Keys(AddAddresses(ops, mops, acc, xs, external), ops.key)
              == KeyedList.Keys(acc, ops.key) + KeyedList.Keys(xs, ops.key)
    ensures KeyedList.UniqueKeys(acc, ops.key) ==> KeyedList.UniqueKeys(AddAddresses(ops, mops, acc, xs, external), ops.key)
    decreases |xs|
  {
    if |xs| > 0 {
      var a := if external && ops.key(xs[0]) !in KeyedList.Keys(acc, ops.key) then mops.markExternal(xs[0]) else xs[0];
      assert ops.key(a) == ops.key(xs[0]);
      var acc1 := KeyedList.Add(acc, a, ops.key, ops.merge, AddFlags(ADD_MERGE)).entries;
      KeyedList.AddKeys(acc, a, ops.key, ops.merge, AddFlags(ADD_MERGE));
      if KeyedList.UniqueKeys(acc, ops.key) {
        KeyedList.AddKeepsUniqueKeys(acc, a, ops.key, ops.merge, AddFlags(ADD_MERGE));
      }
      AddAddressesKeys(ops, mops, acc1, xs[1..], external);
      KeyedList.KeysOfCons(xs, ops.key);
    }
  }

  /** The objects of type `t` one source offers for insertion: all its
      addresses, or its route contribution. */
  function Offered<O(==,!new)>(mops: MergeOps<O>, info: MergeInfo<O>, t: ObjType): seq<O> {
    if t == Ip4Address || t == Ip6Address then Entries(info.l3cd, t)
    else RouteContribution(mops, info, t == Ip4Route)
  }

  /** The collection of type `t` after one source is folded in. */
  function StepEntries<O(==,!new), K(==)>(ops: ObjOps<O, K>, mops: MergeOps<O>, s: seq<O>, info: MergeInfo<O>, t: ObjType): seq<O> {
    if t == Ip4Address || t == Ip6Address
    then AddAddresses(ops, mops, s, Offered(mops, info, t), info.mergeFlags.External())
    else KeyedList.AddAll(s, Offered(mops, info, t), ops.key, ops.merge, AddFlags(ADD_MERGE))
  }

  /** The addresses and routes of one source folded in; DNS untouched. A
      head entry is created only when there is something to store. */
  function MergeObjs<O(==,!new), K(==)>(ops: ObjOps<O, K>, mops: MergeOps<O>, acc: L3ConfigData<O>, info: MergeInfo<O>): (r: L3ConfigData<O>)
    ensures forall t :: Entries(r, t) == StepEntries(ops, mops, Entries(acc, t), info, t)
    ensures r.dns == acc.dns && r.flags == acc.flags && r.ifindex == acc.ifindex && r.sealed == acc.sealed
  {
    var heads := map t | t in {Ip4Address, Ip6Address, Ip4Route, Ip6Route}
                         && (t in acc.heads || |StepEntries(ops, mops, Entries(acc, t), info, t)| > 0)
                       :: StepEntries(ops, mops, Entries(acc, t), info, t);
    acc.(heads := heads)
  }

  /** The DNS family of `acc` extended by that of `src`: the lists are
      appended in order without duplicates; the priority is `src`'s only when
      `acc` has none yet and `src` has one. */
  function MergeDnsFamily(acc: DnsFamily, accHas: bool, src: DnsFamily, srcHas: bool): (r: DnsFamily)
    ensures forall x :: x in r.nameservers <==> x in acc.nameservers || x in src.nameservers
    ensures forall x :: x in r.domains <==> x in acc.domains || x in src.domains
    ensures forall x :: x in r.searches <==> x in acc.searches || x in src.searches
    ensures forall x :: x in r.options <==> x in acc.options || x in src.options
    ensures |acc.nameservers| <= |r.nameservers| && r.nameservers[..|acc.nameservers|] == acc.nameservers
    ensures |acc.domains| <= |r.domains| && r.domains[..|acc.domains|] == acc.domains
    ensures |acc.searches| <= |r.searches| && r.searches[..|acc.searches|] == acc.searches
    ensures |acc.options| <= |r.options| && r.options[..|acc.options|] == acc.options
    ensures accHas || !srcHas ==> r.priority == acc.priority
    ensures !accHas && srcHas ==> r.priority == src.priority
  {
    DnsFamily(
      AppendAllUnique(acc.nameservers, src.nameservers),
      AppendAllUnique(acc.domains, src.domains),
      AppendAllUnique(acc.searches, src.searches),
      AppendAllUnique(acc.options, src.options),
      if !accHas && srcHas then src.priority else acc.priority)
  }

  /** Every list of a merged family is the accumulated list followed by the
      source's values it lacked, each once and in the source's order, so a
      list free of duplicates stays free of them. */
  lemma MergeDnsFamilyAppendsFresh(acc: DnsFamily, accHas: bool, src: DnsFamily, srcHas: bool)
    ensures var r := MergeDnsFamily(acc, accHas, src, srcHas);
            && r.nameservers == acc.nameservers + Fresh(acc.nameservers, src.nameservers)
            && r.domains == acc.domains + Fresh(acc.domains, src.domains)
            && r.searches == acc.searches + Fresh(acc.searches, src.searches)
            && r.options == acc.options + Fresh(acc.options, src.options)
    ensures var r := MergeDnsFamily(acc, accHas, src, srcHas);
            && (NoDuplicates(acc.nameservers) ==> NoDuplicates(r.nameservers))
            && (NoDuplicates(acc.domains) ==> NoDuplicates(r.domains))
            && (NoDuplicates(acc.searches) ==> NoDuplicates(r.searches))
            && (NoDuplicates(acc.options) ==> NoDuplicates(r.options))
  {
    AppendAllUniqueTail(acc.nameservers, src.nameservers);
    AppendAllUniqueTail(acc.domains, src.domains);
    AppendAllUniqueTail(acc.searches, src.searches);
    AppendAllUniqueTail(acc.options, src.options);
    if NoDuplicates(acc.nameservers) {
      AppendAllUniqueKeepsNoDuplicates(acc.nameservers, src.nameservers);
    }
    if NoDuplicates(acc.domains) {
      AppendAllUniqueKeepsNoDuplicates(acc.domains, src.domains);
    }
    if NoDuplicates(acc.searches) {
      AppendAllUniqueKeepsNoDuplicates(acc.searches, src.searches);
    }
    if NoDuplicates(acc.options) {
      AppendAllUniqueKeepsNoDuplicates(acc.options, src.options);
    }
  }

  /** The DNS data after one source is folded in: both families, the WINS
      and NIS servers. */
  function MergedDns<O>(acc: Dns, accFlags: DatFlags, src: L3ConfigData<O>): (r: Dns)
    ensures forall isIPv4 :: r.Family(isIPv4) == MergeDnsFamily(acc.Family(isIPv4), accFlags.Has(HasDnsPriorityFlag(isIPv4)),
                                                             src.dns.Family(isIPv4), src.flags.Has(HasDnsPriorityFlag(isIPv4)))
    ensures forall x :: x in r.wins <==> x in acc.wins || x in src.dns.wins
    ensures forall x :: x in r.nisServers <==> x in acc.nisServers || x in src.dns.nisServers
    ensures |acc.wins| <= |r.wins| && r.wins[..|acc.wins|] == acc.wins
    ensures |acc.nisServers| <= |r.nisServers| && r.nisServers[..|acc.nisServers|] == acc.nisServers
  {
    Dns(
      MergeDnsFamily(acc.v4, accFlags.Has(HasDnsPriorityFlag(true)), src.dns.v4, src.flags.Has(HasDnsPriorityFlag(true))),
      MergeDnsFamily(acc.v6, accFlags.Has(HasDnsPriorityFlag(false)), src.dns.v6, src.flags.Has(HasDnsPriorityFlag(false))),
      AppendAllUnique(acc.wins, src.dns.wins),
      AppendAllUnique(acc.nisServers, src.dns.nisServers))
  }

  /** The WINS and NIS server lists of a merge likewise gain the source's
      missing values once each, in the source's order. */
  lemma MergedDnsAppendsFresh<O>(acc: Dns, accFlags: DatFlags, src: L3ConfigData<O>)
    ensures var r := MergedDns(acc, accFlags, src);
            && r.wins == acc.wins + Fresh(acc.wins, src.dns.wins)
            && r.nisServers == acc.nisServers + Fresh(acc.nisServers, src.dns.nisServers)
    ensures var r := MergedDns(acc, accFlags, src);
            && (NoDuplicates(acc.wins) ==> NoDuplicates(r.wins))
            && (NoDuplicates(acc.nisServers) ==> NoDuplicates(r.nisServers))
  {
    AppendAllUniqueTail(acc.wins, src.dns.wins);
    AppendAllUniqueTail(acc.nisServers, src.dns.nisServers);
    if NoDuplicates(acc.wins) {
      AppendAllUniqueKeepsNoDuplicates(acc.wins, src.dns.wins);
    }
    if NoDuplicates(acc.nisServers) {
      AppendAllUniqueKeepsNoDuplicates(acc.nisServers, src.dns.nisServers);
    }
  }

  /** The dat-flags after one source is folded in: the source's
      HAS_DNS_PRIORITY flags are added, nothing else changes. */
  function MergedFlags(acc: DatFlags, src: DatFlags): (r: DatFlags)
    ensures forall isIPv4 :: r.Has(HasDnsPriorityFlag(isIPv4)) <==> acc.Has(HasDnsPriorityFlag(isIPv4)) || src.Has(HasDnsPriorityFlag(isIPv4))
    ensures r.Has(DAT_IGNORE_MERGE_NO_DEFAULT_ROUTES) <==> acc.Has(DAT_IGNORE_MERGE_NO_DEFAULT_ROUTES)
  {
    DatFlags(acc.bits + src.bits * (DAT_HAS_DNS_PRIORITY_4 + DAT_HAS_DNS_PRIORITY_6))
  }

  /** Folds one source into the accumulated result; a NO_DNS source
      contributes no DNS data and no dat-flags. */
  function MergeOne<O(==,!new), K(==)>(ops: ObjOps<O, K>, mops: MergeOps<O>, acc: L3ConfigData<O>, info: MergeInfo<O>): (r: L3ConfigData<O>)
    requires !acc.sealed
    ensures !r.sealed && r.ifindex == acc.ifindex
    ensures forall t :: Entries(r, t) == StepEntries(ops, mops, Entries(acc, t), info, t)
    ensures info.mergeFlags.NoDns() ==> r.dns == acc.dns && r.flags == acc.flags
    ensures !info.mergeFlags.NoDns() ==> r.dns == MergedDns(acc.dns, acc.flags, info.l3cd)
                                         && r.flags == MergedFlags(acc.flags, info.l3cd.flags)
  {
    var w := MergeObjs(ops, mops, acc, info);
    if info.mergeFlags.NoDns() then w
    else w.(dns := MergedDns(acc.dns, acc.flags, info.l3cd), flags := MergedFlags(acc.flags, info.l3cd.flags))
  }

  /** Folds the sources in the given order. */
  function MergeAll<O(==,!new), K(==)>(ops: ObjOps<O, K>, mops: MergeOps<O>, acc: L3ConfigData<O>, infos: seq<MergeInfo<O>>): (r: L3ConfigData<O>)
    requires !acc.sealed
    ensures !r.sealed && r.ifindex == acc.ifindex
    decreases |infos|
  {
    if |infos| == 0 then acc
    else MergeAll(ops, mops, MergeOne(ops, mops, acc, infos[0]), infos[1..])
  }

  /** nm_l3_config_data_new_combined: a new sealed configuration for
      `ifindex` from sealed sources, combined in order. */
  function NewCombined<O(==,!new), K(==)>(ops: ObjOps<O, K>, mops: MergeOps<O>, ifindex: int, infos: seq<MergeInfo<O>>): (r: L3ConfigData<O>)
    requires ifindex > 0
    requires forall i :: 0 <= i < |infos| ==> infos[i].l3cd.sealed
    ensures IsSealed(r) && GetIfindex(r) == ifindex
  {
    Seal(MergeAll(ops, mops, New(ifindex), infos))
  }

  // ---- what one step contributes ------------------------------------------------

  /** A source with NO_ROUTES leaves every route collection as it was. */
  lemma NoRoutesContributesNoRoutes<O(!new), K>(ops: ObjOps<O, K>, mops: MergeOps<O>, acc: L3ConfigData<O>, info: MergeInfo<O>, isIPv4: bool)
    requires !acc.sealed && info.mergeFlags.NoRoutes()
    ensures Entries(MergeOne(ops, mops, acc, info), RouteType(Af(isIPv4))) == Entries(acc, RouteType(Af(isIPv4)))
  {
    var t := RouteType(Af(isIPv4));
    assert t != Ip4Address && t != Ip6Address;
    assert Offered(mops, info, t) == [];
    assert StepEntries(ops, mops, Entries(acc, t), info, t)
        == KeyedList.AddAll(Entries(acc, t), [], ops.key, ops.merge, AddFlags(ADD_MERGE));
    assert Entries(MergeOne(ops, mops, acc, info), t) == StepEntries(ops, mops, Entries(acc, t), info, t);
  }

  /** The keys of one collection after one step: the old ones plus those
      offered, still unique. */
  lemma StepKeys<O(!new), K>(ops: ObjOps<O, K>, mops: MergeOps<O>, s: seq<O>, info: MergeInfo<O>, t: ObjType)
    requires KeyedList.MergeKeepsKey(ops.key, ops.merge) && MarkKeepsKey(ops, mops)
    ensures KeyedList.Keys(StepEntries(ops, mops, s, info, t), ops.key)
              == KeyedList.Keys(s, ops.key) + KeyedList.Keys(Offered(mops, info, t), ops.key)
    ensures KeyedList.UniqueKeys(s, ops.key) ==> KeyedList.UniqueKeys(StepEntries(ops, mops, s, info, t), ops.key)
  {
    if t == Ip4Address || t == Ip6Address {
      AddAddressesKeys(ops, mops, s, Offered(mops, info, t), info.mergeFlags.External());
    } else {
      KeyedList.AddAllKeys(s, Offered(mops, info, t), ops.key, ops.merge, AddFlags(ADD_MERGE));
    }
  }

  lemma MergeOneKeepsValid<O(!new), K>(ops: ObjOps<O, K>, mops: MergeOps<O>, acc: L3ConfigData<O>, info: MergeInfo<O>)
    requires !acc.sealed && Valid(ops, acc)
    requires KeyedList.MergeKeepsKey(ops.key, ops.merge) && MarkKeepsKey(ops, mops)
    ensures Valid(ops, MergeOne(ops, mops, acc, info))
  {
    var r := MergeOne(ops, mops, acc, info);
    forall t | t in r.heads ensures KeyedList.UniqueKeys(r.heads[t], ops.key) {
      assert KeyedList.UniqueKeys(Entries(acc, t), ops.key);
      StepKeys(ops, mops, Entries(acc, t), info, t);
      assert r.heads[t] == Entries(r, t);
    }
  }

  // ---- what the whole combination contains --------------------------------------

  /** The keys of type `t` the sources offer: the keys of all their
      addresses, and the keys of their route contributions. */
  function ContributedKeys<O(==,!new), K>(ops: ObjOps<O, K>, mops: MergeOps<O>, infos: seq<MergeInfo<O>>, t: ObjType): set<K>
    decreases |infos|
  {
    if |infos| == 0 then {}
    else KeyedList.Keys(Offered(mops, infos[0], t), ops.key) + ContributedKeys(ops, mops, infos[1..], t)
  }

  /** The collection of type `t` after the sources are folded into `s` one
      after the other. */
  function EntriesFold<O(==,!new), K(==)>(ops: ObjOps<O, K>, mops: MergeOps<O>, s: seq<O>, infos: seq<MergeInfo<O>>, t: ObjType): seq<O>
    decreases |infos|
  {
    if |infos| == 0 then s
    else EntriesFold(ops, mops, StepEntries(ops, mops, s, infos[0], t), infos[1..], t)
  }

  /** Each collection of the merged configuration is the fold of its own
      collection alone: the other types and the DNS do not affect it. */
  lemma {:induction false} MergeAllEntries<O(!new), K>(ops: ObjOps<O, K>, mops: MergeOps<O>, acc: L3ConfigData<O>, infos: seq<MergeInfo<O>>, t: ObjType)
    requires !acc.sealed
    ensures Entries(MergeAll(ops, mops, acc, infos), t) == EntriesFold(ops, mops, Entries(acc, t), infos, t)
    decreases |infos|
  {
    if |infos| > 0 {
      var acc1 := MergeOne(ops, mops, acc, infos[0]);
      assert Entries(acc1, t) == StepEntries(ops, mops, Entries(acc, t), infos[0], t);
      MergeAllEntries(ops, mops, acc1, infos[1..], t);
    }
  }

  lemma {:induction false} EntriesFoldKeys<O(!new), K>(ops: ObjOps<O, K>, mops: MergeOps<O>, s: seq<O>, infos: seq<MergeInfo<O>>, t: ObjType)
    requires KeyedList.MergeKeepsKey(ops.key, ops.merge) && MarkKeepsKey(ops, mops)
    ensures KeyedList.Keys(EntriesFold(ops, mops, s, infos, t), ops.key)
              == KeyedList.Keys(s, ops.key) + ContributedKeys(ops, mops, infos, t)
    ensures KeyedList.UniqueKeys(s, ops.key) ==> KeyedList.UniqueKeys(EntriesFold(ops, mops, s, infos, t), ops.key)
    decreases |infos|
  {
    if |infos| > 0 {
      StepKeys(ops, mops, s, infos[0], t);
      EntriesFoldKeys(ops, mops, StepEntries(ops, mops, s, infos[0], t), infos[1..], t);
    }
  }

  /** Merging keeps every collection free of duplicate keys. */
  lemma {:induction false} MergeAllKeepsValid<O(!new), K>(ops: ObjOps<O, K>, mops: MergeOps<O>, acc: L3ConfigData<O>, infos: seq<MergeInfo<O>>)
    requires !acc.sealed && Valid(ops, acc)
    requires KeyedList.MergeKeepsKey(ops.key, ops.merge) && MarkKeepsKey(ops, mops)
    ensures Valid(ops, MergeAll(ops, mops, acc, infos))
    decreases |infos|
  {
    if |infos| > 0 {
      MergeOneKeepsValid(ops, mops, acc, infos[0]);
      MergeAllKeepsValid(ops, mops, MergeOne(ops, mops, acc, infos[0]), infos[1..]);
    }
  }

  /** The keys of each collection of the combined configuration are exactly
      those the sources offer (nothing from a NO_ROUTES source, no default
      route from a source whose NO_DEFAULT_ROUTES takes effect), and no key
      occurs twice in a collection. */
  lemma CombinedKeys<O(!new), K>(ops: ObjOps<O, K>, mops: MergeOps<O>, ifindex: int, infos: seq<MergeInfo<O>>, t: ObjType)
    requires ifindex > 0
    requires forall i :: 0 <= i < |infos| ==> infos[i].l3cd.sealed
    requires KeyedList.MergeKeepsKey(ops.key, ops.merge) && MarkKeepsKey(ops, mops)
    ensures KeyedList.Keys(Entries(NewCombined(ops, mops, ifindex, infos), t), ops.key) == ContributedKeys(ops, mops, infos, t)
    ensures Valid(ops, NewCombined(ops, mops, ifindex, infos))
  {
    var empty := New<O>(ifindex);
    assert KeyedList.Keys(Entries(empty, t), ops.key) == {};
    MergeAllEntries(ops, mops, empty, infos, t);
    EntriesFoldKeys(ops, mops, Entries(empty, t), infos, t);
    NewIsValid<O, K>(ops, ifindex);
    MergeAllKeepsValid(ops, mops, empty, infos);
  }

  /** A route reaches the combined configuration only from a source that
      offers one with its key. */
  lemma CombinedRouteOrigin<O(!new), K>(ops: ObjOps<O, K>, mops: MergeOps<O>, ifindex: int, infos: seq<MergeInfo<O>>, isIPv4: bool, x: O)
    requires ifindex > 0
    requires forall i :: 0 <= i < |infos| ==> infos[i].l3cd.sealed
    requires KeyedList.MergeKeepsKey(ops.key, ops.merge) && MarkKeepsKey(ops, mops)
    requires x in Entries(NewCombined(ops, mops, ifindex, infos), RouteType(Af(isIPv4)))
    ensures exists i, y :: 0 <= i < |infos| && y in RouteContribution(mops, infos[i], isIPv4) && ops.key(y) == ops.key(x)
  {
    var t := RouteType(Af(isIPv4));
    CombinedKeys(ops, mops, ifindex, infos, t);
    assert ops.key(x) in KeyedList.Keys(Entries(NewCombined(ops, mops, ifindex, infos), t), ops.key);
    ContributedKeysOrigin(ops, mops, infos, t, ops.key(x));
  }

  lemma {:induction false} ContributedKeysOrigin<O(!new), K>(ops: ObjOps<O, K>, mops: MergeOps<O>, infos: seq<MergeInfo<O>>, t: ObjType, k: K)
    requires k in ContributedKeys(ops, mops, infos, t)
    ensures exists i, y :: 0 <= i < |infos| && y in Offered(mops, infos[i], t) && ops.key(y) == k
    decreases |infos|
  {
    if k in KeyedList.Keys(Offered(mops, infos[0], t), ops.key) {
      var j :| 0 <= j < |Offered(mops, infos[0], t)| && ops.key(Offered(mops, infos[0], t)[j]) == k;
      assert Offered(mops, infos[0], t)[j] in Offered(mops, infos[0], t);
    } else {
      ContributedKeysOrigin(ops, mops, infos[1..], t, k);
      var i, y :| 0 <= i < |infos[1..]| && y in Offered(mops, infos[1..][i], t) && ops.key(y) == k;
      assert infos[1..][i] == infos[i + 1];
    }
  }

  // ---- DNS of the whole combination ----------------------------------------------

  /** The DNS data and dat-flags of a combination so far: the part of the
      fold the address and route handling does not touch. */
  datatype DnsState = DnsState(dns: Dns, flags: DatFlags)

  /** What one source does to the DNS state: nothing under NO_DNS. */
  function DnsStep<O>(st: DnsState, info: MergeInfo<O>): DnsState {
    if info.mergeFlags.NoDns() then st
    else DnsState(MergedDns(st.dns, st.flags, info.l3cd), MergedFlags(st.flags, info.l3cd.flags))
  }

  function DnsFold<O>(st: DnsState, infos: seq<MergeInfo<O>>): DnsState
    decreases |infos|
  {
    if |infos| == 0 then st else DnsFold(DnsStep(st, infos[0]), infos[1..])
  }

  /** The DNS data and dat-flags of a combination are those of the DNS
      fold alone. */
  lemma {:induction false} MergeAllDns<O(!new), K>(ops: ObjOps<O, K>, mops: MergeOps<O>, acc: L3ConfigData<O>, infos: seq<MergeInfo<O>>)
    requires !acc.sealed
    ensures var r := MergeAll(ops, mops, acc, infos);
            DnsState(r.dns, r.flags) == DnsFold(DnsState(acc.dns, acc.flags), infos)
    decreases |infos|
  {
    if |infos| > 0 {
      var acc1 := MergeOne(ops, mops, acc, infos[0]);
      assert DnsState(acc1.dns, acc1.flags) == DnsStep(DnsState(acc.dns, acc.flags), infos[0]);
      MergeAllDns(ops, mops, acc1, infos[1..]);
    }
  }

  /** The nameservers of one family the sources contribute: those of every
      source without NO_DNS. */
  function ContributedNameservers<O>(infos: seq<MergeInfo<O>>, isIPv4: bool): set<IpAddr>
    decreases |infos|
  {
    if |infos| == 0 then {}
    else
      (if infos[0].mergeFlags.NoDns() then {} else set x | x in infos[0].l3cd.dns.Family(isIPv4).nameservers)
      + ContributedNameservers(infos[1..], isIPv4)
  }

  lemma {:induction false} DnsFoldNameservers<O>(st: DnsState, infos: seq<MergeInfo<O>>, isIPv4: bool)
    ensures (set x | x in DnsFold(st, infos).dns.Family(isIPv4).nameservers)
              == (set x | x in st.dns.Family(isIPv4).nameservers) + ContributedNameservers(infos, isIPv4)
    decreases |infos|
  {
    if |infos| > 0 {
      DnsFoldNameservers(DnsStep(st, infos[0]), infos[1..], isIPv4);
    }
  }

  /** The combined configuration holds exactly the nameservers of the
      sources without NO_DNS. */
  lemma CombinedNameservers<O(!new), K>(ops: ObjOps<O, K>, mops: MergeOps<O>, ifindex: int, infos: seq<MergeInfo<O>>, isIPv4: bool)
    requires ifindex > 0
    requires forall i :: 0 <= i < |infos| ==> infos[i].l3cd.sealed
    ensures (set x | x in NewCombined(ops, mops, ifindex, infos).dns.Family(isIPv4).nameservers)
              == ContributedNameservers(infos, isIPv4)
  {
    MergeAllDns(ops, mops, New<O>(ifindex), infos);
    DnsFoldNameservers(DnsState(EMPTY_DNS, DatFlags(DAT_NONE)), infos, isIPv4);
  }

  /** The first source without NO_DNS whose dat-flags say it has a DNS
      priority for the family. */
  function FirstDnsPrioritySource<O>(infos: seq<MergeInfo<O>>, isIPv4: bool): (r: Option<nat>)
    ensures r.Some? ==> r.value < |infos|
    decreases |infos|
  {
    if |infos| == 0 then None
    else if !infos[0].mergeFlags.NoDns() && infos[0].l3cd.flags.Has(HasDnsPriorityFlag(isIPv4)) then Some(0)
    else
      match FirstDnsPrioritySource(infos[1..], isIPv4)
      case None => None
      case Some(i) => Some(i + 1)
  }

  /** FirstDnsPrioritySource finds a source without NO_DNS that has a
      priority, no earlier source is one, and None means there is none. */
  lemma {:induction false} FirstDnsPrioritySourceIsFirst<O>(infos: seq<MergeInfo<O>>, isIPv4: bool)
    ensures var r := FirstDnsPrioritySource(infos, isIPv4);
            && (r.Some? ==> !infos[r.value].mergeFlags.NoDns()
                            && infos[r.value].l3cd.flags.Has(HasDnsPriorityFlag(isIPv4)))
            && (r.Some? ==> forall i :: 0 <= i < r.value ==>
                              infos[i].mergeFlags.NoDns() || !infos[i].l3cd.flags.Has(HasDnsPriorityFlag(isIPv4)))
            && (r.None? ==> forall i :: 0 <= i < |infos| ==>
                              infos[i].mergeFlags.NoDns() || !infos[i].l3cd.flags.Has(HasDnsPriorityFlag(isIPv4)))
    decreases |infos|
  {
    if |infos| > 0 {
      FirstDnsPrioritySourceIsFirst(infos[1..], isIPv4);
      var rest := FirstDnsPrioritySource(infos[1..], isIPv4);
      forall i | 0 < i < |infos| ensures infos[i] == infos[1..][i - 1] {}
    }
  }

  /** Once a DNS priority is present, later sources do not change it. */
  lemma {:induction false} DnsFoldKeepsPriority<O>(st: DnsState, infos: seq<MergeInfo<O>>, isIPv4: bool)
    requires st.flags.Has(HasDnsPriorityFlag(isIPv4))
    ensures DnsFold(st, infos).flags.Has(HasDnsPriorityFlag(isIPv4))
    ensures DnsFold(st, infos).dns.Family(isIPv4).priority == st.dns.Family(isIPv4).priority
    decreases |infos|
  {
    if |infos| > 0 {
      DnsFoldKeepsPriority(DnsStep(st, infos[0]), infos[1..], isIPv4);
    }
  }

  /** Without a priority yet, the fold takes that of the first source
      without NO_DNS that has one, and has none if there is no such source. */
  lemma {:induction false} DnsFoldPriority<O>(st: DnsState, infos: seq<MergeInfo<O>>, isIPv4: bool)
    requires !st.flags.Has(HasDnsPriorityFlag(isIPv4))
    ensures var r := DnsFold(st, infos);
            var first := FirstDnsPrioritySource(infos, isIPv4);
            && (r.flags.Has(HasDnsPriorityFlag(isIPv4)) <==> first.Some?)
            && (first.Some? ==> r.dns.Family(isIPv4).priority == infos[first.value].l3cd.dns.Family(isIPv4).priority)
    decreases |infos|
  {
    if |infos| > 0 {
      var st1 := DnsStep(st, infos[0]);
      if st1.flags.Has(HasDnsPriorityFlag(isIPv4)) {
        DnsFoldKeepsPriority(st1, infos[1..], isIPv4);
      } else {
        DnsFoldPriority(st1, infos[1..], isIPv4);
        var rest := FirstDnsPrioritySource(infos[1..], isIPv4);
        if rest.Some? {
          assert infos[1..][rest.value] == infos[rest.value + 1];
        }
      }
    }
  }

  /** The DNS priority of a family in the combined configuration is present
      exactly when some source without NO_DNS has one, and then it is the
      priority of the first such source: later sources do not override it. */
  lemma CombinedDnsPriorityFirstWins<O(!new), K>(ops: ObjOps<O, K>, mops: MergeOps<O>, ifindex: int, infos: seq<MergeInfo<O>>, isIPv4: bool)
    requires ifindex > 0
    requires forall i :: 0 <= i < |infos| ==> infos[i].l3cd.sealed
    ensures var r := NewCombined(ops, mops, ifindex, infos);
            var first := FirstDnsPrioritySource(infos, isIPv4);
            && (r.flags.Has(HasDnsPriorityFlag(isIPv4)) <==> first.Some?)
            && (first.Some? ==> r.dns.Family(isIPv4).priority == infos[first.value].l3cd.dns.Family(isIPv4).priority)
  {
    MergeAllDns(ops, mops, New<O>(ifindex), infos);
    DnsFoldPriority(DnsState(EMPTY_DNS, DatFlags(DAT_NONE)), infos, isIPv4);
  }
}

/** The layer-3 configuration of one interface: per-type ordered collections
    of addresses and routes, DNS data, dat-flags and the one-way `sealed`
    bit. Reference counting and the shared dedup index are not modelled: a
    configuration is a value, and a head entry of the index is the sequence
    stored for one object type. */
module L3ConfigData {
  import opened Common
  import opened L3Flags
  import KeyedList

  // ---- address families and object types ----------------------------------

  const AF_INET: int := 2
  const AF_INET6: int := 10

  /** What nm_assert_addr_family() accepts. */
  predicate IsAddrFamily(af: int) { af == AF_INET || af == AF_INET6 }

  /** NM_IS_IPv4: every family other than AF_INET counts as IPv6. */
  predicate IsIPv4(af: int) { af == AF_INET }

  datatype ObjType = Ip4Address | Ip6Address | Ip4Route | Ip6Route

  /** The address object type of a family. */
  function AddressType(af: int): (t: ObjType)
    ensures t == Ip4Address <==> IsIPv4(af)
    ensures t == Ip6Address <==> !IsIPv4(af)
  {
    if IsIPv4(af) then Ip4Address else Ip6Address
  }

  /** The route object type of a family. */
  function RouteType(af: int): (t: ObjType)
    ensures t == Ip4Route <==> IsIPv4(af)
    ensures t == Ip6Route <==> !IsIPv4(af)
  {
    if IsIPv4(af) then Ip4Route else Ip6Route
  }

  // ---- DNS data -------------------------------------------------------------

  /** An IPv4 or IPv6 address as an opaque value. */
  datatype IpAddr = IpAddr(raw: nat)

  /** The DNS data kept separately for each family. */
  datatype DnsFamily = DnsFamily(
    nameservers: seq<IpAddr>,
    domains: seq<string>,
    searches: seq<string>,
    options: seq<string>,
    priority: int)

  const EMPTY_DNS_FAMILY := DnsFamily([], [], [], [], 0)

  datatype Dns = Dns(v4: DnsFamily, v6: DnsFamily, wins: seq<IpAddr>, nisServers: seq<IpAddr>) {
    function Family(isIPv4: bool): DnsFamily {
      if isIPv4 then v4 else v6
    }

    function WithFamily(isIPv4: bool, f: DnsFamily): (r: Dns)
      ensures r.Family(isIPv4) == f && r.Family(!isIPv4) == Family(!isIPv4)
      ensures r.wins == wins && r.nisServers == nisServers
    {
      if isIPv4 then this.(v4 := f) else this.(v6 := f)
    }
  }

  const EMPTY_DNS := Dns(EMPTY_DNS_FAMILY, EMPTY_DNS_FAMILY, [], [])

  // ---- the configuration ------------------------------------------------------

  /** The collaborators the container relies on but does not define: the
      canonical key of an object, how MERGE combines an existing object with
      a new one of the same key, and the object type of an object. */
  datatype ObjOps<!O, K> = ObjOps(key: O -> K, merge: (O, O) -> O, typeOf: O -> ObjType)

  /** One configuration. A type missing from `heads` has no head entry yet. */
  datatype L3ConfigData<O> = L3ConfigData(
    ifindex: int,
    flags: DatFlags,
    sealed: bool,
    heads: map<ObjType, seq<O>>,
    dns: Dns)

  /** The invariant every instance keeps: a positive interface index, and
      within each collection no key occurs twice. */
  ghost function Valid<O, K>(ops: ObjOps<O, K>, d: L3ConfigData<O>): (b: bool)
    ensures b ==> d.ifindex > 0
    ensures b ==> forall t :: KeyedList.UniqueKeys(Entries(d, t), ops.key)
  {
    && d.ifindex > 0
    && forall t :: t in d.heads ==> KeyedList.UniqueKeys(d.heads[t], ops.key)
  }

  /** The collection of one type, empty when there is no head entry. */
  function Entries<O>(d: L3ConfigData<O>, t: ObjType): seq<O> {
    if t in d.heads then d.heads[t] else []
  }

  // ---- construction, seal, ref ----------------------------------------------

  /** nm_l3_config_data_new: an empty, unsealed configuration. */
  function New<O>(ifindex: int): (d: L3ConfigData<O>)
    requires ifindex > 0
    ensures d.ifindex == ifindex && !d.sealed && d.flags == DatFlags(DAT_NONE)
    ensures forall t :: LookupObjs(d, t).None? && GetNumObjs(d, t) == 0
    ensures d.dns == EMPTY_DNS
  {
    L3ConfigData(ifindex, DatFlags(DAT_NONE), false, map[], EMPTY_DNS)
  }

  lemma NewIsValid<O, K>(ops: ObjOps<O, K>, ifindex: int)
    requires ifindex > 0
    ensures Valid(ops, New<O>(ifindex))
  {
  }

  /** nm_l3_config_data_is_sealed. */
  function IsSealed<O>(d: L3ConfigData<O>): (b: bool)
    ensures b <==> d.sealed
  {
    d.sealed
  }

  /** nm_l3_config_data_seal: the `sealed` bit is turned on and nothing else
      changes. The bit is never turned off again: every mutator below
      requires an unsealed configuration. */
  function Seal<O>(d: L3ConfigData<O>): (r: L3ConfigData<O>)
    ensures IsSealed(r)
    ensures r.(sealed := d.sealed) == d
  {
    d.(sealed := true)
  }

  /** nm_l3_config_data_ref: the same configuration (the count is not
      modelled). */
  function Ref<O>(d: L3ConfigData<O>): (r: L3ConfigData<O>)
    ensures r == d
  {
    d
  }

  /** nm_l3_config_data_ref_and_seal. */
  function RefAndSeal<O>(d: L3ConfigData<O>): (r: L3ConfigData<O>)
    ensures IsSealed(r) && r.(sealed := d.sealed) == d
  {
    Seal(Ref(d))
  }

  /** Sealing twice is sealing once, and sealing changes no read. */
  lemma SealIsIdempotentAndInvisible<O>(d: L3ConfigData<O>)
    ensures Seal(Seal(d)) == Seal(d)
    ensures GetIfindex(Seal(d)) == GetIfindex(d) && GetFlags(Seal(d)) == GetFlags(d)
    ensures forall t :: LookupObjs(Seal(d), t) == LookupObjs(d, t)
    ensures forall t :: GetNumObjs(Seal(d), t) == GetNumObjs(d, t)
  {
  }

  /** nm_l3_config_data_new_clone: an unsealed copy of every collection,
      flag and DNS datum, retargeted to `ifindex`. */
  function NewClone<O>(src: L3ConfigData<O>, ifindex: int): (r: L3ConfigData<O>)
    requires ifindex > 0
    ensures !IsSealed(r) && GetIfindex(r) == ifindex
    ensures GetFlags(r) == GetFlags(src) && r.dns == src.dns
    ensures forall t :: LookupObjs(r, t) == LookupObjs(src, t)
  {
    L3ConfigData(ifindex, src.flags, false, src.heads, src.dns)
  }

  /** Cloning a sealed configuration for its own interface and sealing the
      clone gives back the original. */
  lemma CloneThenSealRoundTrip<O>(src: L3ConfigData<O>)
    requires src.ifindex > 0 && IsSealed(src)
    ensures Seal(NewClone(src, src.ifindex)) == src
  {
  }

  // ---- reads ------------------------------------------------------------------

  /** nm_l3_config_data_get_ifindex. */
  function GetIfindex<O>(d: L3ConfigData<O>): (ifindex: int)
    ensures ifindex == d.ifindex
  {
    d.ifindex
  }

  /** nm_l3_config_data_get_flags. */
  function GetFlags<O>(d: L3ConfigData<O>): (flags: DatFlags)
    ensures flags == d.flags
  {
    d.flags
  }

  /** nm_l3_config_data_lookup_objs: the head entry of a type, or NULL. */
  function LookupObjs<O>(d: L3ConfigData<O>, t: ObjType): (r: Option<seq<O>>)
    ensures r.None? <==> t !in d.heads
    ensures r.Some? ==> r.value == Entries(d, t)
  {
    if t in d.heads then Some(d.heads[t]) else None
  }

  /** nm_l3_config_data_lookup_addresses: the IPv4 addresses for AF_INET and
      the IPv6 addresses for AF_INET6. */
  function LookupAddresses<O>(d: L3ConfigData<O>, af: int): (r: Option<seq<O>>)
    requires IsAddrFamily(af)
    ensures af == AF_INET ==> r == LookupObjs(d, Ip4Address)
    ensures af == AF_INET6 ==> r == LookupObjs(d, Ip6Address)
  {
    LookupObjs(d, if af == AF_INET then Ip4Address else Ip6Address)
  }

  /** nm_l3_config_data_lookup_routes, dispatching like LookupAddresses. */
  function LookupRoutes<O>(d: L3ConfigData<O>, af: int): (r: Option<seq<O>>)
    requires IsAddrFamily(af)
    ensures af == AF_INET ==> r == LookupObjs(d, Ip4Route)
    ensures af == AF_INET6 ==> r == LookupObjs(d, Ip6Route)
  {
    LookupObjs(d, if af == AF_INET then Ip4Route else Ip6Route)
  }

  /** nm_l3_config_data_get_num_objs: 0 without a head entry, otherwise the
      length of the collection. */
  function GetNumObjs<O>(d: L3ConfigData<O>, t: ObjType): (n: nat)
    ensures LookupObjs(d, t).None? ==> n == 0
    ensures LookupObjs(d, t).Some? ==> n == |LookupObjs(d, t).value|
    ensures n == |Entries(d, t)|
  {
    match LookupObjs(d, t)
    case None => 0
    case Some(objs) => |objs|
  }

  /** nm_l3_config_data_get_num_addresses: the IPv4 count for AF_INET and
      the IPv6 count for every other family. */
  function GetNumAddresses<O>(d: L3ConfigData<O>, af: int): (n: nat)
    ensures IsIPv4(af) ==> n == GetNumObjs(d, Ip4Address)
    ensures !IsIPv4(af) ==> n == GetNumObjs(d, Ip6Address)
  {
    GetNumObjs(d, if IsIPv4(af) then Ip4Address else Ip6Address)
  }

  /** nm_l3_config_data_get_num_routes, dispatching like GetNumAddresses. */
  function GetNumRoutes<O>(d: L3ConfigData<O>, af: int): (n: nat)
    ensures IsIPv4(af) ==> n == GetNumObjs(d, Ip4Route)
    ensures !IsIPv4(af) ==> n == GetNumObjs(d, Ip6Route)
  {
    GetNumObjs(d, if IsIPv4(af) then Ip4Route else Ip6Route)
  }

  /** nm_l3_config_data_lookup_obj: the entry with the needle's key in the
      collection of the needle's type. */
  function LookupObj<O, K(==)>(ops: ObjOps<O, K>, d: L3ConfigData<O>, needle: O): (r: Option<O>)
    ensures r.Some? <==> ops.key(needle) in KeyedList.Keys(Entries(d, ops.typeOf(needle)), ops.key)
    ensures r.Some? ==> r.value in Entries(d, ops.typeOf(needle)) && ops.key(r.value) == ops.key(needle)
  {
    var objs := Entries(d, ops.typeOf(needle));
    match KeyedList.IndexOf(objs, ops.key, ops.key(needle))
    case None => None
    case Some(i) => Some(objs[i])
  }

  /** nm_l3_config_data_lookup_route: the route with the needle's key among
      the routes of the family. */
  function LookupRoute<O, K(==)>(ops: ObjOps<O, K>, d: L3ConfigData<O>, af: int, needle: O): (r: Option<O>)
    ensures r.Some? <==> ops.key(needle) in KeyedList.Keys(Entries(d, RouteType(af)), ops.key)
    ensures r.Some? ==> r.value in Entries(d, RouteType(af)) && ops.key(r.value) == ops.key(needle)
  {
    var objs := Entries(d, RouteType(af));
    match KeyedList.IndexOf(objs, ops.key, ops.key(needle))
    case None => None
    case Some(i) => Some(objs[i])
  }

  // ---- dat-flags ----------------------------------------------------------------

  /** nm_l3_config_data_set_flags_full: the bits of `mask` take their value
      from `flags`, every other bit and every other field is kept. */
  function SetFlagsFull<O>(d: L3ConfigData<O>, flags: Bits, mask: Bits): (r: L3ConfigData<O>)
    requires !d.sealed
    ensures forall b: BitPos :: b in mask ==> (b in r.flags.bits <==> b in flags)
    ensures forall b: BitPos :: b !in mask ==> (b in r.flags.bits <==> b in d.flags.bits)
    ensures r.(flags := d.flags) == d
  {
    d.(flags := DatFlags(AssignMasked(d.flags.bits, flags, mask)))
  }

  /** nm_l3_config_data_set_flags: set_flags_full(f, f), which turns every
      bit of `f` on and leaves the others alone. */
  function SetFlags<O>(d: L3ConfigData<O>, f: Bits): (r: L3ConfigData<O>)
    requires !d.sealed
    ensures r == SetFlagsFull(d, f, f)
    ensures r.flags.Has(f)
    ensures r.flags.bits - f == d.flags.bits - f
  {
    d.(flags := DatFlags(SetBits(d.flags.bits, f)))
  }

  /** nm_l3_config_data_unset_flags: set_flags_full(NONE, f), which turns
      every bit of `f` off and leaves the others alone. */
  function UnsetFlags<O>(d: L3ConfigData<O>, f: Bits): (r: L3ConfigData<O>)
    requires !d.sealed
    ensures r == SetFlagsFull(d, DAT_NONE, f)
    ensures r.flags.bits !! f
    ensures r.flags.bits - f == d.flags.bits - f
  {
    d.(flags := DatFlags(ClearBits(d.flags.bits, f)))
  }

  // ---- adding addresses and routes ------------------------------------------------

  /** What an add produced: the configuration, whether the collection
      changed, and the entry that now stands for the object's key. */
  datatype AddResult<O> = AddResult(data: L3ConfigData<O>, changed: bool, obj: O)

  function AddObj<O(==), K(==)>(ops: ObjOps<O, K>, d: L3ConfigData<O>, t: ObjType, o: O, flags: AddFlags): (r: AddResult<O>)
    requires !d.sealed
    ensures var out := KeyedList.Add(Entries(d, t), o, ops.key, ops.merge, flags);
            && LookupObjs(r.data, t) == Some(out.entries)
            && r.changed == out.changed && r.obj == out.obj
    ensures forall t' :: t' != t ==> LookupObjs(r.data, t') == LookupObjs(d, t')
    ensures r.data.(heads := d.heads) == d
  {
    var out := KeyedList.Add(Entries(d, t), o, ops.key, ops.merge, flags);
    AddResult(d.(heads := d.heads[t := out.entries]), out.changed, out.obj)
  }

  /** nm_l3_config_data_add_address_full: inserts into the IPv4 addresses
      for AF_INET and into the IPv6 addresses otherwise, following the
      add-flag rules of KeyedList.Add; routes, the other family, flags and
      DNS data are untouched. */
  function AddAddressFull<O(==), K(==)>(ops: ObjOps<O, K>, d: L3ConfigData<O>, af: int, o: O, flags: AddFlags): (r: AddResult<O>)
    requires !d.sealed && ops.typeOf(o) == AddressType(af)
    ensures var out := KeyedList.Add(Entries(d, AddressType(af)), o, ops.key, ops.merge, flags);
            && LookupObjs(r.data, AddressType(af)) == Some(out.entries)
            && r.changed == out.changed && r.obj == out.obj
    ensures forall t :: t != AddressType(af) ==> LookupObjs(r.data, t) == LookupObjs(d, t)
    ensures GetNumRoutes(r.data, af) == GetNumRoutes(d, af)
    ensures r.data.(heads := d.heads) == d
  {
    AddObj(ops, d, AddressType(af), o, flags)
  }

  /** nm_l3_config_data_add_address: add_address_full with MERGE, so a new
      key is appended and an existing entry is merged with the object in
      place. */
  function AddAddress<O(==), K(==)>(ops: ObjOps<O, K>, d: L3ConfigData<O>, af: int, o: O): (r: AddResult<O>)
    requires !d.sealed && ops.typeOf(o) == AddressType(af)
    ensures r == AddAddressFull(ops, d, af, o, AddFlags(ADD_MERGE))
    ensures var s := Entries(d, AddressType(af));
            ops.key(o) !in KeyedList.Keys(s, ops.key) ==> Entries(r.data, AddressType(af)) == s + [o]
    ensures var s := Entries(d, AddressType(af));
            ops.key(o) in KeyedList.Keys(s, ops.key) ==>
              var i := KeyedList.IndexOf(s, ops.key, ops.key(o)).value;
              Entries(r.data, AddressType(af)) == s[i := ops.merge(s[i], o)] && r.obj == ops.merge(s[i], o)
  {
    AddAddressFull(ops, d, af, o, AddFlags(ADD_MERGE))
  }

  /** nm_l3_config_data_add_route_full: the same rules on the routes of the
      family. */
  function AddRouteFull<O(==), K(==)>(ops: ObjOps<O, K>, d: L3ConfigData<O>, af: int, o: O, flags: AddFlags): (r: AddResult<O>)
    requires !d.sealed && ops.typeOf(o) == RouteType(af)
    ensures var out := KeyedList.Add(Entries(d, RouteType(af)), o, ops.key, ops.merge, flags);
            && LookupObjs(r.data, RouteType(af)) == Some(out.entries)
            && r.changed == out.changed && r.obj == out.obj
    ensures forall t :: t != RouteType(af) ==> LookupObjs(r.data, t) == LookupObjs(d, t)
    ensures GetNumAddresses(r.data, af) == GetNumAddresses(d, af)
    ensures r.data.(heads := d.heads) == d
  {
    AddObj(ops, d, RouteType(af), o, flags)
  }

  /** nm_l3_config_data_add_route: add_route_full with MERGE, with the same
      effect on the routes of the family. */
  function AddRoute<O(==), K(==)>(ops: ObjOps<O, K>, d: L3ConfigData<O>, af: int, o: O): (r: AddResult<O>)
    requires !d.sealed && ops.typeOf(o) == RouteType(af)
    ensures r == AddRouteFull(ops, d, af, o, AddFlags(ADD_MERGE))
    ensures var s := Entries(d, RouteType(af));
            ops.key(o) !in KeyedList.Keys(s, ops.key) ==> Entries(r.data, RouteType(af)) == s + [o]
    ensures var s := Entries(d, RouteType(af));
            ops.key(o) in KeyedList.Keys(s, ops.key) ==>
              var i := KeyedList.IndexOf(s, ops.key, ops.key(o)).value;
              Entries(r.data, RouteType(af)) == s[i := ops.merge(s[i], o)] && r.obj == ops.merge(s[i], o)
  {
    AddRouteFull(ops, d, af, o, AddFlags(ADD_MERGE))
  }

  /** An add keeps the instance valid and grows the count of the affected
      type by exactly one when the key is new, by zero otherwise. */
  lemma AddObjKeepsValid<O(!new), K>(ops: ObjOps<O, K>, d: L3ConfigData<O>, t: ObjType, o: O, flags: AddFlags)
    requires !d.sealed && Valid(ops, d)
    requires KeyedList.MergeKeepsKey(ops.key, ops.merge)
    ensures Valid(ops, AddObj(ops, d, t, o, flags).data)
    ensures var n := GetNumObjs(d, t);
            GetNumObjs(AddObj(ops, d, t, o, flags).data, t)
              == if ops.key(o) in KeyedList.Keys(Entries(d, t), ops.key) then n else n + 1
  {
    var r := AddObj(ops, d, t, o, flags).data;
    KeyedList.AddKeepsUniqueKeys(Entries(d, t), o, ops.key, ops.merge, flags);
    forall t' | t' in r.heads ensures KeyedList.UniqueKeys(r.heads[t'], ops.key) {
      if t' != t {
        assert LookupObjs(r, t') == LookupObjs(d, t');
      }
    }
  }

  /** After an add, looking the object up finds an entry with its key; in a
      valid instance that entry is the one the add reports. */
  lemma {:induction false} AddObjThenLookup<O(!new), K>(ops: ObjOps<O, K>, d: L3ConfigData<O>, t: ObjType, o: O, flags: AddFlags)
    requires !d.sealed && ops.typeOf(o) == t
    requires KeyedList.MergeKeepsKey(ops.key, ops.merge)
    ensures LookupObj(ops, AddObj(ops, d, t, o, flags).data, o).Some?
    ensures Valid(ops, d) ==> LookupObj(ops, AddObj(ops, d, t, o, flags).data, o) == Some(AddObj(ops, d, t, o, flags).obj)
  {
    var s := Entries(d, t);
    var r := AddObj(ops, d, t, o, flags);
    var es := Entries(r.data, t);
    KeyedList.AddKeys(s, o, ops.key, ops.merge, flags);
    assert es == KeyedList.Add(s, o, ops.key, ops.merge, flags).entries;
    if Valid(ops, d) {
      AddObjKeepsValid(ops, d, t, o, flags);
      assert KeyedList.UniqueKeys(es, ops.key);
      var j: nat :| j < |es| && es[j] == r.obj by {
        if ops.key(o) in KeyedList.Keys(s, ops.key) {
          var i := KeyedList.IndexOf(s, ops.key, ops.key(o)).value;
          if flags.Exclusive() {
            assert es[i] == r.obj;
          } else if flags.AppendForce() {
            assert es[|s| - 1] == r.obj;
          } else {
            assert es[i] == r.obj;
          }
        } else {
          assert es[|s|] == r.obj;
        }
      }
      var idx := KeyedList.IndexOf(es, ops.key, ops.key(o)).value;
      assert ops.key(es[idx]) == ops.key(es[j]);
    }
  }

  /** nm_l3_config_data_add_address_full followed by lookup_obj finds the
      address. */
  lemma AddAddressThenLookup<O(!new), K>(ops: ObjOps<O, K>, d: L3ConfigData<O>, af: int, o: O, flags: AddFlags)
    requires !d.sealed && ops.typeOf(o) == AddressType(af)
    requires KeyedList.MergeKeepsKey(ops.key, ops.merge)
    ensures LookupObj(ops, AddAddressFull(ops, d, af, o, flags).data, o).Some?
    ensures Valid(ops, d) ==>
              LookupObj(ops, AddAddressFull(ops, d, af, o, flags).data, o) == Some(AddAddressFull(ops, d, af, o, flags).obj)
  {
    AddObjThenLookup(ops, d, AddressType(af), o, flags);
  }

  /** nm_l3_config_data_add_route_full followed by lookup_obj finds the
      route. */
  lemma AddRouteThenLookup<O(!new), K>(ops: ObjOps<O, K>, d: L3ConfigData<O>, af: int, o: O, flags: AddFlags)
    requires !d.sealed && ops.typeOf(o) == RouteType(af)
    requires KeyedList.MergeKeepsKey(ops.key, ops.merge)
    ensures LookupObj(ops, AddRouteFull(ops, d, af, o, flags).data, o).Some?
    ensures Valid(ops, d) ==>
              LookupObj(ops, AddRouteFull(ops, d, af, o, flags).data, o) == Some(AddRouteFull(ops, d, af, o, flags).obj)
  {
    AddObjThenLookup(ops, d, RouteType(af), o, flags);
  }

  // ---- DNS data ---------------------------------------------------------------------

  /** The result of a setter: the configuration and whether it changed. */
  datatype Update<O> = Update(data: L3ConfigData<O>, changed: bool)

  /** Replaces the DNS data of one family; the only step the per-family
      list setters below differ in is which list they extend. */
  function WithDnsFamily<O>(d: L3ConfigData<O>, af: int, f: DnsFamily): (r: L3ConfigData<O>)
    ensures r.dns.Family(IsIPv4(af)) == f
    ensures r.dns.Family(!IsIPv4(af)) == d.dns.Family(!IsIPv4(af))
    ensures r.dns.wins == d.dns.wins && r.dns.nisServers == d.dns.nisServers
    ensures r.(dns := d.dns) == d
  {
    d.(dns := d.dns.WithFamily(IsIPv4(af), f))
  }

  /** nm_l3_config_data_add_nameserver: appends unless already present, and
      reports whether the list grew. */
  function AddNameserver<O>(d: L3ConfigData<O>, af: int, ns: IpAddr): (r: Update<O>)
    requires !d.sealed
    ensures var before := d.dns.Family(IsIPv4(af)).nameservers;
            var after := r.data.dns.Family(IsIPv4(af)).nameservers;
            && ns in after
            && (forall x :: x in after <==> x in before || x == ns)
            && |before| <= |after| && after[..|before|] == before
            && (r.changed <==> ns !in before)
            && (r.changed ==> after == before + [ns])
    ensures r.data.dns.Family(IsIPv4(af)).(nameservers := d.dns.Family(IsIPv4(af)).nameservers) == d.dns.Family(IsIPv4(af))
    ensures r.data.dns.Family(!IsIPv4(af)) == d.dns.Family(!IsIPv4(af))
    ensures r.data.dns.wins == d.dns.wins && r.data.dns.nisServers == d.dns.nisServers
    ensures r.data.(dns := d.dns) == d
    ensures !r.changed ==> r.data == d
  {
    var f := d.dns.Family(IsIPv4(af));
    Update(WithDnsFamily(d, af, f.(nameservers := AppendUnique(f.nameservers, ns))), ns !in f.nameservers)
  }

  /** nm_l3_config_data_add_domain, with the same duplicate rule. */
  function AddDomain<O>(d: L3ConfigData<O>, af: int, domain: string): (r: Update<O>)
    requires !d.sealed
    ensures var before := d.dns.Family(IsIPv4(af)).domains;
            var after := r.data.dns.Family(IsIPv4(af)).domains;
            && (forall x :: x in after <==> x in before || x == domain)
            && |before| <= |after| && after[..|before|] == before
            && (r.changed <==> domain !in before)
            && (r.changed ==> after == before + [domain])
    ensures r.data.dns.Family(IsIPv4(af)).(domains := d.dns.Family(IsIPv4(af)).domains) == d.dns.Family(IsIPv4(af))
    ensures r.data.dns.Family(!IsIPv4(af)) == d.dns.Family(!IsIPv4(af))
    ensures r.data.dns.wins == d.dns.wins && r.data.dns.nisServers == d.dns.nisServers
    ensures r.data.(dns := d.dns) == d
    ensures !r.changed ==> r.data == d
  {
    var f := d.dns.Family(IsIPv4(af));
    Update(WithDnsFamily(d, af, f.(domains := AppendUnique(f.domains, domain))), domain !in f.domains)
  }

  /** nm_l3_config_data_add_search, with the same duplicate rule. */
  function AddSearch<O>(d: L3ConfigData<O>, af: int, search: string): (r: Update<O>)
    requires !d.sealed
    ensures var before := d.dns.Family(IsIPv4(af)).searches;
            var after := r.data.dns.Family(IsIPv4(af)).searches;
            && (forall x :: x in after <==> x in before || x == search)
            && |before| <= |after| && after[..|before|] == before
            && (r.changed <==> search !in before)
            && (r.changed ==> after == before + [search])
    ensures r.data.dns.Family(IsIPv4(af)).(searches := d.dns.Family(IsIPv4(af)).searches) == d.dns.Family(IsIPv4(af))
    ensures r.data.dns.Family(!IsIPv4(af)) == d.dns.Family(!IsIPv4(af))
    ensures r.data.dns.wins == d.dns.wins && r.data.dns.nisServers == d.dns.nisServers
    ensures r.data.(dns := d.dns) == d
    ensures !r.changed ==> r.data == d
  {
    var f := d.dns.Family(IsIPv4(af));
    Update(WithDnsFamily(d, af, f.(searches := AppendUnique(f.searches, search))), search !in f.searches)
  }

  /** nm_l3_config_data_add_dns_option, with the same duplicate rule. */
  function AddDnsOption<O>(d: L3ConfigData<O>, af: int, option: string): (r: Update<O>)
    requires !d.sealed
    ensures var before := d.dns.Family(IsIPv4(af)).options;
            var after := r.data.dns.Family(IsIPv4(af)).options;
            && (forall x :: x in after <==> x in before || x == option)
            && |before| <= |after| && after[..|before|] == before
            && (r.changed <==> option !in before)
            && (r.changed ==> after == before + [option])
    ensures r.data.dns.Family(IsIPv4(af)).(options := d.dns.Family(IsIPv4(af)).options) == d.dns.Family(IsIPv4(af))
    ensures r.data.dns.Family(!IsIPv4(af)) == d.dns.Family(!IsIPv4(af))
    ensures r.data.dns.wins == d.dns.wins && r.data.dns.nisServers == d.dns.nisServers
    ensures r.data.(dns := d.dns) == d
    ensures !r.changed ==> r.data == d
  {
    var f := d.dns.Family(IsIPv4(af));
    Update(WithDnsFamily(d, af, f.(options := AppendUnique(f.options, option))), option !in f.options)
  }

  /** nm_l3_config_data_add_wins (IPv4 only), with the same duplicate rule. */
  function AddWins<O>(d: L3ConfigData<O>, wins: IpAddr): (r: Update<O>)
    requires !d.sealed
    ensures forall x :: x in r.data.dns.wins <==> x in d.dns.wins || x == wins
    ensures |d.dns.wins| <= |r.data.dns.wins| && r.data.dns.wins[..|d.dns.wins|] == d.dns.wins
    ensures r.changed <==> wins !in d.dns.wins
    ensures r.changed ==> r.data.dns.wins == d.dns.wins + [wins]
    ensures r.data.dns.(wins := d.dns.wins) == d.dns
    ensures r.data.(dns := d.dns) == d
    ensures !r.changed ==> r.data == d
  {
    Update(d.(dns := d.dns.(wins := AppendUnique(d.dns.wins, wins))), wins !in d.dns.wins)
  }

  /** nm_l3_config_data_add_nis_server (IPv4 only), with the same duplicate
      rule. */
  function AddNisServer<O>(d: L3ConfigData<O>, server: IpAddr): (r: Update<O>)
    requires !d.sealed
    ensures forall x :: x in r.data.dns.nisServers <==> x in d.dns.nisServers || x == server
    ensures |d.dns.nisServers| <= |r.data.dns.nisServers| && r.data.dns.nisServers[..|d.dns.nisServers|] == d.dns.nisServers
    ensures r.changed <==> server !in d.dns.nisServers
    ensures r.changed ==> r.data.dns.nisServers == d.dns.nisServers + [server]
    ensures r.data.dns.(nisServers := d.dns.nisServers) == d.dns
    ensures r.data.(dns := d.dns) == d
    ensures !r.changed ==> r.data == d
  {
    Update(d.(dns := d.dns.(nisServers := AppendUnique(d.dns.nisServers, server))), server !in d.dns.nisServers)
  }

  /** nm_l3_config_data_set_dns_priority: records the priority of the
      family and marks it present with HAS_DNS_PRIORITY(family); reports a
      change unless the same priority was already present. */
  function SetDnsPriority<O>(d: L3ConfigData<O>, af: int, priority: int): (r: Update<O>)
    requires !d.sealed
    ensures r.data.dns.Family(IsIPv4(af)).priority == priority
    ensures r.data.dns.Family(IsIPv4(af)).(priority := d.dns.Family(IsIPv4(af)).priority) == d.dns.Family(IsIPv4(af))
    ensures r.data.dns.Family(!IsIPv4(af)) == d.dns.Family(!IsIPv4(af))
    ensures r.data.dns.wins == d.dns.wins && r.data.dns.nisServers == d.dns.nisServers
    ensures r.data.flags.Has(HasDnsPriorityFlag(IsIPv4(af)))
    ensures r.data.flags.bits - HasDnsPriorityFlag(IsIPv4(af)) == d.flags.bits - HasDnsPriorityFlag(IsIPv4(af))
    ensures r.changed <==> !(d.flags.Has(HasDnsPriorityFlag(IsIPv4(af))) && d.dns.Family(IsIPv4(af)).priority == priority)
    ensures !r.changed ==> r.data == d
    ensures r.data.heads == d.heads && r.data.ifindex == d.ifindex && !r.data.sealed
  {
    var flag := HasDnsPriorityFlag(IsIPv4(af));
    var f := d.dns.Family(IsIPv4(af));
    if d.flags.Has(flag) && f.priority == priority then Update(d, false)
    else
      var d1 := WithDnsFamily(d, af, f.(priority := priority));
      Update(SetFlags(d1, flag), true)
  }

  /** Adding the same value a second time reports no change and leaves the
      data as the first call left it, for every list setter above; setting
      the same DNS priority twice does the same. */
  lemma DnsSettersIdempotent<O>(d: L3ConfigData<O>, af: int, ns: IpAddr, name: string, wins: IpAddr, server: IpAddr, priority: int)
    requires !d.sealed
    ensures var r := AddNameserver(d, af, ns); AddNameserver(r.data, af, ns) == Update(r.data, false)
    ensures var r := AddDomain(d, af, name); AddDomain(r.data, af, name) == Update(r.data, false)
    ensures var r := AddSearch(d, af, name); AddSearch(r.data, af, name) == Update(r.data, false)
    ensures var r := AddDnsOption(d, af, name); AddDnsOption(r.data, af, name) == Update(r.data, false)
    ensures var r := AddWins(d, wins); AddWins(r.data, wins) == Update(r.data, false)
    ensures var r := AddNisServer(d, server); AddNisServer(r.data, server) == Update(r.data, false)
    ensures var r := SetDnsPriority(d, af, priority); SetDnsPriority(r.data, af, priority) == Update(r.data, false)
  {
  }

  /** Calls AddNameserver once per element of `nss`, in order. */
  function AddNameservers<O>(d: L3ConfigData<O>, af: int, nss: seq<IpAddr>): (r: L3ConfigData<O>)
    requires !d.sealed
    ensures r.(dns := d.dns) == d
    ensures r.dns.Family(!IsIPv4(af)) == d.dns.Family(!IsIPv4(af))
    decreases |nss|
  {
    if |nss| == 0 then d
    else AddNameservers(AddNameserver(d, af, nss[0]).data, af, nss[1..])
  }

  /** Adding nameservers one at a time is the order-preserving,
      duplicate-free append the merge uses for whole lists; in particular a
      duplicate-free list stays duplicate-free. */
  lemma {:induction false} AddNameserversIsAppendAllUnique<O>(d: L3ConfigData<O>, af: int, nss: seq<IpAddr>)
    requires !d.sealed
    ensures var before := d.dns.Family(IsIPv4(af)).nameservers;
            AddNameservers(d, af, nss).dns.Family(IsIPv4(af)).nameservers == AppendAllUnique(before, nss)
    ensures NoDuplicates(d.dns.Family(IsIPv4(af)).nameservers) ==>
              NoDuplicates(AddNameservers(d, af, nss).dns.Family(IsIPv4(af)).nameservers)
    decreases |nss|
  {
    var before := d.dns.Family(IsIPv4(af)).nameservers;
    if |nss| > 0 {
      var d1 := AddNameserver(d, af, nss[0]).data;
      assert d1.dns.Family(IsIPv4(af)).nameservers == AppendUnique(before, nss[0]);
      AddNameserversIsAppendAllUnique(d1, af, nss[1..]);
    }
    if NoDuplicates(before) {
      AppendAllUniqueKeepsNoDuplicates(before, nss);
    }
  }

  // ---- equality ---------------------------------------------------------------------

  /** nm_l3_config_data_equal: cmp() reports 0. The comparison itself is a
      parameter, its field order not being part of this model. */
  function Equal<O>(cmp: (L3ConfigData<O>, L3ConfigData<O>) -> int, a: L3ConfigData<O>, b: L3ConfigData<O>): (r: bool)
    ensures r <==> cmp(a, b) == 0
  {
    cmp(a, b) == 0
  }

  /** A sealed configuration equals, under any comparison that ranks every
      value equal to itself, the seal of its own clone: cloning for the same
      interface and sealing loses nothing a comparison could see. */
  lemma CloneIsEqual<O(!new)>(cmp: (L3ConfigData<O>, L3ConfigData<O>) -> int, src: L3ConfigData<O>)
    requires forall x :: cmp(x, x) == 0
    requires src.ifindex > 0 && IsSealed(src)
    ensures Equal(cmp, Seal(NewClone(src, src.ifindex)), src)
    ensures Equal(cmp, src, Seal(NewClone(src, src.ifindex)))
  {
    CloneThenSealRoundTrip(src);
  }

  /** Under a comparison that ranks equal exactly the identical values, the
      sealed clone of a sealed configuration is `equal` to it exactly when
      the clone keeps the interface index: the ifindex is the one thing
      new_clone may change. */
  lemma {:induction false} CloneEqualExactlyForSameIfindex<O(!new)>(cmp: (L3ConfigData<O>, L3ConfigData<O>) -> int, src: L3ConfigData<O>, ifindex: int)
    requires forall x, y :: cmp(x, y) == 0 <==> x == y
    requires ifindex > 0 && IsSealed(src)
    ensures Equal(cmp, Seal(NewClone(src, ifindex)), src) <==> ifindex == src.ifindex
  {
    if ifindex == src.ifindex {
      CloneThenSealRoundTrip(src);
    } else {
      assert GetIfindex(Seal(NewClone(src, ifindex))) != GetIfindex(src);
    }
  }
}

/** Port VLAN configuration and ingress classification (vlan_port_config.cpp, vlan_ingress.cpp). */
module Vlan {
  import opened Basics
  import opened Ethernet

  datatype PortConfig = PortConfig(isAccess: bool, accessVlan: Option<VlanId>,
                                   allowed: set<VlanId>, nativeVlan: Option<VlanId>)

  /** What the two factory functions guarantee. */
  predicate ValidConfig(c: PortConfig)
  {
    if c.isAccess then c.accessVlan.Some? && c.allowed == {c.accessVlan.value} && c.nativeVlan.None?
    else c.accessVlan.None? && c.allowed != {} && (c.nativeVlan.Some? ==> c.nativeVlan.value in c.allowed)
  }

  function Access(vlan: VlanId): (c: PortConfig)
    ensures ValidConfig(c)
  {
    PortConfig(true, Some(vlan), {vlan}, None)
  }

  function Trunk(allowed: set<VlanId>, native: Option<VlanId>): (c: Option<PortConfig>)
    ensures c.Some? <==> allowed != {} && (native.Some? ==> native.value in allowed)
    ensures c.Some? ==> ValidConfig(c.value)
  {
    if allowed == {} || (native.Some? && native.value !in allowed) then None
    else Some(PortConfig(false, None, allowed, native))
  }

  datatype DropReason = TaggedOnAccess | UntaggedWithoutNative | NotAllowed

  datatype Ingress = Accepted(vlan: VlanId) | Dropped(reason: DropReason)

  function Classify(f: Frame, c: PortConfig): Ingress
    requires ValidConfig(c)
  {
    if c.isAccess then
      if f.tag.Some? then Dropped(TaggedOnAccess) else Accepted(c.accessVlan.value)
    else if f.tag.None? then
      if c.nativeVlan.None? then Dropped(UntaggedWithoutNative) else Accepted(c.nativeVlan.value)
    else if f.tag.value.vlan !in c.allowed then Dropped(NotAllowed)
    else Accepted(f.tag.value.vlan)
  }

  /** Which frames an access port accepts: untagged ones, into its own VLAN. */
  lemma AccessAccepts(f: Frame, vlan: VlanId, v: VlanId)
    ensures Classify(f, Access(vlan)) == Accepted(v) <==> f.tag.None? && v == vlan
    ensures Access(vlan).allowed == {vlan}
  {
  }

  /** Which frames a trunk accepts: tagged ones into an allowed VLAN, untagged ones into
      the native VLAN if there is one. */
  lemma TrunkAccepts(f: Frame, allowed: set<VlanId>, native: Option<VlanId>, v: VlanId)
    requires Trunk(allowed, native).Some?
    ensures Trunk(allowed, native).value.allowed == allowed
    ensures Classify(f, Trunk(allowed, native).value) == Accepted(v) <==>
      if f.tag.Some? then f.tag.value.vlan == v && v in allowed else native == Some(v)
  {
  }

  /** Every valid configuration is one of those two kinds, and each refusal has one cause. */
  lemma RefusalExactly(f: Frame, c: PortConfig)
    requires ValidConfig(c)
    ensures if c.isAccess then c == Access(c.accessVlan.value) else Trunk(c.allowed, c.nativeVlan) == Some(c)
    ensures Classify(f, c) == Dropped(TaggedOnAccess) <==> c.isAccess && f.tag.Some?
    ensures Classify(f, c) == Dropped(UntaggedWithoutNative) <==> !c.isAccess && f.tag.None? && c.nativeVlan.None?
    ensures Classify(f, c) == Dropped(NotAllowed) <==>
      !c.isAccess && f.tag.Some? && f.tag.value.vlan !in c.allowed
  {
  }

  /** The first element of an ordered set, searching upwards from `n`. */
  function LeastFrom(s: set<VlanId>, n: VlanId): (v: VlanId)
    requires exists w :: w in s && n <= w
    ensures v in s && n <= v && forall w :: w in s && n <= w ==> v <= w
    decreases 4094 - n
  {
    if n in s then n else LeastFrom(s, n + 1)
  }

  /** The VLAN the switch uses to pick the member list, computed before and
      apart from the classification. */
  function MemberVlan(f: Frame, c: PortConfig): VlanId
    requires ValidConfig(c)
  {
    if c.isAccess then c.accessVlan.value
    else if f.tag.Some? then f.tag.value.vlan
    else if c.nativeVlan.Some? then c.nativeVlan.value
    else LeastFrom(c.allowed, 1)
  }

  /** Whenever ingress is accepted both computations name the same VLAN, and the port allows it. */
  lemma ClassificationsAgree(f: Frame, c: PortConfig)
    requires ValidConfig(c) && Classify(f, c).Accepted?
    ensures Classify(f, c).vlan == MemberVlan(f, c) && Classify(f, c).vlan in c.allowed
  {
  }

  /** Whether a port takes frames for `vlan` in this form: tagged frames on a trunk,
      untagged ones on an access port or as the native VLAN. */
  predicate TakesTagging(c: PortConfig, vlan: VlanId, tagged: bool)
  {
    if tagged then !c.isAccess else c.isAccess || c.nativeVlan == Some(vlan)
  }

  /** A frame accepted into a VLAN on one port and passed on unchanged is accepted into
      the same VLAN under another port's configuration that allows it if and only if
      that configuration takes the frame's tagging. */
  lemma RelayedExactly(f: Frame, c: PortConfig, out: PortConfig, vlan: VlanId)
    requires ValidConfig(c) && ValidConfig(out) && Classify(f, c) == Accepted(vlan) && vlan in out.allowed
    ensures Classify(f, out) == Accepted(vlan) <==> TakesTagging(out, vlan, f.tag.Some?)
  {
  }

  /** It can fail: an untagged frame from an access port that leaves through a trunk
      with another native VLAN changes VLAN at the next switch. */
  lemma NativeVlanChangesHands(f: Frame, vlan: VlanId, native: VlanId)
    requires f.tag.None? && vlan != native
    ensures Classify(f, Access(vlan)) == Accepted(vlan) && Trunk({vlan, native}, Some(native)).Some?
    ensures vlan in Trunk({vlan, native}, Some(native)).value.allowed
    ensures Classify(f, Trunk({vlan, native}, Some(native)).value) == Accepted(native)
  {
  }
}

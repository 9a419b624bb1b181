/**
 * ipa_hbacrule: make a FreeIPA host-based access control rule present (enabled or
 * disabled) with the given attributes and member lists, or absent.
 */
module HbacRule {
  import opened Wrappers
  import opened IpaValues
  import opened IpaClient
  import opened IpaReconcile

  datatype State = Present | Absent | Enabled | Disabled

  /** The module's parameters; an omitted option is None. */
  datatype Params = Params(
    name: string,
    state: State,
    description: Option<string>,
    host: Option<seq<string>>,
    hostcategory: Option<string>,
    hostgroup: Option<seq<string>>,
    service: Option<seq<string>>,
    servicecategory: Option<string>,
    servicegroup: Option<seq<string>>,
    sourcehost: Option<seq<string>>,
    sourcehostcategory: Option<string>,
    sourcehostgroup: Option<seq<string>>,
    user: Option<seq<string>>,
    usercategory: Option<string>,
    usergroup: Option<seq<string>>)

  /** `ipaenabledflag`: the rule is enabled for present and enabled, and disabled otherwise. */
  function EnabledFlag(state: State): (flag: string)
    ensures flag == "TRUE" <==> state == Present || state == Enabled
    ensures flag == "TRUE" || flag == "NO"
  {
    if state == Present || state == Enabled then "TRUE" else "NO"
  }

  /**
   * get_hbacrule_dict: the dict holds a key exactly for the arguments that are given,
   * each under its own name and with its value unchanged, and no other key.
   */
  function RuleDict(description: Option<string>, hostcategory: Option<string>, ipaenabledflag: Option<string>,
                    servicecategory: Option<string>, sourcehostcategory: Option<string>,
                    usercategory: Option<string>): (d: Dict)
    ensures Lookup(d, "description") == Given(description)
    ensures Lookup(d, "hostcategory") == Given(hostcategory)
    ensures Lookup(d, "ipaenabledflag") == Given(ipaenabledflag)
    ensures Lookup(d, "servicecategory") == Given(servicecategory)
    ensures Lookup(d, "sourcehostcategory") == Given(sourcehostcategory)
    ensures Lookup(d, "usercategory") == Given(usercategory)
    ensures forall k :: k in Keys(d) ==>
              k in ["description", "hostcategory", "ipaenabledflag", "servicecategory", "sourcehostcategory", "usercategory"]
    ensures DistinctKeys(d)
  {
    var args := [("description", description), ("hostcategory", hostcategory), ("ipaenabledflag", ipaenabledflag),
                 ("servicecategory", servicecategory), ("sourcehostcategory", sourcehostcategory),
                 ("usercategory", usercategory)];
    DictOfLookup(args, 0);
    DictOfLookup(args, 1);
    DictOfLookup(args, 2);
    DictOfLookup(args, 3);
    DictOfLookup(args, 4);
    DictOfLookup(args, 5);
    DictOfDistinct(args);
    DictOf(args)
  }

  /** The dict `ensure` compares the rule against; the enabled flag is always there. */
  function ModuleDict(p: Params): Dict
  {
    RuleDict(p.description, p.hostcategory, Some(EnabledFlag(p.state)), p.servicecategory,
             p.sourcehostcategory, p.usercategory)
  }

  // The member lists: the add and remove methods, the request key and the attribute.
  const HostSlot := Slot("hbacrule_add_host", "hbacrule_remove_host", "host", MemberhostHost)
  const HostgroupSlot := Slot("hbacrule_add_host", "hbacrule_remove_host", "hostgroup", MemberhostHostgroup)
  const ServiceSlot := Slot("hbacrule_add_service", "hbacrule_remove_service", "hbacsvc", MemberserviceHbacsvc)
  const ServicegroupSlot :=
    Slot("hbacrule_add_service", "hbacrule_remove_service", "hbacsvcgroup", MemberserviceHbacsvcgroup)
  const SourcehostSlot := Slot("hbacrule_add_sourcehost", "hbacrule_remove_sourcehost", "host", SourcehostHost)
  const SourcehostgroupSlot :=
    Slot("hbacrule_add_sourcehost", "hbacrule_remove_sourcehost", "hostgroup", SourcehostGroup)
  const UserSlot := Slot("hbacrule_add_user", "hbacrule_remove_user", "user", MemberuserUser)
  const UsergroupSlot := Slot("hbacrule_add_user", "hbacrule_remove_user", "group", MemberuserGroup)

  /** The member lists in the order `ensure` reconciles them; each files under its own attribute. */
  function MemberLists(p: Params): (ls: seq<MemberList>)
    ensures |ls| == 8 && DistinctAttrs(ls)
  {
    [(HostSlot, p.host), (HostgroupSlot, p.hostgroup), (ServiceSlot, p.service), (ServicegroupSlot, p.servicegroup),
     (SourcehostSlot, p.sourcehost), (SourcehostgroupSlot, p.sourcehostgroup), (UserSlot, p.user),
     (UsergroupSlot, p.usergroup)]
  }

  predicate AnyListGiven(p: Params)
  {
    p.host.Some? || p.hostgroup.Some? || p.service.Some? || p.servicegroup.Some? ||
    p.sourcehost.Some? || p.sourcehostgroup.Some? || p.user.Some? || p.usergroup.Some?
  }

  // ---------------------------------------------------------------------------
  // What `ensure` does, as functions of the store it starts from

  /** The calls `ensure` posts outside check mode. */
  function Plan(p: Params, store: map<string, Entry>): seq<Call>
  {
    if p.state == Absent then
      if p.name in store then [DelEntry("hbacrule_del", p.name)] else []
    else PresentCalls("hbacrule", p.name, store, ModuleDict(p), MemberLists(p))
  }

  /**
   * The flag `ensure` returns: for absent, whether the rule exists; otherwise the OR of
   * "the rule is missing or an attribute differs" and every given list that differs.
   */
  predicate Changed(p: Params, store: map<string, Entry>)
  {
    if p.state == Absent then p.name in store
    else
      var d := ModuleDict(p);
      p.name !in store || DiffKeys(store[p.name].attrs, d) != [] ||
      AnyDiffers(Snapshot(store, p.name, d), MemberLists(p))
  }

  /**
   * In check mode a missing rule is never added, so the first given member list is
   * read from the empty lookup result, which raises.
   */
  predicate Fails(p: Params, store: map<string, Entry>, checkMode: bool)
  {
    checkMode && p.state != Absent && p.name !in store && AnyListGiven(p)
  }

  /** Posting the first four lists' calls one by one leaves the rest of `MemberLists` to post. */
  lemma CallsInTurnFirst(p: Params, e: Entry, checkMode: bool, before: seq<Call>)
    ensures before +
              Posted(checkMode, ListCalls(p.name, e, (HostSlot, p.host))) +
              Posted(checkMode, ListCalls(p.name, e, (HostgroupSlot, p.hostgroup))) +
              Posted(checkMode, ListCalls(p.name, e, (ServiceSlot, p.service))) +
              Posted(checkMode, ListCalls(p.name, e, (ServicegroupSlot, p.servicegroup))) +
              Posted(checkMode, SlotCalls(p.name, e, MemberLists(p)[4..])) ==
            before + Posted(checkMode, SlotCalls(p.name, e, MemberLists(p)[0..]))
  {
    var ls := MemberLists(p);
    ghost var x0 := before;
    ghost var x1 := x0 + Posted(checkMode, ListCalls(p.name, e, ls[0]));
    PostedStep(x0, x1, checkMode, p.name, e, ls, 0);
    ghost var x2 := x1 + Posted(checkMode, ListCalls(p.name, e, ls[1]));
    PostedStep(x1, x2, checkMode, p.name, e, ls, 1);
    ghost var x3 := x2 + Posted(checkMode, ListCalls(p.name, e, ls[2]));
    PostedStep(x2, x3, checkMode, p.name, e, ls, 2);
    ghost var x4 := x3 + Posted(checkMode, ListCalls(p.name, e, ls[3]));
    PostedStep(x3, x4, checkMode, p.name, e, ls, 3);
  }

  /** Posting the last four lists' calls one by one posts the rest of `MemberLists`. */
  lemma CallsInTurnLast(p: Params, e: Entry, checkMode: bool, before: seq<Call>)
    ensures before +
              Posted(checkMode, ListCalls(p.name, e, (SourcehostSlot, p.sourcehost))) +
              Posted(checkMode, ListCalls(p.name, e, (SourcehostgroupSlot, p.sourcehostgroup))) +
              Posted(checkMode, ListCalls(p.name, e, (UserSlot, p.user))) +
              Posted(checkMode, ListCalls(p.name, e, (UsergroupSlot, p.usergroup))) +
              Posted(checkMode, SlotCalls(p.name, e, MemberLists(p)[8..])) ==
            before + Posted(checkMode, SlotCalls(p.name, e, MemberLists(p)[4..]))
  {
    var ls := MemberLists(p);
    ghost var x4 := before;
    ghost var x5 := x4 + Posted(checkMode, ListCalls(p.name, e, ls[4]));
    PostedStep(x4, x5, checkMode, p.name, e, ls, 4);
    ghost var x6 := x5 + Posted(checkMode, ListCalls(p.name, e, ls[5]));
    PostedStep(x5, x6, checkMode, p.name, e, ls, 5);
    ghost var x7 := x6 + Posted(checkMode, ListCalls(p.name, e, ls[6]));
    PostedStep(x6, x7, checkMode, p.name, e, ls, 6);
    ghost var x8 := x7 + Posted(checkMode, ListCalls(p.name, e, ls[7]));
    PostedStep(x7, x8, checkMode, p.name, e, ls, 7);
  }

  /** The eight lists' calls, posted one by one, are those of `MemberLists`. */
  lemma CallsInTurn(p: Params, e: Entry, checkMode: bool, before: seq<Call>)
    ensures before +
              Posted(checkMode, ListCalls(p.name, e, (HostSlot, p.host))) +
              Posted(checkMode, ListCalls(p.name, e, (HostgroupSlot, p.hostgroup))) +
              Posted(checkMode, ListCalls(p.name, e, (ServiceSlot, p.service))) +
              Posted(checkMode, ListCalls(p.name, e, (ServicegroupSlot, p.servicegroup))) +
              Posted(checkMode, ListCalls(p.name, e, (SourcehostSlot, p.sourcehost))) +
              Posted(checkMode, ListCalls(p.name, e, (SourcehostgroupSlot, p.sourcehostgroup))) +
              Posted(checkMode, ListCalls(p.name, e, (UserSlot, p.user))) +
              Posted(checkMode, ListCalls(p.name, e, (UsergroupSlot, p.usergroup))) ==
            before + Posted(checkMode, SlotCalls(p.name, e, MemberLists(p)))
  {
    var ls := MemberLists(p);
    assert ls[0..] == ls && ls[8..] == [];
    ghost var mid := before +
              Posted(checkMode, ListCalls(p.name, e, (HostSlot, p.host))) +
              Posted(checkMode, ListCalls(p.name, e, (HostgroupSlot, p.hostgroup))) +
              Posted(checkMode, ListCalls(p.name, e, (ServiceSlot, p.service))) +
              Posted(checkMode, ListCalls(p.name, e, (ServicegroupSlot, p.servicegroup)));
    CallsInTurnFirst(p, e, checkMode, before);
    CallsInTurnLast(p, e, checkMode, mid);
  }

  /** The eight lists' flags, OR-ed one by one, are whether any of `MemberLists` differs. */
  lemma FlagsInTurn(p: Params, e: Entry)
    ensures AnyDiffers(e, MemberLists(p)) <==>
              ListDiffers(e, (HostSlot, p.host)) ||
              ListDiffers(e, (HostgroupSlot, p.hostgroup)) ||
              ListDiffers(e, (ServiceSlot, p.service)) ||
              ListDiffers(e, (ServicegroupSlot, p.servicegroup)) ||
              ListDiffers(e, (SourcehostSlot, p.sourcehost)) ||
              ListDiffers(e, (SourcehostgroupSlot, p.sourcehostgroup)) ||
              ListDiffers(e, (UserSlot, p.user)) ||
              ListDiffers(e, (UsergroupSlot, p.usergroup))
  {
    var ls := MemberLists(p);
    assert ls[0..] == ls && ls[8..] == [];
    AnyDiffersAt(e, ls, 0);
    AnyDiffersAt(e, ls, 1);
    AnyDiffersAt(e, ls, 2);
    AnyDiffersAt(e, ls, 3);
    AnyDiffersAt(e, ls, 4);
    AnyDiffersAt(e, ls, 5);
    AnyDiffersAt(e, ls, 6);
    AnyDiffersAt(e, ls, 7);
  }

  /**
   * The member half of `ensure`'s present branch: each given list is reconciled against
   * the snapshot `snap` in turn, OR-ing its result into the flag.
   */
  method ReconcileLists(client: Client, p: Params, snap: Option<Entry>, ghost e: Entry, changed0: bool, checkMode: bool)
    returns (changed: bool)
    requires client.Valid()
    requires AnyListGiven(p) ==> snap == Some(e)
    modifies client`entries, client`calls
    ensures client.Valid()
    ensures changed <==> (changed0 ||
              ListDiffers(e, (HostSlot, p.host)) ||
              ListDiffers(e, (HostgroupSlot, p.hostgroup)) ||
              ListDiffers(e, (ServiceSlot, p.service)) ||
              ListDiffers(e, (ServicegroupSlot, p.servicegroup)) ||
              ListDiffers(e, (SourcehostSlot, p.sourcehost)) ||
              ListDiffers(e, (SourcehostgroupSlot, p.sourcehostgroup)) ||
              ListDiffers(e, (UserSlot, p.user)) ||
              ListDiffers(e, (UsergroupSlot, p.usergroup)))
    ensures client.calls == old(client.calls) +
              Posted(checkMode, ListCalls(p.name, e, (HostSlot, p.host))) +
              Posted(checkMode, ListCalls(p.name, e, (HostgroupSlot, p.hostgroup))) +
              Posted(checkMode, ListCalls(p.name, e, (ServiceSlot, p.service))) +
              Posted(checkMode, ListCalls(p.name, e, (ServicegroupSlot, p.servicegroup))) +
              Posted(checkMode, ListCalls(p.name, e, (SourcehostSlot, p.sourcehost))) +
              Posted(checkMode, ListCalls(p.name, e, (SourcehostgroupSlot, p.sourcehostgroup))) +
              Posted(checkMode, ListCalls(p.name, e, (UserSlot, p.user))) +
              Posted(checkMode, ListCalls(p.name, e, (UsergroupSlot, p.usergroup)))
  {
    changed := changed0;
    changed := ReconcileIfGiven(client, p.name, snap, (HostSlot, p.host), changed, checkMode, e);
    changed := ReconcileIfGiven(client, p.name, snap, (HostgroupSlot, p.hostgroup), changed, checkMode, e);
    changed := ReconcileIfGiven(client, p.name, snap, (ServiceSlot, p.service), changed, checkMode, e);
    changed := ReconcileIfGiven(client, p.name, snap, (ServicegroupSlot, p.servicegroup), changed, checkMode, e);
    changed := ReconcileIfGiven(client, p.name, snap, (SourcehostSlot, p.sourcehost), changed, checkMode, e);
    changed := ReconcileIfGiven(client, p.name, snap, (SourcehostgroupSlot, p.sourcehostgroup), changed, checkMode, e);
    changed := ReconcileIfGiven(client, p.name, snap, (UserSlot, p.user), changed, checkMode, e);
    changed := ReconcileIfGiven(client, p.name, snap, (UsergroupSlot, p.usergroup), changed, checkMode, e);
  }

  /**
   * The present branch of `ensure`: add the rule or modify its differing attributes, then
   * reconcile each given member list against the rule as found (or as added). In check
   * mode a missing rule leaves nothing to read the member lists from, which raises.
   */
  method EnsurePresent(client: Client, p: Params, d: Dict, found: Option<Entry>, checkMode: bool)
    returns (r: Result<bool, string>)
    requires client.Valid()
    requires found == EntryOf(client.entries, p.name)
    modifies client`entries, client`calls
    ensures client.Valid()
    ensures r.Failure? <==> checkMode && found.None? && AnyListGiven(p)
    ensures client.calls == old(client.calls) +
              Posted(checkMode, PresentCalls("hbacrule", p.name, old(client.entries), d, MemberLists(p)))
    ensures r.Success? ==> (r.value <==>
              found.None? || DiffKeys(found.value.attrs, d) != [] ||
              AnyDiffers(Snapshot(old(client.entries), p.name, d), MemberLists(p)))
  {
    ghost var store := client.entries;
    var changed, snap := CreateOrModify(client, "hbacrule", p.name, found, d, checkMode);
    ghost var e := Snapshot(store, p.name, d);
    ghost var ac := AttrCalls("hbacrule", p.name, found, d);
    assert client.calls == old(client.calls) + Posted(checkMode, ac);
    if !checkMode && found.None? {
      ApplyAllSnoc(client.origin, old(client.calls), ac[0]);
      assert client.calls == old(client.calls) + [ac[0]];
      assert client.entries == Apply(store, ac[0]);
      assert snap == Some(e);
    }
    if snap.None? && AnyListGiven(p) {
      return Failure("'list' object has no attribute 'get'");
    }
    ghost var mid := client.calls;
    changed := ReconcileLists(client, p, snap, e, changed, checkMode);
    CallsInTurn(p, e, checkMode, mid);
    FlagsInTurn(p, e);
    ghost var sc := SlotCalls(p.name, e, MemberLists(p));
    assert client.calls == mid + Posted(checkMode, sc);
    assert PresentCalls("hbacrule", p.name, store, d, MemberLists(p)) == ac + sc;
    PostedConcat(checkMode, old(client.calls), ac, sc);
    return Success(changed);
  }

  /**
   * ensure: look the rule up; for absent delete it when it exists, otherwise take the
   * present branch. Returns the changed flag and the rule as it now is. In check mode
   * nothing is posted and the flag is the one a real run would report.
   */
  method Ensure(client: Client, p: Params, checkMode: bool) returns (r: Result<(bool, Option<Entry>), string>)
    requires client.Valid()
    modifies client`entries, client`calls
    ensures client.Valid()
    ensures r.Failure? <==> Fails(p, old(client.entries), checkMode)
    ensures client.calls == old(client.calls) + Posted(checkMode, Plan(p, old(client.entries)))
    ensures client.entries == ApplyAll(old(client.entries), Posted(checkMode, Plan(p, old(client.entries))))
    ensures r.Success? ==> r.value == (Changed(p, old(client.entries)), EntryOf(client.entries, p.name))
  {
    ghost var store := client.entries;
    var d := RuleDict(p.description, p.hostcategory, Some(EnabledFlag(p.state)), p.servicecategory,
                      p.sourcehostcategory, p.usercategory);
    var found := client.Find(p.name);
    var res: Result<bool, string> := Success(false);
    if p.state != Absent {
      res := EnsurePresent(client, p, d, found, checkMode);
    } else if found.Some? {
      res := Success(true);
      if !checkMode {
        var _ := client.Post(DelEntry("hbacrule_del", p.name));
      }
    }
    ghost var plan := Posted(checkMode, Plan(p, store));
    assert client.calls == old(client.calls) + plan;
    ApplyAllConcat(client.origin, old(client.calls), plan);
    if res.Failure? {
      return Failure(res.error);
    }
    var after := client.Find(p.name);
    return Success((res.value, after));
  }

  // ---------------------------------------------------------------------------
  // Properties of the plan

  /** A present, enabled or disabled rule exists after the plan, and no other rule changes. */
  lemma PlanKeepsOthers(p: Params, store: map<string, Entry>)
    requires p.state != Absent
    ensures var store' := ApplyAll(store, Plan(p, store));
      p.name in store' && store'.Keys == store.Keys + {p.name} &&
      forall n :: n in store && n != p.name ==> store'[n] == store[n]
  {
    PresentConverges("hbacrule", p.name, store, ModuleDict(p), MemberLists(p));
  }

  /**
   * After the plan each given member list (host, host group, service, service group,
   * source host, source host group, user, user group) is exactly the set of names given.
   */
  lemma PlanSetsGivenLists(p: Params, store: map<string, Entry>)
    requires p.state != Absent
    ensures var store' := ApplyAll(store, Plan(p, store));
      p.name in store' &&
      forall i :: 0 <= i < |MemberLists(p)| && MemberLists(p)[i].1.Some? ==>
        MembersOf(store'[p.name], MemberLists(p)[i].0.attr) == SetOf(MemberLists(p)[i].1.value)
  {
    var ls := MemberLists(p);
    var d := ModuleDict(p);
    PresentConverges("hbacrule", p.name, store, d, ls);
    forall i | 0 <= i < |ls| && ls[i].1.Some?
      ensures MembersOf(ApplyAll(store, Plan(p, store))[p.name], ls[i].0.attr) == SetOf(ls[i].1.value)
    {
      PresentSetsGiven("hbacrule", p.name, store, d, ls, i, ls[i].0, ls[i].1.value);
    }
  }

  /**
   * After the plan the rule's enabled flag is the one the state asks for, and every given
   * attribute has a value that compares equal to it.
   */
  lemma PlanConvergesAttrs(p: Params, store: map<string, Entry>)
    requires p.state != Absent
    ensures var store' := ApplyAll(store, Plan(p, store));
      p.name in store' &&
      !Differs(Get(store'[p.name].attrs, "ipaenabledflag"), Scalar(EnabledFlag(p.state))) &&
      (p.description.Some? ==> !Differs(Get(store'[p.name].attrs, "description"), Scalar(p.description.value))) &&
      (p.hostcategory.Some? ==> !Differs(Get(store'[p.name].attrs, "hostcategory"), Scalar(p.hostcategory.value))) &&
      (p.servicecategory.Some? ==> !Differs(Get(store'[p.name].attrs, "servicecategory"), Scalar(p.servicecategory.value))) &&
      (p.sourcehostcategory.Some? ==> !Differs(Get(store'[p.name].attrs, "sourcehostcategory"), Scalar(p.sourcehostcategory.value))) &&
      (p.usercategory.Some? ==> !Differs(Get(store'[p.name].attrs, "usercategory"), Scalar(p.usercategory.value)))
  {
    var d := ModuleDict(p);
    var store' := ApplyAll(store, Plan(p, store));
    PresentConverges("hbacrule", p.name, store, d, MemberLists(p));
    AgreedKey(store'[p.name].attrs, d, "ipaenabledflag");
    if p.description.Some? { AgreedKey(store'[p.name].attrs, d, "description"); }
    if p.hostcategory.Some? { AgreedKey(store'[p.name].attrs, d, "hostcategory"); }
    if p.servicecategory.Some? { AgreedKey(store'[p.name].attrs, d, "servicecategory"); }
    if p.sourcehostcategory.Some? { AgreedKey(store'[p.name].attrs, d, "sourcehostcategory"); }
    if p.usercategory.Some? { AgreedKey(store'[p.name].attrs, d, "usercategory"); }
  }

  /** Absent deletes the rule when it exists and touches nothing else. */
  lemma AbsentDeletes(p: Params, store: map<string, Entry>)
    requires p.state == Absent
    ensures ApplyAll(store, Plan(p, store)) == store - {p.name}
  {
    if p.name in store {
      ApplyAllOne(store, DelEntry("hbacrule_del", p.name));
    } else {
      assert store - {p.name} == store;
    }
  }

  /** The flag `ensure` returns is true exactly when the plan posts something. */
  lemma ChangedIffPlan(p: Params, store: map<string, Entry>)
    ensures Changed(p, store) <==> Plan(p, store) != []
  {
    if p.state != Absent {
      var d := ModuleDict(p);
      SlotCallsEmptyIff(p.name, Snapshot(store, p.name, d), MemberLists(p));
    }
  }

  /** Running `ensure` again on the store the plan produced posts nothing and reports no change. */
  lemma PlanIdempotent(p: Params, store: map<string, Entry>)
    ensures var store' := ApplyAll(store, Plan(p, store));
      Plan(p, store') == [] && !Changed(p, store')
  {
    var store' := ApplyAll(store, Plan(p, store));
    if p.state == Absent {
      AbsentDeletes(p, store);
    } else {
      PresentIdempotent("hbacrule", p.name, store, ModuleDict(p), MemberLists(p));
    }
    ChangedIffPlan(p, store');
  }
}

/**
 * ipa_sudocmdgroup: make a FreeIPA sudo command group present with the given description
 * and sudo commands, or remove it.
 */
module SudoCmdGroup {
  import opened Wrappers
  import opened IpaValues
  import opened IpaClient
  import opened IpaReconcile

  /** The states the module accepts; only Present keeps the group. */
  datatype State = Present | Absent | Enabled | Disabled

  /** The module's parameters; an omitted option is None. */
  datatype Params = Params(name: string, state: State, description: Option<string>, sudocmd: Option<seq<string>>)

  /** get_sudocmdgroup_dict: a `description` key exactly when a description is given, holding it. */
  function GroupDict(description: Option<string>): (d: Dict)
    ensures Lookup(d, "description") == Given(description)
    ensures forall k :: k in Keys(d) ==> k == "description"
    ensures DistinctKeys(d)
  {
    var args := [("description", description)];
    DictOfLookup(args, 0);
    DictOfDistinct(args);
    DictOf(args)
  }

  /** The sudo command list: its add and remove methods, the request key and the attribute. */
  const SudocmdSlot := Slot("sudocmdgroup_add_member", "sudocmdgroup_remove_member", "sudocmd", MemberSudocmd)

  /** The one member list `ensure` reconciles. */
  function CommandList(p: Params): MemberList
  {
    (SudocmdSlot, p.sudocmd)
  }

  // ---------------------------------------------------------------------------
  // What `ensure` does, as functions of the store it starts from

  /** The calls `ensure` posts outside check mode. */
  function Plan(p: Params, store: map<string, Entry>): seq<Call>
  {
    if p.state != Present then
      if p.name in store then [DelEntry("sudocmdgroup_del", p.name)] else []
    else PresentCalls("sudocmdgroup", p.name, store, GroupDict(p.description), [CommandList(p)])
  }

  /**
   * The flag `ensure` returns. Outside Present, whether the group exists. For Present
   * with sudo commands given, the membership result alone: it overwrites the outcome of
   * adding the group or changing its description. Otherwise that outcome.
   */
  predicate Changed(p: Params, store: map<string, Entry>)
  {
    if p.state != Present then p.name in store
    else
      var d := GroupDict(p.description);
      if p.sudocmd.Some? then ListDiffers(Snapshot(store, p.name, d), CommandList(p))
      else p.name !in store || DiffKeys(store[p.name].attrs, d) != []
  }

  /** In check mode a missing group is never added, so reading its commands raises. */
  predicate Fails(p: Params, store: map<string, Entry>, checkMode: bool)
  {
    checkMode && p.state == Present && p.name !in store && p.sudocmd.Some?
  }

  // ---------------------------------------------------------------------------
  // ensure

  /**
   * The present branch of `ensure`: add the group or modify its description, then, when
   * sudo commands are given, reconcile them against the group as found (or as added) and
   * take that result as the flag.
   */
  method EnsurePresent(client: Client, p: Params, d: Dict, found: Option<Entry>, checkMode: bool)
    returns (r: Result<bool, string>)
    requires client.Valid()
    requires found == EntryOf(client.entries, p.name)
    modifies client`entries, client`calls
    ensures client.Valid()
    ensures r.Failure? <==> checkMode && found.None? && p.sudocmd.Some?
    ensures client.calls == old(client.calls) +
              Posted(checkMode, PresentCalls("sudocmdgroup", p.name, old(client.entries), d, [CommandList(p)]))
    ensures r.Success? ==> (r.value <==>
              if p.sudocmd.Some? then ListDiffers(Snapshot(old(client.entries), p.name, d), CommandList(p))
              else found.None? || DiffKeys(found.value.attrs, d) != [])
  {
    ghost var store := client.entries;
    var changed, snap := CreateOrModify(client, "sudocmdgroup", p.name, found, d, checkMode);
    ghost var e := Snapshot(store, p.name, d);
    ghost var ac := AttrCalls("sudocmdgroup", p.name, found, d);
    assert client.calls == old(client.calls) + Posted(checkMode, ac);
    if !checkMode && found.None? {
      ApplyAllSnoc(client.origin, old(client.calls), ac[0]);
      assert client.calls == old(client.calls) + [ac[0]];
      assert client.entries == Apply(store, ac[0]);
      assert snap == Some(e);
    }
    ghost var mid := client.calls;
    ghost var lc := ListCalls(p.name, e, CommandList(p));
    if p.sudocmd.Some? {
      if snap.None? {
        return Failure("'list' object has no attribute 'get'");
      }
      changed := ModifyIfDiff(client, p.name, MembersOf(snap.value, MemberSudocmd), p.sudocmd.value, SudocmdSlot,
                              checkMode);
    }
    assert client.calls == mid + Posted(checkMode, lc);
    ghost var sc := SlotCalls(p.name, e, [CommandList(p)]);
    assert [CommandList(p)][1..] == [];
    assert sc == lc + SlotCalls(p.name, e, []);
    assert sc == lc;
    assert PresentCalls("sudocmdgroup", p.name, store, d, [CommandList(p)]) == ac + sc;
    PostedConcat(checkMode, old(client.calls), ac, sc);
    return Success(changed);
  }

  /**
   * ensure: look the group up; Present adds it or modifies its description and
   * reconciles the sudo commands; every other state deletes it when it exists. Returns
   * the changed flag and the group as it now is. In check mode nothing is posted.
   */
  method Ensure(client: Client, p: Params, checkMode: bool) returns (r: Result<(bool, Option<Entry>), string>)
    requires client.Valid()
    modifies client`entries, client`calls
    ensures client.Valid()
    ensures r.Failure? <==> Fails(p, old(client.entries), checkMode)
    ensures client.calls == old(client.calls) + Posted(checkMode, Plan(p, old(client.entries)))
    ensures client.entries == ApplyAll(old(client.entries), Posted(checkMode, Plan(p, old(client.entries))))
    ensures r.Success? ==> r.value == (Changed(p, old(client.entries)), EntryOf(client.entries, p.name))
  {
    ghost var store := client.entries;
    var d := GroupDict(p.description);
    var found := client.Find(p.name);
    var res: Result<bool, string> := Success(false);
    if p.state == Present {
      res := EnsurePresent(client, p, d, found, checkMode);
    } else if found.Some? {
      res := Success(true);
      if !checkMode {
        var _ := client.Post(DelEntry("sudocmdgroup_del", p.name));
      }
    }
    ghost var plan := Posted(checkMode, Plan(p, store));
    assert client.calls == old(client.calls) + plan;
    ApplyAllConcat(client.origin, old(client.calls), plan);
    if res.Failure? {
      return Failure(res.error);
    }
    var after := client.Find(p.name);
    return Success((res.value, after));
  }

  // ---------------------------------------------------------------------------
  // Properties of the plan

  /** Every state but Present deletes the group when it exists, and reports whether it did. */
  lemma NotPresentDeletes(p: Params, store: map<string, Entry>)
    requires p.state != Present
    ensures ApplyAll(store, Plan(p, store)) == store - {p.name}
    ensures Changed(p, store) <==> p.name in store
  {
    if p.name in store {
      ApplyAllOne(store, DelEntry("sudocmdgroup_del", p.name));
    } else {
      assert store - {p.name} == store;
    }
  }

  /**
   * Present converges: the group exists, its description (when given) compares equal,
   * its sudo commands (when given) are exactly those named, and no other group changes.
   */
  lemma PlanConverges(p: Params, store: map<string, Entry>)
    requires p.state == Present
    ensures var store' := ApplyAll(store, Plan(p, store));
      p.name in store' && store'.Keys == store.Keys + {p.name} &&
      (forall n :: n in store && n != p.name ==> store'[n] == store[n]) &&
      (p.description.Some? ==> !Differs(Get(store'[p.name].attrs, "description"), Scalar(p.description.value))) &&
      (p.sudocmd.Some? ==> MembersOf(store'[p.name], MemberSudocmd) == SetOf(p.sudocmd.value))
  {
    var d := GroupDict(p.description);
    var ls := [CommandList(p)];
    var store' := ApplyAll(store, Plan(p, store));
    PresentConverges("sudocmdgroup", p.name, store, d, ls);
    if p.description.Some? {
      AgreedKey(store'[p.name].attrs, d, "description");
    }
    if p.sudocmd.Some? {
      PresentSetsGiven("sudocmdgroup", p.name, store, d, ls, 0, SudocmdSlot, p.sudocmd.value);
    }
  }

  /** Running `ensure` again on the store the plan produced posts nothing and reports no change. */
  lemma PlanIdempotent(p: Params, store: map<string, Entry>)
    ensures var store' := ApplyAll(store, Plan(p, store));
      Plan(p, store') == [] && !Changed(p, store')
  {
    var store' := ApplyAll(store, Plan(p, store));
    if p.state != Present {
      NotPresentDeletes(p, store);
      NotPresentDeletes(p, store');
    } else {
      var d := GroupDict(p.description);
      PresentIdempotent("sudocmdgroup", p.name, store, d, [CommandList(p)]);
      PresentConverges("sudocmdgroup", p.name, store, d, [CommandList(p)]);
      if p.sudocmd.Some? {
        SlotCallsEmptyIff(p.name, Snapshot(store', p.name, d), [CommandList(p)]);
        AnyDiffersCons(Snapshot(store', p.name, d), [CommandList(p)]);
      }
    }
  }

  /** A reported change always comes with calls to post. */
  lemma ChangedHasCalls(p: Params, store: map<string, Entry>)
    requires Changed(p, store)
    ensures Plan(p, store) != []
  {
    if p.state == Present && p.sudocmd.Some? {
      var ls := [CommandList(p)];
      var e := Snapshot(store, p.name, GroupDict(p.description));
      AnyDiffersCons(e, ls);
      SlotCallsEmptyIff(p.name, e, ls);
    }
  }

  /** Without sudo commands the flag is true exactly when there are calls to post. */
  lemma ChangedIffPlanWithoutCommands(p: Params, store: map<string, Entry>)
    requires p.sudocmd.None?
    ensures Changed(p, store) <==> Plan(p, store) != []
  {
    if p.state == Present {
      var ls := [CommandList(p)];
      var e := Snapshot(store, p.name, GroupDict(p.description));
      AnyDiffersCons(e, ls);
      SlotCallsEmptyIff(p.name, e, ls);
    }
  }

  /**
   * With sudo commands given, adding a group whose commands are already what is asked
   * (here: none) posts the add but reports no change, because the membership result
   * overwrites the flag.
   */
  lemma CreationNotReported()
    ensures var p := Params("admins", Present, None, Some([]));
      Plan(p, map[]) != [] && !Changed(p, map[])
  {
    var p := Params("admins", Present, None, Some([]));
    var d := GroupDict(None);
    assert EntryOf(map[], "admins") == None;
    assert Plan(p, map[])[0] == AddEntry("sudocmdgroup_add", "admins", d);
    assert SetOf([]) == {};
    assert MembersOf(Snapshot(map[], "admins", d), MemberSudocmd) == {};
  }
}

/**
 * The reconciliation both IPA modules run against an entry: create it or modify the
 * attributes that differ (the first half of `ensure`), and bring each given member
 * list to the wanted set by removing and adding the set differences (`modify_if_diff`).
 *
 * Each step is a method on the client, and each is specified by the calls it posts;
 * the lemmas then say what those calls do to the server's store.
 */
module IpaReconcile {
  import opened Wrappers
  import opened IpaValues
  import opened IpaClient

  /** `set(s)`. */
  function SetOf(s: seq<string>): (r: set<string>)
    ensures forall x :: x in r <==> x in s
  {
    set x | x in s
  }

  // ---------------------------------------------------------------------------
  // One member list

  /**
   * The calls `modify_if_diff` posts outside check mode: the members to drop are
   * removed first, then the missing ones are added; an empty difference posts nothing.
   */
  function ReconcileCalls(name: string, slot: Slot, have: set<string>, want: set<string>): seq<Call>
  {
    (if have - want != {} then [RemoveMembers(slot, name, have - want)] else []) +
    (if want - have != {} then [AddMembers(slot, name, want - have)] else [])
  }

  /** Nothing is posted exactly when the sets agree, and only member calls for this list. */
  lemma ReconcileCallsShape(name: string, slot: Slot, have: set<string>, want: set<string>)
    ensures ReconcileCalls(name, slot, have, want) == [] <==> have == want
    ensures forall c :: c in ReconcileCalls(name, slot, have, want) ==>
              (c.AddMembers? || c.RemoveMembers?) && c.slot == slot && c.name == name
  {
    if have - want == {} && want - have == {} {
      forall x | x in have ensures x in want {
        assert x !in have - want;
      }
      forall x | x in want ensures x in have {
        assert x !in want - have;
      }
    }
  }

  /**
   * `store'` is `store` with the members `name` files under `a` replaced by `want`:
   * no other entry, no attribute and no other member list changes.
   */
  ghost predicate MembersReplaced(store: map<string, Entry>, store': map<string, Entry>, name: string,
                                  a: MemberAttr, want: set<string>)
  {
    name in store && store'.Keys == store.Keys &&
    (forall n :: n in store && n != name ==> store'[n] == store[n]) &&
    store'[name].attrs == store[name].attrs &&
    forall b :: MembersOf(store'[name], b) == if b == a then want else MembersOf(store[name], b)
  }

  /** Removing `have - want` and then adding `want - have` leaves exactly `want`. */
  lemma ReconcileConverges(store: map<string, Entry>, name: string, slot: Slot, want: set<string>)
    requires name in store
    ensures MembersReplaced(store, ApplyAll(store, ReconcileCalls(name, slot, MembersOf(store[name], slot.attr), want)),
                            name, slot.attr, want)
  {
    var have := MembersOf(store[name], slot.attr);
    var rm: seq<Call> := if have - want != {} then [RemoveMembers(slot, name, have - want)] else [];
    var add: seq<Call> := if want - have != {} then [AddMembers(slot, name, want - have)] else [];
    ApplyAllConcat(store, rm, add);
    var s1 := ApplyAll(store, rm);
    assert rm != [] ==> rm[1..] == [];
    assert add != [] ==> add[1..] == [];
    assert MembersReplaced(store, s1, name, slot.attr, have * want) by {
      if rm == [] {
        forall x | x in have ensures x in want {
          assert x !in have - want;
        }
        assert have * want == have;
        assert forall b :: MembersOf(store[name], b) == if b == slot.attr then have else MembersOf(store[name], b);
      }
    }
    assert (have * want) + (want - have) == want;
  }

  /** A member list as `ensure` receives it: where it goes, and its value (None when omitted). */
  type MemberList = (Slot, Option<seq<string>>)

  /** The calls one `if <list> is not None: modify_if_diff(...)` posts against the entry `e`. */
  function ListCalls(name: string, e: Entry, m: MemberList): seq<Call>
  {
    match m.1
    case None => []
    case Some(xs) => ReconcileCalls(name, m.0, MembersOf(e, m.0.attr), SetOf(xs))
  }

  /** The list is given and its set of names is not what `e` has: `modify_if_diff` returns true. */
  predicate ListDiffers(e: Entry, m: MemberList)
  {
    m.1.Some? && MembersOf(e, m.0.attr) != SetOf(m.1.value)
  }

  /** The calls the member lists post, in order, all against the same snapshot `e`. */
  function SlotCalls(name: string, e: Entry, ls: seq<MemberList>): seq<Call>
    decreases |ls|
  {
    if ls == [] then [] else ListCalls(name, e, ls[0]) + SlotCalls(name, e, ls[1..])
  }

  predicate AnyDiffers(e: Entry, ls: seq<MemberList>)
  {
    exists i :: 0 <= i < |ls| && ListDiffers(e, ls[i])
  }

  lemma AnyDiffersCons(e: Entry, ls: seq<MemberList>)
    requires ls != []
    ensures AnyDiffers(e, ls) <==> ListDiffers(e, ls[0]) || AnyDiffers(e, ls[1..])
  {
    if AnyDiffers(e, ls[1..]) {
      var i :| 0 <= i < |ls[1..]| && ListDiffers(e, ls[1..][i]);
      assert ListDiffers(e, ls[i + 1]);
    }
    if AnyDiffers(e, ls) {
      var i :| 0 <= i < |ls| && ListDiffers(e, ls[i]);
      if i > 0 {
        assert ls[1..][i - 1] == ls[i];
      }
    }
  }

  /** The calls actually posted: none in check mode. */
  function Posted(checkMode: bool, cs: seq<Call>): seq<Call>
  {
    if checkMode then [] else cs
  }

  /** Posting two batches in turn posts their concatenation. */
  lemma PostedConcat(checkMode: bool, before: seq<Call>, a: seq<Call>, b: seq<Call>)
    ensures before + Posted(checkMode, a) + Posted(checkMode, b) == before + Posted(checkMode, a + b)
  {
    if checkMode {
      assert before + [] + [] == before;
    } else {
      assert before + a + b == before + (a + b);
    }
  }

  /** Posting list `i`'s calls leaves the calls of the lists after it still to be posted. */
  lemma PostedStep(before: seq<Call>, after: seq<Call>, checkMode: bool, name: string, e: Entry,
                   ls: seq<MemberList>, i: nat)
    requires i < |ls| && after == before + Posted(checkMode, ListCalls(name, e, ls[i]))
    ensures after + Posted(checkMode, SlotCalls(name, e, ls[i + 1..])) ==
            before + Posted(checkMode, SlotCalls(name, e, ls[i..]))
  {
    assert ls[i..][0] == ls[i] && ls[i..][1..] == ls[i + 1..];
    assert SlotCalls(name, e, ls[i..]) == ListCalls(name, e, ls[i]) + SlotCalls(name, e, ls[i + 1..]);
    PostedConcat(checkMode, before, ListCalls(name, e, ls[i]), SlotCalls(name, e, ls[i + 1..]));
  }

  lemma AnyDiffersAt(e: Entry, ls: seq<MemberList>, i: nat)
    requires i < |ls|
    ensures AnyDiffers(e, ls[i..]) <==> ListDiffers(e, ls[i]) || AnyDiffers(e, ls[i + 1..])
  {
    AnyDiffersCons(e, ls[i..]);
    assert ls[i..][0] == ls[i] && ls[i..][1..] == ls[i + 1..];
  }

  /** No two lists file their members under the same attribute. */
  predicate DistinctAttrs(ls: seq<MemberList>)
  {
    forall i, j :: 0 <= i < j < |ls| ==> ls[i].0.attr != ls[j].0.attr
  }

  /** The set the first given list for `b` asks for; None when no given list files under `b`. */
  function Wanted(ls: seq<MemberList>, b: MemberAttr): Option<set<string>>
    decreases |ls|
  {
    if ls == [] then None
    else if ls[0].0.attr == b && ls[0].1.Some? then Some(SetOf(ls[0].1.value))
    else Wanted(ls[1..], b)
  }

  /** With distinct attributes, a given list is what is wanted under its attribute. */
  lemma {:induction false} WantedAt(ls: seq<MemberList>, i: nat)
    requires DistinctAttrs(ls) && i < |ls| && ls[i].1.Some?
    ensures Wanted(ls, ls[i].0.attr) == Some(SetOf(ls[i].1.value))
    decreases |ls|
  {
    if i > 0 {
      assert ls[0].0.attr != ls[i].0.attr;
      assert ls[1..][i - 1] == ls[i];
      WantedAt(ls[1..], i - 1);
    }
  }

  /** The member lists post nothing exactly when none of them differs from the snapshot. */
  lemma {:induction false} SlotCallsEmptyIff(name: string, e: Entry, ls: seq<MemberList>)
    ensures SlotCalls(name, e, ls) == [] <==> !AnyDiffers(e, ls)
    decreases |ls|
  {
    if ls != [] {
      SlotCallsEmptyIff(name, e, ls[1..]);
      if AnyDiffers(e, ls[1..]) {
        var i :| 0 <= i < |ls[1..]| && ListDiffers(e, ls[1..][i]);
        assert ListDiffers(e, ls[i + 1]);
      }
      if AnyDiffers(e, ls) {
        var i :| 0 <= i < |ls| && ListDiffers(e, ls[i]);
        if i > 0 {
          assert ls[1..][i - 1] == ls[i];
        }
      }
    }
  }

  /**
   * Posting the member lists' calls to a store whose entry has the snapshot's members
   * leaves every given list's set under its attribute and changes nothing else.
   */
  lemma {:induction false} SlotCallsConverge(store: map<string, Entry>, name: string, e: Entry, ls: seq<MemberList>)
    requires name in store && DistinctAttrs(ls)
    requires forall b :: MembersOf(store[name], b) == MembersOf(e, b)
    ensures var store' := ApplyAll(store, SlotCalls(name, e, ls));
      name in store' && store'.Keys == store.Keys &&
      (forall n :: n in store && n != name ==> store'[n] == store[n]) &&
      store'[name].attrs == store[name].attrs &&
      forall b :: MembersOf(store'[name], b) == if Wanted(ls, b).Some? then Wanted(ls, b).value else MembersOf(e, b)
    decreases |ls|
  {
    if ls != [] {
      var m := ls[0];
      ApplyAllConcat(store, ListCalls(name, e, m), SlotCalls(name, e, ls[1..]));
      var s1 := ApplyAll(store, ListCalls(name, e, m));
      var want := if m.1.Some? then SetOf(m.1.value) else MembersOf(e, m.0.attr);
      if m.1.Some? {
        ReconcileConverges(store, name, m.0, SetOf(m.1.value));
      }
      assert MembersReplaced(store, s1, name, m.0.attr, want);
      assert DistinctAttrs(ls[1..]) by {
        forall i, j | 0 <= i < j < |ls[1..]| ensures ls[1..][i].0.attr != ls[1..][j].0.attr {
          assert ls[1..][i] == ls[i + 1] && ls[1..][j] == ls[j + 1];
        }
      }
      // The later lists never file under m's attribute, so the snapshot's value there is irrelevant.
      var e1 := SetMembers(e, m.0.attr, want);
      assert forall b :: MembersOf(s1[name], b) == MembersOf(e1, b);
      assert SlotCalls(name, e, ls[1..]) == SlotCalls(name, e1, ls[1..]) by {
        SlotCallsIgnore(name, e, e1, ls[1..], m.0.attr);
      }
      SlotCallsConverge(s1, name, e1, ls[1..]);
      forall j | 0 <= j < |ls[1..]| ensures ls[1..][j].0.attr != m.0.attr {
        assert ls[1..][j] == ls[j + 1];
      }
      WantedNone(ls[1..], m.0.attr);
    }
  }

  /** No list files under `b`: nothing is wanted there. */
  lemma {:induction false} WantedNone(ls: seq<MemberList>, b: MemberAttr)
    requires forall j :: 0 <= j < |ls| ==> ls[j].0.attr != b
    ensures Wanted(ls, b) == None
    decreases |ls|
  {
    if ls != [] {
      assert ls[0].0.attr != b;
      forall j | 0 <= j < |ls[1..]| ensures ls[1..][j].0.attr != b {
        assert ls[1..][j] == ls[j + 1];
      }
      WantedNone(ls[1..], b);
    }
  }

  /** The lists' calls depend on the snapshot only under the attributes they file under. */
  lemma {:induction false} SlotCallsIgnore(name: string, e: Entry, e': Entry, ls: seq<MemberList>, a: MemberAttr)
    requires forall b :: b != a ==> MembersOf(e, b) == MembersOf(e', b)
    requires forall i :: 0 <= i < |ls| ==> ls[i].0.attr != a
    ensures SlotCalls(name, e, ls) == SlotCalls(name, e', ls)
    decreases |ls|
  {
    if ls != [] {
      assert ls[0].0.attr != a;
      forall i | 0 <= i < |ls[1..]| ensures ls[1..][i].0.attr != a {
        assert ls[1..][i] == ls[i + 1];
      }
      SlotCallsIgnore(name, e, e', ls[1..], a);
    }
  }

  /**
   * modify_if_diff: remove what the entry has and the list does not, add what the list
   * has and the entry does not, and report whether either difference was non-empty.
   * In check mode nothing is posted; the flag is the same.
   */
  method ModifyIfDiff(client: Client, name: string, have: set<string>, moduleList: seq<string>, slot: Slot,
                      checkMode: bool) returns (changed: bool)
    requires client.Valid()
    modifies client`entries, client`calls
    ensures client.Valid()
    ensures changed <==> have != SetOf(moduleList)
    ensures client.calls == old(client.calls) + Posted(checkMode, ReconcileCalls(name, slot, have, SetOf(moduleList)))
  {
    changed := false;
    var want := set x | x in moduleList;
    var diff := have - want;
    if |diff| > 0 {
      changed := true;
      if !checkMode {
        var _ := client.Post(RemoveMembers(slot, name, diff));
      }
    }
    diff := want - have;
    if |diff| > 0 {
      changed := true;
      if !checkMode {
        var _ := client.Post(AddMembers(slot, name, diff));
      }
    }
  }

  /**
   * `if <list> is not None: changed = modify_if_diff(...) or changed`, against the
   * snapshot `e`, which the lookup (or the add) returned whenever the list is given.
   */
  method ReconcileIfGiven(client: Client, name: string, snap: Option<Entry>, m: MemberList, changedIn: bool,
                          checkMode: bool, ghost e: Entry)
    returns (changed: bool)
    requires client.Valid()
    requires m.1.Some? ==> snap == Some(e)
    modifies client`entries, client`calls
    ensures client.Valid()
    ensures changed <==> ListDiffers(e, m) || changedIn
    ensures client.calls == old(client.calls) + Posted(checkMode, ListCalls(name, e, m))
  {
    changed := changedIn;
    if m.1.Some? {
      var c := ModifyIfDiff(client, name, MembersOf(snap.value, m.0.attr), m.1.value, m.0, checkMode);
      changed := c || changed;
    }
  }

  // ---------------------------------------------------------------------------
  // The entry's attributes

  /** `{key: module_dict.get(key) for key in keys}`, built in the order of `keys`. */
  function ModItem(keys: seq<string>, d: Dict): (r: Dict)
    requires forall k :: k in keys ==> k in Keys(d)
    ensures Keys(r) == keys
    ensures forall k :: Lookup(r, k) == if k in keys then Lookup(d, k) else None
    decreases |keys|
  {
    if keys == [] then []
    else
      var k := keys[|keys| - 1];
      var r0 := ModItem(keys[..|keys| - 1], d);
      assert keys == keys[..|keys| - 1] + [k];
      var r := r0 + [Attr(k, Lookup(d, k).value)];
      assert r[..|r| - 1] == r0;
      assert Keys(r) == Keys(r0) + [k];
      r
  }

  /** The loop that fills the modify request: `for key in diff: data[key] = module_dict.get(key)`. */
  method BuildModItem(diff: seq<string>, d: Dict) returns (data: Dict)
    requires forall k :: k in diff ==> k in Keys(d)
    ensures data == ModItem(diff, d)
  {
    data := [];
    var i := 0;
    while i < |diff|
      invariant 0 <= i <= |diff|
      invariant data == ModItem(diff[..i], d)
    {
      assert diff[..i + 1][..i] == diff[..i];
      data := data + [Attr(diff[i], Lookup(d, diff[i]).value)];
      i := i + 1;
    }
    assert diff[..|diff|] == diff;
  }

  /**
   * The call the first half of `ensure` posts outside check mode: add the entry with the
   * module dict when there is none, otherwise modify exactly the differing keys, with the
   * module's values; nothing when no key differs.
   */
  function AttrCalls(objType: string, name: string, start: Option<Entry>, d: Dict): (cs: seq<Call>)
    ensures |cs| <= 1
  {
    match start
    case None => [AddEntry(objType + "_add", name, d)]
    case Some(e) =>
      var diff := DiffKeys(e.attrs, d);
      if diff == [] then [] else [ModEntry(objType + "_mod", name, ModItem(diff, d))]
  }

  /**
   * The first half of `ensure`: given the entry `start` the lookup found, add the entry
   * when there is none, or modify the keys that differ. Reports a change exactly when
   * it would post something, check mode or not, and returns the entry the member lists
   * are then compared against: the lookup's, or the one the add returned.
   */
  method CreateOrModify(client: Client, objType: string, name: string, start: Option<Entry>, d: Dict, checkMode: bool)
    returns (changed: bool, snap: Option<Entry>)
    requires client.Valid()
    modifies client`entries, client`calls
    ensures client.Valid()
    ensures changed <==> AttrCalls(objType, name, start, d) != []
    ensures client.calls == old(client.calls) + Posted(checkMode, AttrCalls(objType, name, start, d))
    ensures snap == if start.Some? || checkMode then start else EntryOf(client.entries, name)
  {
    changed := false;
    snap := start;
    if start.None? {
      changed := true;
      if !checkMode {
        snap := client.Post(AddEntry(objType + "_add", name, d));
      }
    } else {
      var diff := GetDiff(start.value.attrs, d);
      if |diff| > 0 {
        changed := true;
        if !checkMode {
          var data := BuildModItem(diff, d);
          var _ := client.Post(ModEntry(objType + "_mod", name, data));
        }
      }
    }
  }

  /** A value never differs from itself. */
  lemma NotDiffersSelf(v: Value)
    ensures !Differs(Some(v), v)
  {
  }

  /** An entry created from the module dict agrees with it: the next diff is empty. */
  lemma AddedAgrees(d: Dict)
    requires DistinctKeys(d)
    ensures DiffKeys(AttrMap(d), d) == []
  {
    forall i | 0 <= i < |d| ensures !Differs(Get(AttrMap(d), d[i].key), d[i].value) {
      LookupDistinct(d, i);
    }
    DiffKeysEmpty(AttrMap(d), d);
  }

  /** Merging the modify request into the attributes makes the next diff empty. */
  lemma ModifiedAgrees(attrs: map<string, Value>, d: Dict)
    requires DistinctKeys(d)
    ensures DiffKeys(attrs + AttrMap(ModItem(DiffKeys(attrs, d), d)), d) == []
  {
    var diff := DiffKeys(attrs, d);
    var attrs' := attrs + AttrMap(ModItem(diff, d));
    forall i | 0 <= i < |d| ensures !Differs(Get(attrs', d[i].key), d[i].value) {
      var k := d[i].key;
      LookupDistinct(d, i);
      DiffKeysReported(attrs, d, k);
      if k !in diff {
        assert Get(attrs', k) == Get(attrs, k);
      }
    }
    DiffKeysEmpty(attrs', d);
  }

  /**
   * After the attribute call, the entry exists and its attributes agree with the module
   * dict (the next diff is empty); its members are those it had, none when it was new,
   * and no other entry changes.
   */
  lemma AttrCallsConverge(store: map<string, Entry>, objType: string, name: string, d: Dict)
    requires DistinctKeys(d)
    ensures var store' := ApplyAll(store, AttrCalls(objType, name, EntryOf(store, name), d));
      name in store' && store'.Keys == store.Keys + {name} &&
      (forall n :: n in store && n != name ==> store'[n] == store[n]) &&
      DiffKeys(store'[name].attrs, d) == [] &&
      (name in store ==> store'[name].members == store[name].members) &&
      (name !in store ==> store'[name] == Entry(AttrMap(d), map[]))
  {
    var cs := AttrCalls(objType, name, EntryOf(store, name), d);
    if cs != [] {
      assert cs == [cs[0]];
      ApplyAllOne(store, cs[0]);
    }
    if name !in store {
      AddedAgrees(d);
    } else if cs != [] {
      ModifiedAgrees(store[name].attrs, d);
    }
  }

  /** When nothing differs, every key of the module dict has an agreeing IPA value. */
  lemma AgreedKey(attrs: map<string, Value>, d: Dict, k: string)
    requires DistinctKeys(d) && DiffKeys(attrs, d) == [] && Lookup(d, k).Some?
    ensures Get(attrs, k).Some? && !Differs(Get(attrs, k), Lookup(d, k).value)
  {
    var i :| 0 <= i < |d| && Keys(d)[i] == k;
    LookupDistinct(d, i);
    DiffKeysEmpty(attrs, d);
  }

  // ---------------------------------------------------------------------------
  // The present branch of `ensure`, as one plan

  /** The entry the member lists are compared against outside check mode. */
  function Snapshot(store: map<string, Entry>, name: string, d: Dict): (e: Entry)
    ensures name !in store ==> e.members == map[]
  {
    if name in store then store[name] else Entry(AttrMap(d), map[])
  }

  /** Every call of the present branch, outside check mode. */
  function PresentCalls(objType: string, name: string, store: map<string, Entry>, d: Dict, ls: seq<MemberList>): seq<Call>
  {
    AttrCalls(objType, name, EntryOf(store, name), d) + SlotCalls(name, Snapshot(store, name, d), ls)
  }

  /**
   * The present branch converges: the entry exists, its attributes agree with the module
   * dict, every given list's set is what it files under, every other member list is as
   * before (empty for a new entry), and no other entry changes.
   */
  lemma PresentConverges(objType: string, name: string, store: map<string, Entry>, d: Dict, ls: seq<MemberList>)
    requires DistinctKeys(d) && DistinctAttrs(ls)
    ensures var store' := ApplyAll(store, PresentCalls(objType, name, store, d, ls));
      name in store' && store'.Keys == store.Keys + {name} &&
      (forall n :: n in store && n != name ==> store'[n] == store[n]) &&
      DiffKeys(store'[name].attrs, d) == [] &&
      forall b :: MembersOf(store'[name], b) ==
                   if Wanted(ls, b).Some? then Wanted(ls, b).value else MembersOf(Snapshot(store, name, d), b)
  {
    var e := Snapshot(store, name, d);
    var a := AttrCalls(objType, name, EntryOf(store, name), d);
    ApplyAllConcat(store, a, SlotCalls(name, e, ls));
    AttrCallsConverge(store, objType, name, d);
    var s1 := ApplyAll(store, a);
    assert forall b :: MembersOf(s1[name], b) == MembersOf(e, b);
    SlotCallsConverge(s1, name, e, ls);
  }

  /** After the present branch every given list's members are exactly the names given. */
  lemma PresentSetsGiven(objType: string, name: string, store: map<string, Entry>, d: Dict, ls: seq<MemberList>, i: nat,
                         slot: Slot, xs: seq<string>)
    requires DistinctKeys(d) && DistinctAttrs(ls) && i < |ls| && ls[i] == (slot, Some(xs))
    ensures var store' := ApplyAll(store, PresentCalls(objType, name, store, d, ls));
      name in store' && MembersOf(store'[name], slot.attr) == SetOf(xs)
  {
    PresentConverges(objType, name, store, d, ls);
    WantedAt(ls, i);
  }

  /** Running the present branch again on the store it produced posts nothing. */
  lemma PresentIdempotent(objType: string, name: string, store: map<string, Entry>, d: Dict, ls: seq<MemberList>)
    requires DistinctKeys(d) && DistinctAttrs(ls)
    ensures var store' := ApplyAll(store, PresentCalls(objType, name, store, d, ls));
      PresentCalls(objType, name, store', d, ls) == []
  {
    var store' := ApplyAll(store, PresentCalls(objType, name, store, d, ls));
    PresentConverges(objType, name, store, d, ls);
    var e' := Snapshot(store', name, d);
    forall i | 0 <= i < |ls| ensures !ListDiffers(e', ls[i]) {
      if ls[i].1.Some? {
        WantedAt(ls, i);
      }
    }
    SlotCallsEmptyIff(name, e', ls);
  }
}

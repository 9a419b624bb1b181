/**
 * Attribute values of FreeIPA entries, the attribute dicts the IPA modules build, and
 * the comparison `get_hbcarule_diff` and `get_sudocmdgroup_diff` apply between them.
 *
 * A Python dict is modelled as the sequence of its key/value pairs. The model fixes
 * insertion order as the order `dict.keys()` walks; the modules' dicts do not promise
 * one, and the order shows only in the diff list and in the modify request, itself a dict.
 */
module IpaValues {
  import opened Wrappers
  import opened Sequences

  /** An attribute value: IPA returns most attributes as lists, the modules build strings. */
  datatype Value = Scalar(s: string) | Items(xs: seq<string>)

  /** One key/value pair of a dict. */
  datatype Attr = Attr(key: string, value: Value)

  type Dict = seq<Attr>

  function Keys(d: Dict): (ks: seq<string>)
    ensures |ks| == |d|
    ensures forall i :: 0 <= i < |d| ==> ks[i] == d[i].key
  {
    seq(|d|, i requires 0 <= i < |d| => d[i].key)
  }

  /** Python dict keys are unique. */
  ghost predicate DistinctKeys(d: Dict)
  {
    forall i, j :: 0 <= i < j < |d| ==> d[i].key != d[j].key
  }

  /** `d.get(k)`: the value last stored under `k`, or None. */
  function Lookup(d: Dict, k: string): (r: Option<Value>)
    ensures r.Some? <==> k in Keys(d)
  {
    if d == [] then None
    else if d[|d| - 1].key == k then Some(d[|d| - 1].value)
    else
      assert Keys(d) == Keys(d[..|d| - 1]) + [d[|d| - 1].key];
      Lookup(d[..|d| - 1], k)
  }

  lemma {:induction false} LookupDistinct(d: Dict, i: nat)
    requires DistinctKeys(d) && i < |d|
    ensures Lookup(d, d[i].key) == Some(d[i].value)
  {
    if i < |d| - 1 {
      LookupDistinct(d[..|d| - 1], i);
    }
  }

  /** Entries added later override earlier ones. */
  lemma {:induction false} LookupConcat(a: Dict, b: Dict, k: string)
    ensures Lookup(a + b, k) == if k in Keys(b) then Lookup(b, k) else Lookup(a, k)
    decreases |b|
  {
    if b == [] {
      assert a + b == a;
    } else {
      var b0 := b[..|b| - 1];
      assert (a + b)[..|a + b| - 1] == a + b0;
      assert Keys(b) == Keys(b0) + [b[|b| - 1].key];
      LookupConcat(a, b0, k);
    }
  }

  /** The value a dict holds for an optional argument: the argument itself, when given. */
  function Given(v: Option<string>): Option<Value>
  {
    if v.Some? then Some(Scalar(v.value)) else None
  }

  /** An optional argument and the key it is stored under. */
  type Arg = (string, Option<string>)

  predicate DistinctArgKeys(args: seq<Arg>)
  {
    forall i, j :: 0 <= i < j < |args| ==> args[i].0 != args[j].0
  }

  /**
   * The dict the `get_*_dict` builders return: `data = {}`, then, argument by argument,
   * `if v is not None: data[k] = v`.
   */
  function DictOf(args: seq<Arg>): (d: Dict)
    ensures forall k :: k in Keys(d) ==> exists i :: 0 <= i < |args| && args[i].0 == k
    decreases |args|
  {
    if args == [] then []
    else
      var a := args[|args| - 1];
      var d0 := DictOf(args[..|args| - 1]);
      var d := d0 + (if a.1.Some? then [Attr(a.0, Scalar(a.1.value))] else []);
      assert Keys(d) == Keys(d0) + (if a.1.Some? then [a.0] else []);
      assert forall k :: k in Keys(d0) ==> exists i :: 0 <= i < |args| && args[i].0 == k by {
        forall k | k in Keys(d0) ensures exists i :: 0 <= i < |args| && args[i].0 == k {
          var i :| 0 <= i < |args| - 1 && args[..|args| - 1][i].0 == k;
          assert args[i].0 == k;
        }
      }
      d
  }

  /** Dropping the last argument keeps the keys distinct. */
  lemma DistinctArgKeysInit(args: seq<Arg>)
    requires DistinctArgKeys(args) && args != []
    ensures DistinctArgKeys(args[..|args| - 1])
  {
    var init := args[..|args| - 1];
    forall x, y | 0 <= x < y < |init| ensures init[x].0 != init[y].0 {
      assert init[x] == args[x] && init[y] == args[y];
    }
  }

  /** The last argument's key is not among the keys the earlier arguments stored. */
  lemma LastKeyFresh(args: seq<Arg>)
    requires DistinctArgKeys(args) && args != []
    ensures args[|args| - 1].0 !in Keys(DictOf(args[..|args| - 1]))
  {
  }


  /** Each given argument is stored under its key, unchanged; an omitted one is absent. */
  lemma {:induction false} DictOfLookup(args: seq<Arg>, i: nat)
    requires DistinctArgKeys(args) && i < |args|
    ensures Lookup(DictOf(args), args[i].0) == Given(args[i].1)
    decreases |args|
  {
    var n := |args|;
    var a := args[n - 1];
    var init := args[..n - 1];
    var d0 := DictOf(init);
    var tail: Dict := if a.1.Some? then [Attr(a.0, Scalar(a.1.value))] else [];
    assert DictOf(args) == d0 + tail;
    LookupConcat(d0, tail, args[i].0);
    if i < n - 1 {
      assert init[i] == args[i];
      assert args[i].0 != a.0;
      DistinctArgKeysInit(args);
      DictOfLookup(init, i);
    } else {
      LastKeyFresh(args);
    }
  }

  /** Distinct argument keys give a dict with distinct keys. */
  lemma {:induction false} DictOfDistinct(args: seq<Arg>)
    requires DistinctArgKeys(args)
    ensures DistinctKeys(DictOf(args))
    decreases |args|
  {
    if args != [] {
      var n := |args|;
      var init := args[..n - 1];
      DistinctArgKeysInit(args);
      DictOfDistinct(init);
      LastKeyFresh(args);
      var d0 := DictOf(init);
      var d := DictOf(args);
      forall x, y | 0 <= x < y < |d| ensures d[x].key != d[y].key {
        if y == |d0| {
          assert Keys(d0)[x] == d0[x].key;
        } else {
          assert d[x] == d0[x] && d[y] == d0[y];
        }
      }
    }
  }

  /** The map a server makes of a dict it receives: the last value given for a key wins. */
  function AttrMap(d: Dict): (m: map<string, Value>)
    ensures forall k :: k in m <==> Lookup(d, k).Some?
    ensures forall k :: k in m ==> Lookup(d, k) == Some(m[k])
  {
    if d == [] then map[]
    else AttrMap(d[..|d| - 1])[d[|d| - 1].key := d[|d| - 1].value]
  }

  /** `ipa.get(k, None)` on an entry's attributes. */
  function Get(ipa: map<string, Value>, k: string): Option<Value>
  {
    if k in ipa then Some(ipa[k]) else None
  }

  // ---------------------------------------------------------------------------
  // Python's ordering of strings and `sorted`

  /** Python's `a <= b` on str: lexicographic by code point. */
  predicate Le(a: string, b: string)
  {
    |a| == 0 || (|b| > 0 && (a[0] < b[0] || (a[0] == b[0] && Le(a[1..], b[1..]))))
  }

  lemma {:induction false} LeReflexive(a: string)
    ensures Le(a, a)
  {
    if |a| > 0 {
      LeReflexive(a[1..]);
    }
  }

  lemma {:induction false} LeTotal(a: string, b: string)
    ensures Le(a, b) || Le(b, a)
  {
    if |a| > 0 && |b| > 0 && a[0] == b[0] {
      LeTotal(a[1..], b[1..]);
    }
  }

  lemma {:induction false} LeAntisymmetric(a: string, b: string)
    requires Le(a, b) && Le(b, a)
    ensures a == b
  {
    if |a| > 0 && |b| > 0 {
      LeAntisymmetric(a[1..], b[1..]);
      assert a == [a[0]] + a[1..] && b == [b[0]] + b[1..];
    }
  }

  lemma {:induction false} LeTransitive(a: string, b: string, c: string)
    requires Le(a, b) && Le(b, c)
    ensures Le(a, c)
  {
    if |a| > 0 && a[0] == b[0] && b[0] == c[0] {
      LeTransitive(a[1..], b[1..], c[1..]);
    }
  }

  ghost predicate Sorted(s: seq<string>)
  {
    forall i, j :: 0 <= i < j < |s| ==> Le(s[i], s[j])
  }

  /** Insertion of `x` before the first element it is `<=` to. */
  function Insert(x: string, s: seq<string>): (r: seq<string>)
    ensures multiset(r) == multiset(s) + multiset{x}
  {
    if s == [] || Le(x, s[0]) then [x] + s
    else
      assert s == [s[0]] + s[1..];
      [s[0]] + Insert(x, s[1..])
  }

  /** Python's `sorted` on a list of strings (insertion sort). */
  function Sort(s: seq<string>): (r: seq<string>)
    ensures multiset(r) == multiset(s)
  {
    if s == [] then []
    else
      assert s == [s[0]] + s[1..];
      Insert(s[0], Sort(s[1..]))
  }

  lemma {:induction false} InsertSorted(x: string, s: seq<string>)
    requires Sorted(s)
    ensures Sorted(Insert(x, s))
  {
    if s == [] || Le(x, s[0]) {
      var r := [x] + s;
      forall i, j | 0 <= i < j < |r| ensures Le(r[i], r[j]) {
        if i == 0 {
          if j > 1 {
            LeTransitive(x, s[0], s[j - 1]);
          }
        }
      }
    } else {
      LeTotal(x, s[0]);
      InsertSorted(x, s[1..]);
      var t := Insert(x, s[1..]);
      forall j | 0 <= j < |t| ensures Le(s[0], t[j]) {
        assert t[j] in multiset(t);
        if t[j] != x {
          assert t[j] in multiset(s[1..]);
          var k :| 0 <= k < |s[1..]| && s[1..][k] == t[j];
          assert s[k + 1] == t[j];
        }
      }
      var r := [s[0]] + t;
      forall i, j | 0 <= i < j < |r| ensures Le(r[i], r[j]) {
        if i > 0 {
          assert r[i] == t[i - 1] && r[j] == t[j - 1];
        }
      }
    }
  }

  lemma {:induction false} SortSorted(s: seq<string>)
    ensures Sorted(Sort(s))
  {
    if s != [] {
      SortSorted(s[1..]);
      InsertSorted(s[0], Sort(s[1..]));
    }
  }

  /** The head of a sorted list is `<=` every element of it. */
  lemma HeadIsLeast(a: seq<string>, x: string)
    requires Sorted(a) && x in multiset(a)
    ensures Le(a[0], x)
  {
    var i :| 0 <= i < |a| && a[i] == x;
    if i == 0 { LeReflexive(x); }
  }

  /** Two sorted lists with the same elements are the same list. */
  lemma {:induction false} SortedUnique(a: seq<string>, b: seq<string>)
    requires Sorted(a) && Sorted(b) && multiset(a) == multiset(b)
    ensures a == b
  {
    if a == [] {
      assert |b| == |multiset(b)| == 0;
    } else {
      assert |b| == |multiset(b)| == |multiset(a)| == |a|;
      HeadIsLeast(a, b[0]);
      HeadIsLeast(b, a[0]);
      LeAntisymmetric(a[0], b[0]);
      assert a == [a[0]] + a[1..];
      assert b == [b[0]] + b[1..];
      assert multiset(a[1..]) == multiset(a) - multiset{a[0]};
      assert multiset(b[1..]) == multiset(b) - multiset{b[0]};
      SortedUnique(a[1..], b[1..]);
    }
  }

  /** Comparing sorted copies is comparing the lists as multisets: order does not matter. */
  lemma SortedEqualIffSameElements(a: seq<string>, b: seq<string>)
    ensures Sort(a) == Sort(b) <==> multiset(a) == multiset(b)
  {
    SortSorted(a);
    SortSorted(b);
    if multiset(a) == multiset(b) {
      SortedUnique(Sort(a), Sort(b));
    }
  }

  // ---------------------------------------------------------------------------
  // The attribute diff

  /** The list a module value is compared as when the IPA value is a list. */
  function AsList(m: Value): seq<string>
  {
    match m
    case Scalar(s) => [s]
    case Items(xs) => xs
  }

  /**
   * The key is reported: the IPA value (None when the attribute is absent) and the
   * module value compare unequal, where lists compare by their elements regardless
   * of order and a module scalar counts as the one-element list when IPA has a list.
   */
  predicate Differs(ipa: Option<Value>, m: Value)
  {
    match ipa
    case None => true
    case Some(Items(xs)) => multiset(xs) != multiset(AsList(m))
    case Some(Scalar(s)) => m != Scalar(s)
  }

  /** The keys of `d`, in `d`'s order, whose values differ from the IPA entry's. */
  function DiffKeys(ipa: map<string, Value>, d: Dict): (r: seq<string>)
    ensures forall k :: k in r ==> k in Keys(d)
  {
    if d == [] then []
    else
      var last := d[|d| - 1];
      assert Keys(d) == Keys(d[..|d| - 1]) + [last.key];
      DiffKeys(ipa, d[..|d| - 1]) + (if Differs(Get(ipa, last.key), last.value) then [last.key] else [])
  }

  /**
   * get_hbcarule_diff / get_sudocmdgroup_diff: walk the module dict, wrap a scalar
   * module value when IPA holds a list, sort both lists, and report the keys whose
   * values are unequal.
   */
  method GetDiff(ipa: map<string, Value>, d: Dict) returns (data: seq<string>)
    ensures data == DiffKeys(ipa, d)
  {
    data := [];
    var i := 0;
    while i < |d|
      invariant 0 <= i <= |d|
      invariant data == DiffKeys(ipa, d[..i])
    {
      var key := d[i].key;
      var moduleValue := d[i].value;
      var ipaValue := Get(ipa, key);
      ghost var differs := Differs(ipaValue, moduleValue);
      assert d[..i + 1][..i] == d[..i] && d[..i + 1][i] == d[i];
      assert DiffKeys(ipa, d[..i + 1]) == DiffKeys(ipa, d[..i]) + (if differs then [key] else []);
      if ipaValue.Some? && ipaValue.value.Items? && !moduleValue.Items? {
        moduleValue := Items([moduleValue.s]);
      }
      if ipaValue.Some? && ipaValue.value.Items? && moduleValue.Items? {
        SortedEqualIffSameElements(ipaValue.value.xs, moduleValue.xs);
        ipaValue := Some(Items(Sort(ipaValue.value.xs)));
        moduleValue := Items(Sort(moduleValue.xs));
      }
      assert ipaValue != Some(moduleValue) <==> differs;
      if ipaValue != Some(moduleValue) {
        data := data + [key];
      }
      i := i + 1;
    }
    assert d[..|d|] == d;
  }

  /** A key is reported exactly when the module dict has it and its values differ. */
  lemma {:induction false} DiffKeysReported(ipa: map<string, Value>, d: Dict, k: string)
    ensures k in DiffKeys(ipa, d) <==> exists i :: 0 <= i < |d| && d[i].key == k && Differs(Get(ipa, k), d[i].value)
  {
    if d != [] {
      var init := d[..|d| - 1];
      DiffKeysReported(ipa, init, k);
      if k in DiffKeys(ipa, d) && k !in DiffKeys(ipa, init) {
        assert d[|d| - 1].key == k;
      }
      if exists i :: 0 <= i < |d| && d[i].key == k && Differs(Get(ipa, k), d[i].value) {
        var i :| 0 <= i < |d| && d[i].key == k && Differs(Get(ipa, k), d[i].value);
        if i < |d| - 1 {
          assert init[i] == d[i];
        }
      }
    }
  }

  /** Each key is reported at most once. */
  lemma {:induction false} DiffKeysNoDuplicates(ipa: map<string, Value>, d: Dict)
    requires DistinctKeys(d)
    ensures forall i, j :: 0 <= i < j < |DiffKeys(ipa, d)| ==> DiffKeys(ipa, d)[i] != DiffKeys(ipa, d)[j]
  {
    if d != [] {
      var init := d[..|d| - 1];
      var last := d[|d| - 1];
      DiffKeysNoDuplicates(ipa, init);
      var r := DiffKeys(ipa, d);
      var r0 := DiffKeys(ipa, init);
      forall i, j | 0 <= i < j < |r| ensures r[i] != r[j] {
        if j == |r0| {
          assert r[i] == r0[i] && r[j] == last.key;
          assert r0[i] in r0;
          DiffKeysReported(ipa, init, r0[i]);
        } else {
          assert r[i] == r0[i] && r[j] == r0[j];
        }
      }
    }
  }

  /** The reported keys come in the module dict's key order. */
  lemma {:induction false} DiffKeysInOrder(ipa: map<string, Value>, d: Dict)
    ensures IsSubsequence(DiffKeys(ipa, d), Keys(d))
  {
    if d != [] {
      var init := d[..|d| - 1];
      var last := d[|d| - 1];
      DiffKeysInOrder(ipa, init);
      assert Keys(d) == Keys(init) + [last.key];
      assert Keys(d)[..|d| - 1] == Keys(init);
      if Differs(Get(ipa, last.key), last.value) {
        assert DiffKeys(ipa, d)[..|DiffKeys(ipa, d)| - 1] == DiffKeys(ipa, init);
      } else {
        assert DiffKeys(ipa, d) == DiffKeys(ipa, init);
        SubsequenceExtend(DiffKeys(ipa, init), Keys(init), last.key);
      }
    }
  }

  /** Attributes that only the IPA entry has neither appear in nor affect the diff. */
  lemma {:induction false} DiffKeysIgnoresIpaOnlyKeys(ipa: map<string, Value>, ipa': map<string, Value>, d: Dict)
    requires forall i :: 0 <= i < |d| ==> Get(ipa, d[i].key) == Get(ipa', d[i].key)
    ensures DiffKeys(ipa, d) == DiffKeys(ipa', d)
  {
    if d != [] {
      DiffKeysIgnoresIpaOnlyKeys(ipa, ipa', d[..|d| - 1]);
    }
  }

  /** The diff is empty exactly when no key of the module dict differs. */
  lemma DiffKeysEmpty(ipa: map<string, Value>, d: Dict)
    ensures DiffKeys(ipa, d) == [] <==> forall i :: 0 <= i < |d| ==> !Differs(Get(ipa, d[i].key), d[i].value)
  {
    if DiffKeys(ipa, d) != [] {
      var k := DiffKeys(ipa, d)[0];
      DiffKeysReported(ipa, d, k);
    }
    forall i | 0 <= i < |d| && Differs(Get(ipa, d[i].key), d[i].value) ensures DiffKeys(ipa, d) != [] {
      DiffKeysReported(ipa, d, d[i].key);
    }
  }
}

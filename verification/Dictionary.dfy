// The sorted dictionary over the growing array (kernel/Containers/Dictionary.hpp).
module Dictionary {
  import opened DynArray

  datatype Tuple<V> = Tuple(key: int, value: V)

  ghost predicate Sorted<V>(s: seq<Tuple<V>>) {
    forall i, j :: 0 <= i < j < |s| ==> s[i].key < s[j].key
  }

  // --- The map that a sorted sequence stands for ---

  ghost function MapOf<V>(s: seq<Tuple<V>>): map<int, V> {
    if s == [] then map[] else MapOf(s[..|s| - 1])[s[|s| - 1].key := s[|s| - 1].value]
  }

  ghost predicate HasKey<V>(s: seq<Tuple<V>>, key: int) {
    exists i :: 0 <= i < |s| && s[i].key == key
  }

  lemma {:induction false} MapOfKeys<V>(s: seq<Tuple<V>>, key: int)
    ensures key in MapOf(s) <==> HasKey(s, key)
  {
    if s != [] {
      MapOfKeys(s[..|s| - 1], key);
      assert HasKey(s[..|s| - 1], key) ==> HasKey(s, key);
    }
  }

  lemma {:induction false} MapOfConcat<V>(s: seq<Tuple<V>>, t: seq<Tuple<V>>)
    ensures MapOf(s + t) == MapOf(s) + MapOf(t)
  {
    if t == [] {
      assert s + t == s;
    } else {
      assert (s + t)[..|s + t| - 1] == s + t[..|t| - 1];
      MapOfConcat(s, t[..|t| - 1]);
    }
  }

  lemma {:induction false} MapOfOne<V>(t: Tuple<V>)
    ensures MapOf([t]) == map[t.key := t.value]
  {
    assert [t][..0] == [];
  }

  // Looking at a position reads the map.
  lemma {:induction false} MapOfAt<V>(s: seq<Tuple<V>>, i: nat)
    requires Sorted(s) && i < |s|
    ensures s[i].key in MapOf(s) && MapOf(s)[s[i].key] == s[i].value
  {
    hide MapOf;
    assert s == s[..i] + [s[i]] + s[i + 1..];
    MapOfConcat(s[..i] + [s[i]], s[i + 1..]);
    MapOfConcat(s[..i], [s[i]]);
    MapOfOne(s[i]);
    MapOfKeys(s[i + 1..], s[i].key);
  }

  // Putting a tuple where its key belongs updates the map.
  lemma {:induction false} MapOfInsert<V>(s: seq<Tuple<V>>, p: nat, t: Tuple<V>)
    requires Sorted(s) && p <= |s|
    requires forall i :: 0 <= i < p ==> s[i].key < t.key
    requires forall i :: p <= i < |s| ==> t.key < s[i].key
    ensures Sorted(s[..p] + [t] + s[p..])
    ensures MapOf(s[..p] + [t] + s[p..]) == MapOf(s)[t.key := t.value]
  {
    hide MapOf;
    assert s == s[..p] + s[p..];
    MapOfConcat(s[..p], s[p..]);
    MapOfConcat(s[..p] + [t], s[p..]);
    MapOfConcat(s[..p], [t]);
    MapOfOne(t);
    MapOfKeys(s[p..], t.key);
  }

  lemma {:induction false} MapOfRemove<V>(s: seq<Tuple<V>>, p: nat)
    requires Sorted(s) && p < |s|
    ensures Sorted(s[..p] + s[p + 1..])
    ensures MapOf(s[..p] + s[p + 1..]) == MapOf(s) - {s[p].key}
  {
    hide MapOf;
    assert s == s[..p] + [s[p]] + s[p + 1..];
    MapOfConcat(s[..p] + [s[p]], s[p + 1..]);
    MapOfConcat(s[..p], [s[p]]);
    MapOfConcat(s[..p], s[p + 1..]);
    MapOfOne(s[p]);
    MapOfKeys(s[..p], s[p].key);
    MapOfKeys(s[p + 1..], s[p].key);
  }

  lemma {:induction false} MapOfReplace<V>(s: seq<Tuple<V>>, p: nat, v: V)
    requires Sorted(s) && p < |s|
    ensures Sorted(s[p := Tuple(s[p].key, v)])
    ensures MapOf(s[p := Tuple(s[p].key, v)]) == MapOf(s)[s[p].key := v]
  {
    hide MapOf;
    var t, r := Tuple(s[p].key, v), s[..p] + s[p + 1..];
    MapOfRemove(s, p);
    assert r[..p] == s[..p] && r[p..] == s[p + 1..];
    assert s[p := t] == r[..p] + [t] + r[p..];
    forall i | 0 <= i < |r|
      ensures i < p ==> r[i].key < t.key
      ensures i >= p ==> t.key < r[i].key
    {
      assert r[i] == if i < p then s[i] else s[i + 1];
    }
    MapOfInsert(r, p, t);
    assert MapOf(s)[t.key := v] == (MapOf(s) - {t.key})[t.key := v];
  }

  // --- The search ---

  // Miss(at) leaves the position `at` unexamined; Fault is an access through
  // the index that underflowed.
  datatype Outcome = Hit(index: nat) | Miss(at: nat) | Fault

  // The loop of FindTuple and Insert. The end is exclusive at first, and the
  // last candidate itself after a step to the left.
  function Search<V>(s: seq<Tuple<V>>, key: int, start: nat, end: nat): Outcome
    requires end <= |s|
    decreases end - start
  {
    if start >= end then Miss(start)
    else
      var index := (start + end) / 2;
      if key < s[index].key then if index == 0 then Fault else Search(s, key, start, index - 1)
      else if s[index].key < key then Search(s, key, index + 1, end)
      else Hit(index)
  }

  lemma SearchStep<V>(s: seq<Tuple<V>>, key: int, start: nat, end: nat)
    requires end <= |s|
    ensures start >= end ==> Search(s, key, start, end) == Miss(start)
    ensures start < end ==>
      var index := (start + end) / 2;
      && (key < s[index].key && index == 0 ==> Search(s, key, start, end) == Fault)
      && (key < s[index].key && index > 0 ==> Search(s, key, start, end) == Search(s, key, start, index - 1))
      && (s[index].key < key ==> Search(s, key, start, end) == Search(s, key, index + 1, end))
      && (s[index].key == key ==> Search(s, key, start, end) == Hit(index))
  {
  }

  // Everything in front of `start` is smaller and everything behind `end`
  // larger.
  ghost predicate Narrowed<V>(s: seq<Tuple<V>>, key: int, start: nat, end: nat) {
    && start <= end + 1 && start <= |s| && end <= |s|
    && (forall j :: 0 <= j < start ==> s[j].key < key)
    && (forall j :: end < j < |s| ==> key < s[j].key)
    && (start == end + 1 ==> forall j :: start <= j < |s| ==> key < s[j].key)
  }

  ghost predicate Meaning<V>(s: seq<Tuple<V>>, key: int, outcome: Outcome) {
    match outcome
    case Hit(index) => index < |s| && s[index].key == key
    case Miss(at) =>
      at <= |s| && (forall j :: 0 <= j < at ==> s[j].key < key) && forall j :: at < j < |s| ==> key < s[j].key
    case Fault => s != [] && key < s[0].key
  }

  lemma {:induction false} NarrowedStep<V>(s: seq<Tuple<V>>, key: int, start: nat, index: nat, end: nat)
    requires Sorted(s) && Narrowed(s, key, start, end) && start <= index < end
    ensures s[index].key < key ==> Narrowed(s, key, index + 1, end)
    ensures key < s[index].key && index > 0 ==> Narrowed(s, key, start, index - 1)
  {
  }

  // The last look of the search.
  lemma {:induction false} SearchStops<V>(s: seq<Tuple<V>>, key: int, start: nat, end: nat)
    requires Sorted(s) && Narrowed(s, key, start, end)
    requires start < end ==> s[(start + end) / 2].key == key || (key < s[0].key && (start + end) / 2 == 0)
    ensures Meaning(s, key, Search(s, key, start, end))
  {
  }

  lemma {:induction false} SearchCorrect<V>(s: seq<Tuple<V>>, key: int, start: nat, end: nat)
    requires Sorted(s) && Narrowed(s, key, start, end)
    ensures Meaning(s, key, Search(s, key, start, end))
    decreases end - start
  {
    hide Sorted, Meaning;
    var index := (start + end) / 2;
    if start < end {
      NarrowedStep(s, key, start, index, end);
    }
    if start < end && key < s[index].key && index > 0 {
      SearchCorrect(s, key, start, index - 1);
    } else if start < end && s[index].key < key {
      SearchCorrect(s, key, index + 1, end);
    } else {
      SearchStops(s, key, start, end);
    }
  }

  // m in binary begins with 11.
  predicate LeadingOnes(m: nat) {
    m == 3 || (m > 3 && LeadingOnes(m / 2))
  }

  function Power(k: nat): nat {
    if k == 0 then 1 else 2 * Power(k - 1)
  }

  predicate InBand(m: nat, k: nat) {
    3 * Power(k) <= m < 4 * Power(k)
  }

  lemma {:induction false} LeadingOnesIff(m: nat)
    ensures LeadingOnes(m) <==> exists k: nat :: InBand(m, k)
  {
    if m > 3 {
      LeadingOnesIff(m / 2);
      if LeadingOnes(m / 2) {
        var k: nat :| InBand(m / 2, k);
        assert InBand(m, k + 1);
      }
      forall k: nat | InBand(m, k)
        ensures LeadingOnes(m)
      {
        assert k > 0;
        assert InBand(m / 2, k - 1);
      }
    } else if m == 3 {
      assert InBand(3, 0);
    } else {
      forall k: nat
        ensures !InBand(m, k)
      {
        PowerPositive(k);
      }
    }
  }

  lemma {:induction false} PowerPositive(k: nat)
    ensures Power(k) >= 1
  {
    if k > 0 {
      PowerPositive(k - 1);
    }
  }

  // Going left all the way halves end + 2 in each step, and underflows
  // exactly when it arrives at 3.
  lemma {:induction false} LeftmostFaults<V>(s: seq<Tuple<V>>, key: int, end: nat)
    requires Sorted(s) && s != [] && key < s[0].key && end <= |s|
    ensures Search(s, key, 0, end) == if LeadingOnes(end + 2) then Fault else Miss(0)
    decreases end
  {
    if end > 0 {
      var index := end / 2;
      assert s[index].key >= s[0].key;
      if index > 0 {
        LeftmostFaults(s, key, index - 1);
        assert index - 1 + 2 == (end + 2) / 2;
      }
    }
  }

  // The search goes astray exactly for a key below the smallest one, at the
  // sizes n for which n + 2 begins with the binary digits 11.
  lemma {:induction false} FaultIff<V>(s: seq<Tuple<V>>, key: int)
    requires Sorted(s)
    ensures Search(s, key, 0, |s|).Fault? <==> s != [] && key < s[0].key && LeadingOnes(|s| + 2)
  {
    SearchCorrect(s, key, 0, |s|);
    if s != [] && key < s[0].key {
      LeftmostFaults(s, key, |s|);
    }
  }

  // The positions that the loop examines on its way to position p. The end is
  // exclusive, and a step to the left gives up one candidate too many.
  predicate Examined(start: nat, end: nat, p: nat)
    decreases end - start
  {
    start < end &&
    var index := (start + end) / 2;
    if p < index then Examined(start, index - 1, p) else p == index || Examined(index + 1, end, p)
  }

  lemma {:induction false} HitIffExamined<V>(s: seq<Tuple<V>>, p: nat, start: nat, end: nat)
    requires Sorted(s) && p < |s| && end <= |s|
    ensures Search(s, s[p].key, start, end).Hit? <==> Examined(start, end, p)
    decreases end - start
  {
    if start < end {
      var index := (start + end) / 2;
      if p < index {
        HitIffExamined(s, p, start, index - 1);
      } else if p > index {
        HitIffExamined(s, p, index + 1, end);
      }
    }
  }

  // At every size from 2 on, the position in front of the middle is missed.
  lemma {:induction false} BehindEndMissed(start: nat, end: nat, p: nat)
    requires p >= end
    ensures !Examined(start, end, p)
    decreases end - start
  {
    if start < end {
      BehindEndMissed((start + end) / 2 + 1, end, p);
    }
  }

  lemma {:induction false} MissedInFrontOfMiddle(size: nat)
    requires size >= 2
    ensures !Examined(0, size, size / 2 - 1)
  {
    BehindEndMissed(0, size / 2 - 1, size / 2 - 1);
  }

  // What FindTuple concludes from the search.
  lemma {:induction false} SearchFinds<V>(s: seq<Tuple<V>>, key: int)
    requires Sorted(s)
    ensures
      match Search(s, key, 0, |s|)
      case Hit(index) => index < |s| && s[index].key == key && key in MapOf(s) && MapOf(s)[key] == s[index].value
      case Miss(at) =>
        at <= |s| &&
        if at < |s| && s[at].key == key then key in MapOf(s) && MapOf(s)[key] == s[at].value else key !in MapOf(s)
      case Fault => s != [] && key < s[0].key && LeadingOnes(|s| + 2)
  {
    FaultIff(s, key);
    SearchCorrect(s, key, 0, |s|);
    MapOfKeys(s, key);
    match Search(s, key, 0, |s|) {
      case Hit(index) => MapOfAt(s, index);
      case Miss(at) => if at < |s| { MapOfAt(s, at); }
      case Fault =>
    }
  }

  // The search hits, or the key is missing, exactly if the key is at no
  // position that is not examined.
  lemma {:induction false} HitsExamined<V>(s: seq<Tuple<V>>, key: int)
    requires Sorted(s)
    ensures key !in MapOf(s) || Search(s, key, 0, |s|).Hit? <==>
            forall p :: 0 <= p < |s| && s[p].key == key ==> Examined(0, |s|, p)
  {
    MapOfKeys(s, key);
    forall p | 0 <= p < |s| && s[p].key == key
      ensures Search(s, key, 0, |s|).Hit? <==> Examined(0, |s|, p)
    {
      HitIffExamined(s, p, 0, |s|);
    }
  }

  function Place<V>(s: seq<Tuple<V>>, key: int, at: nat): (p: nat)
    requires at <= |s|
    ensures p <= |s|
  {
    if at >= |s| || key < s[at].key then at else at + 1
  }

  // What Insert makes of a search that did not hit.
  lemma {:induction false} MissInserts<V>(s: seq<Tuple<V>>, key: int, value: V)
    requires Sorted(s) && Search(s, key, 0, |s|).Miss?
    ensures
      var at := Search(s, key, 0, |s|).at;
      at <= |s| &&
      var p := Place(s, key, at);
      var after := s[..p] + [Tuple(key, value)] + s[p..];
      if key in MapOf(s) then !Sorted(after) else Sorted(after) && MapOf(after) == MapOf(s)[key := value]
  {
    SearchCorrect(s, key, 0, |s|);
    MapOfKeys(s, key);
    var at := Search(s, key, 0, |s|).at;
    var p := Place(s, key, at);
    var after := s[..p] + [Tuple(key, value)] + s[p..];
    if key in MapOf(s) {
      assert s[at].key == key && after[at] == s[at] && after[p].key == key;
    } else {
      MapOfInsert(s, p, Tuple(key, value));
    }
  }

  // --- The dictionary ---

  class Dictionary<V(0, ==)> {
    const keys: Array<Tuple<V>>
    const default: V

    ghost predicate Valid()
      reads this, keys, keys.data
    {
      keys.Valid() && Sorted(keys.Contents())
    }

    ghost function Map(): map<int, V>
      reads this, keys, keys.data
      requires Valid()
    {
      MapOf(keys.Contents())
    }

    constructor (default: V)
      ensures Valid() && Map() == map[] && this.default == default
    {
      keys := new Array<Tuple<V>>();
      this.default := default;
    }

    // The caller's part: the search does not run off to the left.
    ghost predicate InReach(key: int)
      reads this, keys, keys.data
      requires Valid()
    {
      var s := keys.Contents();
      s != [] && key < s[0].key ==> !LeadingOnes(|s| + 2)
    }

    method FindTuple(key: int) returns (found: bool, index: nat)
      requires Valid() && InReach(key) && keys.size <= 0x8000_0000
      ensures found <==> key in Map()
      ensures found ==> index < keys.size && keys.Contents()[index] == Tuple(key, Map()[key])
    {
      hide MapOf, Sorted, LeadingOnes, HasKey, Search;
      ghost var s := keys.Contents();
      SearchFinds(s, key);
      if keys.size == 0 {
        return false, 0;
      }
      var start: nat, end: nat := 0, keys.size;
      while start != end && start < end
        invariant end <= |s| && Search(s, key, start, end) == Search(s, key, 0, |s|)
        decreases end - start
      {
        SearchStep(s, key, start, end);
        index := (start + end) / 2;
        if key < keys.Get(index).key {
          end := index - 1;
        } else if keys.Get(index).key < key {
          start := index + 1;
        } else {
          return true, index;
        }
      }
      SearchStep(s, key, start, end);
      if start < keys.size && key == keys.Get(start).key {
        return true, start;
      }
      found, index := false, 0;
    }

    // A key that the loop does not examine is inserted again even if it is
    // there.
    method Insert(key: int, value: V) returns (index: nat)
      requires Valid() && InReach(key) && keys.size < 0x8000_0000
      modifies keys, keys.data
      ensures keys.Valid() && index < keys.size && keys.Contents()[index] == Tuple(key, value)
      ensures keys.data == old(keys.data) || fresh(keys.data)
      ensures Valid() <==>
        forall p :: 0 <= p < old(keys.size) && old(keys.Contents()[p].key) == key ==> Examined(0, old(keys.size), p)
      ensures Valid() ==> Map() == old(Map())[key := value]
    {
      hide MapOf, Sorted, LeadingOnes, HasKey, Search, Examined;
      ghost var s := keys.Contents();
      SearchFinds(s, key);
      HitsExamined(s, key);
      if Search(s, key, 0, |s|).Miss? {
        MissInserts(s, key, value);
      }
      if keys.size == 0 {
        keys.PushBack(Tuple(key, value));
        assert keys.Contents() == s[..0] + [Tuple(key, value)] + s[0..];
        return 0;
      }
      var start: nat, end: nat := 0, keys.size;
      while start != end && start < end
        invariant end <= |s| && Search(s, key, start, end) == Search(s, key, 0, |s|)
        invariant unchanged(keys) && unchanged(keys.data)
        decreases end - start
      {
        SearchStep(s, key, start, end);
        index := (start + end) / 2;
        if key < keys.Get(index).key {
          end := index - 1;
        } else if key == keys.Get(index).key {
          MapOfReplace(s, index, value);
          keys.data[index] := Tuple(key, value);
          assert keys.Contents() == s[index := Tuple(key, value)];
          return;
        } else {
          start := index + 1;
        }
      }
      SearchStep(s, key, start, end);
      if start >= keys.size || key < keys.Get(start).key {
        index := start;
      } else {
        index := start + 1;
      }
      keys.InsertAt(index, Tuple(key, value));
    }

    // operator[]: the position of the key, which is inserted if it is missing.
    method Index(key: int) returns (index: nat)
      requires Valid() && InReach(key) && keys.size < 0x8000_0000
      modifies keys, keys.data
      ensures Valid() && (keys.data == old(keys.data) || fresh(keys.data))
      ensures Map() == if key in old(Map()) then old(Map()) else old(Map())[key := default]
      ensures index < keys.size && keys.Contents()[index] == Tuple(key, Map()[key])
    {
      hide MapOf, Sorted, Search;
      var found;
      found, index := FindTuple(key);
      if !found {
        MapOfKeys(keys.Contents(), key);
        index := Insert(key, default);
      }
    }

    // dictionary[key] = value
    method Assign(key: int, value: V)
      requires Valid() && InReach(key) && keys.size < 0x8000_0000
      modifies keys, keys.data
      ensures Valid() && Map() == old(Map())[key := value]
    {
      hide MapOf, Sorted, Search;
      var index := Index(key);
      ghost var s := keys.Contents();
      MapOfReplace(s, index, value);
      keys.data[index] := Tuple(key, value);
      assert keys.Contents() == s[index := Tuple(key, value)];
      assert old(Map())[key := default][key := value] == old(Map())[key := value];
    }

    method RemoveKey(key: int)
      requires Valid() && InReach(key) && keys.size <= 0x8000_0000
      modifies keys, keys.data
      ensures Valid() && Map() == old(Map()) - {key}
    {
      hide MapOf, Sorted, Search;
      var found, index := FindTuple(key);
      if found {
        MapOfRemove(keys.Contents(), index);
        keys.RemoveAt(index);
      } else {
        assert Map() - {key} == Map();
      }
    }
  }

  // With the keys 1 and 3, inserting 1 once more doubles it.
  lemma DoubledKey(v: int)
    ensures Search([Tuple(1, v), Tuple(3, v)], 1, 0, 2) == Miss(0)
    ensures Place([Tuple(1, v), Tuple(3, v)], 1, 0) == 1
  {
  }
}

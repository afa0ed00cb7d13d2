// The doubly linked list (kernel/Containers/List.hpp), on nodes.
//
// A deleted node stays in the model as an object outside `nodes`, so a stale
// pointer to it can be told from null.
module LinkedList {
  import opened Sequences

  class Item<T> {
    const data: T
    var prev: Item?<T>
    var next: Item?<T>

    constructor (arg: T)
      ensures data == arg && prev == null && next == null
    {
      data, prev, next := arg, null, null;
    }
  }

  function Values<T>(nodes: seq<Item<T>>): (values: seq<T>)
    ensures |values| == |nodes| && forall i :: 0 <= i < |nodes| ==> values[i] == nodes[i].data
  {
    seq(|nodes|, i requires 0 <= i < |nodes| => nodes[i].data)
  }

  // All elements but those equal to x, in their order.
  function Without<T(==)>(s: seq<T>, x: T): seq<T> {
    if s == [] then []
    else if s[|s| - 1] == x then Without(s[..|s| - 1], x)
    else Without(s[..|s| - 1], x) + [s[|s| - 1]]
  }

  lemma {:induction false} WithoutMultiset<T>(s: seq<T>, x: T)
    ensures multiset(Without(s, x)) == multiset(s)[x := 0]
    ensures x !in Without(s, x)
  {
    if s != [] {
      WithoutMultiset(s[..|s| - 1], x);
      assert s == s[..|s| - 1] + [s[|s| - 1]];
    }
  }

  lemma {:induction false} WithoutConcat<T>(s: seq<T>, t: seq<T>, x: T)
    ensures Without(s + t, x) == Without(s, x) + Without(t, x)
  {
    if t == [] {
      assert s + t == s;
    } else {
      assert (s + t)[..|s + t| - 1] == s + t[..|t| - 1];
      WithoutConcat(s, t[..|t| - 1], x);
    }
  }

  lemma ValuesWithout<T>(nodes: seq<Item<T>>, k: nat)
    requires k < |nodes|
    ensures Values(nodes[..k] + nodes[k + 1..]) == Values(nodes)[..k] + Values(nodes)[k + 1..]
  {
  }

  lemma ValuesWith<T>(nodes: seq<Item<T>>, k: nat, item: Item<T>)
    requires k <= |nodes|
    ensures Values(nodes[..k] + [item] + nodes[k..]) == Values(nodes)[..k] + [item.data] + Values(nodes)[k..]
    ensures Values([item] + nodes) == [item.data] + Values(nodes)
  {
  }

  // The list while Remove is at position `done`.
  function Filtered<T(==)>(s: seq<T>, done: nat, x: T): seq<T>
    requires done <= |s|
  {
    Without(s[..done], x) + s[done..]
  }

  function Kept<T(==)>(s: seq<T>, done: nat, x: T): nat
    requires done <= |s|
  {
    |Without(s[..done], x)|
  }

  lemma FilteredEnds<T>(s: seq<T>, x: T)
    ensures Filtered(s, 0, x) == s && Filtered(s, |s|, x) == Without(s, x) && Kept(s, 0, x) == 0
  {
    assert s[..|s|] == s;
  }

  lemma {:induction false} FilteredStep<T>(s: seq<T>, done: nat, x: T)
    requires done < |s|
    ensures
      var all, k := Filtered(s, done, x), Kept(s, done, x);
      && |all| == k + |s| - done && all[k] == s[done]
      && Filtered(s, done + 1, x) == (if s[done] == x then all[..k] + all[k + 1..] else all)
      && Kept(s, done + 1, x) == (if s[done] == x then k else k + 1)
  {
    assert s[..done + 1][..done] == s[..done];
  }

  function At<T>(nodes: seq<Item<T>>, i: int): Item?<T> {
    if 0 <= i < |nodes| then nodes[i] else null
  }

  class List<T(==)> {
    var head: Item?<T>
    var tail: Item?<T>
    var size: nat
    ghost var nodes: seq<Item<T>>
    // The nodes that the list ever had.
    ghost var footprint: set<Item<T>>

    ghost predicate NextAt(k: nat)
      reads this, At(nodes, k)
      requires k < |nodes|
    {
      nodes[k].next == At(nodes, k + 1)
    }

    // The node is the head or points back to its predecessor.
    ghost predicate BackAt(k: nat)
      reads this, At(nodes, k)
      requires k < |nodes|
    {
      k == 0 || nodes[k].prev == nodes[k - 1]
    }

    // head, tail, size and the forward links.
    ghost predicate Forward()
      reads this, footprint
    {
      && NoDuplicates(nodes)
      && (forall item :: item in nodes ==> item in footprint)
      && size == |nodes|
      && head == At(nodes, 0)
      && tail == At(nodes, |nodes| - 1)
      && (forall k: nat {:trigger NextAt(k)} :: k < |nodes| ==> NextAt(k))
    }

    ghost predicate OwnedAt(item: Item<T>)
      reads this, item
    {
      item.prev != null ==> item.prev in footprint
    }

    // Back links lead to nodes that the list has or had, or nowhere.
    ghost predicate Owned()
      reads this, footprint
    {
      forall item {:trigger OwnedAt(item)} :: item in footprint ==> OwnedAt(item)
    }

    // Every node but the head points back; the head's own link may be stale.
    ghost predicate Backward()
      requires Forward()
      reads this, footprint
    {
      forall k: nat {:trigger BackAt(k)} :: k < |nodes| ==> BackAt(k)
    }

    // The back link leads neither to the node itself nor further down the list.
    ghost predicate StraightAt(k: nat)
      reads this, At(nodes, k)
      requires k < |nodes|
    {
      forall j :: k <= j < |nodes| ==> nodes[k].prev != nodes[j]
    }

    ghost predicate Straight()
      requires Forward()
      reads this, footprint
    {
      forall k: nat {:trigger StraightAt(k)} :: k < |nodes| ==> StraightAt(k)
    }

    ghost predicate Linked()
      reads this, footprint
    {
      Forward() && Owned() && Straight()
    }

    ghost predicate Valid()
      reads this, footprint
    {
      Linked() && Backward()
    }

    // Of several occurrences in a row the first one counts.
    ghost predicate FirstOf(arg: T, k: nat, j: nat)
      reads this
      requires k <= j < |nodes|
    {
      nodes[j].data == arg && (j > k ==> nodes[j - 1].data != arg)
    }

    // From node k on, Remove reaches no occurrence with a wrong back link.
    ghost predicate RemovableFrom(arg: T, k: nat)
      reads this, footprint
      requires Forward()
    {
      forall j: nat {:trigger FirstOf(arg, k, j)} :: k <= j < |nodes| && FirstOf(arg, k, j) ==> BackAt(j)
    }

    ghost predicate Removable(arg: T)
      reads this, footprint
      requires Forward()
    {
      RemovableFrom(arg, 0)
    }

    ghost function Contents(): seq<T>
      reads this
    {
      Values(nodes)
    }

    ghost function HeadLink(): Item?<T>
      reads this, head
    {
      if head == null then null else head.prev
    }

    lemma Node(k: nat)
      requires Forward() && k < |nodes|
      ensures nodes[k] in footprint && nodes[k].next == At(nodes, k + 1)
      ensures size == |nodes| && head == nodes[0] && tail == nodes[|nodes| - 1]
      ensures forall i :: 0 <= i < |nodes| && i != k ==> nodes[i] != nodes[k]
    {
      assert NextAt(k);
      Unique(nodes, k);
    }

    lemma Ends()
      requires Forward()
      ensures size == |nodes| && head == At(nodes, 0) && tail == At(nodes, |nodes| - 1)
      ensures head != null ==> Contents() != [] && head.data == Contents()[0]
      ensures forall item :: item in nodes ==> item in footprint
    {
    }

    lemma Onwards(k: nat)
      requires Forward()
      ensures Onward(k)
    {
    }

    lemma BackLink(k: nat)
      requires Linked() && k < |nodes|
      ensures nodes[k].prev != null ==> nodes[k].prev in footprint
      ensures forall j :: k <= j < |nodes| ==> nodes[k].prev != nodes[j]
    {
      assert OwnedAt(nodes[k]) && StraightAt(k);
    }

    // The links after an insertion at k.
    twostate predicate Grew(new item: Item<T>, k: nat)
      reads this, footprint
    {
      && k <= |old(nodes)| && item !in old(footprint)
      && nodes == old(nodes)[..k] + [item] + old(nodes)[k..] && footprint == old(footprint) + {item}
      && size == |nodes| && head == nodes[0] && tail == nodes[|nodes| - 1]
      && item.next == At(old(nodes), k) && (item.prev == null || (k > 0 && item.prev == old(nodes)[k - 1]))
      && (forall it :: it in old(footprint) ==>
            && it.next == (if k > 0 && it == old(nodes)[k - 1] then item else old(it.next))
            && (it.prev == old(it.prev) || (it == At(old(nodes), k) && it.prev == item)))
    }

    twostate lemma Grown(new item: Item<T>, k: nat)
      requires old(Linked()) && Grew(item, k)
      ensures Linked()
      ensures Contents() == old(Contents())[..k] + [item.data] + old(Contents())[k..]
    {
      hide NoDuplicates, BackAt, StraightAt;
      ValuesWith(old(nodes), k, item);
      NoDuplicatesWith(old(nodes), k, item);
      if k > 0 {
        Unique(old(nodes), k - 1);
      }
      forall i: nat | i < |nodes| ensures NextAt(i) {
        assert if i < k then old(NextAt(i)) else i > k ==> old(NextAt(i - 1));
      }
      forall it | it in footprint ensures OwnedAt(it) {
        assert it in old(footprint) ==> old(OwnedAt(it));
      }
      GrownStraight(item, k);
    }

    twostate lemma GrownStraight(new item: Item<T>, k: nat)
      requires old(Linked()) && Grew(item, k) && Forward()
      ensures Straight()
    {
      hide NoDuplicates, BackAt, NextAt;
      if k > 0 {
        Unique(old(nodes), k - 1);
      }
      if k < |old(nodes)| {
        Unique(old(nodes), k);
      }
      forall i: nat | i < |nodes| ensures StraightAt(i) {
        if i < k {
          assert old(StraightAt(i)) && old(OwnedAt(nodes[i]));
        } else if i > k {
          assert old(StraightAt(i - 1));
          Unique(nodes, k);
        }
      }
    }

    twostate lemma GrownBackward(new item: Item<T>, k: nat)
      requires old(Valid()) && Grew(item, k) && Forward()
      ensures Backward() <==> (k > 0 ==> item.prev == nodes[k - 1]) && (k + 1 < |nodes| ==> nodes[k + 1].prev == item)
    {
      hide NoDuplicates, NextAt, OwnedAt, StraightAt;
      if k < |old(nodes)| {
        Unique(old(nodes), k);
      }
      forall i: nat | i < |nodes| && i != k && i != k + 1 ensures BackAt(i) {
        assert if i < k then old(BackAt(i)) else old(BackAt(i - 1));
      }
      assert BackAt(k) <==> k > 0 ==> item.prev == nodes[k - 1];
      assert k + 1 < |nodes| ==> (BackAt(k + 1) <==> nodes[k + 1].prev == item);
    }

    // The links after a right removal at k.
    twostate predicate Shrank(k: nat)
      reads this, footprint
    {
      && k < |old(nodes)|
      && nodes == old(nodes)[..k] + old(nodes)[k + 1..] && footprint == old(footprint)
      && size == |nodes| && head == At(nodes, 0) && tail == At(nodes, |nodes| - 1)
      && (forall it :: it in footprint ==>
            && it.next == (if k > 0 && it == old(nodes)[k - 1] then At(nodes, k) else old(it.next))
            && it.prev == (if 0 < k < |nodes| && it == nodes[k] then nodes[k - 1] else old(it.prev)))
    }

    twostate lemma Shrunk(k: nat)
      requires old(Linked()) && Shrank(k)
      ensures Linked()
      ensures Contents() == old(Contents())[..k] + old(Contents())[k + 1..]
      ensures old(Backward()) ==> Backward()
    {
      hide NoDuplicates, StraightAt, BackAt;
      NoDuplicatesWithout(old(nodes), k);
      if k > 0 {
        Unique(old(nodes), k - 1);
      }
      forall i: nat | i < |nodes| ensures NextAt(i) {
        assert if i < k then old(NextAt(i)) else old(NextAt(i + 1));
      }
      if 0 < k < |nodes| {
        assert nodes[k - 1] == old(nodes)[k - 1];
      }
      forall it | it in footprint ensures OwnedAt(it) {
        assert old(OwnedAt(it));
      }
      ShrunkStraight(k);
      ShrunkBackward(k);
    }

    twostate lemma ShrunkBackward(k: nat)
      requires old(Linked()) && Shrank(k) && Forward()
      ensures old(Backward()) ==> Backward()
    {
      hide NoDuplicates, NextAt, OwnedAt, StraightAt;
      if 0 < k < |nodes| {
        Unique(nodes, k);
      }
      forall i: nat | i < |nodes| && old(Backward()) ensures BackAt(i) {
        assert if i < k then old(BackAt(i)) else old(BackAt(i + 1));
      }
    }

    twostate lemma ShrunkStraight(k: nat)
      requires old(Linked()) && Shrank(k) && Forward()
      ensures Straight()
    {
      hide NoDuplicates, BackAt, NextAt, OwnedAt;
      if 0 < k < |nodes| {
        Unique(nodes, k);
        Unique(nodes, k - 1);
      }
      forall i: nat | i < |nodes| ensures StraightAt(i) {
        assert if i < k then old(StraightAt(i)) else old(StraightAt(i + 1));
      }
    }

    // From node k on the forward links are right.
    ghost predicate Onward(k: nat)
      reads this, footprint
    {
      && (forall item :: item in nodes ==> item in footprint)
      && forall i: nat {:trigger NextAt(i)} :: k <= i < |nodes| ==> NextAt(i)
    }

    constructor ()
      ensures Valid() && nodes == [] && footprint == {}
    {
      head, tail, size := null, null, 0;
      nodes, footprint := [], {};
    }

    method PushBack(arg: T)
      requires Linked()
      modifies this, footprint
      ensures Linked() && Contents() == old(Contents()) + [arg]
      ensures fresh(footprint - old(footprint)) && |nodes| > 0 && nodes[..|nodes| - 1] == old(nodes)
      ensures nodes[|nodes| - 1].prev == At(old(nodes), |nodes| - 2)
      ensures HeadLink() == old(HeadLink()) && (old(head) != null ==> head == old(head))
      ensures forall item :: item in old(footprint) ==> item.prev == old(item.prev)
      ensures old(Backward()) ==> Backward()
    {
      hide Values, NoDuplicates, Forward, Owned, Straight, Backward;
      Ends();
      ghost var k := |nodes|;
      if k > 0 {
        Node(k - 1);
      }
      var item := new Item(arg);
      if head == null {
        head, tail := item, item;
      } else {
        tail.next := item;
        item.prev := tail;
        tail := item;
      }
      size := size + 1;
      nodes := nodes + [item];
      footprint := footprint + {item};
      assert nodes == old(nodes)[..k] + [item] + old(nodes)[k..];
      Grown(item, k);
      if old(Backward()) {
        GrownBackward(item, k);
      }
      assert old(Contents())[..k] + [arg] + old(Contents())[k..] == old(Contents()) + [arg];
    }

    method PopFront() returns (obj: T)
      requires Linked() && nodes != []
      modifies this
      ensures Linked() && nodes == old(nodes[1..]) && footprint == old(footprint)
      ensures [obj] + Contents() == old(Contents())
      ensures old(Backward()) ==> Backward()
    {
      hide Forward, Owned, Straight, Backward;
      Node(0);
      obj := head.data;
      var item := head;
      head := head.next;
      if tail == item {
        tail := null;
      }
      size := size - 1;
      nodes := nodes[1..];
      assert nodes == old(nodes)[..0] + old(nodes)[1..];
      Shrunk(0);
    }

    // Where a node stands decides the branch that removes it.
    lemma Branches(k: nat)
      requires Forward() && k < |nodes|
      ensures (nodes[k] == head <==> k == 0) && (nodes[k] == tail <==> k == |nodes| - 1)
    {
    }

    // Node k of `before` is gone, and `next` has taken its place.
    ghost predicate Removed(before: seq<Item<T>>, k: nat, next: Item?<T>)
      reads this, footprint
      requires k < |before|
    {
      && Linked() && nodes == before[..k] + before[k + 1..] && next == At(nodes, k)
      && (0 < k < |nodes| ==> nodes[k].prev == nodes[k - 1])
    }

    // Right exactly for the head and for a node that points back to its
    // predecessor. Otherwise a null pointer is dereferenced, which is reported
    // as a fault, or the links are cut through a stale one.
    method RemoveAt(itr: Item<T>, ghost k: nat) returns (next: Item?<T>, fault: bool)
      requires Linked() && k < |nodes| && nodes[k] == itr
      modifies this, footprint
      ensures old(BackAt(k)) <==> !fault && Forward()
      ensures old(BackAt(k)) ==> Removed(old(nodes), k, next)
      ensures !fault ==> Contents() == old(Contents())[..k] + old(Contents())[k + 1..]
      ensures !fault ==> nodes == old(nodes)[..k] + old(nodes)[k + 1..] && next == At(nodes, k) && Onward(k)
      ensures footprint == old(footprint)
      ensures forall item :: item in footprint && item != next ==> item.prev == old(item.prev)
      ensures k == 0 && next != null ==> next.prev == old(next.prev)
      ensures fault <==> k > 0 && old(itr.prev) == null
      ensures old(Backward() && BackAt(k)) ==> Forward() && Backward()
    {
      hide Values, Forward, Owned, Straight, Backward;
      Branches(k);
      if itr == head {
        next := RemoveHead();
        fault := false;
      } else if itr == tail {
        next, fault := RemoveTail(k);
      } else {
        var ptr := Search(itr, k);
        next, fault := Unlink(ptr, k);
      }
    }

    method Search(itr: Item<T>, ghost k: nat) returns (ptr: Item<T>)
      requires Forward() && k < |nodes| && nodes[k] == itr
      ensures ptr == itr
    {
      hide NoDuplicates;
      ptr := head;
      ghost var i := 0;
      while itr != ptr
        invariant 0 <= i <= k && ptr == nodes[i]
        decreases k - i
      {
        assert NextAt(i);
        ptr := ptr.next;
        i := i + 1;
      }
    }

    // The three branches of RemoveAt.
    method RemoveHead() returns (next: Item?<T>)
      requires Linked() && nodes != []
      modifies this
      ensures Removed(old(nodes), 0, next) && footprint == old(footprint) && Onward(0)
      ensures Contents() == old(Contents())[1..]
      ensures old(Backward()) ==> Forward() && Backward()
    {
      hide Values, Forward, Owned, Straight, Backward;
      Node(0);
      if tail == head {
        tail := null;
      }
      head := head.next;
      size := size - 1;
      next := head;
      nodes := nodes[1..];
      assert nodes == old(nodes)[..0] + old(nodes)[1..];
      Shrunk(0);
      Onwards(0);
    }

    method RemoveTail(ghost k: nat) returns (next: Item?<T>, fault: bool)
      requires Linked() && 0 < k == |nodes| - 1
      modifies this, footprint
      ensures old(BackAt(k)) <==> !fault && Forward()
      ensures old(BackAt(k)) ==> Removed(old(nodes), k, next)
      ensures !fault ==> Contents() == old(Contents())[..k] + old(Contents())[k + 1..]
      ensures !fault ==> nodes == old(nodes)[..k] + old(nodes)[k + 1..] && next == At(nodes, k) && Onward(k)
      ensures footprint == old(footprint) && next == null && (fault <==> old(nodes[k].prev) == null)
      ensures forall item :: item in footprint ==> item.prev == old(item.prev)
      ensures old(Backward() && BackAt(k)) ==> Forward() && Backward()
    {
      hide Values, Forward, Owned, Straight, Backward;
      Ends();
      Node(k);
      Node(k - 1);
      BackLink(k);
      next := null;
      var prev := tail.prev;
      if prev == null {
        return null, true;
      }
      prev.next := null;
      tail := prev;
      size := size - 1;
      nodes := nodes[..k];
      fault := false;
      assert nodes == old(nodes)[..k] + old(nodes)[k + 1..] && nodes[k - 1] == old(nodes[k - 1]);
      if prev == nodes[k - 1] {
        Shrunk(k);
      } else {
        ValuesWithout(old(nodes), k);
        if Forward() {
          Node(k - 1);
        }
      }
    }

    method Unlink(ptr: Item<T>, ghost k: nat) returns (next: Item<T>, fault: bool)
      requires Linked() && 0 < k < |nodes| - 1 && nodes[k] == ptr
      modifies this, footprint
      ensures old(BackAt(k)) <==> !fault && Forward()
      ensures old(BackAt(k)) ==> Removed(old(nodes), k, next)
      ensures !fault ==> Contents() == old(Contents())[..k] + old(Contents())[k + 1..]
      ensures !fault ==> nodes == old(nodes)[..k] + old(nodes)[k + 1..] && next == At(nodes, k) && Onward(k)
      ensures footprint == old(footprint) && (fault <==> old(ptr.prev) == null)
      ensures forall item :: item in footprint && item != next ==> item.prev == old(item.prev)
      ensures old(Backward() && BackAt(k)) ==> Forward() && Backward()
    {
      hide Values, Forward, Owned, Straight, Backward;
      Node(k - 1);
      Node(k);
      Node(k + 1);
      BackLink(k);
      Onwards(k);
      next := ptr.next;
      if ptr.prev == null {
        return next, true;
      }
      ptr.prev.next := next;
      next.prev := ptr.prev;
      size := size - 1;
      nodes := nodes[..k] + nodes[k + 1..];
      fault := false;
      forall i: nat | k <= i < |nodes| ensures nodes[i] in footprint && NextAt(i) {
        assert old(NextAt(i + 1));
      }
      assert nodes[k - 1] == old(nodes[k - 1]) && nodes[k] == next;
      if ptr.prev == nodes[k - 1] {
        Shrunk(k);
      } else {
        ValuesWithout(old(nodes), k);
        if Forward() {
          Node(k - 1);
        }
      }
    }

    // For data that occurs at most once: right exactly if it is absent, at the
    // head, or in a node that points back to its predecessor.
    method Remove(arg: T) returns (fault: bool)
      requires Linked() && (Removable(arg) || NoDuplicates(Contents()))
      modifies this, footprint
      ensures old(Removable(arg)) <==> !fault && Forward()
      ensures !fault ==> Contents() == Without(old(Contents()), arg)
      ensures old(Removable(arg)) ==> Linked()
      ensures old(Removable(arg) && (head == null || head.data != arg)) ==>
        head == old(head) && HeadLink() == old(HeadLink())
      ensures old(NoDuplicates(Contents())) ==> (fault <==> old(Unlinked(arg)))
      ensures old(Removable(arg) && Backward()) ==> Backward()
      ensures footprint == old(footprint)
    {
      hide Without, Values, Filtered, Kept, Forward, Owned, Straight, Backward, RemovableFrom, NoDuplicates, Onward, Unlinked;
      Ends();
      var itr := head;
      ghost var done, s, k, broken := 0, Contents(), 0, false;
      FilteredEnds(s, arg);
      while itr != null
        invariant footprint == old(footprint) && done <= |s| && k == Kept(s, done, arg)
        invariant Contents() == Filtered(s, done, arg) && |nodes| == k + |s| - done && itr == At(nodes, k)
        invariant broken ==> !old(Removable(arg)) && !Forward() && Onward(k) && Absent(arg, k) && !old(Unlinked(arg))
        invariant !broken ==> Linked() && (old(Removable(arg)) <==> RemovableFrom(arg, k))
        invariant !broken && NoDuplicates(s) ==> NoDuplicates(Contents()) && (Unlinked(arg) <==> old(Unlinked(arg)))
        invariant !broken && old(Backward()) ==> Backward()
        invariant old(head) == null ==> itr == head == null
        invariant !broken && old(head != null && head.data != arg) ==>
          head == old(head) && head.prev == old(head.prev) && (done > 0 ==> k > 0)
        decreases |s| - done
      {
        FilteredStep(s, done, arg);
        done := done + 1;
        if itr.data == arg {
          itr, fault, broken := RemoveHit(arg, itr, k);
          if fault {
            return;
          }
        } else {
          if !broken {
            Missed(arg, k);
          }
          OnwardStep(k);
          itr := itr.next;
          k := k + 1;
        }
      }
      fault := false;
      WithoutMultiset(s, arg);
      if !broken {
        NoneLeft(arg);
      }
    }

    lemma OnwardStep(k: nat)
      requires Onward(k) && k < |nodes|
      ensures nodes[k] in footprint && nodes[k].next == At(nodes, k + 1) && Onward(k + 1)
    {
      assert NextAt(k);
    }

    ghost predicate Absent(arg: T, k: nat)
      reads this
    {
      forall i :: k <= i < |nodes| ==> nodes[i].data != arg
    }

    // When Remove is right on data that occurs at most once.
    lemma RemovableIff(arg: T)
      requires Forward() && NoDuplicates(Contents())
      ensures Removable(arg) <==> arg !in Contents() || exists k: nat :: k < |nodes| && nodes[k].data == arg && BackAt(k)
    {
      if k: nat :| k < |nodes| && Contents()[k] == arg {
        Unique(Contents(), k);
        assert FirstOf(arg, 0, k);
      }
    }

    lemma Blocked(k: nat)
      requires Forward() && NoDuplicates(Contents()) && k < |nodes|
      ensures Removable(Contents()[k]) <==> BackAt(k)
      ensures k > 0 ==> (Unlinked(Contents()[k]) <==> nodes[k].prev == null)
    {
      Unique(Contents(), k);
      RemovableIff(Contents()[k]);
    }

    lemma WholeIsRemovable(arg: T)
      requires Forward() && Backward()
      ensures Removable(arg)
    {
    }

    // Behind the head it occurs in a node without a back link.
    ghost predicate Unlinked(arg: T)
      reads this, nodes
    {
      exists k: nat :: 0 < k < |nodes| && nodes[k].data == arg && nodes[k].prev == null
    }

    lemma NoneLeft(arg: T)
      requires Forward()
      ensures RemovableFrom(arg, |nodes|)
      ensures arg !in Contents() ==> !Unlinked(arg)
    {
      if k: nat :| 0 < k < |nodes| && nodes[k].data == arg {
        assert Contents()[k] == arg;
      }
    }

    lemma Missed(arg: T, k: nat)
      requires Forward() && k < |nodes| && nodes[k].data != arg
      ensures (RemovableFrom(arg, k) <==> RemovableFrom(arg, k + 1)) && Onward(k)
    {
      forall j: nat | k <= j < |nodes| && FirstOf(arg, k, j) && RemovableFrom(arg, k + 1) ensures BackAt(j) {
        assert FirstOf(arg, k + 1, j);
      }
      forall j: nat | k < j < |nodes| && FirstOf(arg, k + 1, j) && RemovableFrom(arg, k) ensures BackAt(j) {
        assert FirstOf(arg, k, j);
      }
    }

    // One occurrence is removed, at node k.
    method RemoveHit(arg: T, itr: Item<T>, ghost k: nat) returns (next: Item?<T>, fault: bool, ghost broken: bool)
      requires Linked() && k < |nodes| && nodes[k] == itr && itr.data == arg
      requires RemovableFrom(arg, k) || NoDuplicates(Contents())
      modifies this, footprint
      ensures footprint == old(footprint)
      ensures !fault ==> |nodes| == old(|nodes|) - 1 && next == At(nodes, k)
      ensures fault ==> broken
      ensures broken ==> !old(RemovableFrom(arg, k))
      ensures old(NoDuplicates(Contents())) ==> (fault <==> old(Unlinked(arg)))
      ensures old(NoDuplicates(Contents())) && !broken ==> !Unlinked(arg)
      ensures broken && !fault ==> !Forward() && Onward(k) && Absent(arg, k)
      ensures !fault ==> Contents() == old(Contents())[..k] + old(Contents())[k + 1..]
      ensures !broken ==> Linked()
      ensures !broken ==> (old(RemovableFrom(arg, k)) <==> RemovableFrom(arg, k))
      ensures !broken && old(NoDuplicates(Contents())) ==> NoDuplicates(Contents())
      ensures !broken && old(Backward()) ==> Backward()
      ensures !broken && k > 0 ==> head == old(head) && head != null && head.prev == old(head.prev)
    {
      hide Values, Forward, Owned, Straight, Backward, NoDuplicates, RemovableFrom, BackAt;
      broken := !BackAt(k);
      Ends();
      Node(k);
      next, fault := RemoveAt(itr, k);
      if broken {
        HitWrong(arg, k);
      } else {
        HitRight(arg, k, next);
        Ends();
        if k < |nodes| {
          Node(k);
        }
        if old(NoDuplicates(Contents())) {
          NoDuplicatesWithout(old(Contents()), k);
          Unique(old(Contents()), k);
        }
      }
    }

    twostate lemma HitWrong(new arg: T, k: nat)
      requires old(Linked()) && k < |old(nodes)| && old(nodes[k].data) == arg && old(!BackAt(k))
      requires old(RemovableFrom(arg, k)) || old(NoDuplicates(Contents()))
      ensures !old(RemovableFrom(arg, k))
      ensures k > 0 && (old(Unlinked(arg)) <==> old(nodes[k].prev) == null)
      ensures nodes == old(nodes)[..k] + old(nodes)[k + 1..] ==> Absent(arg, k)
    {
      hide Forward;
      assert old(FirstOf(arg, k, k));
      Unique(old(Contents()), k);
    }

    twostate lemma HitRight(new arg: T, k: nat, new next: Item?<T>)
      requires old(Linked()) && k < |old(nodes)| && old(nodes[k].data) == arg && old(BackAt(k))
      requires Removed(old(nodes), k, next) && footprint == old(footprint)
      requires forall item :: item in footprint && item != next ==> item.prev == old(item.prev)
      ensures old(RemovableFrom(arg, k)) <==> RemovableFrom(arg, k)
      ensures old(NoDuplicates(Contents())) ==> !old(Unlinked(arg))
    {
      if old(NoDuplicates(Contents())) {
        Unique(old(Contents()), k);
      }
      hide Values, NoDuplicates, NextAt, OwnedAt, Owned, Straight;
      if k < |nodes| {
        Unique(nodes, k);
        assert BackAt(k);
      }
      forall j: nat | k <= j < |nodes| && FirstOf(arg, k, j) && old(RemovableFrom(arg, k)) ensures BackAt(j) {
        assert j > k ==> old(FirstOf(arg, k, j + 1) && BackAt(j + 1));
      }
      forall j: nat | k <= j < |old(nodes)| && old(FirstOf(arg, k, j)) && RemovableFrom(arg, k) ensures old(BackAt(j)) {
        assert j > k + 1 ==> FirstOf(arg, k, j - 1) && BackAt(j - 1);
      }
    }

    method Clear()
      requires Linked()
      modifies this
      ensures Valid() && nodes == [] && footprint == old(footprint)
    {
      ghost var i := 0;
      while head != null
        invariant 0 <= i <= |nodes| && head == At(nodes, i)
        invariant nodes == old(nodes)
        decreases |nodes| - i
        modifies this`head
      {
        assert old(NextAt(i));
        head := head.next;
        i := i + 1;
      }
      size := 0;
      tail := null;
      nodes := [];
      forall item | item in footprint ensures OwnedAt(item) {
        assert old(OwnedAt(item));
      }
    }

    method Contains(arg: T) returns (found: bool)
      requires Forward()
      ensures found <==> arg in Contents()
    {
      var ptr := head;
      ghost var i := 0;
      while ptr != null
        invariant 0 <= i <= |nodes| && ptr == At(nodes, i)
        invariant arg !in Contents()[..i]
        decreases |nodes| - i
      {
        assert NextAt(i);
        if ptr.data == arg {
          assert Contents()[i] == arg;
          return true;
        }
        ptr := ptr.next;
        i := i + 1;
      }
      assert Contents()[..i] == Contents();
      found := false;
    }

    // Inserts in front of itr; a pointer that is not in the list means the end.
    // The node behind the new one keeps its old back link unless the new node
    // is the head.
    method InsertAt(itr: Item?<T>, arg: T) returns (item: Item<T>, ghost k: nat)
      requires Linked() && (nodes == [] ==> itr == null)
      modifies this, footprint
      ensures Linked() && fresh(item) && fresh(footprint - old(footprint))
      ensures k <= old(|nodes|) && (k == 0 <==> itr == old(head))
      ensures k > 0 ==> if k < old(|nodes|) then itr == old(nodes)[k] else itr !in old(nodes)
      ensures nodes == old(nodes)[..k] + [item] + old(nodes)[k..]
      ensures Contents() == old(Contents())[..k] + [arg] + old(Contents())[k..]
      ensures old(Backward()) ==> (Backward() <==> k == 0 || k == old(|nodes|))
    {
      if itr == head {
        item := InsertHead(arg);
        k := 0;
      } else {
        var ptr := head;
        k := 1;
        assert NextAt(0);
        while itr != ptr.next && ptr.next != null
          invariant 1 <= k <= |nodes| && ptr == nodes[k - 1] && NextAt(k - 1)
          invariant forall i :: 0 <= i < k ==> nodes[i] != itr
          decreases |nodes| - k
        {
          ptr := ptr.next;
          assert NextAt(k);
          k := k + 1;
        }
        item := InsertBehind(ptr, arg, k);
      }
    }

    // The two branches of InsertAt.
    method InsertHead(arg: T) returns (item: Item<T>)
      requires Linked()
      modifies this, footprint
      ensures Linked() && fresh(item) && fresh(footprint - old(footprint))
      ensures nodes == [item] + old(nodes) && Contents() == [arg] + old(Contents())
      ensures old(Backward()) ==> Backward()
    {
      hide Values, Forward, Owned, Straight, Backward;
      Ends();
      item := new Item(arg);
      item.next := head;
      if head != null {
        head.prev := item;
      }
      head := item;
      if tail == item.prev {
        tail := item;
      }
      size := size + 1;
      nodes := [item] + nodes;
      footprint := footprint + {item};
      assert nodes == old(nodes)[..0] + [item] + old(nodes)[0..];
      Grown(item, 0);
      if old(Backward()) {
        GrownBackward(item, 0);
      }
      assert old(Contents())[..0] + [arg] + old(Contents())[0..] == [arg] + old(Contents());
    }

    method InsertBehind(ptr: Item<T>, arg: T, ghost k: nat) returns (item: Item<T>)
      requires Linked() && 1 <= k <= |nodes| && ptr == nodes[k - 1]
      modifies this, footprint
      ensures Linked() && fresh(item) && fresh(footprint - old(footprint))
      ensures nodes == old(nodes)[..k] + [item] + old(nodes)[k..]
      ensures Contents() == old(Contents())[..k] + [arg] + old(Contents())[k..]
      ensures old(Backward()) ==> (Backward() <==> k == old(|nodes|))
    {
      hide Values, Forward, Owned, Straight, Backward;
      Node(k - 1);
      if k < |nodes| {
        Node(k);
        BackLink(k);
      }
      item := new Item(arg);
      item.prev := ptr;
      item.next := ptr.next;
      ptr.next := item;
      if tail == item.prev {
        tail := item;
      }
      size := size + 1;
      nodes := nodes[..k] + [item] + nodes[k..];
      footprint := footprint + {item};
      assert k < old(|nodes|) ==> nodes[k + 1] == old(nodes[k]);
      Grown(item, k);
      if old(Backward()) {
        GrownBackward(item, k);
      }
    }

    // The old head gets no back link, and what was wrong stays wrong.
    method PushFront(arg: T)
      modifies this
      ensures fresh(footprint - old(footprint)) && Contents() == [arg] + old(Contents())
      ensures |nodes| > 0 && nodes[1..] == old(nodes)
      ensures old(Linked()) ==> Linked()
      ensures old(Linked()) ==> (Backward() <==> |nodes| == 1) && (|nodes| > 1 ==> !BackAt(1))
      ensures Forward() ==> old(Forward())
    {
      hide Values, NoDuplicates, NextAt, BackAt, StraightAt, OwnedAt, Forward, Owned, Straight, Backward;
      if Linked() {
        Ends();
        if nodes != [] {
          Node(0);
          BackLink(0);
        }
      }
      var item := new Item(arg);
      ValuesWith(nodes, 0, item);
      item.next := head;
      item.prev := null;
      head := item;
      if tail == null {
        tail := item;
      }
      size := size + 1;
      nodes := [item] + nodes;
      footprint := footprint + {item};
      assert nodes == old(nodes)[..0] + [item] + old(nodes)[0..];
      if old(Linked()) {
        Grown(item, 0);
        SecondUnlinked();
      } else {
        Ungrown(item);
      }
    }

    lemma SecondUnlinked()
      requires Forward() && (|nodes| > 1 ==> nodes[1].prev != nodes[0])
      ensures (Backward() <==> |nodes| == 1 || nodes == []) && (|nodes| > 1 ==> !BackAt(1))
    {
      assert |nodes| > 1 ==> !BackAt(1);
    }

    twostate lemma Ungrown(new item: Item<T>)
      requires nodes == [item] + old(nodes) && footprint == old(footprint) + {item} && !old(allocated(item))
      requires head == item && item.next == old(head) && size == old(size) + 1
      requires tail == if old(tail) == null then item else old(tail)
      requires forall it :: it in old(footprint) ==> it.next == old(it.next)
      ensures Forward() ==> old(Forward())
    {
      if Forward() {
        NoDuplicatesWithout(nodes, 0);
        Unique(nodes, 0);
        assert NextAt(0);
        forall i: nat | i < |old(nodes)| ensures old(NextAt(i)) {
          assert NextAt(i + 1);
        }
      }
    }

    // A single node with a stale back link is taken for one with a neighbour,
    // and the list keeps pointing to it.
    method PopBack() returns (obj: T)
      requires Valid() && nodes != []
      modifies this, footprint
      ensures nodes == old(nodes[..|nodes| - 1]) && old(Contents()) == Contents() + [obj]
      ensures Valid() <==> old(|nodes| > 1 || head.prev == null)
    {
      hide Forward, Owned, Straight;
      ghost var k := |nodes| - 1;
      Node(k);
      BackLink(k);
      if k > 0 {
        assert BackAt(k);
        Node(k - 1);
      }
      var ptr := tail;
      if ptr.prev != null {
        ptr.prev.next := null;
      } else if head == ptr {
        head := null;
      }
      size := size - 1;
      tail := tail.prev;
      obj := ptr.data;
      nodes := nodes[..k];
      assert nodes == old(nodes)[..k] + old(nodes)[k + 1..];
      if k > 0 || ptr.prev == null {
        Shrunk(k);
      } else if Forward() {
        Ends();
      }
    }
  }

  // Taking one element from either end of a list of two breaks it.
  method PopBothEnds<T(==)>(x: T, y: T) returns (list: List<T>)
    ensures list.nodes == [] && !list.Valid()
  {
    list := new List<T>();
    list.PushBack(x);
    list.PushBack(y);
    assert list.nodes[1].prev == list.nodes[0];
    var first := list.PopFront();
    var last := list.PopBack();
  }
}

/** The members of an object in document.h, in the variant with a multimap: an array of members, an array of iterators
    into the multimap, and the multimap from names to positions. */
module Members {
  import JsonValues

  datatype Member = Member(name: seq<int>, value: JsonValues.GenericValue)

  /** An element of the multimap: a name, and the position of the member that has it. */
  datatype Entry = Entry(name: seq<int>, position: nat)

  /** The multimap: its elements, by the iterators that refer to them. */
  type Multimap = map<nat, Entry>

  /** ---- The members as a sequence ---- */

  /** The scan of the variant without a multimap. */
  function Scan(ms: seq<Member>, name: seq<int>): (r: nat)
    ensures r <= |ms| && (r < |ms| ==> ms[r].name == name) && forall i | 0 <= i < r :: ms[i].name != name
    decreases |ms|
  {
    if ms == [] then 0
    else
      var r := Scan(ms[..|ms| - 1], name);
      assert r < |ms| - 1 ==> ms[..|ms| - 1][r] == ms[r];
      assert forall i | 0 <= i < r :: ms[..|ms| - 1][i] == ms[i];
      if r < |ms| - 1 then r else if ms[|ms| - 1].name == name then r else |ms|
  }

  /** Removing a member moves the last one to its place. */
  function Removed(ms: seq<Member>, i: nat): (r: seq<Member>)
    requires i < |ms|
  {
    ms[..i] + (if i < |ms| - 1 then [ms[|ms| - 1]] + ms[i + 1..|ms| - 1] else [])
  }

  function Erased(ms: seq<Member>, first: nat, last: nat): seq<Member>
    requires first <= last <= |ms|
  {
    ms[..first] + ms[last..]
  }

  ghost predicate Distinct(ms: seq<Member>) {
    forall i, j | 0 <= i < j < |ms| :: ms[i].name != ms[j].name
  }

  /** ---- The index ---- */

  /** The i-th iterator refers to an element for the i-th member. */
  ghost predicate Refers(ms: seq<Member>, its: seq<nat>, index: Multimap, i: nat)
    requires i < |ms| <= |its|
  {
    its[i] in index && index[its[i]] == Entry(ms[i].name, i)
  }

  /** Every element is referred to from the position it holds. */
  ghost predicate Referred(ms: seq<Member>, its: seq<nat>, index: Multimap, node: nat)
    requires node in index && |ms| <= |its|
  {
    index[node].position < |ms| && its[index[node].position] == node
  }

  /** Members, iterators and elements correspond one to one. */
  ghost predicate Bijection(ms: seq<Member>, its: seq<nat>, index: Multimap) {
    && |ms| <= |its|
    && (forall i | 0 <= i < |ms| :: Refers(ms, its, index, i))
    && (forall node | node in index :: Referred(ms, its, index, node))
  }

  lemma NoMembers(its: seq<nat>)
    ensures Bijection([], its, map[])
  {
  }

  /** A fresh element for a member at the end. */
  lemma Added(ms: seq<Member>, its: seq<nat>, its': seq<nat>, index: Multimap, node: nat, m: Member)
    requires Bijection(ms, its, index) && node !in index && |ms| < |its'| && its'[..|ms|] == its[..|ms|] && its'[|ms|] == node
    ensures Bijection(ms + [m], its', index[node := Entry(m.name, |ms|)])
  {
    var index', ms' := index[node := Entry(m.name, |ms|)], ms + [m];
    forall i | 0 <= i < |ms'|
      ensures Refers(ms', its', index', i)
    {
      if i < |ms| {
        assert Refers(ms, its, index, i) && its'[..|ms|][i] == its[..|ms|][i];
      }
    }
    forall n | n in index'
      ensures Referred(ms', its', index', n)
    {
      if n != node {
        assert Referred(ms, its, index, n);
        assert its'[..|ms|][index[n].position] == its[..|ms|][index[n].position];
      }
    }
  }

  /** Erasing the element of one member and dropping the last, after the last took its place. */
  lemma RemovedOne(ms: seq<Member>, its: seq<nat>, index: Multimap, i: nat)
    requires Bijection(ms, its, index) && i < |ms|
    ensures its[i] in index && its[|ms| - 1] in index
    ensures var last := |ms| - 1;
            var rest := index - {its[i]};
            if i < last then its[last] in rest && Bijection(Removed(ms, i), its[i := its[last]], rest[its[last] := rest[its[last]].(position := i)])
            else Bijection(Removed(ms, i), its, rest)
  {
    var last := |ms| - 1;
    var ms', rest := Removed(ms, i), index - {its[i]};
    assert Refers(ms, its, index, i) && Refers(ms, its, index, last);
    assert forall j | 0 <= j < last :: ms'[j] == if j == i then ms[last] else ms[j];
    var its' := if i < last then its[i := its[last]] else its;
    var index' := if i < last then rest[its[last] := rest[its[last]].(position := i)] else rest;
    forall j | 0 <= j < |ms'|
      ensures Refers(ms', its', index', j)
    {
      assert Refers(ms, its, index, j);
    }
    forall n | n in index'
      ensures Referred(ms', its', index', n)
    {
      assert Referred(ms, its, index, n);
      assert Refers(ms, its, index, index[n].position);
    }
  }

  /** ---- Searching ---- */

  /** THE INDEX FINDS A NAME EXACTLY WHEN THE SCAN DOES. */
  lemma FoundTogether(ms: seq<Member>, its: seq<nat>, index: Multimap, name: seq<int>)
    requires Bijection(ms, its, index)
    ensures (exists node | node in index :: index[node].name == name) <==> Scan(ms, name) < |ms|
  {
    var r := Scan(ms, name);
    if r < |ms| {
      assert Refers(ms, its, index, r);
      assert index[its[r]].name == name;
    }
    if node :| node in index && index[node].name == name {
      assert Referred(ms, its, index, node);
      assert Refers(ms, its, index, index[node].position);
    }
  }

  /** And the same member, when names are distinct. */
  lemma FoundSame(ms: seq<Member>, its: seq<nat>, index: Multimap, node: nat)
    requires Bijection(ms, its, index) && node in index
    ensures var p := index[node].position;
            p < |ms| && ms[p].name == index[node].name && (Distinct(ms) ==> p == Scan(ms, index[node].name))
  {
    assert Referred(ms, its, index, node);
    assert Refers(ms, its, index, index[node].position);
  }

  /** Distinct names stay distinct: adding a new one, ... */
  lemma AddDistinct(ms: seq<Member>, m: Member)
    requires Distinct(ms) && Scan(ms, m.name) == |ms|
    ensures Distinct(ms + [m])
  {
  }

  /** ... removing one, ... */
  lemma RemoveDistinct(ms: seq<Member>, i: nat)
    requires Distinct(ms) && i < |ms|
    ensures Distinct(Removed(ms, i))
  {
    hide Removed;
    RemovedAt(ms, i);
  }

  /** ... and erasing some. */
  lemma EraseDistinct(ms: seq<Member>, first: nat, last: nat)
    requires Distinct(ms) && first <= last <= |ms|
    ensures Distinct(Erased(ms, first, last))
  {
  }

  lemma RemovedAt(ms: seq<Member>, i: nat)
    requires i < |ms|
    ensures |Removed(ms, i)| == |ms| - 1
    ensures forall j | 0 <= j < |ms| - 1 :: Removed(ms, i)[j] == if j == i then ms[|ms| - 1] else ms[j]
  {
  }

  /** Removing takes away one member, and keeps the others. */
  lemma RemovedKeeps(ms: seq<Member>, i: nat)
    requires i < |ms|
    ensures multiset(Removed(ms, i)) == multiset(ms) - multiset{ms[i]}
  {
    var last := |ms| - 1;
    if i < last {
      Parts(ms, i);
    } else {
      assert ms == ms[..i] + [ms[i]] && Removed(ms, i) == ms[..i];
    }
  }

  lemma Parts(ms: seq<Member>, i: nat)
    requires i < |ms| - 1
    ensures ms == ms[..i] + [ms[i]] + ms[i + 1..|ms| - 1] + [ms[|ms| - 1]]
    ensures Removed(ms, i) == ms[..i] + [ms[|ms| - 1]] + ms[i + 1..|ms| - 1]
  {
  }

  /** ---- Erasing a range ---- */

  /** While elements are erased, those of the members from first to k are gone. */
  ghost predicate Erasing(ms: seq<Member>, its: seq<nat>, index: Multimap, first: nat, k: nat) {
    && first <= k <= |ms| <= |its|
    && (forall i | 0 <= i < |ms| && !(first <= i < k) :: Refers(ms, its, index, i))
    && (forall node | node in index :: Referred(ms, its, index, node) && !(first <= index[node].position < k))
  }

  lemma EraseStart(ms: seq<Member>, its: seq<nat>, index: Multimap, first: nat)
    requires Bijection(ms, its, index) && first <= |ms|
    ensures Erasing(ms, its, index, first, first)
  {
  }

  lemma EraseStep(ms: seq<Member>, its: seq<nat>, index: Multimap, first: nat, k: nat)
    requires Erasing(ms, its, index, first, k) && k < |ms|
    ensures its[k] in index && Erasing(ms, its, index - {its[k]}, first, k + 1)
  {
    assert Refers(ms, its, index, k);
    var rest := index - {its[k]};
    forall i | 0 <= i < |ms| && !(first <= i < k + 1)
      ensures Refers(ms, its, rest, i)
    {
      assert Refers(ms, its, index, i);
    }
    forall node | node in rest
      ensures Referred(ms, its, rest, node) && !(first <= rest[node].position < k + 1)
    {
      assert Referred(ms, its, index, node);
    }
  }

  /** While members are moved down by n, those before position m are in place, and those from m + n on are not moved yet. */
  ghost predicate Moving(ms: seq<Member>, ms': seq<Member>, its: seq<nat>, index: Multimap, m: nat, n: nat) {
    && m + n <= |ms| <= |its| && m <= |ms'| <= |its|
    && (forall i | 0 <= i < m :: Refers(ms', its, index, i))
    && (forall i | m + n <= i < |ms| :: Refers(ms, its, index, i))
    && (forall node | node in index :: Referred(ms, its, index, node) && !(m <= index[node].position < m + n))
  }

  lemma MoveStart(ms: seq<Member>, its: seq<nat>, index: Multimap, first: nat, last: nat)
    requires first <= last <= |ms| && Erasing(ms, its, index, first, last)
    ensures Moving(ms, Erased(ms, first, last), its, index, first, last - first)
  {
    var ms' := Erased(ms, first, last);
    forall i | 0 <= i < first
      ensures Refers(ms', its, index, i)
    {
      assert Refers(ms, its, index, i);
    }
  }

  lemma MoveStep(ms: seq<Member>, ms': seq<Member>, its: seq<nat>, index: Multimap, m: nat, n: nat)
    requires Moving(ms, ms', its, index, m, n) && m + n < |ms| && m < |ms'| && ms'[m] == ms[m + n]
    ensures var node := its[m + n];
            && node in index && index[node].name == ms[m + n].name
            && Moving(ms, ms', its[m := node], index[node := index[node].(position := m)], m + 1, n)
  {
    var node := its[m + n];
    assert Refers(ms, its, index, m + n);
    var its', index' := its[m := node], index[node := index[node].(position := m)];
    forall i | 0 <= i < m + 1
      ensures Refers(ms', its', index', i)
    {
      if i < m {
        assert Refers(ms', its, index, i);
      }
    }
    forall i | m + 1 + n <= i < |ms|
      ensures Refers(ms, its', index', i)
    {
      assert Refers(ms, its, index, i);
    }
    forall x | x in index'
      ensures Referred(ms, its', index', x) && !(m + 1 <= index'[x].position < m + 1 + n)
    {
      assert Referred(ms, its, index, x);
    }
  }

  lemma MoveDone(ms: seq<Member>, ms': seq<Member>, its: seq<nat>, index: Multimap, m: nat, n: nat)
    requires Moving(ms, ms', its, index, m, n) && m + n == |ms| && m == |ms'|
    ensures Bijection(ms', its, index)
  {
    forall node | node in index
      ensures Referred(ms', its, index, node)
    {
      assert Referred(ms, its, index, node);
    }
  }

  /** The arrays while members and iterators are moved down. */
  ghost predicate Sliding(ms: seq<Member>, ms': seq<Member>, buf: seq<Member>, its: seq<nat>, index: Multimap, m: nat, n: nat) {
    && Moving(ms, ms', its, index, m, n) && |ms'| == |ms| - n && n > 0
    && |ms| <= |buf| && buf[..m] == ms'[..m] && buf[m + n..|ms|] == ms[m + n..] && forall i | m <= i < |ms'| :: ms'[i] == ms[i + n]
  }

  lemma SlideStart(ms: seq<Member>, buf: seq<Member>, its: seq<nat>, index: Multimap, first: nat, last: nat)
    requires first < last <= |ms| <= |buf| && Erasing(ms, its, index, first, last) && buf[..|ms|] == ms
    ensures Sliding(ms, Erased(ms, first, last), buf, its, index, first, last - first)
  {
    hide Erasing, Moving;
    MoveStart(ms, its, index, first, last);
    assert buf[..first] == buf[..|ms|][..first] && buf[last..|ms|] == buf[..|ms|][last..];
  }

  lemma SlideStep(ms: seq<Member>, ms': seq<Member>, buf: seq<Member>, its: seq<nat>, index: Multimap, m: nat, n: nat)
    requires Sliding(ms, ms', buf, its, index, m, n) && m + n < |ms|
    ensures m + n < |its| && m + n < |buf|
    ensures var node := its[m + n];
            && node in index
            && Sliding(ms, ms', buf[m := buf[m + n]], its[m := node], index[node := index[node].(position := m)], m + 1, n)
  {
    hide Refers, Referred;
    MoveStep(ms, ms', its, index, m, n);
    Slid(buf, ms, ms', m, m + n, |ms|);
  }

  lemma SlideDone(ms: seq<Member>, ms': seq<Member>, buf: seq<Member>, its: seq<nat>, index: Multimap, m: nat, n: nat)
    requires Sliding(ms, ms', buf, its, index, m, n) && m + n == |ms|
    ensures Bijection(ms', its, index) && buf[..|ms| - n] == ms'
  {
    hide Bijection;
    MoveDone(ms, ms', its, index, m, n);
    assert ms'[..m] == ms';
  }

  /** ---- The object ---- */

  const DEFAULT_CAPACITY: nat := 16

  class GenericObject {
    var members: array<Member>
    var iterators: array<nat>
    var size: nat
    var index: Multimap
    var nextNode: nat

    ghost predicate Valid()
      reads this, members, iterators
    {
      && size <= members.Length == iterators.Length
      && Bijection(members[..size], iterators[..], index)
      && forall node | node in index :: node < nextNode
    }

    function Contents(): seq<Member>
      requires size <= members.Length
      reads this, members
    {
      members[..size]
    }

    constructor ()
      ensures Valid() && Contents() == [] && fresh(members) && fresh(iterators)
    {
      members := new Member[0];
      iterators := new nat[0];
      size, index, nextNode := 0, map[], 0;
      new;
      NoMembers(iterators[..]);
      assert members[..0] == [];
    }

    /** `DoReserveMembers` and `DoReallocMap`: the members and iterators move to larger arrays. */
    method Reserve(newCapacity: nat)
      requires Valid()
      modifies this`members, this`iterators
      ensures Valid() && Contents() == old(Contents()) && members.Length >= newCapacity
      ensures iterators[..size] == old(iterators[..size])
      ensures (fresh(members) && fresh(iterators)) || (members == old(members) && iterators == old(iterators))
    {
      if newCapacity > members.Length {
        var newMembers := new Member[newCapacity];
        var newIterators := new nat[newCapacity];
        ghost var ms, its := members[..size], iterators[..];
        for i := 0 to size
          invariant newMembers[..i] == ms[..i] && newIterators[..i] == its[..i]
          invariant members == old(members) && iterators == old(iterators)
        {
          newMembers[i] := members[i];
          newIterators[i] := iterators[i];
          assert newMembers[..i + 1] == newMembers[..i] + [ms[i]] && newIterators[..i + 1] == newIterators[..i] + [its[i]];
          assert ms[..i + 1] == ms[..i] + [ms[i]] && its[..i + 1] == its[..i] + [its[i]];
        }
        SamePrefix(ms, its, newIterators[..], index);
        members, iterators := newMembers, newIterators;
        assert members[..size] == ms;
      }
    }

    /** `DoFindMember`: any element with the name; the size when there is none. */
    method FindMember(name: seq<int>) returns (r: nat)
      requires Valid()
      ensures r <= size && (r < size <==> Scan(Contents(), name) < size)
      ensures r < size ==> Contents()[r].name == name
      ensures Distinct(Contents()) ==> r == Scan(Contents(), name)
    {
      hide Bijection, Distinct;
      FoundTogether(members[..size], iterators[..], index, name);
      r := size;
      if node :| node in index && index[node].name == name {
        FoundSame(members[..size], iterators[..], index, node);
        r := index[node].position;
      }
    }

    /** `DoAddMember` */
    method AddMember(m: Member)
      requires Valid()
      modifies this, members, iterators
      ensures Valid() && Contents() == old(Contents()) + [m]
      ensures (fresh(members) && fresh(iterators)) || (members == old(members) && iterators == old(iterators))
    {
      hide Bijection;
      if size >= members.Length {
        Reserve(if members.Length > 0 then members.Length + (members.Length + 1) / 2 else DEFAULT_CAPACITY);
      }
      ghost var ms, its := members[..size], iterators[..];
      members[size] := m;
      var node := nextNode;
      iterators[size] := node;
      assert iterators[..][..size] == its[..size];
      Added(ms, its, iterators[..], index, node, m);
      index := index[node := Entry(m.name, size)];
      nextNode := node + 1;
      size := size + 1;
      assert members[..size] == ms + [m];
    }

    /** `DoRemoveMember` */
    method RemoveMember(pos: nat)
      requires Valid() && pos < size
      modifies this, members, iterators
      ensures Valid() && Contents() == Removed(old(Contents()), pos) && members == old(members) && iterators == old(iterators)
    {
      hide Bijection, Removed;
      ghost var ms, its := members[..size], iterators[..];
      RemovedOne(ms, its, index, pos);
      RemovedAt(ms, pos);
      index := index - {iterators[pos]};
      var last := size - 1;
      if size > 1 && pos != last {
        iterators[pos] := iterators[last];
        index := index[iterators[pos] := index[iterators[pos]].(position := pos)];
        members[pos] := members[last];
        assert iterators[..] == its[pos := its[last]];
      }
      size := size - 1;
      assert members[..size] == Removed(ms, pos);
    }

    /** The loop of `DoEraseMembers` that moves the remaining members and iterators down. */
    method MoveRemaining(first: nat, last: nat, ghost ms: seq<Member>)
      requires first < last <= size <= members.Length == iterators.Length && members[..size] == ms
      requires Erasing(ms, iterators[..], index, first, last)
      modifies this`index, members, iterators
      ensures Bijection(Erased(ms, first, last), iterators[..], index)
      ensures members[..size - (last - first)] == Erased(ms, first, last)
      ensures index.Keys == old(index.Keys)
    {
      hide Bijection, Erasing, Moving, Sliding, Erased;
      ghost var ms', n := Erased(ms, first, last), last - first;
      var m: nat, next: nat := first, last;
      SlideStart(ms, members[..], iterators[..], index, first, last);
      while next != size
        invariant last <= next <= size && m == next - n
        invariant Sliding(ms, ms', members[..], iterators[..], index, m, n)
        invariant index.Keys == old(index.Keys)
        decreases size - next
      {
        ghost var its, buf := iterators[..], members[..];
        SlideStep(ms, ms', buf, its, index, m, n);
        members[m] := members[next];
        iterators[m] := iterators[next];
        assert iterators[..] == its[m := its[next]] && members[..] == buf[m := buf[next]];
        index := index[iterators[m] := index[iterators[m]].(position := m)];
        m, next := m + 1, next + 1;
      }
      SlideDone(ms, ms', members[..], iterators[..], index, m, n);
    }

    /** `DoEraseMembers` */
    method EraseMembers(first: nat, last: nat)
      requires Valid() && first <= last <= size
      modifies this, members, iterators
      ensures Valid() && Contents() == Erased(old(Contents()), first, last) && members == old(members) && iterators == old(iterators)
    {
      hide Bijection, Erasing, Erased;
      ghost var ms, its := members[..size], iterators[..];
      EraseStart(ms, its, index, first);
      for k := first to last
        invariant Erasing(ms, its, index, first, k) && iterators[..] == its && index.Keys <= old(index.Keys)
        invariant members == old(members) && iterators == old(iterators) && size == old(size) && members[..size] == ms
        invariant nextNode == old(nextNode)
      {
        EraseStep(ms, its, index, first, k);
        index := index - {iterators[k]};
      }
      if first != last {
        MoveRemaining(first, last, ms);
        size := size - (last - first);
      } else {
        NothingErased(ms, its, index, first);
      }
    }

    /** `DoClearMembers` */
    method Clear()
      requires Valid()
      modifies this
      ensures Valid() && Contents() == [] && members == old(members) && iterators == old(iterators)
    {
      hide Bijection, Erasing;
      ghost var ms, its := members[..size], iterators[..];
      EraseStart(ms, its, index, 0);
      for i := 0 to size
        invariant Erasing(ms, its, index, 0, i) && size == old(size) && members == old(members) && iterators == old(iterators)
      {
        EraseStep(ms, its, index, 0, i);
        index := index - {iterators[i]};
      }
      AllErased(ms, its, index);
      size := 0;
      NoMembers(its);
      assert members[..0] == [];
    }
  }

  lemma SamePrefix(ms: seq<Member>, its: seq<nat>, its': seq<nat>, index: Multimap)
    requires Bijection(ms, its, index) && |ms| <= |its'| && its'[..|ms|] == its[..|ms|]
    ensures Bijection(ms, its', index)
  {
    forall i | 0 <= i < |ms|
      ensures its'[i] == its[i]
    {
      assert its'[..|ms|][i] == its[..|ms|][i];
    }
    forall i | 0 <= i < |ms|
      ensures Refers(ms, its', index, i)
    {
      assert Refers(ms, its, index, i);
    }
    forall node | node in index
      ensures Referred(ms, its', index, node)
    {
      assert Referred(ms, its, index, node);
    }
  }

  lemma NothingErased(ms: seq<Member>, its: seq<nat>, index: Multimap, first: nat)
    requires Erasing(ms, its, index, first, first)
    ensures Bijection(ms, its, index) && Erased(ms, first, first) == ms
  {
  }

  lemma AllErased(ms: seq<Member>, its: seq<nat>, index: Multimap)
    requires Erasing(ms, its, index, 0, |ms|)
    ensures index == map[]
  {
    assert index.Keys == {};
  }

  /** One member moved down. */
  lemma Slid(buf: seq<Member>, ms: seq<Member>, ms': seq<Member>, m: nat, next: nat, size: nat)
    requires m < next < size == |ms| <= |buf| && m < |ms'| && buf[..m] == ms'[..m] && buf[next..size] == ms[next..] && ms'[m] == ms[next]
    ensures var buf' := buf[m := buf[next]]; buf'[..m + 1] == ms'[..m + 1] && buf'[next + 1..size] == ms[next + 1..]
  {
    var buf' := buf[m := buf[next]];
    assert buf[next] == buf[next..size][0];
    assert buf'[..m + 1] == buf[..m] + [ms'[m]] && ms'[..m + 1] == ms'[..m] + [ms'[m]];
    assert buf'[next + 1..size] == buf[next..size][1..] && ms[next + 1..] == ms[next..][1..];
  }

  /** ---- Runs of operations ---- */

  datatype Operation = Add(m: Member) | Remove(pos: nat) | Erase(first: nat, last: nat) | Clear

  /** What the operations require of the object: positions of members; and, for distinct names, that a name added is new. */
  ghost predicate Possible(ms: seq<Member>, op: Operation) {
    match op
    case Add(m) => true
    case Remove(pos) => pos < |ms|
    case Erase(first, last) => first <= last <= |ms|
    case Clear => true
  }

  ghost function Applied(ms: seq<Member>, op: Operation): seq<Member>
    requires Possible(ms, op)
  {
    match op
    case Add(m) => ms + [m]
    case Remove(pos) => Removed(ms, pos)
    case Erase(first, last) => Erased(ms, first, last)
    case Clear => []
  }

  ghost predicate AllPossible(ms: seq<Member>, ops: seq<Operation>)
    decreases |ops|
  {
    ops == [] || (Possible(ms, ops[0]) && AllPossible(Applied(ms, ops[0]), ops[1..]))
  }

  ghost function AppliedAll(ms: seq<Member>, ops: seq<Operation>): seq<Member>
    requires AllPossible(ms, ops)
    decreases |ops|
  {
    if ops == [] then ms else AppliedAll(Applied(ms, ops[0]), ops[1..])
  }

  /** Only new names are added. */
  ghost predicate NewNames(ms: seq<Member>, ops: seq<Operation>)
    requires AllPossible(ms, ops)
    decreases |ops|
  {
    ops == [] || ((ops[0].Add? ==> Scan(ms, ops[0].m.name) == |ms|) && NewNames(Applied(ms, ops[0]), ops[1..]))
  }

  lemma {:induction false} RunsStayDistinct(ms: seq<Member>, ops: seq<Operation>)
    requires AllPossible(ms, ops) && NewNames(ms, ops) && Distinct(ms)
    ensures Distinct(AppliedAll(ms, ops))
    decreases |ops|
  {
    hide Distinct, Scan, Removed, Erased;
    if ops != [] {
      match ops[0] {
        case Add(m) => AddDistinct(ms, m);
        case Remove(pos) => RemoveDistinct(ms, pos);
        case Erase(first, last) => EraseDistinct(ms, first, last);
        case Clear => NoneDistinct();
      }
      RunsStayDistinct(Applied(ms, ops[0]), ops[1..]);
    }
  }

  lemma NoneDistinct()
    ensures Distinct([])
  {
  }

  /** AFTER ANY RUN from an empty object, a name is found exactly when it is there; and at the place the scan finds it,
      when only new names were added. */
  method RunAndFind(ops: seq<Operation>, name: seq<int>) returns (found: bool, at: nat, ms: seq<Member>)
    requires AllPossible([], ops)
    ensures ms == AppliedAll([], ops) && (found <==> Scan(ms, name) < |ms|)
    ensures found ==> at < |ms| && ms[at].name == name && (NewNames([], ops) ==> at == Scan(ms, name))
  {
    hide Distinct, Scan, Removed, Erased, Bijection;
    var o := new GenericObject();
    if NewNames([], ops) {
      NoneDistinct();
      RunsStayDistinct([], ops);
    }
    var k: nat := 0;
    assert ops[0..] == ops;
    while k < |ops|
      invariant k <= |ops| && o.Valid() && fresh(o) && fresh(o.members) && fresh(o.iterators)
      invariant AllPossible(o.Contents(), ops[k..]) && AppliedAll(o.Contents(), ops[k..]) == AppliedAll([], ops)
    {
      OneOperation(o.Contents(), ops, k);
      match ops[k] {
        case Add(m) => o.AddMember(m);
        case Remove(pos) => o.RemoveMember(pos);
        case Erase(first, last) => o.EraseMembers(first, last);
        case Clear => o.Clear();
      }
      k := k + 1;
    }
    NoOperation(o.Contents(), ops[k..]);
    at := o.FindMember(name);
    found := at < o.size;
    ms := o.Contents();
  }

  lemma OneOperation(ms: seq<Member>, ops: seq<Operation>, k: nat)
    requires k < |ops| && AllPossible(ms, ops[k..])
    ensures Possible(ms, ops[k]) && AllPossible(Applied(ms, ops[k]), ops[k + 1..])
    ensures AppliedAll(ms, ops[k..]) == AppliedAll(Applied(ms, ops[k]), ops[k + 1..])
  {
    assert ops[k..][0] == ops[k] && ops[k..][1..] == ops[k + 1..];
  }

  lemma NoOperation(ms: seq<Member>, ops: seq<Operation>)
    requires ops == []
    ensures AllPossible(ms, ops) && AppliedAll(ms, ops) == ms
  {
  }
}

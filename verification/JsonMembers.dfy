/** An object's members in both builds: a plain array, and an array with a multimap from names to
    positions and a parallel array of iterators into that map. */
module JsonMembers {
  import opened JsonText
  import opened JsonNode

  const DEFAULT_OBJECT_CAPACITY := 16

  // ---- what the operations do to the list of members

  /** Removal by iterator: the last member takes the place of the removed one. */
  function SwapRemove<T>(s: seq<T>, i: nat): seq<T>
    requires i < |s|
  {
    if i == |s| - 1 then s[..i] else s[..|s| - 1][i := s[|s| - 1]]
  }

  /** Erasure of a range: the later members keep their order. */
  function EraseRange<T>(s: seq<T>, first: nat, last: nat): seq<T>
    requires first <= last <= |s|
  {
    s[..first] + s[last..]
  }

  datatype Operation =
    | Add(name: string, value: Node)
    | Remove(at: nat)
    | Erase(first: nat, last: nat)
    | Clear

  /** The assertions of RemoveMember and EraseMember. */
  predicate Allowed(op: Operation, s: seq<Member>) {
    match op
    case Add(_, _) => true
    case Remove(i) => i < |s|
    case Erase(i, j) => |s| > 0 && i <= j <= |s|
    case Clear => true
  }

  function Applied(op: Operation, s: seq<Member>): seq<Member>
    requires Allowed(op, s)
  {
    match op
    case Add(name, value) => s + [Member(name, value)]
    case Remove(i) => SwapRemove(s, i)
    case Erase(i, j) => EraseRange(s, i, j)
    case Clear => []
  }

  predicate AllAllowed(ops: seq<Operation>, s: seq<Member>) {
    ops == [] || (Allowed(ops[0], s) && AllAllowed(ops[1..], Applied(ops[0], s)))
  }

  function AllApplied(ops: seq<Operation>, s: seq<Member>): seq<Member>
    requires AllAllowed(ops, s)
  {
    if ops == [] then s else AllApplied(ops[1..], Applied(ops[0], s))
  }

  predicate HasName(s: seq<Member>, name: string) {
    exists i :: 0 <= i < |s| && s[i].name == name
  }

  lemma Split<T>(s: seq<T>, i: nat)
    requires i < |s|
    ensures s == s[..i] + [s[i]] + s[i + 1..]
    ensures multiset(s) == multiset(s[..i] + s[i + 1..]) + multiset{s[i]}
  {
  }

  /** Removing and erasing lose exactly the members asked for, whatever the order after it. */
  lemma RemoveLosesOne(s: seq<Member>, i: nat)
    requires i < |s|
    ensures multiset(SwapRemove(s, i)) == multiset(s) - multiset{s[i]}
    ensures multiset(EraseRange(s, i, i + 1)) == multiset(s) - multiset{s[i]}
  {
    Split(s, i);
    if i < |s| - 1 { LastIntoPlace(s, i); }
  }

  lemma LastIntoPlace<T>(s: seq<T>, i: nat)
    requires i < |s| - 1
    ensures multiset(SwapRemove(s, i)) == multiset(s[..i] + s[i + 1..])
  {
    var n := |s| - 1;
    assert SwapRemove(s, i) == s[..i] + [s[n]] + s[i + 1..n];
    assert s[i + 1..] == s[i + 1..n] + [s[n]];
  }

  // ---- the order of the map

  function Min(a: nat, b: nat): nat { if a < b then a else b }

  /** memcmp on the first n bytes. */
  function Compare(a: string, b: string, n: nat): int
    requires n <= |a| && n <= |b|
  {
    if n == 0 then 0
    else if a[0] != b[0] then a[0] as int - b[0] as int
    else Compare(a[1..], b[1..], n - 1)
  }

  predicate Less(a: string, b: string) {
    var n1, n2 := |a|, |b|;
    var cmp := Compare(a, b, if n1 < n2 then n1 else n2);
    cmp < 0 || (cmp == 0 && n1 < n2)
  }

  lemma {:induction false} CompareEqual(a: string, b: string, n: nat)
    requires n <= |a| && n <= |b|
    ensures Compare(a, b, n) == 0 <==> a[..n] == b[..n]
    ensures Compare(a, b, n) == -Compare(b, a, n)
  {
    if n > 0 && a[0] == b[0] {
      CompareEqual(a[1..], b[1..], n - 1);
      assert a[..n] == [a[0]] + a[1..][..n - 1] && b[..n] == [b[0]] + b[1..][..n - 1];
    } else if n > 0 {
      assert a[..n][0] != b[..n][0];
    }
  }

  /** The map takes two names for the same key exactly when they are equal, and its order is
      asymmetric. */
  lemma SameKey(a: string, b: string)
    ensures !Less(a, b) && !Less(b, a) <==> a == b
    ensures !(Less(a, b) && Less(b, a))
  {
    var n := Min(|a|, |b|);
    CompareEqual(a, b, n);
    if |a| == |b| { assert a[..n] == a && b[..n] == b; }
  }

  /** And the order is transitive, so it is a strict total order. */
  lemma {:induction false} LessTransitive(a: string, b: string, c: string)
    requires Less(a, b) && Less(b, c)
    ensures Less(a, c)
  {
    if a != "" && b != "" && c != "" && a[0] == b[0] == c[0] {
      LessTails(a, b);
      LessTails(b, c);
      LessTails(a, c);
      LessTransitive(a[1..], b[1..], c[1..]);
    }
  }

  lemma LessTails(a: string, b: string)
    requires a != "" && b != "" && a[0] == b[0]
    ensures Less(a, b) == Less(a[1..], b[1..])
  {
  }

  // ---- the build with the map

  /** What an iterator of the multimap points at.  The key never changes; the position does. */
  class MapNode {
    const first: string
    var second: nat

    constructor (first: string, second: nat)
      ensures this.first == first && this.second == second
    {
      this.first, this.second := first, second;
    }
  }

  /** Entry i of the index: iterator i points at the map's entry for member i.  What the map's
      entries hold as positions is given by at. */
  ghost predicate Entry(ms: seq<Member>, its: seq<MapNode?>, at: map<MapNode, nat>, i: nat)
    requires i < |ms| && i < |its|
  {
    its[i] != null && its[i] in at && its[i].first == ms[i].name && at[its[i]] == i
  }

  /** The map and the iterators index the members, and the map holds nothing else. */
  ghost predicate Indexed(ms: seq<Member>, its: seq<MapNode?>, at: map<MapNode, nat>) {
    && |its| == |ms|
    && (forall i :: 0 <= i < |ms| ==> Entry(ms, its, at, i))
    && (forall n <- at :: at[n] < |ms| && its[at[n]] == n)
  }

  /** The map holds exactly one entry per member: its name with its position. */
  lemma EntriesAreMembers(ms: seq<Member>, its: seq<MapNode?>, at: map<MapNode, nat>)
    requires Indexed(ms, its, at)
    ensures |at| == |ms|
    ensures (set n <- at :: (n.first, at[n])) == set i | 0 <= i < |ms| :: (ms[i].name, i)
    ensures forall m <- at, n <- at :: at[m] == at[n] ==> m == n
  {
    forall i | 0 <= i < |ms| ensures exists n <- at :: (n.first, at[n]) == (ms[i].name, i) {
      assert Entry(ms, its, at, i);
    }
    forall n <- at ensures n.first == ms[at[n]].name {
      assert Entry(ms, its, at, at[n]);
    }
    CountEntries(ms, its, at, |ms|, at.Keys);
  }

  lemma {:induction false} CountEntries(
    ms: seq<Member>, its: seq<MapNode?>, at: map<MapNode, nat>, k: nat, part: set<MapNode>)
    requires Indexed(ms, its, at) && k <= |ms|
    requires part == set n <- at | at[n] < k
    ensures |part| == k
  {
    if k == 0 {
      assert part == {};
    } else {
      assert Entry(ms, its, at, k - 1);
      var last: MapNode := its[k - 1];
      CountEntries(ms, its, at, k - 1, part - {last});
    }
  }

  lemma IndexAnother(ms: seq<Member>, its: seq<MapNode?>, at: map<MapNode, nat>, m: Member, node: MapNode)
    requires Indexed(ms, its, at) && node !in at && node.first == m.name
    ensures Indexed(ms + [m], its + [node], at[node := |ms|])
  {
    var ms', its', at' := ms + [m], its + [node], at[node := |ms|];
    forall i | 0 <= i < |ms'| ensures Entry(ms', its', at', i) {
      if i < |ms| { assert Entry(ms, its, at, i); }
    }
  }

  lemma IndexWithout(ms: seq<Member>, its: seq<MapNode?>, at: map<MapNode, nat>, i: nat)
    requires Indexed(ms, its, at) && i < |ms|
    ensures its[i] != null && its[|ms| - 1] != null && its[i] in at && its[|ms| - 1] in at
    ensures i < |ms| - 1 ==> its[|ms| - 1] != its[i]
    ensures Indexed(SwapRemove(ms, i), SwapRemove(its, i),
                    if i < |ms| - 1 then (at - {its[i]})[its[|ms| - 1] := i] else at - {its[i]})
  {
    var last := |ms| - 1;
    assert Entry(ms, its, at, i) && Entry(ms, its, at, last);
    var rest := at - {its[i]};
    var at' := if i < last then rest[its[last] := i] else rest;
    forall k | 0 <= k < last ensures Entry(SwapRemove(ms, i), SwapRemove(its, i), at', k) {
      assert Entry(ms, its, at, k);
    }
  }

  /** The positions once the range's entries are gone and the entries of the members from last up
      to next have been moved down. */
  ghost function Shifted(at: map<MapNode, nat>, first: nat, last: nat, next: nat): map<MapNode, nat>
    requires first <= last
  {
    map n <- at | !(first <= at[n] < last) :: if last <= at[n] < next then at[n] - (last - first) else at[n]
  }

  lemma IndexErased(ms: seq<Member>, its: seq<MapNode?>, at: map<MapNode, nat>, first: nat, last: nat)
    requires Indexed(ms, its, at) && first <= last <= |ms|
    ensures Indexed(EraseRange(ms, first, last), EraseRange(its, first, last), Shifted(at, first, last, |ms|))
  {
    var ms', its', at' := EraseRange(ms, first, last), EraseRange(its, first, last), Shifted(at, first, last, |ms|);
    forall i | 0 <= i < |ms'| ensures Entry(ms', its', at', i) {
      assert Entry(ms, its, at, if i < first then i else i + (last - first));
    }
  }

  lemma ShiftedNext(ms: seq<Member>, its: seq<MapNode?>, at: map<MapNode, nat>, first: nat, last: nat, next: nat)
    requires Indexed(ms, its, at) && first <= last <= next < |ms|
    ensures its[next] != null && its[next] in Shifted(at, first, last, next)
    ensures Shifted(at, first, last, next + 1) == Shifted(at, first, last, next)[its[next] := next - (last - first)]
  {
    assert Entry(ms, its, at, next);
  }

  lemma IndexedLength(ms: seq<Member>, its: seq<MapNode?>, at: map<MapNode, nat>)
    requires Indexed(ms, its, at)
    ensures |its| == |ms|
  {
  }

  lemma EntriesGone(ms: seq<Member>, its: seq<MapNode?>, at: map<MapNode, nat>)
    requires Indexed(ms, its, at)
    ensures Shifted(at, 0, |ms|, |ms|) == map[] && Indexed([], [], map[])
  {
  }

  lemma ShiftedByNone(at: map<MapNode, nat>, first: nat, next: nat)
    ensures Shifted(at, first, first, first) == Shifted(at, first, first, next)
  {
  }

  lemma RangeEntry(ms: seq<Member>, its: seq<MapNode?>, at: map<MapNode, nat>, first: nat, i: nat)
    requires Indexed(ms, its, at) && first <= i < |ms|
    ensures its[i] != null && its[i] in Shifted(at, first, i, i)
    ensures Shifted(at, first, i + 1, i + 1) == Shifted(at, first, i, i) - {its[i]}
  {
    assert Entry(ms, its, at, i);
  }

  /** An array part way through the move: up to next, what follows the range s[first..last] has been
      copied down over it. */
  ghost predicate Moving<T>(cur: seq<T>, s: seq<T>, first: nat, last: nat, next: nat) {
    && first <= last <= next <= |s| <= |cur|
    && cur[..next - (last - first)] == EraseRange(s, first, last)[..next - (last - first)]
    && cur[next..|s|] == s[next..]
  }

  lemma MovingStart<T>(cur: seq<T>, s: seq<T>, first: nat, last: nat)
    requires first <= last <= |s| <= |cur| && cur[..|s|] == s
    ensures Moving(cur, s, first, last, last)
  {
    assert cur[..first] == cur[..|s|][..first] && cur[last..|s|] == cur[..|s|][last..];
  }

  lemma MovingEnd<T>(cur: seq<T>, s: seq<T>, first: nat, last: nat)
    requires first <= last <= |s| && Moving(cur, s, first, last, if first == last then last else |s|)
    ensures |s| <= |cur| && cur[..|s| - (last - first)] == EraseRange(s, first, last)
  {
    if first == last { assert cur[..|s|] == cur[..last] + cur[last..|s|]; }
  }

  lemma MovingStep<T>(cur: seq<T>, s: seq<T>, first: nat, last: nat, next: nat)
    requires Moving(cur, s, first, last, next) && first < last && next < |s|
    ensures cur[next] == s[next]
    ensures Moving(cur[next - (last - first) := cur[next]], s, first, last, next + 1)
  {
    var itr := next - (last - first);
    var cur' := cur[itr := cur[next]];
    var e := EraseRange(s, first, last);
    assert cur[next] == cur[next..|s|][0] == s[next] == e[itr];
    assert cur'[..itr + 1] == cur[..itr] + [cur[next]] && e[..itr + 1] == e[..itr] + [e[itr]];
    assert cur'[next + 1..|s|] == cur[next..|s|][1..];
  }

  class MappedObject {
    var size: nat
    var members: array<Member>
    var iterators: array<MapNode?>
    var map_: set<MapNode>

    ghost function Positions(): map<MapNode, nat>
      reads this, map_
    {
      map n <- map_ :: n.second
    }

    ghost predicate Valid()
      reads this, members, iterators, map_
    {
      && members.Length == iterators.Length && size <= members.Length
      && Indexed(members[..size], iterators[..size], Positions())
    }

    ghost function Contents(): seq<Member>
      reads this, members
      requires size <= members.Length
    {
      members[..size]
    }

    lemma EntryCount()
      requires Valid()
      ensures |map_| == size
    {
      EntriesAreMembers(members[..size], iterators[..size], Positions());
      assert map_ == Positions().Keys;
    }

    ghost function Footprint(): set<object>
      reads this
    {
      {this, members, iterators} + map_
    }

    constructor ()
      ensures Valid() && Contents() == [] && fresh(Footprint())
    {
      size := 0;
      members := new Member[0];
      iterators := new MapNode?[0];
      map_ := {};
    }

    /** DoReserveMembers and DoReallocMap: larger arrays with the old members and iterators.  How
        many are copied is read off the map. */
    method DoReserveMembers(newCapacity: nat)
      requires Valid()
      modifies this`members, this`iterators
      ensures Valid() && Contents() == old(Contents()) && Positions() == old(Positions())
      ensures iterators[..size] == old(iterators[..size])
      ensures members.Length == if newCapacity > old(members.Length) then newCapacity else old(members.Length)
      ensures fresh(Footprint() - old(Footprint()))
    {
      hide Indexed;
      if newCapacity > members.Length {
        ghost var ms, its, at := members[..size], iterators[..size], Positions();
        EntriesAreMembers(ms, its, at);
        assert map_ == at.Keys;
        var newMembers := new Member[newCapacity];
        forall i | 0 <= i < |map_| { newMembers[i] := members[i]; }
        var newIt := CopyIterators(newCapacity, |map_|);
        assert newMembers[..size] == ms && newIt[..size] == its;
        members, iterators := newMembers, newIt;
        assert Positions() == at;
      }
    }

    method CopyIterators(newCapacity: nat, size: nat) returns (newIt: array<MapNode?>)
      requires size <= iterators.Length && size <= newCapacity
      ensures fresh(newIt) && newIt.Length == newCapacity && newIt[..size] == iterators[..size]
    {
      newIt := new MapNode?[newCapacity];
      var count := size;
      while count > 0
        invariant 0 <= count <= size && newIt[count..size] == iterators[count..size]
      {
        count := count - 1;
        newIt[count] := iterators[count];
      }
    }

    /** DoFindMember: a member of that name whenever the linear scan would find one. */
    method DoFindMember(name: string) returns (at: nat)
      requires Valid()
      ensures at <= size
      ensures at < size ==> members[at].name == name
      ensures at < size <==> HasName(Contents(), name)
    {
      ghost var ms, its := members[..size], iterators[..size];
      if exists n <- map_ :: !Less(n.first, name) && !Less(name, n.first) {
        var n :| n in map_ && !Less(n.first, name) && !Less(name, n.first);
        SameKey(n.first, name);
        assert n in Positions();
        assert Entry(ms, its, Positions(), n.second);
        return n.second;
      }
      if HasName(ms, name) {
        ghost var i :| 0 <= i < size && ms[i].name == name;
        assert Entry(ms, its, Positions(), i);
        SameKey(name, name);
        assert false;
      }
      return size;
    }

    method DoAddMember(name: string, value: Node)
      requires Valid()
      modifies this, members, iterators
      ensures Valid() && Contents() == Applied(Add(name, value), old(Contents()))
      ensures var capacity := old(members.Length);
              members.Length == if old(size) < capacity then capacity
                                else if capacity == 0 then 16 else capacity + (capacity + 1) / 2
      ensures fresh(Footprint() - old(Footprint()))
    {
      hide Indexed;
      if size >= members.Length {
        var capacity := members.Length;
        DoReserveMembers(if capacity > 0 then capacity + (capacity + 1) / 2 else DEFAULT_OBJECT_CAPACITY);
      }
      Append(name, value);
    }

    /** DoAddMember where there is room. */
    method Append(name: string, value: Node)
      requires Valid() && size < members.Length
      modifies this`size, this`map_, members, iterators
      ensures Valid() && Contents() == old(Contents()) + [Member(name, value)]
      ensures fresh(map_ - old(map_))
    {
      hide Indexed;
      ghost var ms, its, at := members[..size], iterators[..size], Positions();
      var node := new MapNode(name, size);
      IndexAnother(ms, its, at, Member(name, value), node);
      members[size] := Member(name, value);
      iterators[size] := node;
      map_ := map_ + {node};
      size := size + 1;
      assert members[..size] == ms + [Member(name, value)];
      assert iterators[..size] == its + [node];
      assert Positions() == at[node := |ms|];
    }

    /** DoRemoveMember. */
    method DoRemoveMember(mpos: nat)
      requires Valid() && mpos < size
      modifies this, members, iterators, map_
      ensures Valid() && Contents() == Applied(Remove(mpos), old(Contents()))
      ensures Footprint() <= old(Footprint())
    {
      hide Indexed;
      ghost var ms, its, at := members[..size], iterators[..size], Positions();
      IndexWithout(ms, its, at, mpos);
      assert its[mpos] == iterators[mpos] && its[size - 1] == iterators[size - 1];
      map_ := map_ - {iterators[mpos]};
      var last := size - 1;
      if size > 1 && mpos != last {
        iterators[mpos] := iterators[last];
        iterators[mpos].second := mpos;
        members[mpos] := members[last];
        assert Positions() == (at - {its[mpos]})[its[last] := mpos];
      } else {
        assert Positions() == at - {its[mpos]};
      }
      size := size - 1;
      assert members[..size] == SwapRemove(ms, mpos) && iterators[..size] == SwapRemove(its, mpos);
      assert Positions() == if mpos < last then (at - {its[mpos]})[its[last] := mpos] else at - {its[mpos]};
    }

    /** DoEraseMembers: the range leaves the map, then the later members and their iterators move
        down and the map's entries for them are renumbered. */
    method DoEraseMembers(first: nat, last: nat)
      requires Valid() && 0 < size && first <= last <= size
      modifies this, members, iterators, map_
      ensures Valid() && Contents() == Applied(Erase(first, last), old(Contents()))
      ensures Footprint() <= old(Footprint())
    {
      hide Indexed, Shifted, Moving;
      ghost var ms, its, at := members[..size], iterators[..size], Positions();
      IndexedLength(ms, its, at);
      EraseEntries(first, last);
      assert members[..][..size] == ms && iterators[..][..size] == its;
      MovingStart(members[..], ms, first, last);
      MovingStart(iterators[..], its, first, last);
      if first != last {
        MoveDown(first, last, ms, its, at);
      } else {
        ShiftedByNone(at, first, size);
      }
      ghost var at' := Positions();
      IndexErased(ms, its, at, first, last);
      MovingEnd(members[..], ms, first, last);
      MovingEnd(iterators[..], its, first, last);
      size := size - (last - first);
      assert members[..][..size] == members[..size] && iterators[..][..size] == iterators[..size];
      assert Positions() == at';
    }

    /** The loop of DoEraseMembers. */
    method MoveDown(first: nat, last: nat, ghost ms: seq<Member>, ghost its: seq<MapNode?>, ghost at: map<MapNode, nat>)
      requires first < last <= size == |ms| <= members.Length == iterators.Length && Indexed(ms, its, at)
      requires Moving(members[..], ms, first, last, last) && Moving(iterators[..], its, first, last, last)
      requires Positions() == Shifted(at, first, last, last)
      modifies members, iterators, map_
      ensures Moving(members[..], ms, first, last, size) && Moving(iterators[..], its, first, last, size)
      ensures Positions() == Shifted(at, first, last, size)
    {
      hide Indexed, Shifted, Moving;
      IndexedLength(ms, its, at);
      var itr, next := first, last;
      while next != size
        invariant last <= next <= size && itr == next - (last - first)
        invariant Moving(members[..], ms, first, last, next) && Moving(iterators[..], its, first, last, next)
        invariant Positions() == Shifted(at, first, last, next)
      {
        ShiftedNext(ms, its, at, first, last, next);
        MovingStep(members[..], ms, first, last, next);
        MovingStep(iterators[..], its, first, last, next);
        assert iterators[next] == its[next] && iterators[next] in Positions();
        MoveEntry(itr, next);
        itr, next := itr + 1, next + 1;
      }
    }

    method MoveEntry(itr: nat, next: nat)
      requires itr < members.Length == iterators.Length && next < members.Length
      requires iterators[next] != null && iterators[next] in map_
      modifies members, iterators, map_
      ensures members[..] == old(members[..])[itr := old(members[next])]
      ensures iterators[..] == old(iterators[..])[itr := old(iterators[next])]
      ensures Positions() == old(Positions())[old(iterators[next]) := itr]
    {
      members[itr] := members[next];
      iterators[itr] := iterators[next];
      iterators[itr].second := itr;
    }

    method EraseEntries(first: nat, last: nat)
      requires Valid() && first <= last <= size
      modifies this`map_
      ensures Positions() == Shifted(old(Positions()), first, last, last) && map_ <= old(map_)
    {
      hide Indexed;
      ghost var ms, its, at := members[..size], iterators[..size], Positions();
      var i := first;
      while i < last
        invariant first <= i <= last && map_ <= old(map_)
        invariant Positions() == Shifted(at, first, i, i)
      {
        RangeEntry(ms, its, at, first, i);
        assert its[i] == iterators[i];
        map_ := map_ - {iterators[i]};
        i := i + 1;
      }
    }

    /** DoClearMembers; the storage is kept. */
    method DoClearMembers()
      requires Valid()
      modifies this`size, this`map_
      ensures Valid() && Contents() == [] && map_ == {}
    {
      hide Indexed;
      EraseEntries(0, size);
      EntriesGone(members[..size], iterators[..size], old(Positions()));
      assert Positions() == map[] && map_ == Positions().Keys;
      size := 0;
    }

    /** One operation of a run. */
    method Execute(op: Operation)
      requires Valid() && Allowed(op, Contents())
      modifies Footprint()
      ensures Valid() && Contents() == Applied(op, old(Contents()))
      ensures fresh(Footprint() - old(Footprint()))
    {
      match op {
        case Add(name, value) => DoAddMember(name, value);
        case Remove(i) => DoRemoveMember(i);
        case Erase(i, j) => DoEraseMembers(i, j);
        case Clear => DoClearMembers();
      }
    }

    method Run(ops: seq<Operation>)
      requires Valid() && AllAllowed(ops, Contents())
      modifies Footprint()
      ensures Valid() && Contents() == AllApplied(ops, old(Contents()))
      ensures fresh(Footprint() - old(Footprint()))
    {
      if ops != [] {
        Execute(ops[0]);
        Run(ops[1..]);
      }
    }
  }

  // ---- the build without the map

  class PlainObject {
    var size: nat
    var members: array<Member>

    ghost predicate Valid()
      reads this
    {
      size <= members.Length
    }

    ghost function Contents(): seq<Member>
      reads this, members
      requires Valid()
    {
      members[..size]
    }

    constructor ()
      ensures Valid() && Contents() == [] && fresh(members)
    {
      size := 0;
      members := new Member[0];
    }

    method DoReserveMembers(newCapacity: nat)
      requires Valid()
      modifies this`members
      ensures Valid() && Contents() == old(Contents()) && (members == old(members) || fresh(members))
      ensures members.Length == if newCapacity > old(members.Length) then newCapacity else old(members.Length)
    {
      if newCapacity > members.Length {
        var newMembers := new Member[newCapacity];
        forall i | 0 <= i < members.Length { newMembers[i] := members[i]; }
        members := newMembers;
      }
    }

    /** DoFindMember: the first member of that name. */
    method DoFindMember(name: string) returns (at: nat)
      requires Valid()
      ensures at <= size
      ensures at < size ==> members[at].name == name
      ensures at < size <==> HasName(Contents(), name)
      ensures !HasName(Contents()[..at], name)
    {
      at := 0;
      while at != size
        invariant at <= size && forall i :: 0 <= i < at ==> members[i].name != name
      {
        if members[at].name == name {
          assert Contents()[at].name == name;
          return;
        }
        at := at + 1;
      }
    }

    method DoAddMember(name: string, value: Node)
      requires Valid()
      modifies this, members
      ensures Valid() && Contents() == Applied(Add(name, value), old(Contents()))
      ensures var capacity := old(members.Length);
              members.Length == if old(size) < capacity then capacity
                                else if capacity == 0 then 16 else capacity + (capacity + 1) / 2
      ensures members == old(members) || fresh(members)
    {
      if size >= members.Length {
        var capacity := members.Length;
        DoReserveMembers(if capacity > 0 then capacity + (capacity + 1) / 2 else DEFAULT_OBJECT_CAPACITY);
      }
      members[size] := Member(name, value);
      size := size + 1;
    }

    method DoRemoveMember(m: nat)
      requires Valid() && m < size
      modifies this`size, members
      ensures Valid() && Contents() == Applied(Remove(m), old(Contents()))
    {
      var last := size - 1;
      if size > 1 && m != last { members[m] := members[last]; }
      size := size - 1;
    }

    method DoEraseMembers(first: nat, last: nat)
      requires Valid() && 0 < size && first <= last <= size
      modifies this`size, members
      ensures Valid() && Contents() == Applied(Erase(first, last), old(Contents()))
    {
      forall i | first <= i < size - (last - first) { members[i] := members[i + (last - first)]; }
      size := size - (last - first);
    }

    method DoClearMembers()
      modifies this`size
      ensures Valid() && Contents() == []
    {
      size := 0;
    }

    method Execute(op: Operation)
      requires Valid() && Allowed(op, Contents())
      modifies this, members
      ensures Valid() && Contents() == Applied(op, old(Contents()))
      ensures members == old(members) || fresh(members)
    {
      match op {
        case Add(name, value) => DoAddMember(name, value);
        case Remove(i) => DoRemoveMember(i);
        case Erase(i, j) => DoEraseMembers(i, j);
        case Clear => DoClearMembers();
      }
    }

    method Run(ops: seq<Operation>)
      requires Valid() && AllAllowed(ops, Contents())
      modifies this, members
      ensures Valid() && Contents() == AllApplied(ops, old(Contents()))
      ensures members == old(members) || fresh(members)
    {
      if ops != [] {
        Execute(ops[0]);
        Run(ops[1..]);
      }
    }
  }

  /** Any run on a new object, and one lookup after it, in the build with the map: the map has one
      entry per member, and the lookup finds a member of the name whenever there is one. */
  method MappedRun(ops: seq<Operation>, name: string) returns (contents: seq<Member>, at: nat, entries: nat)
    requires AllAllowed(ops, [])
    ensures contents == AllApplied(ops, []) && entries == |contents|
    ensures at < |contents| <==> HasName(contents, name)
    ensures at < |contents| ==> contents[at].name == name
  {
    hide Indexed, AllApplied, AllAllowed;
    var m := new MappedObject();
    m.Run(ops);
    contents := m.members[..m.size];
    at := m.DoFindMember(name);
    m.EntryCount();
    entries := |m.map_|;
  }

  /** The same in the build without the map: the lookup finds the first member of the name. */
  method PlainRun(ops: seq<Operation>, name: string) returns (contents: seq<Member>, at: nat)
    requires AllAllowed(ops, [])
    ensures contents == AllApplied(ops, []) && at <= |contents|
    ensures at < |contents| ==> contents[at].name == name
    ensures at < |contents| <==> HasName(contents, name)
    ensures !HasName(contents[..at], name)
  {
    hide AllApplied, AllAllowed;
    var p := new PlainObject();
    p.Run(ops);
    contents := p.members[..p.size];
    at := p.DoFindMember(name);
  }

  lemma LaterThanFirst(s: seq<Member>, at: nat, before: nat, name: string)
    requires at < |s| && before <= |s| && s[at].name == name
    ensures at < before ==> HasName(s[..before], name)
  {
    if at < before { assert s[..before][at].name == name; }
  }

  /** Through every run the two builds hold the same members in the same order, and a lookup finds
      a member in one build exactly when it does in the other. */
  method BuildsAgree(ops: seq<Operation>, name: string) returns (contents: seq<Member>, mapped: nat, plain: nat)
    requires AllAllowed(ops, [])
    ensures contents == AllApplied(ops, [])
    ensures mapped < |contents| <==> plain < |contents|
    ensures mapped < |contents| ==> contents[mapped].name == name == contents[plain].name && plain <= mapped
  {
    var same, count;
    contents, mapped, count := MappedRun(ops, name);
    same, plain := PlainRun(ops, name);
    if mapped < |contents| { LaterThanFirst(contents, mapped, plain, name); }
  }
}

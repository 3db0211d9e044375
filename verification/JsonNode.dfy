/** JSON values as trees over handler events, the walk that sends a tree to a handler, and the
    document handler that builds a tree from events. */
module JsonNode {
  import opened JsonText

  /** A scalar is known by the event it sends. */
  datatype Node = Scalar(e: Event) | Array(elems: seq<Node>) | Object(members: seq<Member>)

  datatype Member = Member(name: string, value: Node)

  predicate IsScalar(e: Event) {
    !e.StartObject? && !e.Key? && !e.EndObject? && !e.StartArray? && !e.EndArray?
  }

  /** Scalars are scalars, and every object and array can be counted in a SizeType. */
  predicate WellFormed(n: Node) {
    match n
    case Scalar(e) => IsScalar(e)
    case Array(es) => |es| < SIZE_TYPE_RANGE && forall k :: 0 <= k < |es| ==> WellFormed(es[k])
    case Object(ms) => |ms| < SIZE_TYPE_RANGE && forall k :: 0 <= k < |ms| ==> WellFormed(ms[k].value)
  }

  /** GenericValue::Accept. */
  function Accept(n: Node): seq<Event>
    decreases n, 1
  {
    match n
    case Scalar(e) => [e]
    case Array(es) => [StartArray] + AcceptElems(es) + [EndArray(|es|)]
    case Object(ms) => [StartObject] + AcceptMembers(ms) + [EndObject(|ms|)]
  }

  function AcceptElems(es: seq<Node>): seq<Event>
    decreases es, 0
  {
    if es == [] then [] else Accept(es[0]) + AcceptElems(es[1..])
  }

  function AcceptMembers(ms: seq<Member>): seq<Event>
    decreases ms, 0
  {
    if ms == [] then [] else [Key(ms[0].name)] + Accept(ms[0].value) + AcceptMembers(ms[1..])
  }

  // ---- numbers in a document

  /** The integer an event carries. */
  function Integer(e: Event): int
    requires e.Int? || e.Uint? || e.Int64? || e.Uint64?
  {
    match e
    case Int(i) => i
    case Uint(u) => u
    case Int64(i) => i
    case Uint64(u) => u
  }

  predicate IsInteger(e: Event) { e.Int? || e.Uint? || e.Int64? || e.Uint64? }

  /** What Accept sends for a stored integer: the first of four types that holds it. */
  function IntegerOf(n: int): Event {
    if -0x8000_0000 <= n < 0x8000_0000 then Int(n)
    else if 0 <= n <= UINT32_MAX then Uint(n)
    else if n < 0x8000_0000_0000_0000 then Int64(n)
    else Uint64(n)
  }

  /** The scalar that a document keeps for an event: numbers forget how they arrived. */
  function Stored(e: Event): Event { if IsInteger(e) then IntegerOf(Integer(e)) else e }

  function StoredNode(n: Node): Node {
    match n
    case Scalar(e) => Scalar(Stored(e))
    case Array(es) => Array(seq(|es|, k requires 0 <= k < |es| => StoredNode(es[k])))
    case Object(ms) =>
      Object(seq(|ms|, k requires 0 <= k < |ms| => Member(ms[k].name, StoredNode(ms[k].value))))
  }

  /** An event of the reader: its integer fits the type that carries it. */
  predicate Typed(e: Event) {
    match e
    case Int(i) => -0x8000_0000 <= i <= 0x7FFF_FFFF
    case Uint(u) => u <= 0xFFFF_FFFF
    case Int64(i) => -0x8000_0000_0000_0000 <= i <= 0x7FFF_FFFF_FFFF_FFFF
    case Uint64(u) => u <= 0xFFFF_FFFF_FFFF_FFFF
    case _ => true
  }

  /** The event carries the integer v, in the first type of Int, Uint, Int64 and Uint64 that holds it. */
  predicate HoldsInteger(e: Event, v: int) {
    match e
    case Int(i) => i == v && -0x8000_0000 <= v <= 0x7FFF_FFFF
    case Uint(u) => u == v && 0x8000_0000 <= v <= 0xFFFF_FFFF
    case Int64(i) =>
      i == v && (-0x8000_0000_0000_0000 <= v < -0x8000_0000 || 0x1_0000_0000 <= v <= 0x7FFF_FFFF_FFFF_FFFF)
    case Uint64(u) => u == v && 0x8000_0000_0000_0000 <= v <= 0xFFFF_FFFF_FFFF_FFFF
    case _ => false
  }

  /** b is what a document keeps of the scalar a. */
  predicate Keeps(a: Event, b: Event) {
    match a
    case Int(i) => HoldsInteger(b, i)
    case Uint(u) => HoldsInteger(b, u)
    case Int64(i) => HoldsInteger(b, i)
    case Uint64(u) => HoldsInteger(b, u)
    case _ => b == a
  }

  lemma StoredKeeps(e: Event)
    requires Typed(e)
    ensures Keeps(e, Stored(e))
  {
  }

  // ---- how a number is stored: 64 bits, and flags for the types that can hold it

  datatype Number = Number(bits: nat, isInt: bool, isUint: bool, isInt64: bool, isUint64: bool)

  /** Two's complement. */
  function Bits(i: int): nat { i % 0x1_0000_0000_0000_0000 }

  function Signed(bits: nat, half: nat): int { if bits < half then bits else bits - 2 * half }

  /** The constructors of a number value. */
  function Construct(e: Event): Number
    requires IsInteger(e)
  {
    match e
    case Int(i) => Number(Bits(i), true, i >= 0, true, i >= 0)
    case Uint(u) => Number(u, u < 0x8000_0000, true, true, true)
    case Int64(i) => Number(Bits(i), -0x8000_0000 <= i < 0x8000_0000, 0 <= i < 0x1_0000_0000, true, i >= 0)
    case Uint64(u) => Number(u, u < 0x8000_0000, u < 0x1_0000_0000, u < 0x8000_0000_0000_0000, true)
  }

  /** The branch of Accept for numbers. */
  function Send(n: Number): Event {
    if n.isInt then Int(Signed(n.bits % 0x1_0000_0000, 0x8000_0000))
    else if n.isUint then Uint(n.bits % 0x1_0000_0000)
    else if n.isInt64 then Int64(Signed(n.bits, 0x8000_0000_0000_0000))
    else Uint64(n.bits)
  }

  /** Bits and flags keep the integer, and name the type that it is sent in. */
  lemma ConstructThenSend(e: Event)
    requires IsInteger(e) && Typed(e)
    ensures Send(Construct(e)) == Stored(e) && Keeps(e, Send(Construct(e)))
  {
    var v := Integer(e);
    if v < 0 { assert Bits(v) == v + 0x1_0000_0000_0000_0000; } else { assert Bits(v) == v; }
    if -0x8000_0000 <= v < 0 { assert Bits(v) % 0x1_0000_0000 == v + 0x1_0000_0000; }
  }

  predicate TypedNode(n: Node) {
    match n
    case Scalar(e) => Typed(e)
    case Array(es) => forall k :: 0 <= k < |es| ==> TypedNode(es[k])
    case Object(ms) => forall k :: 0 <= k < |ms| ==> TypedNode(ms[k].value)
  }

  /** The same value, with every scalar as a document keeps it. */
  predicate KeepsNode(n: Node, m: Node) {
    match n
    case Scalar(e) => m.Scalar? && Keeps(e, m.e)
    case Array(es) => m.Array? && |m.elems| == |es| && forall k :: 0 <= k < |es| ==> KeepsNode(es[k], m.elems[k])
    case Object(ms) =>
      && m.Object? && |m.members| == |ms|
      && forall k :: 0 <= k < |ms| ==> m.members[k].name == ms[k].name && KeepsNode(ms[k].value, m.members[k].value)
  }

  lemma {:induction false} StoredNodeKeeps(n: Node)
    requires TypedNode(n)
    ensures KeepsNode(n, StoredNode(n))
    decreases n
  {
    match n
    case Scalar(e) => StoredKeeps(e);
    case Array(es) =>
      forall k | 0 <= k < |es| ensures KeepsNode(es[k], StoredNode(es[k])) { StoredNodeKeeps(es[k]); }
    case Object(ms) =>
      forall k | 0 <= k < |ms| ensures KeepsNode(ms[k].value, StoredNode(ms[k].value)) {
        StoredNodeKeeps(ms[k].value);
      }
  }

  // ---- the document handler

  /** One event's effect on the stack of values; None where the cast to Member would meet a name
      that is not a string, or the stack has too little on it. */
  function Handle(stack: seq<Node>, e: Event): Option<seq<Node>> {
    match e
    case StartObject => Some(stack + [Object([])])
    case StartArray => Some(stack + [Array([])])
    case Key(name) => Some(stack + [Scalar(String(name))])
    case EndArray(n) =>
      if |stack| < n + 1 then None
      else Some(stack[..|stack| - n - 1] + [Array(stack[|stack| - n..])])
    case EndObject(n) =>
      if |stack| < 2 * n + 1 || !Paired(stack[|stack| - 2 * n..]) then None
      else Some(stack[..|stack| - 2 * n - 1] + [Object(Pairs(stack[|stack| - 2 * n..]))])
    case _ => Some(stack + [Scalar(Stored(e))])
  }

  /** Two values are a member when the first is a string. */
  predicate Paired(vs: seq<Node>) {
    |vs| % 2 == 0 && forall k :: 0 <= k < |vs| / 2 ==> vs[2 * k].Scalar? && vs[2 * k].e.String?
  }

  function Pairs(vs: seq<Node>): seq<Member>
    requires Paired(vs)
  {
    seq(|vs| / 2, k requires 0 <= k < |vs| / 2 => Member(vs[2 * k].e.str, vs[2 * k + 1]))
  }

  function HandleAll(stack: seq<Node>, es: seq<Event>): Option<seq<Node>>
    decreases |es|
  {
    if es == [] then Some(stack)
    else
      match Handle(stack, es[0])
      case None => None
      case Some(next) => HandleAll(next, es[1..])
  }

  class GenericDocument {
    var stack: seq<Node>

    constructor ()
      ensures stack == []
    {
      stack := [];
    }

    method Scalar(e: Event)
      requires IsScalar(e)
      modifies this
      ensures Some(stack) == Handle(old(stack), e)
      ensures Typed(e) ==> |stack| == |old(stack)| + 1 && KeepsNode(Node.Scalar(e), stack[|old(stack)|])
    {
      if Typed(e) { StoredKeeps(e); }
      stack := stack + [Node.Scalar(Stored(e))];
    }

    method StartObject()
      modifies this
      ensures Some(stack) == Handle(old(stack), Event.StartObject)
    {
      stack := stack + [Object([])];
    }

    method Key(name: string)
      modifies this
      ensures Some(stack) == Handle(old(stack), Event.Key(name))
    {
      Scalar(String(name));
    }

    /** The top values are popped as members and become the content of the value below them. */
    method EndObject(memberCount: nat)
      requires Handle(stack, Event.EndObject(memberCount)).Some?
      modifies this
      ensures Some(stack) == Handle(old(stack), Event.EndObject(memberCount))
    {
      var members := stack[|stack| - 2 * memberCount..];
      stack := stack[..|stack| - 2 * memberCount];
      stack := stack[|stack| - 1 := Object(Pairs(members))];
      assert stack == old(stack)[..|stack| - 1] + [Object(Pairs(members))];
    }

    method StartArray()
      modifies this
      ensures Some(stack) == Handle(old(stack), Event.StartArray)
    {
      stack := stack + [Array([])];
    }

    method EndArray(elementCount: nat)
      requires Handle(stack, Event.EndArray(elementCount)).Some?
      modifies this
      ensures Some(stack) == Handle(old(stack), Event.EndArray(elementCount))
    {
      var elements := stack[|stack| - elementCount..];
      stack := stack[..|stack| - elementCount];
      stack := stack[|stack| - 1 := Array(elements)];
      assert stack == old(stack)[..|stack| - 1] + [Array(elements)];
    }
  }

  // ---- what the handler builds

  lemma {:induction false} HandleSplit(stack: seq<Node>, a: seq<Event>, b: seq<Event>)
    ensures HandleAll(stack, a + b) ==
            match HandleAll(stack, a)
            case None => None
            case Some(next) => HandleAll(next, b)
    decreases |a|
  {
    if a == [] {
      assert a + b == b;
    } else {
      assert (a + b)[1..] == a[1..] + b;
      match Handle(stack, a[0]) {
        case None =>
        case Some(next) => HandleSplit(next, a[1..], b);
      }
    }
  }

  /** Closing brackets turn the values since the opening one into its content. */
  lemma ClosesArray(stack: seq<Node>, open: Node, vs: seq<Node>)
    ensures Handle(stack + [open] + vs, EndArray(|vs|)) == Some(stack + [Array(vs)])
  {
    var all := stack + [open] + vs;
    assert all[|all| - |vs|..] == vs && all[..|all| - |vs| - 1] == stack;
  }

  lemma ClosesObject(stack: seq<Node>, open: Node, vs: seq<Node>, n: nat)
    requires |vs| == 2 * n && Paired(vs)
    ensures Handle(stack + [open] + vs, EndObject(n)) == Some(stack + [Object(Pairs(vs))])
  {
    hide Paired, Pairs;
    var all := stack + [open] + vs;
    assert all[|all| - 2 * n..] == vs && all[..|all| - 2 * n - 1] == stack;
  }

  lemma HandleThrough(stack: seq<Node>, first: Event, body: seq<Event>, last: Event)
    ensures HandleAll(stack, [first] + body + [last]) ==
            match Handle(stack, first)
            case None => None
            case Some(a) =>
              match HandleAll(a, body)
              case None => None
              case Some(b) => Handle(b, last)
  {
    hide Handle;
    assert [first] + body + [last] == [first] + (body + [last]);
    HandleSplit(stack, [first], body + [last]);
    match Handle(stack, first) {
      case None =>
      case Some(a) =>
        HandleSplit(a, body, [last]);
        match HandleAll(a, body) {
          case None =>
          case Some(b) => assert HandleAll(b, [last]) == Handle(b, last);
        }
    }
  }

  /** Sending a value to a document pushes exactly that value and leaves the stack below as it was. */
  lemma {:induction false} AcceptBuilds(n: Node, stack: seq<Node>)
    requires WellFormed(n)
    ensures HandleAll(stack, Accept(n)) == Some(stack + [StoredNode(n)])
    decreases n, 1
  {
    match n
    case Scalar(e) =>
      assert HandleAll(stack, [e]) == Handle(stack, e);
    case Array(es) =>
      HandleThrough(stack, StartArray, AcceptElems(es), EndArray(|es|));
      ElemsBuild(es, stack + [Array([])]);
      ClosesArray(stack, Array([]), StoredNode(n).elems);
    case Object(ms) =>
      HandleThrough(stack, StartObject, AcceptMembers(ms), EndObject(|ms|));
      MembersBuild(ms, stack + [Object([])]);
      FlatPairs(ms);
      hide Paired, Pairs;
      ClosesObject(stack, Object([]), Flat(ms), |ms|);
  }

  /** That value has the members, elements, names, strings and numbers of the one sent. */
  lemma AcceptKeeps(n: Node, stack: seq<Node>)
    requires WellFormed(n) && TypedNode(n)
    ensures HandleAll(stack, Accept(n)).Some?
    ensures var r := HandleAll(stack, Accept(n)).value;
            |r| == |stack| + 1 && r[..|stack|] == stack && KeepsNode(n, r[|stack|])
  {
    AcceptBuilds(n, stack);
    StoredNodeKeeps(n);
  }

  lemma {:induction false} ElemsBuild(es: seq<Node>, stack: seq<Node>)
    requires forall k :: 0 <= k < |es| ==> WellFormed(es[k])
    ensures HandleAll(stack, AcceptElems(es)) ==
            Some(stack + seq(|es|, k requires 0 <= k < |es| => StoredNode(es[k])))
    decreases es, 0
  {
    if es == [] {
      assert stack + seq(|es|, k requires 0 <= k < |es| => StoredNode(es[k])) == stack;
    } else {
      AcceptBuilds(es[0], stack);
      HandleSplit(stack, Accept(es[0]), AcceptElems(es[1..]));
      ElemsBuild(es[1..], stack + [StoredNode(es[0])]);
      assert stack + [StoredNode(es[0])] + seq(|es[1..]|, k requires 0 <= k < |es[1..]| => StoredNode(es[1..][k]))
             == stack + seq(|es|, k requires 0 <= k < |es| => StoredNode(es[k]));
    }
  }

  /** The values that the members of an object leave on the stack. */
  function Flat(ms: seq<Member>): (vs: seq<Node>)
    ensures |vs| == 2 * |ms|
  {
    if ms == [] then [] else [Scalar(String(ms[0].name)), StoredNode(ms[0].value)] + Flat(ms[1..])
  }

  lemma {:induction false} MembersBuild(ms: seq<Member>, stack: seq<Node>)
    requires forall k :: 0 <= k < |ms| ==> WellFormed(ms[k].value)
    ensures HandleAll(stack, AcceptMembers(ms)) == Some(stack + Flat(ms))
    decreases ms, 0
  {
    if ms == [] {
      assert stack + Flat(ms) == stack;
    } else {
      var key, value, rest := [Key(ms[0].name)], Accept(ms[0].value), AcceptMembers(ms[1..]);
      var name, stored := Scalar(String(ms[0].name)), StoredNode(ms[0].value);
      KeyBuilds(ms[0].name, stack);
      AcceptBuilds(ms[0].value, stack + [name]);
      MembersBuild(ms[1..], stack + [name] + [stored]);
      hide Handle, HandleAll, Accept, AcceptMembers, StoredNode;
      HandleThree(stack, key, value, rest);
      assert stack + [name] + [stored] + Flat(ms[1..]) == stack + Flat(ms);
    }
  }

  lemma KeyBuilds(name: string, stack: seq<Node>)
    ensures HandleAll(stack, [Key(name)]) == Some(stack + [Scalar(String(name))])
  {
    assert HandleAll(stack, [Key(name)]) == Handle(stack, Key(name));
  }

  lemma HandleThree(stack: seq<Node>, a: seq<Event>, b: seq<Event>, c: seq<Event>)
    requires HandleAll(stack, a).Some? && HandleAll(HandleAll(stack, a).value, b).Some?
    ensures HandleAll(stack, a + b + c) == HandleAll(HandleAll(HandleAll(stack, a).value, b).value, c)
  {
    hide Handle, HandleAll;
    assert a + b + c == a + (b + c);
    HandleSplit(stack, a, b + c);
    HandleSplit(HandleAll(stack, a).value, b, c);
  }

  lemma {:induction false} FlatPairs(ms: seq<Member>)
    ensures Paired(Flat(ms))
    ensures Pairs(Flat(ms)) == seq(|ms|, k requires 0 <= k < |ms| => Member(ms[k].name, StoredNode(ms[k].value)))
    decreases |ms|
  {
    FlatAt(ms);
  }

  lemma {:induction false} FlatAt(ms: seq<Member>)
    ensures forall k :: 0 <= k < |ms| ==>
              Flat(ms)[2 * k] == Scalar(String(ms[k].name)) && Flat(ms)[2 * k + 1] == StoredNode(ms[k].value)
    decreases |ms|
  {
    if ms != [] {
      FlatAt(ms[1..]);
      forall k | 0 <= k < |ms|
        ensures Flat(ms)[2 * k] == Scalar(String(ms[k].name)) && Flat(ms)[2 * k + 1] == StoredNode(ms[k].value)
      {
        if k > 0 {
          assert Flat(ms)[2 * k] == Flat(ms[1..])[2 * (k - 1)];
          assert Flat(ms)[2 * k + 1] == Flat(ms[1..])[2 * (k - 1) + 1];
        }
      }
    }
  }

  /** A value that came out of a document goes into another one unchanged. */
  lemma {:induction false} StoredTwice(n: Node)
    ensures StoredNode(StoredNode(n)) == StoredNode(n)
    decreases n
  {
    match n
    case Scalar(e) =>
    case Array(es) =>
      forall k | 0 <= k < |es| ensures StoredNode(StoredNode(es[k])) == StoredNode(es[k]) { StoredTwice(es[k]); }
    case Object(ms) =>
      forall k | 0 <= k < |ms| ensures StoredNode(StoredNode(ms[k].value)) == StoredNode(ms[k].value) {
        StoredTwice(ms[k].value);
      }
  }

  /** GenericValue::Accept with a document as its handler, which is how a document is copied. */
  method AcceptInto(n: Node, d: GenericDocument)
    requires WellFormed(n)
    modifies d
    ensures d.stack == old(d.stack) + [StoredNode(n)]
    ensures TypedNode(n) ==> KeepsNode(n, d.stack[|old(d.stack)|])
    decreases n, 1
  {
    if TypedNode(n) { StoredNodeKeeps(n); }
    match n
    case Scalar(e) =>
      d.Scalar(e);
    case Array(es) =>
      d.StartArray();
      AcceptElemsInto(n, d);
      ClosesArray(old(d.stack), Array([]), StoredNode(n).elems);
      d.EndArray(|es|);
    case Object(ms) =>
      d.StartObject();
      AcceptMembersInto(n, d);
      FlatPairs(ms);
      ClosesObject(old(d.stack), Object([]), Flat(ms), |ms|);
      d.EndObject(|ms|);
  }

  method AcceptElemsInto(n: Node, d: GenericDocument)
    requires n.Array? && WellFormed(n)
    modifies d
    ensures d.stack == old(d.stack) + StoredNode(n).elems
    decreases n, 0
  {
    for k := 0 to |n.elems|
      invariant d.stack == old(d.stack) + StoredNode(n).elems[..k]
    {
      AcceptInto(n.elems[k], d);
      assert StoredNode(n).elems[..k] + [StoredNode(n.elems[k])] == StoredNode(n).elems[..k + 1];
    }
    assert StoredNode(n).elems[..|n.elems|] == StoredNode(n).elems;
  }

  method AcceptMembersInto(n: Node, d: GenericDocument)
    requires n.Object? && WellFormed(n)
    modifies d
    ensures d.stack == old(d.stack) + Flat(n.members)
    decreases n, 0
  {
    assert n.members[..0] == [];
    for k := 0 to |n.members|
      invariant d.stack == old(d.stack) + Flat(n.members[..k])
    {
      d.Key(n.members[k].name);
      AcceptInto(n.members[k].value, d);
      FlatGrows(n.members, k);
    }
    assert n.members[..|n.members|] == n.members;
  }

  lemma {:induction false} FlatGrows(ms: seq<Member>, k: nat)
    requires k < |ms|
    ensures Flat(ms[..k + 1]) == Flat(ms[..k]) + [Scalar(String(ms[k].name)), StoredNode(ms[k].value)]
    decreases k
  {
    if k > 0 {
      assert ms[..k + 1][1..] == ms[1..][..k] && ms[..k][1..] == ms[1..][..k - 1];
      FlatGrows(ms[1..], k - 1);
    }
  }
}

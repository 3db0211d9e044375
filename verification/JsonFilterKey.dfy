/** FilterKeyHandler: it forwards events without the members of one name.  A depth counter skips
    the values of those members, a stack of counts recomputes the sizes of the objects. */
module JsonFilterKey {
  import opened JsonText
  import opened JsonNode

  datatype Filter = Filter(out: seq<Event>, depth: nat, counts: seq<nat>)

  /** At the end of a value: a filtered member's value is over when one level is left. */
  function EndValue(st: Filter): Filter { if st.depth == 1 then st.(depth := 0) else st }

  /** One event; None where the handler would take the top of an empty stack. */
  function Step(key: string, st: Filter, e: Event): Option<Filter> {
    if st.depth > 0 then
      match e
      case StartObject | StartArray => Some(st.(depth := Increment(st.depth)))
      case Key(_) => Some(st)
      case EndObject(_) | EndArray(_) => Some(EndValue(st.(depth := st.depth - 1)))
      case _ => Some(EndValue(st))
    else
      match e
      case StartObject => Some(st.(counts := st.counts + [0], out := st.out + [e]))
      case Key(name) =>
        if name == key then Some(st.(depth := 1))
        else if st.counts == [] then None
        else
          var top := |st.counts| - 1;
          Some(st.(counts := st.counts[top := Increment(st.counts[top])], out := st.out + [e]))
      case EndObject(_) =>
        if st.counts == [] then None
        else
          var top := |st.counts| - 1;
          Some(st.(counts := st.counts[..top], out := st.out + [EndObject(st.counts[top])]))
      case _ => Some(st.(out := st.out + [e]))
  }

  function StepAll(key: string, st: Filter, es: seq<Event>): Option<Filter>
    decreases |es|
  {
    if es == [] then Some(st)
    else
      match Step(key, st, es[0])
      case None => None
      case Some(next) => StepAll(key, next, es[1..])
  }

  class FilterKeyHandler {
    const key: string
    var out: seq<Event>
    var filterValueDepth: nat
    var filteredKeyCount: seq<nat>

    ghost function State(): Filter
      reads this
    {
      Filter(out, filterValueDepth, filteredKeyCount)
    }

    constructor (key: string)
      ensures this.key == key && State() == Filter([], 0, [])
    {
      this.key := key;
      out, filterValueDepth, filteredKeyCount := [], 0, [];
    }

    method FinishValue()
      modifies this
      ensures State() == EndValue(old(State()))
    {
      if filterValueDepth == 1 { filterValueDepth := 0; }
    }

    method Scalar(e: Event)
      requires IsScalar(e)
      modifies this
      ensures Some(State()) == Step(key, old(State()), e)
    {
      if filterValueDepth == 0 { out := out + [e]; }
      FinishValue();
    }

    method StartObject()
      modifies this
      ensures Some(State()) == Step(key, old(State()), Event.StartObject)
    {
      if filterValueDepth > 0 {
        filterValueDepth := Increment(filterValueDepth);
      } else {
        filteredKeyCount := filteredKeyCount + [0];
        out := out + [Event.StartObject];
      }
    }

    method Key(name: string)
      requires Step(key, State(), Event.Key(name)).Some?
      modifies this
      ensures Some(State()) == Step(key, old(State()), Event.Key(name))
    {
      if filterValueDepth > 0 {
      } else if name == key {
        filterValueDepth := 1;
      } else {
        var top := |filteredKeyCount| - 1;
        filteredKeyCount := filteredKeyCount[top := Increment(filteredKeyCount[top])];
        out := out + [Event.Key(name)];
      }
    }

    method EndObject(memberCount: nat)
      requires Step(key, State(), Event.EndObject(memberCount)).Some?
      modifies this
      ensures Some(State()) == Step(key, old(State()), Event.EndObject(memberCount))
    {
      if filterValueDepth > 0 {
        filterValueDepth := filterValueDepth - 1;
      } else {
        var top := |filteredKeyCount| - 1;
        var count := filteredKeyCount[top];
        filteredKeyCount := filteredKeyCount[..top];
        out := out + [Event.EndObject(count)];
      }
      FinishValue();
    }

    method StartArray()
      modifies this
      ensures Some(State()) == Step(key, old(State()), Event.StartArray)
    {
      if filterValueDepth > 0 {
        filterValueDepth := Increment(filterValueDepth);
      } else {
        out := out + [Event.StartArray];
      }
    }

    method EndArray(elementCount: nat)
      modifies this
      ensures Some(State()) == Step(key, old(State()), Event.EndArray(elementCount))
    {
      if filterValueDepth > 0 {
        filterValueDepth := filterValueDepth - 1;
      } else {
        out := out + [Event.EndArray(elementCount)];
      }
      FinishValue();
    }

    /** Receives one event. */
    method Receive(e: Event)
      requires Step(key, State(), e).Some?
      modifies this
      ensures Some(State()) == Step(key, old(State()), e)
    {
      match e
      case StartObject => StartObject();
      case Key(name) => Key(name);
      case EndObject(n) => EndObject(n);
      case StartArray => StartArray();
      case EndArray(n) => EndArray(n);
      case _ => Scalar(e);
    }

    method ReceiveAll(es: seq<Event>)
      requires StepAll(key, State(), es).Some?
      modifies this
      ensures Some(State()) == StepAll(key, old(State()), es)
    {
      hide Step;
      for k := 0 to |es|
        invariant StepAll(key, State(), es[k..]) == StepAll(key, old(State()), es)
      {
        assert es[k..][1..] == es[k + 1..];
        Receive(es[k]);
      }
    }
  }

  /** A value sent through a fresh handler comes out without the members of the name. */
  method FilterValue(key: string, n: Node, ghost d: nat) returns (out: seq<Event>)
    requires WellFormed(n) && Shallow(n, d) && d + 1 < SIZE_TYPE_RANGE
    ensures out == Accept(Without(key, n))
  {
    var handler := new FilterKeyHandler(key);
    Filters(key, n, handler.State(), d);
    handler.ReceiveAll(Accept(n));
    return handler.out;
  }

  // ---- the transformation of trees

  /** The tree without the members of the name, at every depth. */
  function Without(key: string, n: Node): Node
    decreases n, 1
  {
    match n
    case Scalar(_) => n
    case Array(es) => Array(ElemsWithout(key, es))
    case Object(ms) => Object(MembersWithout(key, ms))
  }

  function ElemsWithout(key: string, es: seq<Node>): (r: seq<Node>)
    ensures |r| == |es|
    decreases es, 0
  {
    if es == [] then [] else [Without(key, es[0])] + ElemsWithout(key, es[1..])
  }

  function MembersWithout(key: string, ms: seq<Member>): (r: seq<Member>)
    ensures |r| <= |ms|
    ensures forall k :: 0 <= k < |r| ==> r[k].name != key
    decreases ms, 0
  {
    if ms == [] then []
    else if ms[0].name == key then MembersWithout(key, ms[1..])
    else [Member(ms[0].name, Without(key, ms[0].value))] + MembersWithout(key, ms[1..])
  }

  /** The tree's objects and arrays nest less than d deep. */
  predicate Shallow(n: Node, d: nat)
    decreases n
  {
    match n
    case Scalar(_) => true
    case Array(es) => d > 0 && forall k :: 0 <= k < |es| ==> Shallow(es[k], d - 1)
    case Object(ms) => d > 0 && forall k :: 0 <= k < |ms| ==> Shallow(ms[k].value, d - 1)
  }

  lemma {:induction false} StepSplit(key: string, st: Filter, a: seq<Event>, b: seq<Event>)
    ensures StepAll(key, st, a + b) ==
            match StepAll(key, st, a)
            case None => None
            case Some(next) => StepAll(key, next, b)
    decreases |a|
  {
    if a == [] {
      assert a + b == b;
    } else {
      assert (a + b)[1..] == a[1..] + b;
      match Step(key, st, a[0]) {
        case None =>
        case Some(next) => StepSplit(key, next, a[1..], b);
      }
    }
  }

  lemma StepThrough(key: string, st: Filter, first: Event, body: seq<Event>, last: Event)
    ensures StepAll(key, st, [first] + body + [last]) ==
            match Step(key, st, first)
            case None => None
            case Some(a) =>
              match StepAll(key, a, body)
              case None => None
              case Some(b) => Step(key, b, last)
  {
    assert [first] + body + [last] == [first] + (body + [last]);
    StepSplit(key, st, [first], body + [last]);
    match Step(key, st, first) {
      case None =>
      case Some(a) =>
        StepSplit(key, a, body, [last]);
        match StepAll(key, a, body) {
          case None =>
          case Some(b) => assert StepAll(key, b, [last]) == Step(key, b, last);
        }
    }
  }

  /** Inside a filtered member a value leaves no trace but the end of its level. */
  lemma {:induction false} Skips(key: string, n: Node, st: Filter, d: nat)
    requires WellFormed(n) && Shallow(n, d) && 0 < st.depth && st.depth + d < SIZE_TYPE_RANGE
    ensures StepAll(key, st, Accept(n)) == Some(EndValue(st))
    decreases n, 1
  {
    match n
    case Scalar(e) =>
      assert StepAll(key, st, [e]) == Step(key, st, e);
    case Array(es) =>
      SkipsBrackets(key, st, StartArray, EndArray(|es|));
      StepThrough(key, st, StartArray, AcceptElems(es), EndArray(|es|));
      hide Step, EndValue;
      SkipsElems(key, es, st.(depth := st.depth + 1), d - 1);
    case Object(ms) =>
      SkipsBrackets(key, st, StartObject, EndObject(|ms|));
      StepThrough(key, st, StartObject, AcceptMembers(ms), EndObject(|ms|));
      hide Step, EndValue;
      SkipsMembers(key, ms, st.(depth := st.depth + 1), d - 1);
  }

  lemma SkipsBrackets(key: string, st: Filter, open: Event, close: Event)
    requires 0 < st.depth && st.depth + 1 < SIZE_TYPE_RANGE
    requires (open.StartArray? && close.EndArray?) || (open.StartObject? && close.EndObject?)
    ensures Step(key, st, open) == Some(st.(depth := st.depth + 1))
    ensures Step(key, st.(depth := st.depth + 1), close) == Some(EndValue(st))
  {
    assert st.(depth := st.depth + 1).(depth := st.depth) == st;
  }

  lemma {:induction false} SkipsElems(key: string, es: seq<Node>, st: Filter, d: nat)
    requires forall k :: 0 <= k < |es| ==> WellFormed(es[k]) && Shallow(es[k], d)
    requires 1 < st.depth && st.depth + d < SIZE_TYPE_RANGE
    ensures StepAll(key, st, AcceptElems(es)) == Some(st)
    decreases es, 0
  {
    if es != [] {
      StepSplit(key, st, Accept(es[0]), AcceptElems(es[1..]));
      Skips(key, es[0], st, d);
      SkipsElems(key, es[1..], st, d);
    }
  }

  lemma {:induction false} SkipsMembers(key: string, ms: seq<Member>, st: Filter, d: nat)
    requires forall k :: 0 <= k < |ms| ==> WellFormed(ms[k].value) && Shallow(ms[k].value, d)
    requires 1 < st.depth && st.depth + d < SIZE_TYPE_RANGE
    ensures StepAll(key, st, AcceptMembers(ms)) == Some(st)
    decreases ms, 0
  {
    if ms != [] {
      MemberSteps(key, st, ms);
      Skips(key, ms[0].value, st, d);
      SkipsMembers(key, ms[1..], st, d);
    }
  }

  /** The events of a list of members: a name, a value, the other members. */
  lemma MemberSteps(key: string, st: Filter, ms: seq<Member>)
    requires ms != []
    ensures StepAll(key, st, AcceptMembers(ms)) ==
            match Step(key, st, Key(ms[0].name))
            case None => None
            case Some(named) =>
              match StepAll(key, named, Accept(ms[0].value))
              case None => None
              case Some(next) => StepAll(key, next, AcceptMembers(ms[1..]))
  {
    var name, value, rest := [Key(ms[0].name)], Accept(ms[0].value), AcceptMembers(ms[1..]);
    assert name + value + rest == name + (value + rest);
    StepSplit(key, st, name, value + rest);
    match Step(key, st, name[0]) {
      case None =>
      case Some(named) =>
        assert StepAll(key, st, name) == Some(named);
        StepSplit(key, named, value, rest);
    }
  }

  /** Fed a value, the handler forwards the events of the value without the members of the name,
      sizes included, and is back in its starting state. */
  lemma {:induction false} Filters(key: string, n: Node, st: Filter, d: nat)
    requires WellFormed(n) && Shallow(n, d) && d + 1 < SIZE_TYPE_RANGE && st.depth == 0
    ensures StepAll(key, st, Accept(n)) == Some(st.(out := st.out + Accept(Without(key, n))))
    decreases n, 1
  {
    match n
    case Scalar(e) =>
      assert StepAll(key, st, [e]) == Step(key, st, e);
    case Array(es) =>
      StepThrough(key, st, StartArray, AcceptElems(es), EndArray(|es|));
      var open := st.(out := st.out + [StartArray]);
      FiltersElems(key, es, open, d - 1);
      var body := AcceptElems(ElemsWithout(key, es));
      Join(st.out, [StartArray], body, [EndArray(|es|)]);
    case Object(ms) =>
      StepThrough(key, st, StartObject, AcceptMembers(ms), EndObject(|ms|));
      var open := st.(out := st.out + [StartObject], counts := st.counts + [0]);
      var kept := MembersWithout(key, ms);
      FiltersMembers(key, ms, open, st.counts, 0, d - 1);
      var last := open.(out := open.out + AcceptMembers(kept), counts := st.counts + [|kept|]);
      CloseKept(key, last, st.counts, |kept|, |ms|);
      Join(st.out, [StartObject], AcceptMembers(kept), [EndObject(|kept|)]);
  }

  lemma Join(a: seq<Event>, b: seq<Event>, c: seq<Event>, d: seq<Event>)
    ensures a + b + c + d == a + (b + c + d)
  {
  }

  lemma CloseKept(key: string, st: Filter, outer: seq<nat>, c: nat, n: nat)
    requires st.depth == 0 && st.counts == outer + [c]
    ensures Step(key, st, EndObject(n)) == Some(st.(out := st.out + [EndObject(c)], counts := outer))
  {
    assert (outer + [c])[..|outer|] == outer;
  }

  lemma DropKey(key: string, st: Filter)
    requires st.depth == 0 && st.counts != []
    ensures Step(key, st, Key(key)) == Some(st.(depth := 1))
  {
  }

  lemma KeepKey(key: string, st: Filter, outer: seq<nat>, c: nat, name: string)
    requires st.depth == 0 && st.counts == outer + [c] && name != key && c + 1 < SIZE_TYPE_RANGE
    ensures Step(key, st, Key(name)) == Some(st.(out := st.out + [Key(name)], counts := outer + [c + 1]))
  {
    assert (outer + [c])[|outer| := c + 1] == outer + [c + 1];
  }

  lemma {:induction false} FiltersElems(key: string, es: seq<Node>, st: Filter, d: nat)
    requires forall k :: 0 <= k < |es| ==> WellFormed(es[k]) && Shallow(es[k], d)
    requires d + 2 < SIZE_TYPE_RANGE && st.depth == 0
    ensures StepAll(key, st, AcceptElems(es)) == Some(st.(out := st.out + AcceptElems(ElemsWithout(key, es))))
    decreases es, 0
  {
    if es == [] {
      assert st.out + [] == st.out;
    } else {
      hide Step;
      var value, rest := Accept(Without(key, es[0])), ElemsWithout(key, es[1..]);
      StepSplit(key, st, Accept(es[0]), AcceptElems(es[1..]));
      Filters(key, es[0], st, d);
      FiltersElems(key, es[1..], st.(out := st.out + value), d);
      assert ElemsWithout(key, es)[1..] == rest;
      ConcatAssociative(st.out, value, AcceptElems(rest));
    }
  }

  lemma {:induction false} FiltersMembers(
    key: string, ms: seq<Member>, st: Filter, outer: seq<nat>, c: nat, d: nat)
    requires forall k :: 0 <= k < |ms| ==> WellFormed(ms[k].value) && Shallow(ms[k].value, d)
    requires d + 2 < SIZE_TYPE_RANGE && st.depth == 0
    requires st.counts == outer + [c] && c + |ms| < SIZE_TYPE_RANGE
    ensures var kept := MembersWithout(key, ms);
            StepAll(key, st, AcceptMembers(ms)) ==
            Some(st.(out := st.out + AcceptMembers(kept), counts := outer + [c + |kept|]))
    decreases ms, 0
  {
    if ms == [] {
      assert st.out + [] == st.out;
    } else {
      hide Step, StepAll, Without, Accept;
      var rest := MembersWithout(key, ms[1..]);
      MemberSteps(key, st, ms);
      if ms[0].name == key {
        DropKey(key, st);
        Skips(key, ms[0].value, st.(depth := 1), d);
        assert EndValue(st.(depth := 1)) == st;
        FiltersMembers(key, ms[1..], st, outer, c, d);
      } else {
        KeepKey(key, st, outer, c, ms[0].name);
        var name, value := [Key(ms[0].name)], Accept(Without(key, ms[0].value));
        var named := st.(out := st.out + name, counts := outer + [c + 1]);
        Filters(key, ms[0].value, named, d);
        FiltersMembers(key, ms[1..], named.(out := named.out + value), outer, c + 1, d);
        assert MembersWithout(key, ms)[1..] == rest;
        Join(st.out, name, value, AcceptMembers(rest));
      }
    }
  }
}

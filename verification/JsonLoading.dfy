/** Loading an accepted text into a document. */
module JsonLoading {
  import opened JsonText
  import opened JsonNode
  import opened JsonDescent
  import opened JsonLexing
  import opened JsonAcceptance
  import opened JsonNumbers
  import G = JsonGrammar

  /** The value of a tree. */
  function NodeOf(f: Flags, t: G.Tree): Node
    requires G.TreeOk(f, t)
    decreases t, 1
  {
    match t
    case Scalar(l) => Scalar(G.LiteralEvent(f, l))
    case Array(_, es) => Array(ElemsOf(f, es))
    case Object(_, ms) => Object(MembersOf(f, ms))
  }

  function ElemsOf(f: Flags, es: G.Elems): (r: seq<Node>)
    requires G.ElemsOk(f, es)
    ensures |r| == G.ElemCount(es)
    decreases es, 0
  {
    if es.NoElem? then [] else [NodeOf(f, es.v)] + ElemsOf(f, es.rest)
  }

  function MembersOf(f: Flags, ms: G.Membs): (r: seq<Member>)
    requires G.MembsOk(f, ms)
    ensures |r| == G.MembCount(ms)
    decreases ms, 0
  {
    if ms.NoMemb? then []
    else [Member(G.PiecesUnits(f, ms.name), NodeOf(f, ms.v))] + MembersOf(f, ms.rest)
  }

  /** In a text that a SizeType can measure, the events of a tree are those of its value. */
  lemma {:induction false} TreeSendsValue(f: Flags, t: G.Tree)
    requires G.TreeOk(f, t) && |G.Text(t)| < SIZE_TYPE_RANGE
    ensures WellFormed(NodeOf(f, t)) && G.Events(f, t) == Accept(NodeOf(f, t))
    decreases t, 1
  {
    hide G.LiteralOk, G.LiteralEvent, G.LiteralText, G.GapsOk, G.GapsText, IsScalar;
    hide G.ElemsOk, G.ElemsEvents, G.ElemsText, ElemsOf, AcceptElems;
    hide G.MembsOk, G.MembsEvents, G.MembsText, MembersOf, AcceptMembers;
    match t
    case Scalar(l) => ScalarEvent(f, l);
    case Array(_, es) => ElemsSendValues(f, es);
    case Object(_, ms) => MembersSendValues(f, ms);
  }

  lemma ScalarEvent(f: Flags, l: G.Literal)
    requires G.LiteralOk(f, l)
    ensures IsScalar(G.LiteralEvent(f, l))
  {
  }

  lemma {:induction false} ElemsSendValues(f: Flags, es: G.Elems)
    requires G.ElemsOk(f, es) && |G.ElemsText(es)| < SIZE_TYPE_RANGE
    ensures forall k :: 0 <= k < |ElemsOf(f, es)| ==> WellFormed(ElemsOf(f, es)[k])
    ensures G.ElemsEvents(f, es) == AcceptElems(ElemsOf(f, es))
    ensures G.ElemCount(es) < |G.ElemsText(es)|
    decreases es, 0
  {
    if es.Elem? {
      TreeSendsValue(f, es.v);
      ElemsSendValues(f, es.rest);
      assert ElemsOf(f, es)[1..] == ElemsOf(f, es.rest);
    }
  }

  lemma {:induction false} MembersSendValues(f: Flags, ms: G.Membs)
    requires G.MembsOk(f, ms) && |G.MembsText(ms)| < SIZE_TYPE_RANGE
    ensures forall k :: 0 <= k < |MembersOf(f, ms)| ==> WellFormed(MembersOf(f, ms)[k].value)
    ensures G.MembsEvents(f, ms) == AcceptMembers(MembersOf(f, ms))
    ensures G.MembCount(ms) < |G.MembsText(ms)|
    decreases ms, 0
  {
    hide G.PiecesUnits, G.QuotedText, G.PiecesOk;
    if ms.Memb? {
      TreeSendsValue(f, ms.v);
      MembersSendValues(f, ms.rest);
      assert MembersOf(f, ms)[1..] == MembersOf(f, ms.rest);
    }
  }

  // ---- what a document holds of a text

  /** The integer that a literal writes. */
  function WrittenInteger(n: G.Number): int
    requires n.whole.Digits? && AllDigits(n.whole.t)
  {
    if n.minus then -(Decimal(n.whole.t) as int) else Decimal(n.whole.t)
  }

  /** The literal's own value: integers of 64 bits are exact, other numbers keep their literal. */
  predicate LoadsLiteral(f: Flags, l: G.Literal, e: Event)
    requires G.LiteralOk(f, l)
  {
    match l
    case NullWord => e == Null
    case TrueWord => e == Bool(true)
    case FalseWord => e == Bool(false)
    case Quoted(ps) => e == String(G.PiecesUnits(f, ps))
    case Numeric(n) =>
      if n.whole.Digits? && n.fraction == "" && n.exponent == ""
         && -0x8000_0000_0000_0000 <= WrittenInteger(n) <= 0xFFFF_FFFF_FFFF_FFFF
      then HoldsInteger(e, WrittenInteger(n))
      else e == Double(G.NumberText(n))
  }

  /** The value has the tree's shape and names, and its literals' values. */
  predicate Loads(f: Flags, t: G.Tree, n: Node)
    requires G.TreeOk(f, t)
    decreases t, 1
  {
    match t
    case Scalar(l) => n.Scalar? && LoadsLiteral(f, l, n.e)
    case Array(_, es) => n.Array? && LoadsElems(f, es, n.elems)
    case Object(_, ms) => n.Object? && LoadsMembers(f, ms, n.members)
  }

  predicate LoadsElems(f: Flags, es: G.Elems, ns: seq<Node>)
    requires G.ElemsOk(f, es)
    decreases es, 0
  {
    if es.NoElem? then ns == []
    else ns != [] && Loads(f, es.v, ns[0]) && LoadsElems(f, es.rest, ns[1..])
  }

  predicate LoadsMembers(f: Flags, ms: G.Membs, ns: seq<Member>)
    requires G.MembsOk(f, ms)
    decreases ms, 0
  {
    if ms.NoMemb? then ns == []
    else
      && ns != [] && ns[0].name == G.PiecesUnits(f, ms.name) && Loads(f, ms.v, ns[0].value)
      && LoadsMembers(f, ms.rest, ns[1..])
  }

  lemma LiteralLoads(f: Flags, l: G.Literal)
    requires G.LiteralOk(f, l)
    ensures LoadsLiteral(f, l, Stored(G.LiteralEvent(f, l)))
  {
    hide G.PiecesUnits, G.NumberText, Decimal, G.Scale;
    if l.Numeric? && !l.n.whole.Digits? { assert !Stored(G.LiteralEvent(f, l)).Int?; }
  }

  lemma {:induction false} TreeLoads(f: Flags, t: G.Tree)
    requires G.TreeOk(f, t)
    ensures Loads(f, t, StoredNode(NodeOf(f, t)))
    decreases t, 1
  {
    hide G.LiteralOk, G.LiteralEvent, LoadsLiteral, G.GapsOk, G.ElemsOk, G.MembsOk, Stored;
    match t
    case Scalar(l) => LiteralLoads(f, l);
    case Array(_, es) => ElemsLoad(f, es, StoredNode(NodeOf(f, t)).elems);
    case Object(_, ms) => MembersLoad(f, ms, StoredNode(NodeOf(f, t)).members);
  }

  lemma {:induction false} ElemsLoad(f: Flags, es: G.Elems, ns: seq<Node>)
    requires G.ElemsOk(f, es) && |ns| == |ElemsOf(f, es)|
    requires forall k :: 0 <= k < |ns| ==> ns[k] == StoredNode(ElemsOf(f, es)[k])
    ensures LoadsElems(f, es, ns)
    decreases es, 0
  {
    if es.Elem? {
      TreeLoads(f, es.v);
      assert ElemsOf(f, es)[0] == NodeOf(f, es.v) && ElemsOf(f, es)[1..] == ElemsOf(f, es.rest);
      ElemsLoad(f, es.rest, ns[1..]);
    }
  }

  lemma {:induction false} MembersLoad(f: Flags, ms: G.Membs, ns: seq<Member>)
    requires G.MembsOk(f, ms) && |ns| == |MembersOf(f, ms)|
    requires forall k :: 0 <= k < |ns| ==>
               ns[k] == Member(MembersOf(f, ms)[k].name, StoredNode(MembersOf(f, ms)[k].value))
    ensures LoadsMembers(f, ms, ns)
    decreases ms, 0
  {
    hide G.PiecesUnits, G.PiecesOk;
    if ms.Memb? {
      TreeLoads(f, ms.v);
      assert MembersOf(f, ms)[0] == Member(G.PiecesUnits(f, ms.name), NodeOf(f, ms.v));
      assert MembersOf(f, ms)[1..] == MembersOf(f, ms.rest);
      MembersLoad(f, ms.rest, ns[1..]);
    }
  }

  /** After every accepted parse exactly one value is on the document's stack: the value of the
      text's tree, with the integer of the literal at every integer's place. */
  lemma OneRoot(f: Flags, s: string) returns (d: G.Doc, n: Node)
    requires Document(f, s, 0, []).end.Ok? && |s| < SIZE_TYPE_RANGE
    ensures G.DocOk(f, d) && Holds(s, 0, G.DocText(d))
    ensures HandleAll([], Document(f, s, 0, []).log) == Some([n]) && Loads(f, d.root, n)
    ensures n == StoredNode(NodeOf(f, d.root))
  {
    hide Document, G.Events, G.Text, HandleAll, Holds, NodeOf, Loads;
    d := DocumentSound(f, s);
    n := StoredNode(NodeOf(f, d.root));
    TreeLoads(f, d.root);
    HoldsText(s, 0, G.DocText(d));
    TreeSendsValue(f, d.root);
    AcceptBuilds(NodeOf(f, d.root), []);
    assert [] + [n] == [n];
  }
}

/** Resolving a JSON Pointer in a tree, and creating what it points to.  Trees are values here: the
    created tree is given as a result, and a position in it is the list of child numbers that leads
    there. */
module JsonPointerTree {
  import opened JsonText
  import opened JsonNode

  const INVALID_INDEX := 0xFFFF_FFFF

  /** A reference token, with its array index or INVALID_INDEX. */
  datatype Token = Token(name: string, index: nat)

  predicate IsDash(t: Token) { t.name == "-" }

  /** FindMember: the position of the first member of the name, or the number of members. */
  function Find(ms: seq<Member>, name: string): (k: nat)
    ensures k <= |ms| && (k < |ms| ==> ms[k].name == name)
    ensures forall j :: 0 <= j < k ==> ms[j].name != name
  {
    if ms == [] || ms[0].name == name then 0 else 1 + Find(ms[1..], name)
  }

  /** The child that a token leads to. */
  function Child(n: Node, t: Token): Option<nat> {
    match n
    case Object(ms) => if Find(ms, t.name) < |ms| then Some(Find(ms, t.name)) else None
    case Array(es) => if t.index == INVALID_INDEX || t.index >= |es| then None else Some(t.index)
    case Scalar(_) => None
  }

  function At(n: Node, k: nat): Node
    requires (n.Array? && k < |n.elems|) || (n.Object? && k < |n.members|)
  {
    if n.Array? then n.elems[k] else n.members[k].value
  }

  /** Get: the position that the tokens lead to, if there is one. */
  function Get(n: Node, ts: seq<Token>): Option<seq<nat>>
    decreases |ts|
  {
    if ts == [] then Some([])
    else
      match Child(n, ts[0])
      case None => None
      case Some(k) =>
        match Get(At(n, k), ts[1..])
        case None => None
        case Some(path) => Some([k] + path)
  }

  /** The value at a position. */
  function Value(n: Node, path: seq<nat>): Option<Node>
    decreases |path|
  {
    if path == [] then Some(n)
    else if (n.Array? && path[0] < |n.elems|) || (n.Object? && path[0] < |n.members|) then
      Value(At(n, path[0]), path[1..])
    else None
  }

  const NULL := Node.Scalar(Null)

  function Nulls(k: nat): seq<Node> { seq(k, i => NULL) }

  /** What one token makes of a value: the value with the child there, the child's number and
      whether nothing had to be made. */
  function Prepared(n: Node, t: Token): (r: (Node, nat, bool))
    ensures (r.0.Array? && r.1 < |r.0.elems|) || (r.0.Object? && r.1 < |r.0.members|)
  {
    if n.Array? && IsDash(t) then (Array(n.elems + [NULL]), |n.elems|, false)
    else
      var v :=
        if t.index == INVALID_INDEX then (if n.Object? then n else Object([]))
        else if n.Array? || n.Object? then n
        else Array([]);
      if v.Array? then
        if t.index >= |v.elems| then (Array(v.elems + Nulls(t.index + 1 - |v.elems|)), t.index, false)
        else (v, t.index, true)
      else if Find(v.members, t.name) == |v.members| then
        (Object(v.members + [Member(t.name, NULL)]), |v.members|, false)
      else (v, Find(v.members, t.name), true)
  }

  function Replaced(n: Node, k: nat, child: Node): Node
    requires (n.Array? && k < |n.elems|) || (n.Object? && k < |n.members|)
  {
    if n.Array? then Array(n.elems[k := child]) else Object(n.members[k := Member(n.members[k].name, child)])
  }

  datatype Created = Created(tree: Node, path: seq<nat>, exist: bool)

  /** Create: the new tree, the position created or found, and whether it was there before. */
  function Create(n: Node, ts: seq<Token>): Created
    decreases |ts|
  {
    if ts == [] then Created(n, [], true)
    else
      var p := Prepared(n, ts[0]);
      var below := Create(At(p.0, p.1), ts[1..]);
      Created(Replaced(p.0, p.1, below.tree), [p.1] + below.path, p.2 && below.exist)
  }

  /** Is a dash applied to an array on the way? */
  predicate Dashes(n: Node, ts: seq<Token>)
    decreases |ts|
  {
    ts != [] && ((n.Array? && IsDash(ts[0])) || Dashes(At(Prepared(n, ts[0]).0, Prepared(n, ts[0]).1), ts[1..]))
  }

  /** Indices are those of the names: a dash has none. */
  predicate Indexed(ts: seq<Token>) {
    forall i :: 0 <= i < |ts| && IsDash(ts[i]) ==> ts[i].index == INVALID_INDEX
  }

  /** Nothing has to be made for a token exactly when it leads to a child, and then nothing changes. */
  lemma PreparedIsChild(n: Node, t: Token)
    requires IsDash(t) ==> t.index == INVALID_INDEX
    ensures var p := Prepared(n, t);
            && (p.2 <==> Child(n, t).Some?)
            && (p.2 ==> p.0 == n && Child(n, t) == Some(p.1))
            && (!p.2 ==> At(p.0, p.1) == NULL)
  {
  }

  lemma ReplaceSame(n: Node, k: nat)
    requires (n.Array? && k < |n.elems|) || (n.Object? && k < |n.members|)
    ensures Replaced(n, k, At(n, k)) == n
  {
  }

  /** Create says that the value was there exactly when Get would have found it, gives the position
      that Get gives, and leaves the tree as it was. */
  lemma {:induction false} ExistIsGet(n: Node, ts: seq<Token>)
    requires Indexed(ts)
    ensures var c := Create(n, ts);
            && (c.exist <==> Get(n, ts).Some?)
            && (c.exist ==> c.tree == n && Get(n, ts) == Some(c.path))
    decreases |ts|
  {
    hide Prepared, Child;
    if ts != [] {
      var p := Prepared(n, ts[0]);
      PreparedIsChild(n, ts[0]);
      ExistIsGet(At(p.0, p.1), ts[1..]);
      if p.2 { ReplaceSame(n, p.1); }
    }
  }

  /** Find looks at names only. */
  lemma FindIs(ms: seq<Member>, name: string, k: nat)
    requires k <= |ms| && (k < |ms| ==> ms[k].name == name)
    requires forall j :: 0 <= j < k ==> ms[j].name != name
    ensures Find(ms, name) == k
  {
  }

  /** After a token has been prepared it leads to the child there, unless it was a dash on an array. */
  lemma PreparedLeads(n: Node, t: Token, child: Node)
    requires IsDash(t) ==> t.index == INVALID_INDEX
    ensures var p := Prepared(n, t);
            var v := Replaced(p.0, p.1, child);
            && (Child(v, t) == if n.Array? && IsDash(t) then None else Some(p.1))
            && ((v.Array? && p.1 < |v.elems|) || (v.Object? && p.1 < |v.members|))
            && At(v, p.1) == child
  {
    var p := Prepared(n, t);
    var v := Replaced(p.0, p.1, child);
    if v.Object? { FindIs(v.members, t.name, p.1); }
  }

  /** After Create, Get finds the position that was created or found, and what was created is null;
      only a dash applied to an array is not found again. */
  lemma {:induction false} CreatedIsFound(n: Node, ts: seq<Token>)
    requires Indexed(ts)
    ensures var c := Create(n, ts);
            && Get(c.tree, ts) == (if Dashes(n, ts) then None else Some(c.path))
            && Value(c.tree, c.path).Some?
            && (!c.exist ==> Value(c.tree, c.path) == Some(NULL))
    decreases |ts|
  {
    hide Prepared, Child;
    if ts != [] {
      var p := Prepared(n, ts[0]);
      var below := Create(At(p.0, p.1), ts[1..]);
      PreparedIsChild(n, ts[0]);
      PreparedLeads(n, ts[0], below.tree);
      CreatedIsFound(At(p.0, p.1), ts[1..]);
      ExistIsGet(At(p.0, p.1), ts[1..]);
      var c := Create(n, ts);
      assert c.path[0] == p.1 && c.path[1..] == below.path;
      assert Value(c.tree, c.path) == Value(below.tree, below.path);
    }
  }

  // ---- what Create keeps

  /** The value can take the token as it is: Create does not turn it into another type. */
  predicate Takes(n: Node, t: Token) {
    n.Object? || (n.Array? && (t.index != INVALID_INDEX || t.name == "-"))
  }

  /** What the token leads to before anything is made, or null if it leads nowhere. */
  function ChildOrNull(n: Node, t: Token): Node {
    match Child(n, t)
    case Some(k) => At(n, k)
    case None => NULL
  }

  /** One token's work: everything beside the child stays where it was, in its order; an array is
      padded with nulls; a value that cannot take the token is replaced. */
  lemma CreateShape(n: Node, ts: seq<Token>)
    requires ts != [] && Indexed(ts)
    ensures var t, r := ts[0], Create(n, ts);
            var child := Create(ChildOrNull(n, t), ts[1..]).tree;
            match n
            case Object(ms) =>
              r.tree == Object(match Child(n, t)
                               case Some(k) => ms[..k] + [Member(t.name, child)] + ms[k + 1..]
                               case None => ms + [Member(t.name, child)])
            case Array(es) =>
              if t.name == "-" then r.tree == Array(es + [child])
              else if t.index == INVALID_INDEX then r.tree == Object([Member(t.name, child)])
              else
                && r.tree.Array? && |r.tree.elems| == (if t.index < |es| then |es| else t.index + 1)
                && r.tree.elems[t.index] == child
                && (forall j :: 0 <= j < |es| && j != t.index ==> r.tree.elems[j] == es[j])
                && (forall j :: |es| <= j < t.index ==> r.tree.elems[j] == Node.Scalar(Null))
            case Scalar(_) =>
              if t.index == INVALID_INDEX then r.tree == Object([Member(t.name, child)])
              else r.tree == Array(seq(t.index, i => Node.Scalar(Null)) + [child])
  {
    PreparedIsChild(n, ts[0]);
    var t, p := ts[0], Prepared(n, ts[0]);
    var child := Create(ChildOrNull(n, t), ts[1..]).tree;
    assert Create(n, ts).tree == Replaced(p.0, p.1, child);
    if n.Object? && Child(n, t).Some? {
      var k := p.1;
      assert n.members[k := Member(t.name, child)] == n.members[..k] + [Member(t.name, child)] + n.members[k + 1..];
    }
  }

  /** The position lies below no value that Create turns into another type. */
  predicate Spared(n: Node, ts: seq<Token>, q: seq<nat>)
    requires Value(n, q).Some?
    decreases |q|
  {
    ts != [] && q != [] ==>
      && Takes(n, ts[0])
      && (Child(n, ts[0]) == Some(q[0]) ==> Spared(At(n, q[0]), ts[1..], q[1..]))
  }

  /** Every value of the old tree is still at its position in the new one, unless the position is
      on the created path, or below a value that was turned into another type. */
  lemma {:induction false} CreateKeeps(n: Node, ts: seq<Token>, q: seq<nat>)
    requires Indexed(ts) && Value(n, q).Some? && Spared(n, ts, q)
    requires !(q <= Create(n, ts).path)
    ensures Value(Create(n, ts).tree, q) == Value(n, q)
    decreases |ts|
  {
    hide Prepared, Child;
    if ts != [] {
      var c := Create(n, ts);
      var p := Prepared(n, ts[0]);
      PreparedIsChild(n, ts[0]);
      SiblingKept(n, ts, q[0]);
      if q[0] == p.1 {
        var below := Create(At(p.0, p.1), ts[1..]);
        assert Child(n, ts[0]) == Some(q[0]);
        CreateKeeps(At(n, q[0]), ts[1..], q[1..]);
      }
    }
  }

  /** A child of a value that takes the token stays, and only the one on the path may change. */
  lemma SiblingKept(n: Node, ts: seq<Token>, k: nat)
    requires ts != [] && Indexed(ts) && Takes(n, ts[0])
    requires (n.Array? && k < |n.elems|) || (n.Object? && k < |n.members|)
    ensures var r := Create(n, ts).tree;
            && ((r.Array? && k < |r.elems|) || (r.Object? && k < |r.members|))
            && (Prepared(n, ts[0]).1 != k ==> At(r, k) == At(n, k))
            && (Prepared(n, ts[0]).1 == k ==> Child(n, ts[0]) == Some(k)
                                              && At(r, k) == Create(At(n, k), ts[1..]).tree)
  {
    CreateShape(n, ts);
    PreparedIsChild(n, ts[0]);
  }

  // ---- the loop of Get

  function Resolved(n: Node, ts: seq<Token>): Option<Node> {
    match Get(n, ts)
    case None => None
    case Some(path) => Value(n, path)
  }

  lemma OneToken(n: Node, ts: seq<Token>)
    requires ts != []
    ensures Resolved(n, ts) == match Child(n, ts[0])
                               case None => None
                               case Some(k) => Resolved(At(n, k), ts[1..])
  {
    match Child(n, ts[0]) {
      case None =>
      case Some(k) =>
        match Get(At(n, k), ts[1..]) {
          case None =>
          case Some(path) => assert ([k] + path)[1..] == path;
        }
    }
  }

  /** Walks down from the root, and says at which token it had to stop. */
  method Walk(root: Node, ts: seq<Token>) returns (v: Option<Node>, unresolved: nat)
    ensures v == Resolved(root, ts)
    ensures v.None? ==> unresolved < |ts|
  {
    var cur := root;
    for i := 0 to |ts|
      invariant Resolved(cur, ts[i..]) == Resolved(root, ts)
    {
      OneToken(cur, ts[i..]);
      assert ts[i..][1..] == ts[i + 1..];
      match cur {
        case Object(ms) =>
          var k := Find(ms, ts[i].name);
          if k == |ms| { return None, i; }
          cur := ms[k].value;
        case Array(es) =>
          if ts[i].index == INVALID_INDEX || ts[i].index >= |es| { return None, i; }
          cur := es[ts[i].index];
        case Scalar(_) =>
          return None, i;
      }
    }
    return Some(cur), |ts|;
  }
}

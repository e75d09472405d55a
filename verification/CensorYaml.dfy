/**
  Masking the values of a parsed YAML document in place (pkg/adapter/collector/secrets.go:89-109).
 */
module CensorYaml {

  const MASK := "***"

  /** The kinds of the YAML library; Zero is that of the node an empty document leaves. */
  datatype Kind = Document | Sequence | Mapping | Scalar | Alias | Zero

  class Node {
    var kind: Kind
    var value: string
    var content: seq<Node>     // of a mapping: key, value, key, value, ...
    var alias: Node?           // the anchored node an alias stands for; not part of the content
    ghost var reach: set<Node> // this node and everything its content reaches

    constructor (kind: Kind, value: string)
      ensures this.kind == kind && this.value == value && content == [] && alias == null && reach == {this}
    {
      this.kind, this.value, this.content, this.alias := kind, value, [], null;
      this.reach := {this};
    }

    /** The content is finite: no node reaches itself.  Sharing a node is allowed. */
    ghost predicate Finite()
      reads this`content, this`reach, reach`content, reach`reach
      decreases reach
    {
      && this in reach
      && forall c :: c in content ==> c in reach && c.reach <= reach && this !in c.reach && c.Finite()
    }

    /** The parser gives every mapping a value for each key. */
    ghost predicate Paired()
      reads this`reach, reach`kind, reach`content
    {
      forall n :: n in reach && n.kind == Mapping ==> |n.content| % 2 == 0
    }

    /** The child at this position is in a value position: any of a document or sequence, every second of a mapping. */
    ghost predicate IsValue(i: int)
      reads this`kind
    {
      kind == Document || kind == Sequence || (kind == Mapping && i % 2 == 1)
    }

    /** Node n is a scalar that can be reached from here through value positions. */
    ghost predicate Exposes(n: Node)
      requires Finite()
      reads this`kind, this`content, this`reach, reach`kind, reach`content, reach`reach
      decreases reach
    {
      || (kind == Scalar && n == this)
      || ExposesBelow(n, |content|)
    }

    /** ... through one of the first k children. */
    ghost predicate ExposesBelow(n: Node, k: int)
      requires Finite() && k <= |content|
      reads this`kind, this`content, this`reach, reach`kind, reach`content, reach`reach
      decreases reach, 0
    {
      exists i :: 0 <= i < k && IsValue(i) && content[i].Exposes(n)
    }
  }

  /** What a node exposes does not depend on values. */
  lemma {:induction false} ExposedIsReached(node: Node, n: Node)
    requires node.Finite() && node.Exposes(n)
    ensures n in node.reach
    decreases node.reach
  {
    if !(node.kind == Scalar && n == node) {
      var i :| 0 <= i < |node.content| && node.IsValue(i) && node.content[i].Exposes(n);
      assert node.content[i] in node.content;
      ExposedIsReached(node.content[i], n);
    }
  }

  /** One more child exposes what it exposes itself if it is in a value position, all of it within its reach. */
  ghost predicate OneMore(node: Node, n: Node, i: int)
    requires node.Finite() && 0 <= i < |node.content|
    reads node`kind, node`content, node`reach, node.reach`kind, node.reach`content, node.reach`reach
  {
    var child := node.content[i];
    assert child in node.content;
    && (node.ExposesBelow(n, i + 1) <==> node.ExposesBelow(n, i) || (node.IsValue(i) && child.Exposes(n)))
    && (child.Exposes(n) ==> n in child.reach)
  }

  lemma OneMoreChild(node: Node, n: Node, i: int)
    requires node.Finite() && 0 <= i < |node.content|
    ensures OneMore(node, n, i)
  {
    assert node.content[i] in node.content;
    if node.content[i].Exposes(n) {
      ExposedIsReached(node.content[i], n);
    }
  }

  /** One more key and value of a mapping expose what the value exposes. */
  ghost predicate OnePairMore(node: Node, n: Node, i: int)
    requires node.Finite() && 0 <= i && i + 1 < |node.content|
    reads node`kind, node`content, node`reach, node.reach`kind, node.reach`content, node.reach`reach
  {
    var child := node.content[i + 1];
    assert child in node.content;
    && (node.ExposesBelow(n, i + 2) <==> node.ExposesBelow(n, i) || child.Exposes(n))
    && (child.Exposes(n) ==> n in child.reach)
  }

  lemma OnePairMoreChild(node: Node, n: Node, i: int)
    requires node.Finite() && node.kind == Mapping && 0 <= i && i + 1 < |node.content| && i % 2 == 0
    ensures OnePairMore(node, n, i)
  {
    OneMoreChild(node, n, i);
    OneMoreChild(node, n, i + 1);
  }

  twostate lemma ShapeKept(node: Node)
    requires old(node.Finite())
    requires forall m: Node :: m in old(node.reach) ==>
               m.kind == old(m.kind) && m.content == old(m.content) && m.reach == old(m.reach)
    ensures node.Finite() && (old(node.Paired()) ==> node.Paired())
    ensures forall n: Node :: old(allocated(n)) ==> (node.Exposes(n) <==> old(node.Exposes(n)))
  {
  }

  /**
    Masks every scalar in a value position and nothing else.  The frame says the rest: no kind,
    child list or alias is written, and nothing outside the tree.
   */
  method CensorYaml(node: Node)
    requires node.Finite() && node.Paired()
    modifies node.reach`value
    ensures forall n :: n in node.reach ==> n.value == if old(node.Exposes(n)) then MASK else old(n.value)
    decreases node.reach, 1
  {
    match node.kind
    case Document => CensorYamlNode(node);
    case Mapping => CensorMapping(node);
    case Sequence => CensorYamlNode(node);
    case Scalar => node.value := MASK;
    case _ =>
  }

  /** The mapping case of CensorYaml: every second child is a value. */
  method CensorMapping(node: Node)
    requires node.Finite() && node.Paired() && node.kind == Mapping
    modifies node.reach`value
    ensures forall n :: n in node.reach ==> n.value == if old(node.Exposes(n)) then MASK else old(n.value)
    decreases node.reach, 0
  {
    assert node in node.reach;
    forall n, i | 0 <= i && i + 1 < |node.content| && i % 2 == 0 ensures OnePairMore(node, n, i) {
      OnePairMoreChild(node, n, i);
    }
    var i := 0;
    while i < |node.content|
      invariant i % 2 == 0 && |node.content| % 2 == 0 && 0 <= i <= |node.content|
      invariant forall n :: n in node.reach ==>
                  n.value == if old(node.ExposesBelow(n, i)) then MASK else old(n.value)
    {
      var valueNode := node.content[i + 1];
      assert valueNode in node.content;
      ShapeKept(node);
      ShapeKept(valueNode);
      CensorYaml(valueNode);
      forall n | n in node.reach
        ensures n.value == if old(node.ExposesBelow(n, i + 2)) then MASK else old(n.value)
      {
        assert old(OnePairMore(node, n, i));
      }
      i := i + 2;
    }
  }

  method CensorYamlNode(node: Node)
    requires node.Finite() && node.Paired() && (node.kind == Document || node.kind == Sequence)
    modifies node.reach`value
    ensures forall n :: n in node.reach ==> n.value == if old(node.Exposes(n)) then MASK else old(n.value)
    decreases node.reach, 0
  {
    forall n, i | 0 <= i < |node.content| ensures OneMore(node, n, i) {
      OneMoreChild(node, n, i);
    }
    for i := 0 to |node.content|
      invariant forall n :: n in node.reach ==>
                  n.value == if old(node.ExposesBelow(n, i)) then MASK else old(n.value)
    {
      var child := node.content[i];
      assert child in node.content;
      ShapeKept(node);
      ShapeKept(child);
      CensorYaml(child);
      forall n | n in node.reach
        ensures n.value == if old(node.ExposesBelow(n, i + 1)) then MASK else old(n.value)
      {
        assert old(OneMore(node, n, i));
      }
    }
  }

  /** Running it twice equals running it once. */
  method CensorYamlTwice(node: Node)
    requires node.Finite() && node.Paired()
    modifies node.reach`value
    ensures forall n :: n in node.reach ==> n.value == if old(node.Exposes(n)) then MASK else old(n.value)
  {
    CensorYaml(node);
    ShapeKept(node);
    CensorYaml(node);
  }

  // ---------- what is exposed, by paths ----------

  /** Every child of a document and of a sequence is a value, and every second one of a mapping; nothing else has values. */
  predicate MayStep(kind: Kind, i: nat) {
    match kind
    case Document => true
    case Sequence => true
    case Mapping => i % 2 == 1
    case Scalar => false
    case Alias => false
    case Zero => false
  }

  /** The path of child positions leads from the node to n, through values only. */
  ghost predicate Leads(node: Node, path: seq<nat>, n: Node)
    requires node.Finite()
    reads node`kind, node`content, node`reach, node.reach`kind, node.reach`content, node.reach`reach
    decreases node.reach
  {
    if path == [] then n == node
    else if path[0] >= |node.content| || !MayStep(node.kind, path[0]) then false
    else
      assert node.content[path[0]] in node.content;
      Leads(node.content[path[0]], path[1..], n)
  }

  lemma {:induction false} ExposedHasPath(node: Node, n: Node) returns (path: seq<nat>)
    requires node.Finite() && node.Exposes(n)
    ensures n.kind == Scalar && Leads(node, path, n)
    decreases node.reach
  {
    if node.kind == Scalar && n == node {
      path := [];
    } else {
      var i: nat :| i < |node.content| && node.IsValue(i) && node.content[i].Exposes(n);
      assert node.content[i] in node.content;
      var rest := ExposedHasPath(node.content[i], n);
      path := [i] + rest;
      assert path[1..] == rest;
    }
  }

  lemma {:induction false} PathExposes(node: Node, path: seq<nat>, n: Node)
    requires node.Finite() && n.kind == Scalar && Leads(node, path, n)
    ensures node.Exposes(n)
    decreases node.reach
  {
    if path != [] {
      assert node.content[path[0]] in node.content;
      PathExposes(node.content[path[0]], path[1..], n);
    }
  }

  /** Some path of value positions leads from the node to n. */
  ghost predicate HasPath(node: Node, n: Node)
    requires node.Finite()
    reads node`kind, node`content, node`reach, node.reach`kind, node.reach`content, node.reach`reach
  {
    exists path: seq<nat> :: Leads(node, path, n)
  }

  /** Masked are exactly the scalars at the end of a path of value positions. */
  lemma ExposesIff(node: Node, n: Node)
    requires node.Finite()
    ensures node.Exposes(n) <==> n.kind == Scalar && HasPath(node, n)
  {
    if node.Exposes(n) {
      var path := ExposedHasPath(node, n);
      assert HasPath(node, n);
    }
    if n.kind == Scalar && HasPath(node, n) {
      var path: seq<nat> :| Leads(node, path, n);
      PathExposes(node, path, n);
    }
  }
}

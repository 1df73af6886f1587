// dom-lib: the nodes of a document tree.
module DomNodes {
  import opened Wrappers

  datatype Kind = NONE | ARRAY | STRING | BASIC_VALUE

  datatype Child = Child(name: string, node: DomNode)

  // A node is copied by value everywhere, so it is one here. The children are what a
  // std::map holds, in its iteration order.
  datatype DomNode = DomNode(kind: Kind, value: string, children: seq<Child>, elements: seq<DomNode>)
  {
    predicate IsLeaf() { children == [] }

    predicate IsArray() { kind == ARRAY }

    predicate IsString() { kind == STRING }

    predicate IsNull() { IsLeaf() && !IsArray() && !IsString() && value == "" }
  }

  // The constructors.
  const NULL: DomNode := DomNode(NONE, "", [], [])

  function Text(val: string): DomNode { DomNode(STRING, val, [], []) }

  function Basic(val: string): DomNode { DomNode(BASIC_VALUE, val, [], []) }

  function Array(vals: seq<DomNode>): DomNode { DomNode(ARRAY, "", [], vals) }

  function Object(children: seq<Child>): DomNode { DomNode(NONE, "", children, []) }

  // The order of std::string.
  predicate Before(a: string, b: string) {
    b != "" && (a == "" || a[0] < b[0] || (a[0] == b[0] && Before(a[1..], b[1..])))
  }

  // That is, the smaller character where the strings first differ, or the shorter of the two
  // when one begins the other.
  lemma {:induction false} BeforeIff(a: string, b: string)
    ensures Before(a, b)
            <==> exists k: nat :: k <= |a| && k < |b| && a[..k] == b[..k] && (k == |a| || a[k] < b[k])
  {
    if a != "" && b != "" && a[0] == b[0] {
      BeforeIff(a[1..], b[1..]);
      if k: nat :| k <= |a| && k < |b| && a[..k] == b[..k] && (k == |a| || a[k] < b[k]) {
        assert k > 0 && a[1..][..k - 1] == a[..k][1..] == b[1..][..k - 1];
      }
      if k: nat :| k < |a| && k < |b| - 1 && a[1..][..k] == b[1..][..k] && (k == |a| - 1 || a[1..][k] < b[1..][k]) {
        assert a[..k + 1] == [a[0]] + a[1..][..k] == [b[0]] + b[1..][..k] == b[..k + 1];
      }
    } else if b != "" {
      assert a[..0] == b[..0];
      assert forall k: nat :: 0 < k <= |a| && k < |b| && a[..k] == b[..k] ==> a[..k][0] == b[..k][0];
    }
  }

  lemma {:induction false} BeforeTransitive(a: string, b: string, c: string)
    requires Before(a, b) && Before(b, c)
    ensures Before(a, c)
  {
    if a != "" && a[0] == b[0] && b[0] == c[0] {
      BeforeTransitive(a[1..], b[1..], c[1..]);
    }
  }

  lemma {:induction false} BeforeTotal(a: string, b: string)
    ensures a == b || Before(a, b) || Before(b, a)
    ensures Before(a, b) ==> a != b && !Before(b, a)
  {
    if a != "" && b != "" && a[0] == b[0] {
      BeforeTotal(a[1..], b[1..]);
      assert a == [a[0]] + a[1..] && b == [b[0]] + b[1..];
    }
  }

  // The key invariant of std::map.
  ghost predicate Ordered(children: seq<Child>) {
    forall i, j :: 0 <= i < j < |children| ==> Before(children[i].name, children[j].name)
  }

  // children[name] = node
  function Put(children: seq<Child>, name: string, node: DomNode): seq<Child> {
    if children == [] || Before(name, children[0].name) then [Child(name, node)] + children
    else if children[0].name == name then [Child(name, node)] + children[1..]
    else [children[0]] + Put(children[1..], name, node)
  }

  function Lookup(children: seq<Child>, name: string): Option<DomNode> {
    if children == [] then None
    else if children[0].name == name then Some(children[0].node)
    else Lookup(children[1..], name)
  }

  lemma {:induction false} PutKeepsOrder(children: seq<Child>, name: string, node: DomNode)
    requires Ordered(children)
    ensures Ordered(Put(children, name, node))
    ensures forall c :: c in Put(children, name, node) ==> c == Child(name, node) || c in children
  {
    if children == [] {
    } else if Before(name, children[0].name) {
      forall i | 0 < i < |children|
        ensures Before(name, children[i].name)
      {
        BeforeTransitive(name, children[0].name, children[i].name);
      }
    } else if children[0].name != name {
      PutKeepsOrder(children[1..], name, node);
      BeforeTotal(children[0].name, name);
      var rest := Put(children[1..], name, node);
      forall i | 0 <= i < |rest|
        ensures Before(children[0].name, rest[i].name)
      {
        assert rest[i] in rest;
        if rest[i] in children[1..] {
          var j :| 0 <= j < |children[1..]| && children[1..][j] == rest[i];
          assert children[1..][j] == children[j + 1];
        }
      }
    }
  }

  // What a map is for: the last value assigned to a name is found, others stay.
  lemma {:induction false} PutThenLookup(children: seq<Child>, name: string, node: DomNode, other: string)
    requires Ordered(children)
    ensures Lookup(Put(children, name, node), other) == if other == name then Some(node) else Lookup(children, other)
  {
    if children == [] {
    } else if Before(name, children[0].name) {
      BeforeTotal(name, children[0].name);
    } else if children[0].name == name {
    } else {
      var rest := Put(children[1..], name, node);
      assert ([children[0]] + rest)[1..] == rest;
      PutThenLookup(children[1..], name, node, other);
    }
  }

  lemma {:induction false} LookupAt(children: seq<Child>, i: nat)
    requires Ordered(children) && i < |children|
    ensures Lookup(children, children[i].name) == Some(children[i].node)
  {
    if i > 0 {
      BeforeTotal(children[0].name, children[i].name);
      LookupAt(children[1..], i - 1);
    }
  }

  lemma {:induction false} PutLast(children: seq<Child>, name: string, node: DomNode)
    requires forall i :: 0 <= i < |children| ==> Before(children[i].name, name)
    ensures Put(children, name, node) == children + [Child(name, node)]
  {
    if children != [] {
      BeforeTotal(children[0].name, name);
      forall i | 0 <= i < |children[1..]|
        ensures Before(children[1..][i].name, name)
      {
        assert children[1..][i] == children[i + 1];
      }
      PutLast(children[1..], name, node);
    }
  }
}

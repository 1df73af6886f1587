// dom-lib: what is printed is read back, whatever spaces are put between the tokens, and
// whatever is read can be printed and read again.
module JsonRoundTrip {
  import opened Wrappers
  import opened DomNodes
  import opened JsonPrinting
  import opened JsonParsing
  import opened JsonGrammar

  predicate Quotable(s: string) { '\"' !in s }

  // Plain text that the parser does not take for no value.
  ghost predicate IsBasicText(v: string) { v != "null" && IsPlainText(v) }

  // The trees the parser can return.
  ghost predicate WellFormed(t: DomNode)
    decreases t
  {
    match t.kind
    case NONE =>
      && t.value == "" && t.elements == [] && Ordered(t.children)
      && forall c :: c in t.children ==> Quotable(c.name) && WellFormed(c.node)
    case ARRAY => t.value == "" && t.children == [] && t.elements != [] && forall e :: e in t.elements ==> WellFormed(e)
    case STRING => Quotable(t.value) && t.children == [] && t.elements == []
    case BASIC_VALUE => IsBasicText(t.value) && t.children == [] && t.elements == []
  }

  ghost predicate IsRoot(t: DomNode) {
    WellFormed(t) && t.kind == NONE && t.children != []
  }

  // ---- A printed tree is a text of the grammar ----

  function TextOf(t: DomNode): Syntax
    decreases t
  {
    if t.IsArray() then ArrayText(TextsOf(t.elements))
    else if t.children != [] then ObjectText(PairsOf(t.children))
    else if t.IsString() then StringText(t.value)
    else PlainText(ValueText(t))
  }

  function TextsOf(elements: seq<DomNode>): seq<Syntax>
    decreases elements
  {
    if elements == [] then [] else [TextOf(elements[0])] + TextsOf(elements[1..])
  }

  function PairsOf(children: seq<Child>): seq<Pair>
    decreases children
  {
    if children == [] then []
    else [Pair(children[0].name, TextOf(children[0].node))] + PairsOf(children[1..])
  }

  lemma {:induction false} TextIs(t: DomNode)
    requires WellFormed(t)
    ensures Legal(TextOf(t)) && NodeOf(TextOf(t)) == t && TokensOf(TextOf(t)) == Tokens(t)
    decreases t
  {
    if t.IsArray() {
      TextsAre(t.elements);
      Bracketed("[", ElementTokens(t.elements), "]");
    } else if t.children != [] {
      PairsAre(t.children);
      PairsBuild([], t.children);
      assert [] + t.children == t.children;
      Bracketed("{", MemberTokens(t.children), "}");
    }
  }

  lemma {:induction false} TextsAre(elements: seq<DomNode>)
    requires forall e :: e in elements ==> WellFormed(e)
    ensures |TextsOf(elements)| == |elements| && forall v :: v in TextsOf(elements) ==> Legal(v)
    ensures NodesOf(TextsOf(elements)) == elements
    ensures ValueTokens(TextsOf(elements)) == ElementTokens(elements) + ["]"]
    decreases elements
  {
    if elements != [] {
      TextIs(elements[0]);
      TextsAre(elements[1..]);
      var texts := TextsOf(elements);
      assert texts[1..] == TextsOf(elements[1..]);
      SeparatorIsBehind(Tokens(elements[0]), |elements|, ElementTokens(elements[1..]), "]");
    }
  }

  lemma {:induction false} PairsAre(children: seq<Child>)
    requires forall c :: c in children ==> Quotable(c.name) && WellFormed(c.node)
    ensures |PairsOf(children)| == |children|
    ensures forall p :: p in PairsOf(children) ==> '\"' !in p.name && Legal(p.value)
    ensures PairTokens(PairsOf(children)) == MemberTokens(children) + ["}"]
    decreases children
  {
    if children != [] {
      var name, value := children[0].name, Tokens(children[0].node);
      assert children[0] in children;
      TextIs(children[0].node);
      PairsAre(children[1..]);
      var pairs := PairsOf(children);
      assert pairs[1..] == PairsOf(children[1..]);
      SeparatorIsBehind(NameTokens(name) + value, |children|, MemberTokens(children[1..]), "}");
      Associate(name, value, Behind(|children|, "}", MemberTokens(children[1..]) + ["}"]));
    }
  }

  lemma SeparatorIsBehind(front: seq<string>, count: nat, others: seq<string>, close: string)
    requires count > 0 && (count == 1 ==> others == [])
    ensures front + Separator(count) + others + [close] == front + Behind(count, close, others + [close])
  {
  }

  lemma Bracketed(open: string, inner: seq<string>, close: string)
    ensures [open] + inner + [close] == [open] + (inner + [close])
  {
  }

  lemma Associate(name: string, value: seq<string>, tail: seq<string>)
    ensures NameTokens(name) + value + tail == ["\"" + name + "\""] + ([":"] + (value + tail))
  {
  }

  // Children assigned in order end up in order.
  lemma {:induction false} PairsBuild(before: seq<Child>, children: seq<Child>)
    requires Ordered(before + children) && forall c :: c in children ==> WellFormed(c.node)
    ensures Assigned(before, PairsOf(children)) == before + children
    decreases children
  {
    if children != [] {
      var c := children[0];
      TextIs(c.node);
      forall i | 0 <= i < |before|
        ensures Before(before[i].name, c.name)
      {
        assert (before + children)[i] == before[i] && (before + children)[|before|] == c;
      }
      PutLast(before, c.name, c.node);
      assert before + [c] + children[1..] == before + children;
      PairsBuild(before + [c], children[1..]);
      assert PairsOf(children)[1..] == PairsOf(children[1..]);
    }
  }

  // A value is read back from its tokens, up to the spaces that follow it.
  lemma ReadValue(s: string, t: DomNode, rest: string)
    requires WellFormed(t) && Scan(s, Tokens(t)) == Some(rest) && Delimited(rest)
    ensures ParseValue(s).Ok? && ParseValue(s).value.value == t
    ensures SkipSpace(ParseValue(s).value.rest) == SkipSpace(rest)
  {
    TextIs(t);
    ReadSyntax(s, TextOf(t), rest);
  }

  // Any text that spells the tokens of a root is parsed to it, whatever follows.
  lemma ReadRoot(s: string, t: DomNode)
    requires IsRoot(t) && Scan(s, Tokens(t)).Some?
    ensures Document(s) == Ok(t)
  {
    TextIs(t);
    ReadDocument(s, TextOf(t), Scan(s, Tokens(t)).value);
  }

  // The round trip: spaces between the tokens and text after the root do no harm.
  lemma RoundTrip(t: DomNode, spaces: seq<string>, trailing: string)
    requires IsRoot(t) && |spaces| == |Tokens(t)| && forall s :: s in spaces ==> Blank(s)
    ensures Document(Spaced(spaces, Tokens(t)) + trailing) == Ok(t)
  {
    TextIs(t);
    assert Spells(Spaced(spaces, Tokens(t)) + trailing, TextOf(t), spaces, trailing);
    AcceptedIff(Spaced(spaces, Tokens(t)) + trailing, t);
  }

  lemma {:induction false} ConcatIsSpaced(tokens: seq<string>, spaces: seq<string>)
    requires |spaces| == |tokens| && forall i :: 0 <= i < |spaces| ==> spaces[i] == ""
    ensures Concat(tokens) == Spaced(spaces, tokens)
    decreases |tokens|
  {
    if tokens != [] {
      ConcatIsSpaced(tokens[1..], spaces[1..]);
      assert "" + tokens[0] == tokens[0];
    }
  }

  lemma PrintedIsRead(t: DomNode, trailing: string)
    requires IsRoot(t)
    ensures Document(Print(t) + trailing) == Ok(t)
  {
    var spaces := seq(|Tokens(t)|, _ => "");
    ConcatIsSpaced(Tokens(t), spaces);
    RoundTrip(t, spaces, trailing);
  }

  // ---- What a text of the grammar stands for is well-formed ----

  lemma {:induction false} NodeIsWellFormed(v: Syntax)
    requires Legal(v)
    ensures WellFormed(NodeOf(v))
    ensures v.ObjectText? ==> IsRoot(NodeOf(v))
    decreases v
  {
    match v
    case ObjectText(pairs) => AssignedIsWellFormed([], pairs);
    case ArrayText(vals) => NodesAreWellFormed(vals);
    case StringText(_) =>
    case PlainText(_) =>
  }

  lemma {:induction false} NodesAreWellFormed(vals: seq<Syntax>)
    requires forall e :: e in vals ==> Legal(e)
    ensures |NodesOf(vals)| == |vals| && forall e :: e in NodesOf(vals) ==> WellFormed(e)
    decreases vals
  {
    if vals != [] {
      NodeIsWellFormed(vals[0]);
      NodesAreWellFormed(vals[1..]);
    }
  }

  lemma {:induction false} AssignedIsWellFormed(before: seq<Child>, pairs: seq<Pair>)
    requires WellFormed(Object(before)) && forall p :: p in pairs ==> '\"' !in p.name && Legal(p.value)
    ensures WellFormed(Object(Assigned(before, pairs)))
    ensures before != [] || pairs != [] ==> Assigned(before, pairs) != []
    decreases pairs
  {
    if pairs != [] {
      var p := pairs[0];
      assert p in pairs;
      NodeIsWellFormed(p.value);
      PutKeepsOrder(before, p.name, NodeOf(p.value));
      AssignedIsWellFormed(Put(before, p.name, NodeOf(p.value)), pairs[1..]);
    }
  }

  // Everything the parser returns is well-formed.
  lemma ParsedIsRoot(s: string)
    requires Document(s).Ok?
    ensures IsRoot(Document(s).value)
  {
    AcceptedIff(s, Document(s).value);
    var v, spaces, trailing :| Spells(s, v, spaces, trailing) && NodeOf(v) == Document(s).value;
    NodeIsWellFormed(v);
  }

  // Printing and reading settles after one round.
  lemma ReadPrintRead(s: string)
    requires Document(s).Ok?
    ensures Document(Print(Document(s).value)) == Document(s)
  {
    ParsedIsRoot(s);
    PrintedIsRead(Document(s).value, "");
    assert Print(Document(s).value) + "" == Print(Document(s).value);
  }

  // Exactly the well-formed roots survive printing and reading.
  lemma SurvivesIff(t: DomNode)
    ensures Document(Print(t)) == Ok(t) <==> IsRoot(t)
  {
    if IsRoot(t) {
      PrintedIsRead(t, "");
      assert Print(t) + "" == Print(t);
    } else if Document(Print(t)).Ok? {
      ParsedIsRoot(Print(t));
    }
  }

  // The size is exact for every tree the parser can return: no empty array is printed.
  lemma {:induction false} NoEmptyArrays(t: DomNode)
    requires WellFormed(t)
    ensures EmptyArrays(t) == 0
    decreases t, 0
  {
    if t.kind == ARRAY {
      NoneAmongElements(t.elements);
    } else {
      NoneAmongChildren(t.children);
    }
  }

  lemma {:induction false} NoneAmongElements(elements: seq<DomNode>)
    requires forall e :: e in elements ==> WellFormed(e)
    ensures EmptyAmongElements(elements) == 0
    decreases elements
  {
    if elements != [] {
      NoEmptyArrays(elements[0]);
      NoneAmongElements(elements[1..]);
    }
  }

  lemma {:induction false} NoneAmongChildren(children: seq<Child>)
    requires forall c :: c in children ==> WellFormed(c.node)
    ensures EmptyAmongChildren(children) == 0
    decreases children
  {
    if children != [] {
      NoEmptyArrays(children[0].node);
      NoneAmongChildren(children[1..]);
    }
  }
}

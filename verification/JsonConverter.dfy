// dom-lib: printing a document tree as JSON, and the size of what is printed.
module JsonPrinting {
  import opened DomNodes

  // The tokens of a printed tree. Spaces may stand between any two of them.
  function Tokens(t: DomNode): seq<string>
    decreases t
  {
    if t.IsArray() then ["["] + ElementTokens(t.elements) + ["]"]
    else if t.IsLeaf() then [ValueText(t)]
    else ["{"] + MemberTokens(t.children) + ["}"]
  }

  function ElementTokens(elements: seq<DomNode>): seq<string>
    decreases elements
  {
    if elements == [] then []
    else Tokens(elements[0]) + Separator(|elements|) + ElementTokens(elements[1..])
  }

  function MemberTokens(children: seq<Child>): seq<string>
    decreases children
  {
    if children == [] then []
    else
      NameTokens(children[0].name) + Tokens(children[0].node) + Separator(|children|) + MemberTokens(children[1..])
  }

  function NameTokens(name: string): seq<string> { ["\"" + name + "\"", ":"] }

  // A comma after every value but the last.
  function Separator(remaining: nat): seq<string> {
    if remaining > 1 then [","] else []
  }

  function ValueText(t: DomNode): string {
    if t.IsNull() then "null"
    else if t.IsString() then "\"" + t.value + "\""
    else t.value
  }

  function Concat(tokens: seq<string>): string {
    if tokens == [] then "" else tokens[0] + Concat(tokens[1..])
  }

  lemma {:induction false} ConcatAppend(a: seq<string>, b: seq<string>)
    ensures Concat(a + b) == Concat(a) + Concat(b)
  {
    if a == [] {
      assert a + b == b;
    } else {
      ConcatAppend(a[1..], b);
      assert (a + b)[1..] == a[1..] + b;
    }
  }

  function Print(t: DomNode): string { Concat(Tokens(t)) }

  // How many arrays without elements the printer comes across.
  function EmptyArrays(t: DomNode): nat
    decreases t
  {
    if t.IsArray() then (if t.elements == [] then 1 else EmptyAmongElements(t.elements))
    else EmptyAmongChildren(t.children)
  }

  function EmptyAmongElements(elements: seq<DomNode>): nat
    decreases elements
  {
    if elements == [] then 0 else EmptyArrays(elements[0]) + EmptyAmongElements(elements[1..])
  }

  function EmptyAmongChildren(children: seq<Child>): nat
    decreases children
  {
    if children == [] then 0 else EmptyArrays(children[0].node) + EmptyAmongChildren(children[1..])
  }

  // It is printed as two characters.
  lemma EmptyArrayIs()
    ensures Print(Array([])) == "[]" && EmptyArrays(Array([])) == 1
  {
    PrintBracketed("[", [], "]");
    assert ["["] + [] + ["]"] == ["[", "]"];
  }

  function Comma(remaining: nat): string {
    if remaining > 1 then "," else ""
  }

  lemma PrintElement(elements: seq<DomNode>)
    requires elements != []
    ensures Concat(ElementTokens(elements))
         == Print(elements[0]) + Comma(|elements|) + Concat(ElementTokens(elements[1..]))
  {
    ConcatThree(Tokens(elements[0]), Separator(|elements|), ElementTokens(elements[1..]));
    ConcatPair(",", "");
  }

  lemma PrintMember(children: seq<Child>)
    requires children != []
    ensures Concat(MemberTokens(children))
         == Quoted(children[0].name) + Print(children[0].node) + Comma(|children|) + Concat(MemberTokens(children[1..]))
  {
    var name, value, comma := NameTokens(children[0].name), Tokens(children[0].node), Separator(|children|);
    ConcatThree(name + value, comma, MemberTokens(children[1..]));
    ConcatAppend(name, value);
    ConcatPair("\"" + children[0].name + "\"", ":");
    ConcatPair(",", "");
  }

  function Quoted(name: string): string { "\"" + name + "\"" + ":" }

  lemma ConcatThree(a: seq<string>, b: seq<string>, c: seq<string>)
    ensures Concat(a + b + c) == Concat(a) + Concat(b) + Concat(c)
  {
    ConcatAppend(a, b);
    ConcatAppend(a + b, c);
  }

  lemma ConcatPair(a: string, b: string)
    ensures Concat([a]) == a && Concat([a, b]) == a + b
  {
    assert [a][1..] == [] && [a, b][1..] == [b] && [b][1..] == [];
  }

  lemma PrintBracketed(open: string, inner: seq<string>, close: string)
    ensures Concat([open] + inner + [close]) == open + Concat(inner) + close
  {
    ConcatAppend([open] + inner, [close]);
    ConcatAppend([open], inner);
  }

  // A size_t one below zero is the largest one, so `remaining` never reaches zero then.
  const SIZE_MAX: nat := 0xFFFF_FFFF_FFFF_FFFF

  function Minus1(n: nat): nat { if n == 0 then SIZE_MAX else n - 1 }

  method GetValueString(node: DomNode) returns (text: string)
    ensures text == ValueText(node)
  {
    if node.IsNull() {
      return "null";
    }
    var padding := if node.IsString() then "\"" else "";
    return padding + node.value + padding;
  }

  // How many commas stand between this many values.
  function Commas(n: nat): nat { if n > 1 then n - 1 else 0 }

  // The length of the text, less one for each empty array: that prints as two characters
  // and is counted as one.
  method Size(node: DomNode) returns (mySize: nat)
    ensures mySize + EmptyArrays(node) == |Print(node)|
    decreases node
  {
    mySize := 0;
    if node.IsArray() {
      ghost var all := ElementTokens(node.elements);
      mySize := |node.elements| + 1;
      for i := 0 to |node.elements|
        invariant mySize + |Concat(ElementTokens(node.elements[i..]))| + EmptyAmongElements(node.elements)
               == |node.elements| + 1 - Commas(|node.elements|) + |Concat(all)|
                  + EmptyAmongElements(node.elements[i..]) + Commas(|node.elements| - i)
      {
        ghost var rest := node.elements[i..];
        PrintElement(rest);
        assert rest[1..] == node.elements[i + 1..];
        var more := Size(node.elements[i]);
        mySize := mySize + more;
      }
      PrintBracketed("[", all, "]");
    } else if node.IsLeaf() {
      var text := GetValueString(node);
      mySize := |text|;
      ConcatPair(text, "");
    } else {
      ghost var all := MemberTokens(node.children);
      mySize := |node.children| + 1;
      for i := 0 to |node.children|
        invariant mySize + |Concat(MemberTokens(node.children[i..]))| + EmptyAmongChildren(node.children)
               == |node.children| + 1 - Commas(|node.children|) + |Concat(all)|
                  + EmptyAmongChildren(node.children[i..]) + Commas(|node.children| - i)
      {
        ghost var rest := node.children[i..];
        PrintMember(rest);
        assert rest[1..] == node.children[i + 1..];
        var more := Size(node.children[i].node);
        mySize := mySize + |node.children[i].name| + 3 + more;
      }
      PrintBracketed("{", all, "}");
    }
  }

  // Text put after what is written already is the front of what is still to come.
  lemma Written(before: string, now: string, comma: string, later: string, all: string)
    requires before + (now + comma + later) == all
    ensures before + now + comma + later == all
  {
    assert before + now + comma + later == before + (now + comma + later);
  }

  method ToString(node: DomNode) returns (conv: string)
    ensures conv == Print(node)
    decreases node
  {
    conv := "";
    if node.IsArray() {
      conv := "[";
      var remaining := Minus1(|node.elements|);
      ghost var all := "[" + Concat(ElementTokens(node.elements));
      for i := 0 to |node.elements|
        invariant i < |node.elements| ==> remaining == |node.elements| - i - 1
        invariant conv + Concat(ElementTokens(node.elements[i..])) == all
      {
        ghost var before, rest := conv, node.elements[i..];
        PrintElement(rest);
        assert rest[1..] == node.elements[i + 1..];
        var more := ToString(node.elements[i]);
        conv := conv + more;
        Written(before, more, Comma(|rest|), Concat(ElementTokens(rest[1..])), all);
        if remaining > 0 {
          remaining := remaining - 1;
          conv := conv + ",";
        }
        assert conv == before + more + Comma(|rest|);
      }
      conv := conv + "]";
      PrintBracketed("[", ElementTokens(node.elements), "]");
    } else if node.IsLeaf() {
      conv := GetValueString(node);
      ConcatPair(conv, "");
    } else {
      conv := "{";
      var remaining := Minus1(|node.children|);
      ghost var all := "{" + Concat(MemberTokens(node.children));
      for i := 0 to |node.children|
        invariant i < |node.children| ==> remaining == |node.children| - i - 1
        invariant conv + Concat(MemberTokens(node.children[i..])) == all
      {
        ghost var before, rest := conv, node.children[i..];
        PrintMember(rest);
        assert rest[1..] == node.children[i + 1..];
        var more := ToString(node.children[i].node);
        conv := conv + ("\"" + node.children[i].name + "\"" + ":" + more);
        Written(before, Quoted(node.children[i].name) + more, Comma(|rest|), Concat(MemberTokens(rest[1..])), all);
        if remaining > 0 {
          remaining := remaining - 1;
          conv := conv + ",";
        }
        assert conv == before + (Quoted(node.children[i].name) + more) + Comma(|rest|);
      }
      conv := conv + "}";
      PrintBracketed("{", MemberTokens(node.children), "}");
    }
  }
}

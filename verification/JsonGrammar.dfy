// dom-lib: which texts the parser accepts, as a grammar that does not know the parser.
module JsonGrammar {
  import opened Wrappers
  import opened DomNodes
  import opened JsonParsing

  // A value as it is written: an object may repeat a name.
  datatype Syntax =
    | ObjectText(pairs: seq<Pair>)
    | ArrayText(vals: seq<Syntax>)
    | StringText(text: string)
    | PlainText(text: string)

  datatype Pair = Pair(name: string, value: Syntax)

  // The space, and the control characters from the tab to the carriage return.
  predicate IsBlank(c: char) { c as int == 32 || 9 <= c as int <= 13 }

  ghost predicate Blank(s: string) { forall c :: c in s ==> IsBlank(c) }

  // There are no escapes and no empty objects or arrays, and plain text may be anything else.
  ghost predicate Legal(v: Syntax)
    decreases v
  {
    match v
    case ObjectText(pairs) => pairs != [] && forall p :: p in pairs ==> '\"' !in p.name && Legal(p.value)
    case ArrayText(vals) => vals != [] && forall e :: e in vals ==> Legal(e)
    case StringText(text) => '\"' !in text
    case PlainText(text) => IsPlainText(text)
  }

  ghost predicate IsPlainText(text: string) {
    text != "" && text[0] !in "[{:\"" && forall c :: c in text ==> !IsBlank(c) && c !in ",}]"
  }

  function TokensOf(v: Syntax): seq<string>
    decreases v
  {
    match v
    case ObjectText(pairs) => ["{"] + PairTokens(pairs)
    case ArrayText(vals) => ["["] + ValueTokens(vals)
    case StringText(text) => ["\"" + text + "\""]
    case PlainText(text) => [text]
  }

  // What is behind the first of several values: a comma and the others, or the closing token.
  function Behind(count: nat, close: string, others: seq<string>): seq<string> {
    if count == 1 then [close] else [","] + others
  }

  // With the closing brace.
  function PairTokens(pairs: seq<Pair>): seq<string>
    decreases pairs
  {
    if pairs == [] then ["}"]
    else
      ["\"" + pairs[0].name + "\""] +
      ([":"] + (TokensOf(pairs[0].value) + Behind(|pairs|, "}", PairTokens(pairs[1..]))))
  }

  // With the closing bracket.
  function ValueTokens(vals: seq<Syntax>): seq<string>
    decreases vals
  {
    if vals == [] then ["]"]
    else TokensOf(vals[0]) + Behind(|vals|, "]", ValueTokens(vals[1..]))
  }

  // The tree a value stands for.
  function NodeOf(v: Syntax): DomNode
    decreases v
  {
    match v
    case ObjectText(pairs) => Object(Assigned([], pairs))
    case ArrayText(vals) => Array(NodesOf(vals))
    case StringText(text) => Text(text)
    case PlainText(text) => if text == "null" then NULL else Basic(text)
  }

  // One assignment to a child after the other.
  function Assigned(before: seq<Child>, pairs: seq<Pair>): seq<Child>
    decreases pairs
  {
    if pairs == [] then before else Assigned(Put(before, pairs[0].name, NodeOf(pairs[0].value)), pairs[1..])
  }

  function NodesOf(vals: seq<Syntax>): seq<DomNode>
    decreases vals
  {
    if vals == [] then [] else [NodeOf(vals[0])] + NodesOf(vals[1..])
  }

  // Blanks before each token.
  function Spaced(spaces: seq<string>, tokens: seq<string>): string
    requires |spaces| == |tokens|
  {
    if tokens == [] then "" else spaces[0] + tokens[0] + Spaced(spaces[1..], tokens[1..])
  }

  // The text is this object, with blanks between the tokens and anything behind it.
  ghost predicate Spells(s: string, v: Syntax, spaces: seq<string>, trailing: string) {
    && v.ObjectText? && Legal(v)
    && |spaces| == |TokensOf(v)| && (forall b :: b in spaces ==> Blank(b))
    && s == Spaced(spaces, TokensOf(v)) + trailing
  }

  // The parser accepts the texts of the grammar and no others, and gives the tree they stand for.
  lemma AcceptedIff(s: string, t: DomNode)
    ensures Document(s) == Ok(t) <==> exists v, spaces, trailing :: Spells(s, v, spaces, trailing) && NodeOf(v) == t
  {
    if Document(s) == Ok(t) {
      var pairs, rest := PairsSpelled(Next(s).value.rest, []);
      var v := ObjectText(pairs);
      ScanFront(s, "{", PairTokens(pairs));
      var spaces := ScanIsSpaced(s, TokensOf(v));
      assert Spells(s, v, spaces, rest);
    }
    forall v, spaces, trailing | Spells(s, v, spaces, trailing)
      ensures Document(s) == Ok(NodeOf(v))
    {
      TokensSolid(v);
      ScanSpaced(spaces, TokensOf(v), trailing);
      ReadDocument(s, v, trailing);
    }
  }

  lemma ReadDocument(s: string, v: Syntax, rest: string)
    requires v.ObjectText? && Legal(v) && Scan(s, TokensOf(v)) == Some(rest)
    ensures Document(s) == Ok(NodeOf(v))
  {
    ScanOne(s, "{", PairTokens(v.pairs));
    ReadPairs(SkipSpace(s)[1..], [], v.pairs, rest);
  }

  // ---- Reading off tokens ----

  // Text that begins with these tokens, with blanks before any of them: what comes after.
  function Scan(s: string, tokens: seq<string>): Option<string>
    decreases |tokens|
  {
    if tokens == [] then Some(s)
    else
      var t := SkipSpace(s);
      if tokens[0] <= t then Scan(t[|tokens[0]|..], tokens[1..]) else None
  }

  // Whatever is left is scanned on.
  function Then(left: Option<string>, tokens: seq<string>): Option<string> {
    if left.None? then None else Scan(left.value, tokens)
  }

  lemma {:induction false} ScanAppend(s: string, a: seq<string>, b: seq<string>)
    ensures Scan(s, a + b) == Then(Scan(s, a), b)
    decreases |a|
  {
    if a == [] {
      assert a + b == b;
    } else {
      var t := SkipSpace(s);
      assert (a + b)[0] == a[0] && (a + b)[1..] == a[1..] + b;
      if a[0] <= t {
        ScanAppend(t[|a[0]|..], a[1..], b);
      }
    }
  }

  lemma ScanOne(s: string, token: string, more: seq<string>)
    requires Scan(s, [token] + more).Some?
    ensures token <= SkipSpace(s)
    ensures Scan(s, [token] + more) == Scan(SkipSpace(s)[|token|..], more)
  {
    assert ([token] + more)[1..] == more;
  }

  lemma ScanFront(s: string, token: string, more: seq<string>)
    requires token <= SkipSpace(s)
    ensures Scan(s, [token] + more) == Scan(SkipSpace(s)[|token|..], more)
    ensures Scan(s, [token]) == Some(SkipSpace(s)[|token|..])
  {
    assert ([token] + more)[1..] == more && [token][1..] == [];
  }

  // A token the blanks before it cannot be confused with.
  predicate Solid(token: string) { token != "" && !IsSpace(token[0]) }

  lemma {:induction false} SkipBlank(space: string, s: string)
    requires Blank(space) && s != "" && !IsSpace(s[0])
    ensures SkipSpace(space + s) == s
  {
    if space == "" {
      assert space + s == s;
    } else {
      assert space[0] in space && (space + s)[1..] == space[1..] + s;
      SkipBlank(space[1..], s);
    }
  }

  lemma {:induction false} ScanSpaced(spaces: seq<string>, tokens: seq<string>, rest: string)
    requires |spaces| == |tokens| && (forall s :: s in spaces ==> Blank(s)) && forall k :: k in tokens ==> Solid(k)
    ensures Scan(Spaced(spaces, tokens) + rest, tokens) == Some(rest)
    decreases |tokens|
  {
    if tokens == [] {
      assert "" + rest == rest;
    } else {
      var more := Spaced(spaces[1..], tokens[1..]) + rest;
      var s := tokens[0] + more;
      assert Spaced(spaces, tokens) + rest == spaces[0] + s;
      assert spaces[0] in spaces && tokens[0] in tokens;
      SkipBlank(spaces[0], s);
      assert s[|tokens[0]|..] == more;
      ScanSpaced(spaces[1..], tokens[1..], rest);
    }
  }

  lemma {:induction false} Skipped(s: string) returns (space: string)
    ensures Blank(space) && s == space + SkipSpace(s)
  {
    space := "";
    if s != "" && IsSpace(s[0]) {
      var more := Skipped(s[1..]);
      space := [s[0]] + more;
    }
  }

  lemma {:induction false} ScanIsSpaced(s: string, tokens: seq<string>) returns (spaces: seq<string>)
    requires Scan(s, tokens).Some?
    ensures |spaces| == |tokens| && forall b :: b in spaces ==> Blank(b)
    ensures s == Spaced(spaces, tokens) + Scan(s, tokens).value
    decreases |tokens|
  {
    spaces := [];
    if tokens != [] {
      var t := SkipSpace(s);
      var space := Skipped(s);
      var more := ScanIsSpaced(t[|tokens[0]|..], tokens[1..]);
      spaces := [space] + more;
      assert t == tokens[0] + t[|tokens[0]|..] && spaces[1..] == more;
    }
  }

  lemma {:induction false} TokensSolid(v: Syntax)
    requires Legal(v)
    ensures forall k :: k in TokensOf(v) ==> Solid(k)
    decreases v
  {
    match v
    case ObjectText(pairs) => PairsSolid(pairs);
    case ArrayText(vals) => ValuesSolid(vals);
    case StringText(_) =>
    case PlainText(text) => assert text[0] in text;
  }

  lemma {:induction false} PairsSolid(pairs: seq<Pair>)
    requires forall p :: p in pairs ==> Legal(p.value)
    ensures forall k :: k in PairTokens(pairs) ==> Solid(k)
    decreases pairs
  {
    if pairs != [] {
      TokensSolid(pairs[0].value);
      PairsSolid(pairs[1..]);
    }
  }

  lemma {:induction false} ValuesSolid(vals: seq<Syntax>)
    requires forall e :: e in vals ==> Legal(e)
    ensures forall k :: k in ValueTokens(vals) ==> Solid(k)
    decreases vals
  {
    if vals != [] {
      TokensSolid(vals[0]);
      ValuesSolid(vals[1..]);
    }
  }

  // ---- Every text of the grammar is read ----

  // A value must be followed by one of these before the text ends.
  predicate Delimited(s: string) {
    SkipSpace(s) != "" && SkipSpace(s)[0] in ",}]"
  }

  lemma {:induction false} UntilDelimiter(s: string, spaced: bool)
    requires Delimited(s)
    ensures UntilNoSpace(s, TERMINATORS, spaced) == Ok(Read("", SkipSpace(s)))
  {
    if IsSpace(s[0]) {
      UntilDelimiter(s[1..], true);
    }
  }

  lemma {:induction false} ReadPlain(v: string, rest: string)
    requires Delimited(rest) && forall c :: c in v ==> !IsBlank(c) && c !in ",}]"
    ensures UntilNoSpace(v + rest, TERMINATORS, false) == Ok(Read(v, SkipSpace(rest)))
  {
    if v == "" {
      assert v + rest == rest;
      UntilDelimiter(rest, false);
    } else {
      assert (v + rest)[1..] == v[1..] + rest && v[0] in v;
      ReadPlain(v[1..], rest);
      assert [v[0]] + v[1..] == v;
    }
  }

  lemma {:induction false} ReadQuoted(v: string, rest: string)
    requires '\"' !in v
    ensures Until(v + "\"" + rest, "\"") == Ok(Read(v, rest))
  {
    var s := v + "\"" + rest;
    if v == "" {
      assert s[0] == '\"' && s[1..] == rest;
    } else {
      assert s[1..] == v[1..] + "\"" + rest;
      ReadQuoted(v[1..], rest);
      assert [v[0]] + v[1..] == v;
    }
  }

  lemma ReadString(s: string, v: string, more: seq<string>)
    requires '\"' !in v && Scan(s, ["\"" + v + "\""] + more).Some?
    ensures ParseString(s).Ok? && ParseString(s).value.value == v
    ensures Scan(s, ["\"" + v + "\""] + more) == Scan(ParseString(s).value.rest, more)
    ensures SkipSpace(s) != "" && SkipSpace(s)[0] == '\"'
  {
    var t := SkipSpace(s);
    ScanOne(s, "\"" + v + "\"", more);
    var rest := t[|v| + 2..];
    assert t == "\"" + v + "\"" + rest && t[1..] == v + "\"" + rest;
    ReadQuoted(v, rest);
  }

  // A value is read from its tokens, up to the blanks that follow it.
  lemma {:induction false} ReadSyntax(s: string, v: Syntax, rest: string)
    requires Legal(v) && Scan(s, TokensOf(v)) == Some(rest) && Delimited(rest)
    ensures ParseValue(s).Ok? && ParseValue(s).value.value == NodeOf(v)
    ensures SkipSpace(ParseValue(s).value.rest) == SkipSpace(rest)
    decreases v
  {
    match v {
      case ObjectText(pairs) =>
        ScanOne(s, "{", PairTokens(pairs));
        ReadPairs(SkipSpace(s)[1..], [], pairs, rest);
      case ArrayText(vals) =>
        ScanOne(s, "[", ValueTokens(vals));
        ReadValues(SkipSpace(s)[1..], [], vals, rest);
        assert [] + NodesOf(vals) == NodesOf(vals);
      case StringText(text) =>
        assert TokensOf(v) == ["\"" + text + "\""] + [];
        ReadString(s, text, []);
        SkipTwice(s);
      case PlainText(text) =>
        assert TokensOf(v) == [text] + [];
        ScanOne(s, text, []);
        assert SkipSpace(s) == text + rest && text[0] in text;
        ReadPlain(text, rest);
    }
  }

  // One turn of the loop over array values, with the text behind the value's last token.
  lemma ElementsStep(s: string, before: seq<DomNode>, e: DomNode, r: string)
    requires ParseValue(s).Ok? && ParseValue(s).value.value == e
    requires SkipSpace(ParseValue(s).value.rest) == SkipSpace(r)
    ensures ParseElements(s, before).Ok? ==> SkipSpace(r) != "" && SkipSpace(r)[0] in ",]"
    ensures var now := before + [e];
            SkipSpace(r) != "" ==>
              && (SkipSpace(r)[0] == ',' ==> ParseElements(s, before) == ParseElements(SkipSpace(r)[1..], now))
              && (SkipSpace(r)[0] == ']' ==> ParseElements(s, before) == Ok(Read(Array(now), SkipSpace(r)[1..])))
  {
  }

  // One turn of the loop over pairs.
  lemma MembersStep(s: string, before: seq<Child>, name: string, value: string, e: DomNode, r: string)
    requires ParseString(s).Ok? && ParseString(s).value.value == name
    requires Next(ParseString(s).value.rest) == Ok(Read(':', value))
    requires ParseValue(value).Ok? && ParseValue(value).value.value == e
    requires SkipSpace(ParseValue(value).value.rest) == SkipSpace(r)
    ensures ParseMembers(s, before).Ok? ==> SkipSpace(r) != "" && SkipSpace(r)[0] in ",}"
    ensures var now := Put(before, name, e);
            SkipSpace(r) != "" ==>
              && (SkipSpace(r)[0] == ',' ==> ParseMembers(s, before) == ParseMembers(SkipSpace(r)[1..], now))
              && (SkipSpace(r)[0] == '}' ==> ParseMembers(s, before) == Ok(Read(Object(now), SkipSpace(r)[1..])))
  {
  }

  lemma ScanBehind(r: string, count: nat, close: string, others: seq<string>, rest: string)
    requires Scan(r, Behind(count, close, others)) == Some(rest) && |close| == 1 && close[0] in "]}"
    ensures Delimited(r) && SkipSpace(r)[0] == if count == 1 then close[0] else ','
    ensures if count == 1 then rest == SkipSpace(r)[1..] else Scan(SkipSpace(r)[1..], others) == Some(rest)
  {
    if count == 1 {
      assert [close] == [close] + [];
      ScanOne(r, close, []);
    } else {
      ScanOne(r, ",", others);
    }
  }

  lemma ValueParts(s: string, vals: seq<Syntax>)
    requires vals != []
    ensures Scan(s, ValueTokens(vals))
         == Then(Scan(s, TokensOf(vals[0])), Behind(|vals|, "]", ValueTokens(vals[1..])))
  {
    ScanAppend(s, TokensOf(vals[0]), Behind(|vals|, "]", ValueTokens(vals[1..])));
  }

  lemma NodesNext(before: seq<DomNode>, vals: seq<Syntax>)
    requires vals != []
    ensures before + [NodeOf(vals[0])] + NodesOf(vals[1..]) == before + NodesOf(vals)
    ensures |vals| == 1 ==> before + [NodeOf(vals[0])] == before + NodesOf(vals)
  {
    Associates(before, [NodeOf(vals[0])], NodesOf(vals[1..]));
    if |vals| == 1 {
      assert NodesOf(vals[1..]) == [] && before + [NodeOf(vals[0])] + [] == before + [NodeOf(vals[0])];
    }
  }

  lemma Associates(a: seq<DomNode>, b: seq<DomNode>, c: seq<DomNode>)
    ensures a + b + c == a + (b + c)
  {
  }

  lemma {:induction false} ReadValues(s: string, before: seq<DomNode>, vals: seq<Syntax>, rest: string)
    requires vals != [] && (forall e :: e in vals ==> Legal(e)) && Scan(s, ValueTokens(vals)) == Some(rest)
    ensures ParseElements(s, before) == Ok(Read(Array(before + NodesOf(vals)), rest))
    decreases vals
  {
    ValueParts(s, vals);
    var r := Scan(s, TokensOf(vals[0])).value;
    ScanBehind(r, |vals|, "]", ValueTokens(vals[1..]), rest);
    ReadSyntax(s, vals[0], r);
    ElementsStep(s, before, NodeOf(vals[0]), r);
    var now := before + [NodeOf(vals[0])];
    if |vals| > 1 {
      ReadValues(SkipSpace(r)[1..], now, vals[1..], rest);
    }
    NodesNext(before, vals);
  }

  // The text of the first value, and what is behind it.
  lemma PairParts(s: string, pairs: seq<Pair>)
    requires pairs != [] && ParseString(s).Ok? && ParseString(s).value.value == pairs[0].name
    ensures Scan(s, PairTokens(pairs))
         == Then(Then(Scan(ParseString(s).value.rest, [":"]), TokensOf(pairs[0].value)),
                 Behind(|pairs|, "}", PairTokens(pairs[1..])))
  {
    var value, tail := TokensOf(pairs[0].value), Behind(|pairs|, "}", PairTokens(pairs[1..]));
    ScanName(s, [":"] + (value + tail));
    ScanThree(ParseString(s).value.rest, [":"], value, tail);
  }

  lemma ScanThree(s: string, a: seq<string>, b: seq<string>, c: seq<string>)
    ensures Scan(s, a + (b + c)) == Then(Then(Scan(s, a), b), c)
  {
    ScanAppend(s, a, b + c);
    if Scan(s, a).Some? {
      ScanAppend(Scan(s, a).value, b, c);
    }
  }

  lemma ScanName(s: string, more: seq<string>)
    requires ParseString(s).Ok?
    ensures Scan(s, ["\"" + ParseString(s).value.value + "\""] + more) == Scan(ParseString(s).value.rest, more)
  {
    StringSpelled(s);
    ScanFront(s, "\"" + ParseString(s).value.value + "\"", more);
  }

  lemma ScanColon(s: string)
    ensures Scan(s, [":"]) == if Next(s).Ok? && Next(s).value.value == ':' then Some(Next(s).value.rest) else None
  {
    assert [":"][1..] == [];
  }

  lemma NameFirst(s: string, pairs: seq<Pair>)
    requires pairs != [] && '\"' !in pairs[0].name && Scan(s, PairTokens(pairs)).Some?
    ensures ParseString(s).Ok? && ParseString(s).value.value == pairs[0].name
  {
    var quoted := "\"" + pairs[0].name + "\"";
    assert PairTokens(pairs) == [quoted] + PairTokens(pairs)[1..];
    ReadString(s, pairs[0].name, PairTokens(pairs)[1..]);
  }

  lemma {:induction false} ReadPairs(s: string, before: seq<Child>, pairs: seq<Pair>, rest: string)
    requires pairs != [] && (forall p :: p in pairs ==> '\"' !in p.name && Legal(p.value))
    requires Scan(s, PairTokens(pairs)) == Some(rest)
    ensures ParseMembers(s, before) == Ok(Read(Object(Assigned(before, pairs)), rest))
    decreases pairs
  {
    var p := pairs[0];
    assert p in pairs;
    NameFirst(s, pairs);
    PairParts(s, pairs);
    ScanColon(ParseString(s).value.rest);
    var value := SkipSpace(ParseString(s).value.rest)[1..];
    var r := Scan(value, TokensOf(p.value)).value;
    ScanBehind(r, |pairs|, "}", PairTokens(pairs[1..]), rest);
    ReadSyntax(value, p.value, r);
    MembersStep(s, before, p.name, value, NodeOf(p.value), r);
    if |pairs| > 1 {
      ReadPairs(SkipSpace(r)[1..], Put(before, p.name, NodeOf(p.value)), pairs[1..], rest);
    }
  }

  // ---- Every text that is read is one of the grammar ----

  lemma {:induction false} QuotedSpelled(s: string)
    requires Until(s, "\"").Ok?
    ensures var r := Until(s, "\"").value; '\"' !in r.value && s == r.value + "\"" + r.rest
  {
    if s[0] != '\"' {
      QuotedSpelled(s[1..]);
    }
  }

  lemma StringSpelled(s: string)
    requires ParseString(s).Ok?
    ensures var r := ParseString(s).value;
            && '\"' !in r.value && "\"" + r.value + "\"" <= SkipSpace(s)
            && SkipSpace(s)[|r.value| + 2..] == r.rest
  {
    var t := SkipSpace(s);
    QuotedSpelled(t[1..]);
    var r := ParseString(s).value;
    assert t == "\"" + r.value + "\"" + r.rest;
  }

  lemma {:induction false} PlainSpelled(s: string, spaced: bool)
    requires UntilNoSpace(s, TERMINATORS, spaced).Ok?
    ensures var r := UntilNoSpace(s, TERMINATORS, spaced).value;
            && r.value <= s && SkipSpace(s[|r.value|..]) == r.rest
            && (forall c :: c in r.value ==> !IsBlank(c) && c !in ",}]")
            && (spaced ==> r.value == "") && (!spaced && !IsBlank(s[0]) && s[0] !in ",}]" ==> r.value != "")
  {
    if IsSpace(s[0]) {
      PlainSpelled(s[1..], true);
    } else if s[0] !in TERMINATORS {
      PlainSpelled(s[1..], false);
      var r := UntilNoSpace(s[1..], TERMINATORS, false).value;
      assert s[|[s[0]] + r.value|..] == s[1..][|r.value|..];
    }
  }

  lemma {:induction false} ValueSpelled(s: string) returns (v: Syntax, r: string)
    requires ParseValue(s).Ok?
    ensures Legal(v) && NodeOf(v) == ParseValue(s).value.value
    ensures Scan(s, TokensOf(v)) == Some(r) && SkipSpace(r) == SkipSpace(ParseValue(s).value.rest)
    decreases |s|, 0
  {
    var t := SkipSpace(s);
    SkipTwice(s);
    if t[0] == '[' {
      var vals;
      vals, r := ValuesSpelled(t[1..], []);
      v := ArrayText(vals);
      ScanFront(s, "[", ValueTokens(vals));
      assert [] + NodesOf(vals) == NodesOf(vals);
    } else if t[0] == '{' {
      var pairs;
      pairs, r := PairsSpelled(t[1..], []);
      v := ObjectText(pairs);
      ScanFront(s, "{", PairTokens(pairs));
    } else if t[0] == '\"' {
      StringSpelled(t);
      v := StringText(ParseString(t).value.value);
      r := ParseString(t).value.rest;
      ScanFront(s, TokensOf(v)[0], []);
    } else {
      PlainSpelled(t, false);
      var text := UntilNoSpace(t, TERMINATORS, false).value.value;
      v, r := PlainText(text), t[|text|..];
      assert text[0] == t[0];
      ScanFront(s, text, []);
      SkipTwice(r);
    }
  }

  lemma {:induction false} ValuesSpelled(s: string, before: seq<DomNode>) returns (vals: seq<Syntax>, rest: string)
    requires ParseElements(s, before).Ok?
    ensures vals != [] && (forall e :: e in vals ==> Legal(e)) && Scan(s, ValueTokens(vals)) == Some(rest)
    ensures ParseElements(s, before) == Ok(Read(Array(before + NodesOf(vals)), rest))
    decreases |s|, 1
  {
    var v, r := ValueSpelled(s);
    var now := before + [NodeOf(v)];
    ElementsStep(s, before, NodeOf(v), r);
    vals, rest := [v], SkipSpace(r)[1..];
    if SkipSpace(r)[0] == ',' {
      var more;
      more, rest := ValuesSpelled(rest, now);
      vals := [v] + more;
      assert vals[1..] == more;
      ScanFront(r, ",", ValueTokens(more));
    } else {
      ScanFront(r, "]", []);
    }
    ValueParts(s, vals);
    NodesNext(before, vals);
  }

  lemma {:induction false} PairsSpelled(s: string, before: seq<Child>) returns (pairs: seq<Pair>, rest: string)
    requires ParseMembers(s, before).Ok?
    ensures pairs != [] && (forall p :: p in pairs ==> '\"' !in p.name && Legal(p.value))
    ensures Scan(s, PairTokens(pairs)) == Some(rest)
    ensures ParseMembers(s, before) == Ok(Read(Object(Assigned(before, pairs)), rest))
    decreases |s|, 1
  {
    StringSpelled(s);
    var name := ParseString(s).value;
    var value := Next(name.rest).value.rest;
    var v, r := ValueSpelled(value);
    var now := Put(before, name.value, NodeOf(v));
    MembersStep(s, before, name.value, value, NodeOf(v), r);
    pairs, rest := [Pair(name.value, v)], SkipSpace(r)[1..];
    if SkipSpace(r)[0] == ',' {
      var more;
      more, rest := PairsSpelled(rest, now);
      pairs := [Pair(name.value, v)] + more;
      assert pairs[1..] == more;
      ScanFront(r, ",", PairTokens(more));
    } else {
      ScanFront(r, "}", []);
    }
    ScanColon(name.rest);
    PairParts(s, pairs);
  }
}

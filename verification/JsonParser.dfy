// dom-lib: the cursor parser for JSON, proved against a parser over what is left to read.
module JsonParsing {
  import opened Wrappers
  import opened DomNodes

  // The exceptions: the end of the text, or something else was expected.
  datatype ParseError = OutOfRange | Expected(what: string)

  // isspace in the C locale.
  predicate IsSpace(c: char) {
    c == ' ' || '\t' <= c <= '\r'
  }

  // Reading consumes a front of the text and leaves the rest.
  datatype Read<+T> = Read(value: T, rest: string)

  type Reading<+T> = Result<Read<T>, ParseError>

  function SkipSpace(s: string): (t: string)
    ensures |t| <= |s|
  {
    if s != "" && IsSpace(s[0]) then SkipSpace(s[1..]) else s
  }

  function Next(s: string): (r: Reading<char>)
    ensures r.Ok? ==> |r.value.rest| < |s|
  {
    var t := SkipSpace(s);
    if t == "" then Err(OutOfRange) else Ok(Read(t[0], t[1..]))
  }

  // A reading with some text before it.
  function Prefixed(front: string, r: Reading<string>): Reading<string> {
    match r
    case Ok(read) => Ok(Read(front + read.value, read.rest))
    case Err(e) => Err(e)
  }

  // Up to the first terminator, which is consumed.
  function Until(s: string, terminators: string): (r: Reading<string>)
    ensures r.Ok? ==> |r.value.rest| < |s|
  {
    if s == "" then Err(OutOfRange)
    else if s[0] in terminators then Ok(Read("", s[1..]))
    else Prefixed([s[0]], Until(s[1..], terminators))
  }

  // Up to the first terminator, which is left; spaces may only come before it.
  function UntilNoSpace(s: string, terminators: string, spaced: bool): (r: Reading<string>)
    ensures r.Ok? ==> |r.value.rest| <= |s| && r.value.rest != "" && r.value.rest[0] in terminators
  {
    if s == "" then Err(OutOfRange)
    else if IsSpace(s[0]) then UntilNoSpace(s[1..], terminators, true)
    else if s[0] in terminators then Ok(Read("", s))
    else if spaced then Err(Expected(terminators))
    else Prefixed([s[0]], UntilNoSpace(s[1..], terminators, false))
  }

  lemma PrefixedAppend(a: string, b: string, r: Reading<string>)
    ensures Prefixed(a, Prefixed(b, r)) == Prefixed(a + b, r) && Prefixed("", r) == r
    ensures r.Ok? && r.value.value == "" ==> Prefixed(a, r) == Ok(Read(a, r.value.rest))
  {
    if r.Ok? {
      assert a + (b + r.value.value) == a + b + r.value.value;
      assert "" + r.value.value == r.value.value && a + "" == a;
    }
  }

  function ParseString(s: string): (r: Reading<string>)
    ensures r.Ok? ==> |r.value.rest| < |s|
  {
    var first :- Next(s);
    if first.value != '\"' then Err(Expected("\"")) else Until(first.rest, "\"")
  }

  const TERMINATORS: string := ",}]"

  function ParseValue(s: string): (r: Reading<DomNode>)
    ensures r.Ok? ==> |r.value.rest| < |s|
    decreases |s|, 0
  {
    var t := SkipSpace(s);
    if t == "" then Err(OutOfRange)
    else if t[0] == '[' then ParseElements(t[1..], [])
    else if t[0] == '{' then ParseMembers(t[1..], [])
    else if t[0] in "]}:," then Err(Expected("value"))
    else if t[0] == '\"' then
      var text :- ParseString(t);
      Ok(Read(Text(text.value), text.rest))
    else
      var loaded :- UntilNoSpace(t, TERMINATORS, false);
      Ok(Read(if loaded.value == "null" then NULL else Basic(loaded.value), loaded.rest))
  }

  function ParseElements(s: string, before: seq<DomNode>): (r: Reading<DomNode>)
    ensures r.Ok? ==> |r.value.rest| < |s|
    decreases |s|, 1
  {
    var element :- ParseValue(s);
    var next :- Next(element.rest);
    if next.value == ',' then ParseElements(next.rest, before + [element.value])
    else if next.value == ']' then Ok(Read(Array(before + [element.value]), next.rest))
    else Err(Expected("]"))
  }

  function ParseMembers(s: string, before: seq<Child>): (r: Reading<DomNode>)
    ensures r.Ok? ==> |r.value.rest| < |s|
    decreases |s|, 1
  {
    var name :- ParseString(s);
    var colon :- Next(name.rest);
    if colon.value != ':' then Err(Expected(":"))
    else
      var member :- ParseValue(colon.rest);
      var now := Put(before, name.value, member.value);
      var next :- Next(member.rest);
      if next.value == ',' then ParseMembers(next.rest, now)
      else if next.value == '}' then Ok(Read(Object(now), next.rest))
      else Err(Expected("}"))
  }

  // The root must be an object; what follows it is not looked at.
  function Document(s: string): Result<DomNode, ParseError> {
    var first :- Next(s);
    if first.value != '{' then Err(Expected("{"))
    else
      var root :- ParseMembers(first.rest, []);
      Ok(root.value)
  }

  class JsonParser {
    const input: string
    var currIndex: nat

    constructor (json: string)
      ensures input == json && currIndex == 0
    {
      input, currIndex := json, 0;
    }

    ghost predicate Valid() reads this { currIndex <= |input| }

    // What is left to read.
    ghost function Rest(): string
      reads this
      requires Valid()
    {
      input[currIndex..]
    }

    // The result and the cursor are what a reading of the rest gives. A failed one leaves
    // the cursor at most one place past the end.
    ghost predicate Did<T>(expected: Reading<T>, r: Result<T, ParseError>)
      reads this
    {
      match expected
      case Ok(read) => r == Ok(read.value) && Valid() && Rest() == read.rest
      case Err(e) => r == Err(e) && currIndex <= |input| + 1
    }

    method NextChar() returns (r: Result<char, ParseError>)
      requires Valid()
      modifies this
      ensures Did(if old(Rest()) == "" then Err(OutOfRange) else Ok(Read(old(Rest())[0], old(Rest())[1..])), r)
      ensures r.Ok? ==> currIndex > 0 && input[currIndex - 1] == r.value
    {
      currIndex := currIndex + 1;
      if currIndex - 1 >= |input| {
        return Err(OutOfRange);
      }
      return Ok(input[currIndex - 1]);
    }

    method NextCharSkipSpace() returns (r: Result<char, ParseError>)
      requires Valid()
      modifies this
      ensures Did(Next(old(Rest())), r)
      ensures r.Ok? ==> currIndex > 0 && input[currIndex - 1] == r.value && !IsSpace(r.value)
    {
      var c :- NextChar();
      ghost var left := old(Rest());
      while IsSpace(c)
        invariant Valid() && left != "" && c == left[0] && Rest() == left[1..]
        invariant currIndex > 0 && input[currIndex - 1] == c
        invariant Next(left) == Next(old(Rest()))
        decreases |left|
      {
        left := left[1..];
        c :- NextChar();
      }
      return Ok(c);
    }

    method PeakChar() returns (r: Result<char, ParseError>)
      requires Valid()
      modifies this
      ensures Valid() && Rest() == SkipSpace(old(Rest())) && currIndex >= old(currIndex)
      ensures r == if Rest() == "" then Err(OutOfRange) else Ok(Rest()[0])
    {
      while currIndex < |input| && IsSpace(input[currIndex])
        invariant Valid() && currIndex >= old(currIndex) && SkipSpace(Rest()) == SkipSpace(old(Rest()))
      {
        currIndex := currIndex + 1;
      }
      if currIndex >= |input| {
        return Err(OutOfRange);
      }
      return Ok(input[currIndex]);
    }

    // The cursor is never at the start when a character is given back.
    method PrevChar()
      requires Valid() && currIndex > 0
      modifies this
      ensures Valid() && currIndex == old(currIndex) - 1 && Rest() == [input[currIndex]] + old(Rest())
    {
      currIndex := currIndex - 1;
    }

    method CheckIfTerminator(c: char, terminators: string) returns (found: bool)
      ensures found == (c in terminators)
    {
      for i := 0 to |terminators|
        invariant c !in terminators[..i]
      {
        if terminators[i] == c {
          return true;
        }
      }
      return false;
    }

    method LoadUntilWithSpace(terminators: string) returns (r: Result<string, ParseError>)
      requires Valid()
      modifies this
      ensures Did(Until(old(Rest()), terminators), r)
    {
      var ss := "";
      var c :- NextChar();
      ghost var left := old(Rest());
      var ended := CheckIfTerminator(c, terminators);
      PrefixedAppend(ss, "", Until(left, terminators));
      while !ended
        invariant Valid() && left != "" && c == left[0] && Rest() == left[1..] && ended == (c in terminators)
        invariant Until(old(Rest()), terminators) == Prefixed(ss, Until(left, terminators))
        decreases |left|
      {
        PrefixedAppend(ss, [c], Until(left[1..], terminators));
        ss := ss + [c];
        left := left[1..];
        c :- NextChar();
        ended := CheckIfTerminator(c, terminators);
      }
      PrefixedAppend(ss, "", Until(left, terminators));
      return Ok(ss);
    }

    method LoadUntilNoSpace(terminators: string) returns (r: Result<string, ParseError>)
      requires Valid() && forall c :: c in terminators ==> !IsSpace(c)
      modifies this
      ensures match UntilNoSpace(SkipSpace(old(Rest())), terminators, false)
              case Ok(read) =>
                r == Ok(read.value) && Valid() && currIndex > 0 && [input[currIndex - 1]] + Rest() == read.rest
              case Err(e) => r == Err(e) && currIndex <= |input| + 1
    {
      var ss := "";
      var c :- NextCharSkipSpace();
      ghost var left := SkipSpace(old(Rest()));
      var foundInnerSpace := false;
      PrefixedAppend(ss, "", UntilNoSpace(left, terminators, false));
      while true
        invariant Valid() && currIndex > 0 && input[currIndex - 1] == c
        invariant left != "" && c == left[0] && Rest() == left[1..]
        invariant UntilNoSpace(SkipSpace(old(Rest())), terminators, false)
               == Prefixed(ss, UntilNoSpace(left, terminators, foundInnerSpace))
        decreases |left|
      {
        if IsSpace(c) {
          foundInnerSpace := true;
        } else {
          var ended := CheckIfTerminator(c, terminators);
          if ended {
            PrefixedAppend(ss, "", UntilNoSpace(left, terminators, foundInnerSpace));
            break;
          }
          if foundInnerSpace {
            return Err(Expected(terminators));
          }
          PrefixedAppend(ss, [c], UntilNoSpace(left[1..], terminators, false));
          ss := ss + [c];
        }
        left := left[1..];
        c :- NextChar();
      }
      return Ok(ss);
    }

    method LoadString() returns (r: Result<string, ParseError>)
      requires Valid()
      modifies this
      ensures Did(ParseString(old(Rest())), r)
    {
      var c :- NextCharSkipSpace();
      if c != '\"' {
        return Err(Expected("\""));
      }
      r := LoadUntilWithSpace("\"");
    }

    method LoadValue() returns (r: Result<DomNode, ParseError>)
      requires Valid()
      modifies this
      ensures Did(ParseValue(old(Rest())), r)
      decreases |input| - currIndex, 0
    {
      var first :- PeakChar();
      match first
      case '[' =>
        var _ := NextChar();
        r := LoadArray();
      case '{' =>
        var _ := NextChar();
        r := LoadNext();
      case ']' | '}' | ':' | ',' =>
        return Err(Expected("value"));
      case '\"' =>
        var text :- LoadString();
        return Ok(Text(text));
      case _ =>
        SkipTwice(old(Rest()));
        var loaded :- LoadUntilNoSpace(TERMINATORS);
        PrevChar();
        if loaded == "null" {
          return Ok(NULL);
        }
        return Ok(Basic(loaded));
    }

    method LoadArray() returns (r: Result<DomNode, ParseError>)
      requires Valid()
      modifies this
      ensures Did(ParseElements(old(Rest()), []), r)
      decreases |input| - currIndex, 1
    {
      var arrVals: seq<DomNode> := [];
      var c := ',';
      while c == ','
        invariant Valid() && currIndex >= old(currIndex) && !IsSpace(c)
        invariant c == ',' ==> ParseElements(old(Rest()), []) == ParseElements(Rest(), arrVals)
        invariant c != ',' ==> currIndex > 0 && input[currIndex - 1] == c
        invariant c != ',' ==> (ParseElements(old(Rest()), [])
                            == (if c == ']' then Ok(Read(Array(arrVals), Rest())) else Err(Expected("]"))))
        decreases |input| - currIndex, c == ','
      {
        var value :- LoadValue();
        arrVals := arrVals + [value];
        c :- NextCharSkipSpace();
      }
      PrevChar();
      c :- NextCharSkipSpace();
      if c != ']' {
        return Err(Expected("]"));
      }
      return Ok(Array(arrVals));
    }

    method LoadNext() returns (r: Result<DomNode, ParseError>)
      requires Valid()
      modifies this
      ensures Did(ParseMembers(old(Rest()), []), r)
      decreases |input| - currIndex, 1
    {
      var parent := NULL;
      var c := ',';
      while c == ','
        invariant Valid() && currIndex >= old(currIndex) && !IsSpace(c)
        invariant parent == Object(parent.children)
        invariant c == ',' ==> ParseMembers(old(Rest()), []) == ParseMembers(Rest(), parent.children)
        invariant c != ',' ==> currIndex > 0 && input[currIndex - 1] == c
        invariant c != ',' ==> (ParseMembers(old(Rest()), [])
                            == (if c == '}' then Ok(Read(parent, Rest())) else Err(Expected("}"))))
        decreases |input| - currIndex, c == ','
      {
        var name :- LoadString();
        c :- NextCharSkipSpace();
        if c != ':' {
          return Err(Expected(":"));
        }
        var value :- LoadValue();
        parent := parent.(children := Put(parent.children, name, value));
        c :- NextCharSkipSpace();
      }
      PrevChar();
      c :- NextCharSkipSpace();
      if c != '}' {
        return Err(Expected("}"));
      }
      return Ok(parent);
    }

    method Parse() returns (r: Result<DomNode, ParseError>)
      requires currIndex == 0
      modifies this
      ensures r == Document(input)
      ensures if r.Ok? then Valid() else currIndex <= |input| + 1
    {
      var c :- NextCharSkipSpace();
      if c != '{' {
        return Err(Expected("{"));
      }
      r := LoadNext();
    }
  }

  lemma SkipTwice(s: string)
    ensures SkipSpace(SkipSpace(s)) == SkipSpace(s)
    ensures SkipSpace(s) != "" ==> !IsSpace(SkipSpace(s)[0])
  {
  }
}

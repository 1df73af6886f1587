// dom-lib: which of its two exceptions the parser throws. The end of the text is met exactly
// where more text could still make the document acceptable.
module JsonErrors {
  import opened Wrappers
  import opened DomNodes
  import opened JsonParsing
  import opened JsonGrammar

  ghost predicate Accepted(s: string) {
    exists v, spaces, trailing :: Spells(s, v, spaces, trailing)
  }

  lemma DocumentAccepts(s: string)
    ensures Document(s).Ok? <==> Accepted(s)
  {
    if Document(s).Ok? {
      AcceptedIff(s, Document(s).value);
    }
    if v, spaces, trailing :| Spells(s, v, spaces, trailing) {
      AcceptedIff(s, NodeOf(v));
    }
  }

  // A text is accepted, or more text would be needed, or it is beyond repair; the exception
  // tells the last two apart.
  lemma ErrorsIff(s: string)
    ensures Document(s) == Err(OutOfRange) <==> !Accepted(s) && exists more :: Accepted(s + more)
    ensures Document(s).Err? && Document(s).error.Expected? <==> forall more :: !Accepted(s + more)
  {
    assert s + "" == s;
    DocumentAccepts(s);
    if Document(s) == Err(OutOfRange) {
      var more := DocumentCompletes(s);
      DocumentAccepts(s + more);
    } else {
      forall more
        ensures Document(s + more) == Document(s)
      {
        DocumentMore(s, more);
      }
      forall more
        ensures Accepted(s + more) <==> Accepted(s)
      {
        DocumentAccepts(s + more);
      }
    }
  }

  // ---- More text changes nothing unless the end was met ----

  // The same reading of a text with more behind it.
  function Grown<T>(r: Reading<T>, more: string): Reading<T> {
    match r
    case Ok(read) => Ok(Read(read.value, read.rest + more))
    case Err(e) => Err(e)
  }

  lemma {:induction false} SkipMore(s: string, more: string)
    ensures SkipSpace(s + more) == if SkipSpace(s) != "" then SkipSpace(s) + more else SkipSpace(more)
  {
    if s == "" {
      assert s + more == more;
    } else {
      assert (s + more)[1..] == s[1..] + more;
      SkipMore(s[1..], more);
    }
  }

  lemma NextMore(s: string, more: string)
    requires Next(s).Ok?
    ensures Next(s + more) == Grown(Next(s), more)
  {
    SkipMore(s, more);
    var t := SkipSpace(s);
    assert (t + more)[1..] == t[1..] + more;
  }

  lemma {:induction false} UntilMore(s: string, terminators: string, more: string)
    requires Until(s, terminators) != Err(OutOfRange)
    ensures Until(s + more, terminators) == Grown(Until(s, terminators), more)
  {
    assert (s + more)[1..] == s[1..] + more;
    if s[0] !in terminators {
      UntilMore(s[1..], terminators, more);
    }
  }

  lemma {:induction false} UntilNoSpaceMore(s: string, terminators: string, spaced: bool, more: string)
    requires UntilNoSpace(s, terminators, spaced) != Err(OutOfRange)
    ensures UntilNoSpace(s + more, terminators, spaced) == Grown(UntilNoSpace(s, terminators, spaced), more)
  {
    assert (s + more)[1..] == s[1..] + more;
    if IsSpace(s[0]) {
      UntilNoSpaceMore(s[1..], terminators, true, more);
    } else if s[0] !in terminators && !spaced {
      UntilNoSpaceMore(s[1..], terminators, false, more);
    }
  }

  lemma StringMore(s: string, more: string)
    requires ParseString(s) != Err(OutOfRange)
    ensures ParseString(s + more) == Grown(ParseString(s), more)
  {
    NextMore(s, more);
    var first := Next(s).value;
    if first.value == '\"' {
      UntilMore(first.rest, "\"", more);
    }
  }

  lemma {:induction false} ValueMore(s: string, more: string)
    requires ParseValue(s) != Err(OutOfRange)
    ensures ParseValue(s + more) == Grown(ParseValue(s), more)
    decreases |s|, 0
  {
    var t := SkipSpace(s);
    SkipMore(s, more);
    assert (t + more)[1..] == t[1..] + more;
    if t[0] == '[' {
      ElementsMore(t[1..], [], more);
    } else if t[0] == '{' {
      MembersMore(t[1..], [], more);
    } else if t[0] == '\"' {
      StringMore(t, more);
    } else if t[0] !in "]}:," {
      UntilNoSpaceMore(t, TERMINATORS, false, more);
    }
  }

  lemma {:induction false} ElementsMore(s: string, before: seq<DomNode>, more: string)
    requires ParseElements(s, before) != Err(OutOfRange)
    ensures ParseElements(s + more, before) == Grown(ParseElements(s, before), more)
    decreases |s|, 1
  {
    ValueMore(s, more);
    if ParseValue(s).Ok? {
      var element := ParseValue(s).value;
      NextMore(element.rest, more);
      var next := Next(element.rest).value;
      if next.value == ',' {
        ElementsMore(next.rest, before + [element.value], more);
      }
    }
  }

  lemma {:induction false} MembersMore(s: string, before: seq<Child>, more: string)
    requires ParseMembers(s, before) != Err(OutOfRange)
    ensures ParseMembers(s + more, before) == Grown(ParseMembers(s, before), more)
    decreases |s|, 1
  {
    StringMore(s, more);
    if ParseString(s).Ok? {
      var name := ParseString(s).value;
      NextMore(name.rest, more);
      var colon := Next(name.rest).value;
      if colon.value == ':' {
        ValueMore(colon.rest, more);
        if ParseValue(colon.rest).Ok? {
          var member := ParseValue(colon.rest).value;
          NextMore(member.rest, more);
          var next := Next(member.rest).value;
          if next.value == ',' {
            MembersMore(next.rest, Put(before, name.value, member.value), more);
          }
        }
      }
    }
  }

  lemma DocumentMore(s: string, more: string)
    requires Document(s) != Err(OutOfRange)
    ensures Document(s + more) == Document(s)
  {
    NextMore(s, more);
    var first := Next(s).value;
    if first.value == '{' {
      MembersMore(first.rest, [], more);
    }
  }

  // ---- Where the end was met, more text completes the document ----

  lemma {:induction false} UntilCompletes(s: string)
    requires Until(s, "\"") == Err(OutOfRange)
    ensures Until(s + "\"", "\"").Ok? && Until(s + "\"", "\"").value.rest == ""
  {
    if s != "" {
      assert (s + "\"")[1..] == s[1..] + "\"";
      UntilCompletes(s[1..]);
    }
  }

  lemma {:induction false} PlainCompletes(s: string, spaced: bool, close: char)
    requires UntilNoSpace(s, TERMINATORS, spaced) == Err(OutOfRange) && close in TERMINATORS
    ensures var r := UntilNoSpace(s + [close], TERMINATORS, spaced); r.Ok? && r.value.rest == [close]
  {
    if s != "" {
      assert (s + [close])[1..] == s[1..] + [close];
      PlainCompletes(s[1..], IsSpace(s[0]), close);
    }
  }

  lemma StringCompletes(s: string) returns (more: string)
    requires ParseString(s) == Err(OutOfRange)
    ensures ParseString(s + more).Ok? && ParseString(s + more).value.rest == ""
  {
    if SkipSpace(s) == "" {
      more := "\"\"";
      SkipMore(s, more);
      assert more[1..] == "\"";
    } else {
      more := "\"";
      NextMore(s, more);
      UntilCompletes(Next(s).value.rest);
    }
  }

  // A value that has begun goes on in the added text.
  lemma ValueGoesOn(s: string, more: string)
    requires SkipSpace(s) != ""
    ensures var t := SkipSpace(s);
            && (t[0] == '[' ==> ParseValue(s + more) == ParseElements(t[1..] + more, []))
            && (t[0] == '{' ==> ParseValue(s + more) == ParseMembers(t[1..] + more, []))
            && ParseValue(s + more) == ParseValue(t + more)
  {
    var t := SkipSpace(s);
    SkipMore(s, more);
    SkipTwice(s);
    SkipMore(t, more);
    assert (t + more)[1..] == t[1..] + more;
  }

  // A value, and then the character that ends it.
  lemma {:induction false} ValueCompletes(s: string, close: char) returns (more: string)
    requires ParseValue(s) == Err(OutOfRange) && close in TERMINATORS
    ensures ParseValue(s + (more + [close])).Ok? && ParseValue(s + (more + [close])).value.rest == [close]
    decreases |s|, 0
  {
    var t := SkipSpace(s);
    if t == "" {
      more := "0";
      SkipMore(s, more + [close]);
      ReadPlain("0", [close]);
    } else {
      if t[0] == '[' {
        more := ElementsComplete(t[1..], []);
        ElementsMore(t[1..] + more, [], [close]);
      } else if t[0] == '{' {
        more := MembersComplete(t[1..], []);
        MembersMore(t[1..] + more, [], [close]);
      } else {
        SkipTwice(s);
        more := LeafCompletes(t, close);
      }
      ValueGoesOn(s, more + [close]);
      assert t[1..] + (more + [close]) == t[1..] + more + [close];
    }
  }

  lemma LeafCompletes(t: string, close: char) returns (more: string)
    requires ParseValue(t) == Err(OutOfRange) && close in TERMINATORS
    requires t != "" && !IsSpace(t[0]) && t[0] !in "[{"
    ensures ParseValue(t + (more + [close])).Ok? && ParseValue(t + (more + [close])).value.rest == [close]
  {
    if t[0] == '\"' {
      more := StringCompletes(t);
      StringMore(t + more, [close]);
      assert t + (more + [close]) == t + more + [close];
    } else {
      more := "";
      PlainCompletes(t, false, close);
      assert more + [close] == [close];
    }
  }

  lemma {:induction false} ElementsComplete(s: string, before: seq<DomNode>) returns (more: string)
    requires ParseElements(s, before) == Err(OutOfRange)
    ensures ParseElements(s + more, before).Ok? && ParseElements(s + more, before).value.rest == ""
    decreases |s|, 1
  {
    if ParseValue(s).Err? {
      more := ValueCompletes(s, ']');
      more := more + "]";
    } else {
      var element := ParseValue(s).value;
      if Next(element.rest).Err? {
        more := "]";
        SkipMore(element.rest, more);
      } else {
        var next := Next(element.rest).value;
        more := ElementsComplete(next.rest, before + [element.value]);
        NextMore(element.rest, more);
      }
      ValueMore(s, more);
    }
  }

  lemma {:induction false} MembersComplete(s: string, before: seq<Child>) returns (more: string)
    requires ParseMembers(s, before) == Err(OutOfRange)
    ensures ParseMembers(s + more, before).Ok? && ParseMembers(s + more, before).value.rest == ""
    decreases |s|, 1
  {
    if ParseString(s).Err? || Next(ParseString(s).value.rest).Err? {
      more := NameCompletes(s, before);
    } else {
      var name := ParseString(s).value;
      var colon := Next(name.rest).value;
      if ParseValue(colon.rest).Err? {
        more := ValueCompletes(colon.rest, '}');
        more := more + "}";
      } else {
        var member := ParseValue(colon.rest).value;
        if Next(member.rest).Err? {
          more := "}";
          SkipMore(member.rest, more);
        } else {
          more := MembersComplete(Next(member.rest).value.rest, Put(before, name.value, member.value));
          NextMore(member.rest, more);
        }
        ValueMore(colon.rest, more);
      }
      StringMore(s, more);
      NextMore(name.rest, more);
    }
  }

  lemma NameCompletes(s: string, before: seq<Child>) returns (more: string)
    requires if ParseString(s).Err? then ParseString(s) == Err(OutOfRange) else Next(ParseString(s).value.rest).Err?
    ensures ParseMembers(s + more, before).Ok? && ParseMembers(s + more, before).value.rest == ""
  {
    var front, last := "", ":0}";
    if ParseString(s).Err? {
      front := StringCompletes(s);
    } else {
      assert s + "" == s;
    }
    StringMore(s + front, last);
    more := front + last;
    assert s + more == s + front + last;
    ColonCompletes(s + more, before, ParseString(s + front).value.rest);
  }

  lemma ColonCompletes(s: string, before: seq<Child>, space: string)
    requires ParseString(s).Ok? && ParseString(s).value.rest == space + ":0}" && SkipSpace(space) == ""
    ensures ParseMembers(s, before).Ok? && ParseMembers(s, before).value.rest == ""
  {
    var last := ":0}";
    SkipMore(space, last);
    assert last[1..] == "0" + "}";
    ReadPlain("0", "}");
  }

  lemma DocumentCompletes(s: string) returns (more: string)
    requires Document(s) == Err(OutOfRange)
    ensures Document(s + more).Ok?
  {
    if SkipSpace(s) == "" {
      var last := MembersComplete("", []);
      more := "{" + last;
      SkipMore(s, more);
      assert more[1..] == "" + last;
    } else {
      more := MembersComplete(Next(s).value.rest, []);
      NextMore(s, more);
    }
  }
}

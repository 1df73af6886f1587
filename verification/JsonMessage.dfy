// comms-lib: whole packets as NUL-terminated JSON text.
module JsonMessages {
  import opened Wrappers
  import opened DomNodes
  import opened JsonPrinting
  import opened JsonParsing
  import opened JsonRoundTrip
  import opened Decimals
  import BinaryTypes
  import BinaryFormat
  import Buffers
  import BinarySerializer

  datatype Message = Message(kind: string, recipientType: int, recipientInstance: int, data: DomNode)

  // Text that std::string and a char* agree on.
  predicate IsCString(s: string) {
    forall i :: 0 <= i < |s| ==> 0 < s[i] as int < 256
  }

  ghost predicate IsCTree(t: DomNode)
    decreases t
  {
    && IsCString(t.value)
    && (forall c :: c in t.children ==> IsCString(c.name) && IsCTree(c.node))
    && forall e :: e in t.elements ==> IsCTree(e)
  }

  lemma {:induction false} TokensAreCStrings(t: DomNode)
    requires IsCTree(t)
    ensures forall k :: k in Tokens(t) ==> IsCString(k)
    decreases t
  {
    if t.IsArray() {
      ElementsAreCStrings(t.elements);
    } else {
      MembersAreCStrings(t.children);
    }
  }

  lemma {:induction false} ElementsAreCStrings(elements: seq<DomNode>)
    requires forall e :: e in elements ==> IsCTree(e)
    ensures forall k :: k in ElementTokens(elements) ==> IsCString(k)
    decreases elements
  {
    if elements != [] {
      TokensAreCStrings(elements[0]);
      ElementsAreCStrings(elements[1..]);
    }
  }

  lemma {:induction false} MembersAreCStrings(children: seq<Child>)
    requires forall c :: c in children ==> IsCString(c.name) && IsCTree(c.node)
    ensures forall k :: k in MemberTokens(children) ==> IsCString(k)
    decreases children
  {
    if children != [] {
      assert children[0] in children;
      TokensAreCStrings(children[0].node);
      MembersAreCStrings(children[1..]);
    }
  }

  lemma {:induction false} ConcatIsCString(tokens: seq<string>)
    requires forall k :: k in tokens ==> IsCString(k)
    ensures IsCString(Concat(tokens))
  {
    if tokens != [] {
      assert tokens[0] in tokens;
      ConcatIsCString(tokens[1..]);
    }
  }

  lemma PrintIsCString(t: DomNode)
    requires IsCTree(t)
    ensures IsCString(Print(t))
  {
    TokensAreCStrings(t);
    ConcatIsCString(Tokens(t));
  }

  // buildNode, and then one assignment to a child after the other.
  function MessageTree(m: Message): DomNode {
    var c1 := Put([], "message", Text(m.kind));
    var c2 := Put(c1, "type", Basic(Decimal(m.recipientType)));
    var c3 := Put(c2, "instance", Basic(Decimal(m.recipientInstance)));
    Object(Put(c3, "data", m.data))
  }

  lemma MessageTreeIs(m: Message)
    ensures MessageTree(m) == Object([
              Child("data", m.data),
              Child("instance", Basic(Decimal(m.recipientInstance))),
              Child("message", Text(m.kind)),
              Child("type", Basic(Decimal(m.recipientType)))])
  {
    var (data, instance) := (Child("data", m.data), Child("instance", Basic(Decimal(m.recipientInstance))));
    var (message, kind) := (Child("message", Text(m.kind)), Child("type", Basic(Decimal(m.recipientType))));
    assert Put([], message.name, message.node) == [message];
    PutLast([message], kind.name, kind.node);
    assert Put([message, kind], instance.name, instance.node) == [instance, message, kind];
    assert Put([instance, message, kind], data.name, data.node) == [data, instance, message, kind];
  }

  // m_root[name] on a tree that may change: a missing child is added as a null node.
  function Access(children: seq<Child>, name: string): (seq<Child>, DomNode) {
    match Lookup(children, name)
    case Some(node) => (children, node)
    case None => (Put(children, name, NULL), NULL)
  }

  // What is read back: the address, the type string, and the tree the data is taken from.
  datatype Received = Received(kind: string, recipientType: int, recipientInstance: int, root: DomNode)
  {
    // A missing child of a tree that may not change is an exception.
    function GetData(): Result<DomNode, ParseError> {
      match Lookup(root.children, "data")
      case Some(node) => Ok(node)
      case None => Err(OutOfRange)
    }
  }

  function ReadMessage(text: string): Result<Received, ParseError> {
    var root :- Document(text);
    var (c1, t) := Access(root.children, "type");
    var (c2, i) := Access(c1, "instance");
    var (c3, k) := Access(c2, "message");
    Ok(Received(k.value, Atoi(t.value), Atoi(i.value), root.(children := c3)))
  }

  // What the JSON form carries: a type string without quotes, a tree that can be printed.
  ghost predicate IsMessage(m: Message) {
    Quotable(m.kind) && IsCString(m.kind) && WellFormed(m.data) && IsCTree(m.data)
  }

  lemma PlainIsCString(v: string)
    requires forall c :: c in v ==> c == '-' || IsDigit(c)
    ensures IsCString(v)
  {
    forall i | 0 <= i < |v|
      ensures 0 < v[i] as int < 256
    {
      assert v[i] in v;
    }
  }

  // What the tree needs of each part of the message.
  ghost predicate IsPart(c: Child) {
    Quotable(c.name) && WellFormed(c.node) && IsCString(c.name) && IsCTree(c.node)
  }

  lemma NumberIsPart(name: string, n: int)
    requires Quotable(name) && IsCString(name)
    ensures IsPart(Child(name, Basic(Decimal(n))))
  {
    DecimalRoundTrip(n);
    PlainIsCString(Decimal(n));
  }

  lemma NamesInOrder(children: seq<Child>)
    requires |children| == 4 && children[0].name == "data" && children[1].name == "instance"
    requires children[2].name == "message" && children[3].name == "type"
    ensures Ordered(children)
  {
    assert Before("data", "instance") && Before("data", "message") && Before("data", "type");
    assert Before("instance", "message") && Before("instance", "type") && Before("message", "type");
  }

  lemma PartsMakeRoot(children: seq<Child>)
    requires children != [] && Ordered(children) && forall i :: 0 <= i < |children| ==> IsPart(children[i])
    ensures IsRoot(Object(children)) && IsCTree(Object(children))
  {
    assert forall c :: c in children ==> IsPart(c);
  }

  lemma FourMakeRoot(data: Child, instance: Child, message: Child, kind: Child)
    requires data.name == "data" && instance.name == "instance" && message.name == "message" && kind.name == "type"
    requires IsPart(data) && IsPart(instance) && IsPart(message) && IsPart(kind)
    ensures IsRoot(Object([data, instance, message, kind])) && IsCTree(Object([data, instance, message, kind]))
  {
    NamesInOrder([data, instance, message, kind]);
    PartsMakeRoot([data, instance, message, kind]);
  }

  lemma MessageTreeIsRoot(m: Message)
    requires IsMessage(m)
    ensures IsRoot(MessageTree(m)) && IsCTree(MessageTree(m))
  {
    var data, instance := Child("data", m.data), Child("instance", Basic(Decimal(m.recipientInstance)));
    var message, kind := Child("message", Text(m.kind)), Child("type", Basic(Decimal(m.recipientType)));
    NumberIsPart("instance", m.recipientInstance);
    NumberIsPart("type", m.recipientType);
    FourMakeRoot(data, instance, message, kind);
    MessageTreeIs(m);
  }

  lemma MessageFields(m: Message)
    ensures var children := MessageTree(m).children;
            && Lookup(children, "data") == Some(m.data) && Lookup(children, "message") == Some(Text(m.kind))
            && Lookup(children, "instance") == Some(Basic(Decimal(m.recipientInstance)))
            && Lookup(children, "type") == Some(Basic(Decimal(m.recipientType)))
  {
    var children := MessageTree(m).children;
    MessageTreeIs(m);
    NamesInOrder(children);
    LookupAt(children, 0);
    LookupAt(children, 1);
    LookupAt(children, 2);
    LookupAt(children, 3);
  }

  lemma TreeRoundTrip(m: Message)
    requires IsMessage(m)
    ensures ReadMessage(Print(MessageTree(m)))
         == Ok(Received(m.kind, m.recipientType, m.recipientInstance, MessageTree(m)))
    ensures Received(m.kind, m.recipientType, m.recipientInstance, MessageTree(m)).GetData() == Ok(m.data)
  {
    MessageTreeIsRoot(m);
    SurvivesIff(MessageTree(m));
    MessageFields(m);
    DecimalRoundTrip(m.recipientType);
    DecimalRoundTrip(m.recipientInstance);
  }

  // Text of C++ characters, NUL included.
  predicate IsByteString(s: string) {
    forall i :: 0 <= i < |s| ==> s[i] as int < 256
  }

  // The bytes of a string, and the string a char* to them stands for.
  function Raw(s: string): (bs: BinaryTypes.Bytes)
    requires IsByteString(s)
    ensures |bs| == |s| && forall i :: 0 <= i < |s| ==> bs[i] == s[i] as int
  {
    seq(|s|, i requires 0 <= i < |s| => s[i] as int)
  }

  function CString(bs: BinaryTypes.Bytes): string {
    if bs == [] || bs[0] == 0 then "" else [bs[0] as char] + CString(bs[1..])
  }

  // The characters before the first NUL.
  lemma {:induction false} CStringIs(bs: BinaryTypes.Bytes)
    ensures var n := |CString(bs)|;
            && n <= |bs| && (n < |bs| ==> bs[n] == 0)
            && forall i :: 0 <= i < n ==> bs[i] != 0 && CString(bs)[i] as int == bs[i]
  {
    if bs != [] && bs[0] != 0 {
      CStringIs(bs[1..]);
    }
  }

  // A string is read back from its bytes and a NUL exactly if it holds no NUL itself.
  lemma {:induction false} CStringOfRaw(s: string, more: BinaryTypes.Bytes)
    requires IsByteString(s)
    ensures CString(Raw(s) + [0] + more) == s <==> IsCString(s)
  {
    var bs := Raw(s) + [0] + more;
    if s != "" {
      assert bs[1..] == Raw(s[1..]) + [0] + more;
      CStringOfRaw(s[1..], more);
      assert s == [s[0]] + s[1..];
      assert IsCString(s) <==> s[0] as int != 0 && IsCString(s[1..]) by {
        assert forall i :: 0 < i < |s| ==> s[i] == s[1..][i - 1];
      }
    }
  }

  lemma MessageIsCString(m: Message)
    requires IsMessage(m)
    ensures IsCString(Print(MessageTree(m)))
  {
    MessageTreeIsRoot(m);
    PrintIsCString(MessageTree(m));
  }

  ghost function MessageBytes(m: Message): BinaryTypes.Bytes
    requires IsMessage(m)
  {
    MessageIsCString(m);
    Raw(Print(MessageTree(m))) + [0]
  }

  // All four parts survive the way through a buffer, whatever is behind them in it.
  lemma MessageRoundTrip(m: Message, more: BinaryTypes.Bytes)
    requires IsMessage(m)
    ensures var r := ReadMessage(CString(MessageBytes(m) + more));
            && r.Ok? && r.value.GetData() == Ok(m.data)
            && r.value.kind == m.kind
            && r.value.recipientType == m.recipientType && r.value.recipientInstance == m.recipientInstance
  {
    MessageIsCString(m);
    CStringOfRaw(Print(MessageTree(m)), more);
    TreeRoundTrip(m);
  }

  // Each part is read from its own child, whichever of the others are there: a missing address
  // reads as zero, a missing type string as empty, and missing data is an exception.
  lemma PartsReadAlone(text: string)
    requires Document(text).Ok?
    ensures ReadMessage(text).Ok?
    ensures var children, r := Document(text).value.children, ReadMessage(text).value;
            && r.recipientType == IntOrZero(Lookup(children, "type"))
            && r.recipientInstance == IntOrZero(Lookup(children, "instance"))
            && r.kind == TextOrEmpty(Lookup(children, "message"))
            && r.GetData() == match Lookup(children, "data") case Some(node) => Ok(node) case None => Err(OutOfRange)
  {
    var children := Document(text).value.children;
    ParsedIsRoot(text);
    var c1, c2 := Access(children, "type").0, Access(Access(children, "type").0, "instance").0;
    AccessKeepsOthers(children, "type");
    AccessKeepsOthers(c1, "instance");
    AccessKeepsOthers(c2, "message");
  }

  function IntOrZero(node: Option<DomNode>): int {
    if node.Some? then Atoi(node.value.value) else 0
  }

  function TextOrEmpty(node: Option<DomNode>): string {
    if node.Some? then node.value.value else ""
  }

  lemma AccessKeepsOthers(children: seq<Child>, name: string)
    requires Ordered(children)
    ensures Ordered(Access(children, name).0)
    ensures forall other :: other != name ==> Lookup(Access(children, name).0, other) == Lookup(children, other)
  {
    PutKeepsOrder(children, name, NULL);
    forall other | other != name
      ensures Lookup(Put(children, name, NULL), other) == Lookup(children, other)
    {
      PutThenLookup(children, name, NULL, other);
    }
  }

  class Serializer {
    const stringRep: string

    constructor (m: Message)
      ensures stringRep == Print(MessageTree(m))
    {
      var root := Object(Put([], "message", Text(m.kind)));
      root := root.(children := Put(root.children, "type", Basic(Decimal(m.recipientType))));
      root := root.(children := Put(root.children, "instance", Basic(Decimal(m.recipientInstance))));
      root := root.(children := Put(root.children, "data", m.data));
      var text := ToString(root);
      stringRep := text;
    }

    // One more for the NUL.
    method GetSize() returns (size: nat)
      ensures size == |stringRep| + 1
    {
      return |stringRep| + 1;
    }

    method Serialize(out: Buffers.OutputBuffer) returns (r: Result<(), BinaryFormat.BufferError>)
      requires out.Valid() && IsByteString(stringRep)
      modifies out, out.buffer
      ensures BinarySerializer.Wrote(out, old(out.Contents()), Raw(stringRep) + [0], r)
    {
      r := out.Append(Raw(stringRep) + [0]);
    }
  }

  // The text is what stands before the first NUL of the buffer, wherever its cursor is.
  method Deserialize(buffer: Buffers.InputBuffer) returns (r: Result<Received, ParseError>)
    requires 0 in buffer.buffer[..]
    ensures r == ReadMessage(CString(buffer.buffer[..]))
  {
    var parser := new JsonParser(CString(buffer.buffer[..]));
    var root :- parser.Parse();
    var (c1, t) := Access(root.children, "type");
    var (c2, i) := Access(c1, "instance");
    var (c3, k) := Access(c2, "message");
    return Ok(Received(k.value, Atoi(t.value), Atoi(i.value), root.(children := c3)));
  }

  // A buffer of the message's size is filled.
  method SerializeMessage(m: Message) returns (out: Buffers.OutputBuffer)
    requires IsMessage(m)
    ensures out.buffer[..] == MessageBytes(m)
  {
    MessageIsCString(m);
    var serializer := new Serializer(m);
    var size := serializer.GetSize();
    out := new Buffers.OutputBuffer(size);
    var written := serializer.Serialize(out);
    assert out.Contents() == out.buffer[..];
  }

  method SendAndReceive(m: Message) returns (r: Result<Received, ParseError>)
    requires IsMessage(m)
    ensures r.Ok? && r.value.GetData() == Ok(m.data)
    ensures r.value.kind == m.kind
    ensures r.value.recipientType == m.recipientType && r.value.recipientInstance == m.recipientInstance
  {
    MessageRoundTrip(m, []);
    assert MessageBytes(m) + [] == MessageBytes(m);
    var out := SerializeMessage(m);
    var sent := new Buffers.InputBuffer(out.buffer[..]);
    assert MessageBytes(m)[|MessageBytes(m)| - 1] == 0;
    r := Deserialize(sent);
  }
}

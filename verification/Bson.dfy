/**
 Looking up elements in BSON documents (lib/bson.c), against the grammar of BSON 1.1.

 A document is a value of type `seq<Element>`; `EncodeDocument` is its encoding.  `Walk` is what the
 lookup does on arbitrary memory.
 */
module Bson {
  import opened Bytes
  import opened CString
  import opened Digits
  import opened Wrappers

  // ----- Documents and their encoding -----

  datatype Element = Element(key: seq<byte>, value: Value)

  datatype Value =
    | Double(bits: seq<byte>)
    | Text(text: seq<byte>)
    | Document(elements: seq<Element>)
    | Array(elements: seq<Element>)
    | Binary(subtype: byte, data: seq<byte>)
    | Undefined
    | ObjectId(bits: seq<byte>)
    | Boolean(flag: bool)
    | DateTime(bits: seq<byte>)
    | Null
    | Regex(pattern: seq<byte>, options: seq<byte>)
    | DbPointer(text: seq<byte>, bits: seq<byte>)
    | Code(text: seq<byte>)
    | Symbol(text: seq<byte>)
    | ScopedCode(text: seq<byte>, elements: seq<Element>)
    | Int32(bits: seq<byte>)
    | Timestamp(bits: seq<byte>)
    | Int64(bits: seq<byte>)
    | Decimal(bits: seq<byte>)
    | MinKey
    | MaxKey

  function TypeOf(v: Value): (t: byte)
    ensures t != 0
  {
    match v
    case Double(_) => 0x01
    case Text(_) => 0x02
    case Document(_) => 0x03
    case Array(_) => 0x04
    case Binary(_, _) => 0x05
    case Undefined => 0x06
    case ObjectId(_) => 0x07
    case Boolean(_) => 0x08
    case DateTime(_) => 0x09
    case Null => 0x0A
    case Regex(_, _) => 0x0B
    case DbPointer(_, _) => 0x0C
    case Code(_) => 0x0D
    case Symbol(_) => 0x0E
    case ScopedCode(_, _) => 0x0F
    case Int32(_) => 0x10
    case Timestamp(_) => 0x11
    case Int64(_) => 0x12
    case Decimal(_) => 0x13
    case MinKey => 0xFF
    case MaxKey => 0x7F
  }

  /** A string: its length with the terminator, its bytes, the terminator. */
  function EncodeText(text: seq<byte>): (s: seq<byte>)
    ensures |s| == |text| + 5
  {
    LEBytes(|text| + 1, 4) + text + [0]
  }

  function EncodeValue(v: Value): seq<byte>
    decreases v
  {
    match v
    case Double(bits) => bits
    case Text(text) => EncodeText(text)
    case Document(elements) => EncodeDocument(elements)
    case Array(elements) => EncodeDocument(elements)
    case Binary(subtype, data) => LEBytes(|data|, 4) + [subtype] + data
    case Undefined => []
    case ObjectId(bits) => bits
    case Boolean(flag) => [if flag then 1 else 0]
    case DateTime(bits) => bits
    case Null => []
    case Regex(pattern, options) => pattern + [0] + options + [0]
    case DbPointer(text, bits) => EncodeText(text) + bits
    case Code(text) => EncodeText(text)
    case Symbol(text) => EncodeText(text)
    case ScopedCode(text, elements) =>
      var scope := EncodeDocument(elements);
      LEBytes(4 + |EncodeText(text)| + |scope|, 4) + EncodeText(text) + scope
    case Int32(bits) => bits
    case Timestamp(bits) => bits
    case Int64(bits) => bits
    case Decimal(bits) => bits
    case MinKey => []
    case MaxKey => []
  }

  function EncodeElement(e: Element): seq<byte>
    decreases e
  {
    [TypeOf(e.value)] + e.key + [0] + EncodeValue(e.value)
  }

  lemma EncodedLength(e: Element)
    ensures |EncodeElement(e)| == |e.key| + 2 + |EncodeValue(e.value)|
  {
  }

  function EncodeElements(es: seq<Element>): seq<byte>
    decreases es, 0
  {
    if es == [] then [] else EncodeElement(es[0]) + EncodeElements(es[1..])
  }

  function EncodeDocument(es: seq<Element>): (s: seq<byte>)
    ensures |s| == |EncodeElements(es)| + 5
    decreases es, 1
  {
    LEBytes(|EncodeElements(es)| + 5, 4) + EncodeElements(es) + [0]
  }

  /** The grammar: sizes of the fixed payloads, no zero bytes in keys, lengths that fit. */
  ghost predicate WellFormed(v: Value)
    decreases v
  {
    && |EncodeValue(v)| < TWO_31
    && match v
       case Double(bits) => |bits| == 8
       case DateTime(bits) => |bits| == 8
       case Timestamp(bits) => |bits| == 8
       case Int64(bits) => |bits| == 8
       case Int32(bits) => |bits| == 4
       case Decimal(bits) => |bits| == 16
       case ObjectId(bits) => |bits| == 12
       case DbPointer(_, bits) => |bits| == 12
       case Regex(pattern, options) => 0 !in pattern && 0 !in options
       case Document(elements) => ProperElements(elements)
       case Array(elements) => ProperElements(elements)
       case ScopedCode(_, elements) => ProperElements(elements)
       case _ => true
  }

  ghost predicate Proper(e: Element)
    decreases e
  {
    0 !in e.key && WellFormed(e.value)
  }

  ghost predicate ProperElements(es: seq<Element>)
    decreases es
  {
    es == [] || (Proper(es[0]) && ProperElements(es[1..]))
  }

  /** How many bytes the values of each type byte take, and what the length in front of one counts. */
  lemma SizeOfType(v: Value)
    requires WellFormed(v)
    ensures var t, s := TypeOf(v), EncodeValue(v);
            && (t == 0x06 || t == 0x0A || t == 0x7F || t == 0xFF ==> |s| == 0)
            && (t == 0x08 ==> |s| == 1)
            && (t == 0x10 ==> |s| == 4)
            && (t == 0x01 || t == 0x09 || t == 0x11 || t == 0x12 ==> |s| == 8)
            && (t == 0x07 ==> |s| == 12)
            && (t == 0x13 ==> |s| == 16)
            && (t == 0x02 || t == 0x0D || t == 0x0E ==> |s| >= 5 && LEValue(s[..4]) + 4 == |s|)
            && (t == 0x05 ==> |s| >= 5 && LEValue(s[..4]) + 5 == |s|)
            && (t == 0x03 || t == 0x04 || t == 0x0F ==> |s| >= 5 && LEValue(s[..4]) == |s|)
  {
    hide LEBytes, LEValue, ProperElements, EncodeElements, EncodeText, EncodeDocument;
    match v
    case Text(text) => SizeOfText(text);
    case Code(text) => SizeOfText(text);
    case Symbol(text) => SizeOfText(text);
    case Binary(subtype, data) => SizeOfBinary(subtype, data);
    case Document(es) => SizeOfDocument(es);
    case Array(es) => SizeOfDocument(es);
    case ScopedCode(text, es) =>
      SizeOfPair(EncodeText(text), EncodeDocument(es));
    case _ =>
  }

  lemma LengthInFront(n: nat, rest: seq<byte>)
    requires n < TWO_32
    ensures LEValue((LEBytes(n, 4) + rest)[..4]) == n
  {
    hide LEBytes, LEValue;
    assert (LEBytes(n, 4) + rest)[..4] == LEBytes(n, 4);
    assert Pow(256, 2) == 0x1_0000 && Pow(256, 4) == TWO_32;
    LEValueOfBytes(n, 4);
  }

  lemma SizeOfText(text: seq<byte>)
    requires |EncodeText(text)| < TWO_31
    ensures LEValue(EncodeText(text)[..4]) + 4 == |EncodeText(text)|
  {
    LengthInFront(|text| + 1, text + [0]);
    hide LEBytes, LEValue;
    assert EncodeText(text) == LEBytes(|text| + 1, 4) + (text + [0]);
  }

  lemma SizeOfBinary(subtype: byte, data: seq<byte>)
    requires |data| < TWO_31
    ensures LEValue((LEBytes(|data|, 4) + [subtype] + data)[..4]) == |data|
  {
    LengthInFront(|data|, [subtype] + data);
    hide LEBytes, LEValue;
    assert LEBytes(|data|, 4) + [subtype] + data == LEBytes(|data|, 4) + ([subtype] + data);
  }

  lemma SizeOfPair(text: seq<byte>, scope: seq<byte>)
    requires |text| + |scope| < TWO_31
    ensures var n := 4 + |text| + |scope|; LEValue((LEBytes(n, 4) + text + scope)[..4]) == n
  {
    var n := 4 + |text| + |scope|;
    LengthInFront(n, text + scope);
    hide LEBytes, LEValue;
    assert LEBytes(n, 4) + text + scope == LEBytes(n, 4) + (text + scope);
  }

  lemma SizeOfDocument(es: seq<Element>)
    requires |EncodeDocument(es)| < TWO_31
    ensures LEValue(EncodeDocument(es)[..4]) == |EncodeDocument(es)|
  {
    var s := EncodeElements(es);
    LengthInFront(|s| + 5, s + [0]);
    hide LEBytes, LEValue;
    assert EncodeDocument(es) == LEBytes(|s| + 5, 4) + (s + [0]);
  }

  /** The bytes of a short document with one text: {"hello": "world"} begins with 22, 0, 0, 0, 2. */
  lemma DocumentOfText(key: seq<byte>, text: seq<byte>)
    requires |key| + |text| + 12 < 256
    ensures EncodeDocument([Element(key, Text(text))]) ==
            [(|key| + |text| + 12) as byte, 0, 0, 0, 2] + key + [0, (|text| + 1) as byte, 0, 0, 0] + text + [0, 0]
  {
    hide LEBytes;
    SmallLength(|text| + 1);
    SmallLength(|key| + |text| + 12);
    OneElement(Element(key, Text(text)));
  }

  lemma OneElement(e: Element)
    ensures EncodeElements([e]) == EncodeElement(e)
  {
    hide EncodeElement;
    assert EncodeElements([e]) == EncodeElement(e) + EncodeElements([]);
  }

  /** The types that the lookup cannot step over. */
  predicate Unsized(v: Value) {
    v.ObjectId? || v.Regex? || v.DbPointer? || v.Code? || v.Symbol? || v.ScopedCode?
  }

  // ----- What the lookup does on any memory -----

  /** `Stuck`: it reads past the end of memory, or a length makes it go backwards. */
  datatype Outcome = Found(at: nat) | Missing | Stuck

  /** How far the code steps over a value of type `t` at `p`. */
  function Skip(m: seq<byte>, t: byte, p: nat): Option<int> {
    if t == 0x01 || t == 0x09 || t == 0x11 || t == 0x12 then Some(8)
    else if t == 0x02 || t == 0x03 || t == 0x04 || t == 0x05 then
      if p + 4 > |m| then None
      else if t == 0x02 then Some(LoadSigned(m, p) + 4)
      else if t == 0x05 then Some(LoadSigned(m, p) + 5)
      else Some(LoadSigned(m, p))
    else if t == 0x08 then Some(1)
    else if t == 0x10 then Some(4)
    else if t == 0x13 then Some(16)
    else Some(0)
  }

  /** The address of the value of the element at `p`. */
  function ValueAt(m: seq<byte>, p: nat): nat {
    p + |CStr(m, p)| + 1
  }

  ghost function Walk(m: seq<byte>, end: int, p: nat, name: nat): Outcome
    decreases |m| - p
  {
    if p >= end then Missing
    else if p >= |m| then Stuck
    else if m[p] == 0 then Missing
    else if !HasNul(m, p + 1) || !Comparable(m, p + 1, name, |CStr(m, p + 1)|) then Stuck
    else if CStr(m, p + 1) <= CStr(m, name) then Found(p)
    else
      var skip := Skip(m, m[p], ValueAt(m, p));
      if skip.None? || ValueAt(m, p) + skip.value <= p then Stuck
      else Walk(m, end, ValueAt(m, p) + skip.value, name)
  }

  /** The lookup of `bson_find_entry`, from the start of a document. */
  ghost function Entry(m: seq<byte>, doc: nat, name: nat): Outcome
    requires doc + 4 <= |m|
  {
    Walk(m, doc + LoadSigned(m, doc), doc + 4, name)
  }

  method SkipValue(m: seq<byte>, t: byte, p: nat) returns (q: int)
    requires Skip(m, t, p).Some?
    ensures q == p + Skip(m, t, p).value
  {
    q := p;
    if t == 0x01 || t == 0x09 || t == 0x11 || t == 0x12 {
      q := q + 8;
    } else if t == 0x02 {
      q := q + LoadSigned(m, p) + 4;
    } else if t == 0x03 || t == 0x04 {
      q := q + LoadSigned(m, p);
    } else if t == 0x05 {
      q := q + LoadSigned(m, p) + 5;
    } else if t == 0x08 {
      q := q + 1;
    } else if t == 0x0A || t == 0x7F || t == 0xFF {
    } else if t == 0x10 {
      q := q + 4;
    } else if t == 0x13 {
      q := q + 16;
    }
  }

  /** One iteration of the loop. */
  lemma WalkStep(m: seq<byte>, end: int, p: nat, name: nat)
    requires p < end && Walk(m, end, p, name) != Stuck
    ensures p < |m|
    ensures m[p] == 0 ==> Walk(m, end, p, name) == Missing
    ensures m[p] != 0 ==> HasNul(m, p) && HasNul(m, p + 1) && CStr(m, p) == [m[p]] + CStr(m, p + 1)
    ensures m[p] != 0 ==> Comparable(m, p + 1, name, |CStr(m, p + 1)|)
    ensures m[p] != 0 ==>
              if CStr(m, p + 1) <= CStr(m, name) then Walk(m, end, p, name) == Found(p)
              else
                && Skip(m, m[p], ValueAt(m, p)).Some?
                && ValueAt(m, p) + Skip(m, m[p], ValueAt(m, p)).value > p
                && Walk(m, end, p, name) == Walk(m, end, ValueAt(m, p) + Skip(m, m[p], ValueAt(m, p)).value, name)
  {
    hide Skip, Comparable;
    assert m[p] != 0 ==> CStr(m, p) == [m[p]] + CStr(m, p + 1);
  }

  /** The pointer that `bson_find_entry` returns: NULL if it finds nothing. */
  ghost function EntryAddress(m: seq<byte>, doc: nat, name: nat): nat
    requires doc + 4 <= |m|
  {
    match Entry(m, doc, name)
    case Found(at) => at
    case _ => 0
  }

  method FindEntry(m: seq<byte>, doc: nat, name: nat) returns (entry: nat)
    requires doc + 4 <= |m| && name <= |m| && Entry(m, doc, name) != Stuck
    ensures entry == EntryAddress(m, doc, name)
  {
    hide Skip, LoadSigned, Walk, CStr, HasNul, Comparable;
    var size := LoadSigned(m, doc);
    var p: nat := doc + 4;
    while p - doc < size
      invariant Walk(m, doc + size, p, name) == Entry(m, doc, name)
      decreases |m| - p
    {
      WalkStep(m, doc + size, p, name);
      var t := m[p];
      if t == 0 {
        break;
      }
      var order := Strcmp(m, p + 1, name);
      if order == 0 {
        return p;
      }
      var length := Strlen(m, p);
      var next := SkipValue(m, t, p + length + 1);
      p := next;
    }
    WalkEnds(m, doc + size, p, name);
    return 0;
  }

  lemma WalkEnds(m: seq<byte>, end: int, p: nat, name: nat)
    ensures p >= end || (p < |m| && m[p] == 0) ==> Walk(m, end, p, name) == Missing
  {
  }

  /** The text at the entry ends.  If there is none, the code goes on with address 0. */
  ghost predicate EntryEnds(m: seq<byte>, doc: nat, name: nat)
    requires doc + 4 <= |m|
  {
    Entry(m, doc, name).Missing? ==> HasNul(m, 0)
  }

  method Find(m: seq<byte>, doc: nat, name: nat) returns (value: nat)
    requires doc + 4 <= |m| && name <= |m| && Entry(m, doc, name) != Stuck && EntryEnds(m, doc, name)
    ensures value == ValueAt(m, EntryAddress(m, doc, name))
  {
    var entry := FindEntry(m, doc, name);
    EntryHasNul(m, doc, name);
    var length := Strlen(m, entry);
    value := entry + length + 1;
  }

  method FindType(m: seq<byte>, doc: nat, name: nat) returns (t: byte)
    requires doc + 4 <= |m| && name <= |m| && Entry(m, doc, name) != Stuck
    ensures EntryAddress(m, doc, name) < |m| && t == m[EntryAddress(m, doc, name)]
  {
    var entry := FindEntry(m, doc, name);
    if Entry(m, doc, name).Found? {
      FoundHasNul(m, doc + LoadSigned(m, doc), doc + 4, name);
    }
    t := m[entry];
  }

  lemma EntryHasNul(m: seq<byte>, doc: nat, name: nat)
    requires doc + 4 <= |m| && Entry(m, doc, name) != Stuck && EntryEnds(m, doc, name)
    ensures HasNul(m, EntryAddress(m, doc, name))
  {
    if Entry(m, doc, name).Found? {
      FoundHasNul(m, doc + LoadSigned(m, doc), doc + 4, name);
    }
  }

  lemma {:induction false} FoundHasNul(m: seq<byte>, end: int, p: nat, name: nat)
    requires Walk(m, end, p, name).Found?
    ensures HasNul(m, Walk(m, end, p, name).at)
    decreases |m| - p
  {
    hide Skip;
    assert CStr(m, p) == [m[p]] + CStr(m, p + 1);
    if !(CStr(m, p + 1) <= CStr(m, name)) {
      FoundHasNul(m, end, ValueAt(m, p) + Skip(m, m[p], ValueAt(m, p)).value, name);
    }
  }

  // ----- The lookup on encoded documents -----

  /** The bytes `s` lie in memory from address `p` on. */
  ghost predicate Holds(m: seq<byte>, p: nat, s: seq<byte>) {
    p + |s| <= |m| && m[p..p + |s|] == s
  }

  lemma HoldsParts(m: seq<byte>, p: nat, s: seq<byte>, t: seq<byte>)
    ensures Holds(m, p, s + t) <==> Holds(m, p, s) && Holds(m, p + |s|, t)
  {
    if Holds(m, p, s + t) {
      assert m[p..p + |s|] == (s + t)[..|s|];
      assert m[p + |s|..p + |s + t|] == (s + t)[|s|..];
    }
    if Holds(m, p, s) && Holds(m, p + |s|, t) {
      assert m[p..p + |s + t|] == m[p..p + |s|] + m[p + |s|..p + |s + t|];
    }
  }

  lemma LengthInMemory(m: seq<byte>, p: nat, n: nat, rest: seq<byte>)
    requires Holds(m, p, LEBytes(n, 4) + rest) && n < TWO_31
    ensures p + 4 <= |m| && LoadSigned(m, p) == n
  {
    HoldsParts(m, p, LEBytes(n, 4), rest);
    Pow256Of4();
    LEValueOfBytes(n, 4);
  }

  /** Type and key of an element in memory, and where its value is. */
  lemma ElementInMemory(m: seq<byte>, p: nat, e: Element)
    requires Holds(m, p, EncodeElement(e)) && 0 !in e.key
    ensures p < |m| && m[p] == TypeOf(e.value) && HasNul(m, p) && HasNul(m, p + 1)
    ensures CStr(m, p + 1) == e.key
    ensures ValueAt(m, p) == p + |e.key| + 2
    ensures Holds(m, ValueAt(m, p), EncodeValue(e.value))
  {
    var head, key := [TypeOf(e.value)], e.key + [0];
    hide EncodeValue;
    assert EncodeElement(e) == head + (key + EncodeValue(e.value));
    HoldsParts(m, p, head, key + EncodeValue(e.value));
    HoldsParts(m, p + 1, key, EncodeValue(e.value));
    HoldsParts(m, p + 1, e.key, [0]);
    assert m[p] == m[p..p + 1][0];
    assert m[p + 1 + |e.key|] == m[p + 1 + |e.key|..p + 1 + |e.key| + 1][0];
    CStrOf(m, p + 1, e.key);
    assert CStr(m, p) == [m[p]] + CStr(m, p + 1);
  }

  lemma TextLength(m: seq<byte>, p: nat, text: seq<byte>)
    requires Holds(m, p, EncodeText(text)) && |text| + 1 < TWO_31
    ensures p + 4 <= |m| && LoadSigned(m, p) == |text| + 1
  {
    assert EncodeText(text) == LEBytes(|text| + 1, 4) + (text + [0]);
    LengthInMemory(m, p, |text| + 1, text + [0]);
  }

  lemma BinaryLength(m: seq<byte>, p: nat, subtype: byte, data: seq<byte>)
    requires Holds(m, p, LEBytes(|data|, 4) + [subtype] + data) && |data| < TWO_31
    ensures p + 4 <= |m| && LoadSigned(m, p) == |data|
  {
    hide LEBytes, Holds;
    assert LEBytes(|data|, 4) + [subtype] + data == LEBytes(|data|, 4) + ([subtype] + data);
    LengthInMemory(m, p, |data|, [subtype] + data);
  }

  /** A length in front of the payload. */
  predicate Counted(v: Value) {
    v.Text? || v.Document? || v.Array? || v.Binary?
  }

  lemma SkipUncounted(m: seq<byte>, p: nat, v: Value)
    requires WellFormed(v) && !Counted(v)
    ensures Skip(m, TypeOf(v), p).Some? && Skip(m, TypeOf(v), p).value >= 0
    ensures Skip(m, TypeOf(v), p).value == |EncodeValue(v)| <==> !Unsized(v)
  {
    hide LoadSigned, LEBytes, ProperElements, EncodeElements;
  }

  lemma SkipCounted(m: seq<byte>, p: nat, v: Value)
    requires Holds(m, p, EncodeValue(v)) && WellFormed(v) && Counted(v)
    ensures Skip(m, TypeOf(v), p).Some? && Skip(m, TypeOf(v), p).value >= 0
    ensures Skip(m, TypeOf(v), p).value == |EncodeValue(v)|
  {
    hide LoadSigned, LEBytes, ProperElements, EncodeElements, Holds;
    if v.Text? {
      TextLength(m, p, v.text);
    } else if v.Binary? {
      BinaryLength(m, p, v.subtype, v.data);
    } else {
      DocumentLength(m, p, v.elements);
    }
  }

  /**
   The step over a value ends exactly behind it if and only if its type is one that the code knows
   (or has no payload).
   */
  lemma SkipIsExact(m: seq<byte>, p: nat, v: Value)
    requires Holds(m, p, EncodeValue(v)) && WellFormed(v)
    ensures Skip(m, TypeOf(v), p).Some? && Skip(m, TypeOf(v), p).value >= 0
    ensures Skip(m, TypeOf(v), p).value == |EncodeValue(v)| <==> !Unsized(v)
  {
    if Counted(v) {
      SkipCounted(m, p, v);
    } else {
      SkipUncounted(m, p, v);
    }
  }

  lemma DocumentLength(m: seq<byte>, doc: nat, es: seq<Element>)
    requires Holds(m, doc, EncodeDocument(es)) && |EncodeDocument(es)| < TWO_31
    ensures doc + 4 <= |m| && LoadSigned(m, doc) == |EncodeDocument(es)|
    ensures Holds(m, doc + 4, EncodeElements(es))
    ensures m[doc + 4 + |EncodeElements(es)|] == 0
  {
    var s := EncodeElements(es);
    hide EncodeElements;
    assert EncodeDocument(es) == LEBytes(|s| + 5, 4) + (s + [0]);
    LengthInMemory(m, doc, |s| + 5, s + [0]);
    HoldsParts(m, doc, LEBytes(|s| + 5, 4), s + [0]);
    HoldsParts(m, doc + 4, s, [0]);
    assert m[doc + 4 + |s|] == m[doc + 4 + |s|..doc + 4 + |s| + 1][0];
  }

  /** The first element whose key is a prefix of `name`; their number if there is none. */
  function FirstPrefix(es: seq<Element>, name: seq<byte>): (k: nat)
    ensures k <= |es|
    ensures k < |es| ==> es[k].key <= name
    ensures forall i :: 0 <= i < k ==> !(es[i].key <= name)
  {
    if es == [] || es[0].key <= name then 0 else 1 + FirstPrefix(es[1..], name)
  }

  /** Where element `k` begins, counted from the first. */
  function OffsetOf(es: seq<Element>, k: nat): (n: nat)
    requires k <= |es|
    ensures n == |EncodeElements(es[..k])|
  {
    if k == 0 then 0
    else
      assert es[..k][1..] == es[1..][..k - 1];
      |EncodeElement(es[0])| + OffsetOf(es[1..], k - 1)
  }

  /** Every element that the lookup steps over has a type that the code knows. */
  ghost predicate Walkable(es: seq<Element>, name: seq<byte>) {
    forall i :: 0 <= i < FirstPrefix(es, name) ==> !Unsized(es[i].value)
  }

  lemma WalkableTail(es: seq<Element>, name: seq<byte>)
    requires es != [] && Walkable(es, name) && !(es[0].key <= name)
    ensures !Unsized(es[0].value) && Walkable(es[1..], name)
  {
    assert FirstPrefix(es, name) == 1 + FirstPrefix(es[1..], name);
    forall i | 0 <= i < FirstPrefix(es[1..], name)
      ensures !Unsized(es[1..][i].value)
    {
      assert es[1..][i] == es[i + 1];
    }
  }

  /** The bytes at `name` end with a zero or differ from the key before memory ends. */
  ghost predicate Distinguishable(m: seq<byte>, name: nat, key: seq<byte>) {
    name <= |m| && !(m[name..] < key)
  }

  ghost predicate AllDistinguishable(m: seq<byte>, name: nat, es: seq<Element>) {
    name <= |m| && forall i :: 0 <= i < |es| ==> Distinguishable(m, name, es[i].key)
  }

  lemma DistinguishableParts(m: seq<byte>, name: nat, es: seq<Element>)
    requires es != [] && AllDistinguishable(m, name, es)
    ensures Distinguishable(m, name, es[0].key) && AllDistinguishable(m, name, es[1..])
  {
    hide Distinguishable;
  }

  lemma KeyIsCompared(m: seq<byte>, p: nat, name: nat)
    requires HasNul(m, p) && Distinguishable(m, name, CStr(m, p))
    ensures Comparable(m, p, name, |CStr(m, p)|)
  {
    var key := CStr(m, p);
    CStrInMemory(m, p);
    hide CStr;
    forall i: nat | i < |key| && SameFor(m, p, name, i)
      ensures name + i < |m|
    {
      assert key[..i] == m[p..p + i];
      RestIsSame(m, p, name, i);
    }
  }

  lemma RestIsSame(m: seq<byte>, p: nat, name: nat, i: nat)
    requires SameFor(m, p, name, i)
    ensures name + i == |m| ==> m[name..] == m[p..p + i]
  {
  }

  /** A terminated name is distinguishable from all keys. */
  lemma {:induction false} TerminatedIsDistinguishable(m: seq<byte>, name: nat, es: seq<Element>)
    requires HasNul(m, name) && ProperElements(es)
    ensures AllDistinguishable(m, name, es)
  {
    hide WellFormed;
    if es != [] {
      TerminatedIsDistinguishable(m, name, es[1..]);
      CStrInMemory(m, name);
      assert m[name..][|CStr(m, name)|] == 0;
      assert forall i :: 1 <= i < |es| ==> es[i] == es[1..][i - 1];
    }
  }

  lemma WalkOn(m: seq<byte>, end: int, p: nat, name: nat)
    requires p < end && p < |m| && m[p] != 0 && HasNul(m, p + 1) && Comparable(m, p + 1, name, |CStr(m, p + 1)|)
    requires Skip(m, m[p], ValueAt(m, p)).Some? && Skip(m, m[p], ValueAt(m, p)).value >= 0
    ensures Walk(m, end, p, name) ==
            if CStr(m, p + 1) <= CStr(m, name) then Found(p)
            else Walk(m, end, ValueAt(m, p) + Skip(m, m[p], ValueAt(m, p)).value, name)
  {
    hide Skip, CStr, HasNul, Comparable;
  }

  lemma WalkOverElement(m: seq<byte>, end: int, p: nat, e: Element, name: nat)
    requires Holds(m, p, EncodeElement(e)) && Proper(e) && p < end && Distinguishable(m, name, e.key)
    ensures if e.key <= CStr(m, name) then Walk(m, end, p, name) == Found(p)
            else !Unsized(e.value) ==> Walk(m, end, p, name) == Walk(m, end, p + |EncodeElement(e)|, name)
  {
    hide Skip, Holds, EncodeValue, WellFormed, Unsized, CStr, HasNul, ValueAt, Walk, TypeOf;
    ElementInMemory(m, p, e);
    SkipIsExact(m, ValueAt(m, p), e.value);
    KeyIsCompared(m, p + 1, name);
    WalkOn(m, end, p, name);
    assert |EncodeElement(e)| == |e.key| + 2 + |EncodeValue(e.value)|;
  }

  lemma FirstElements(es: seq<Element>, name: seq<byte>)
    requires es != []
    ensures EncodeElements(es) == EncodeElement(es[0]) + EncodeElements(es[1..])
    ensures if es[0].key <= name then FirstPrefix(es, name) == 0 && OffsetOf(es, 0) == 0
            else var k := FirstPrefix(es[1..], name);
              FirstPrefix(es, name) == k + 1 && OffsetOf(es, k + 1) == |EncodeElement(es[0])| + OffsetOf(es[1..], k)
  {
  }

  lemma NoElements()
    ensures EncodeElements([]) == []
  {
  }

  /** The walk over the encodings of some elements, followed by a zero. */
  lemma {:induction false} WalkElements(m: seq<byte>, end: int, p: nat, es: seq<Element>, name: nat)
    requires Holds(m, p, EncodeElements(es)) && ProperElements(es)
    requires p + |EncodeElements(es)| + 1 == end <= |m| && m[end - 1] == 0
    requires Walkable(es, CStr(m, name)) && AllDistinguishable(m, name, es)
    ensures var k := FirstPrefix(es, CStr(m, name));
            Walk(m, end, p, name) == if k < |es| then Found(p + OffsetOf(es, k)) else Missing
    decreases |es|
  {
    hide Walk, EncodeElement, EncodeElements, FirstPrefix, OffsetOf, Holds, Walkable, Unsized, CStr;
    if es == [] {
      NoElements();
      WalkEnds(m, end, p, name);
    } else {
      var head, rest := EncodeElement(es[0]), EncodeElements(es[1..]);
      FirstElements(es, CStr(m, name));
      HoldsParts(m, p, head, rest);
      DistinguishableParts(m, name, es);
      WalkOverElement(m, end, p, es[0], name);
      if !(es[0].key <= CStr(m, name)) {
        WalkableTail(es, CStr(m, name));
        WalkElements(m, end, p + |head|, es[1..], name);
      }
    }
  }

  /**
   The lookup on the encoding of a document finds the first element whose key is a prefix of the
   name, or nothing if there is none, as long as it meets no type that it does not know.
   */
  lemma EntryIsFirstPrefix(m: seq<byte>, doc: nat, es: seq<Element>, name: nat)
    requires Holds(m, doc, EncodeDocument(es)) && |EncodeDocument(es)| < TWO_31 && ProperElements(es)
    requires Walkable(es, CStr(m, name)) && AllDistinguishable(m, name, es)
    ensures doc + 4 <= |m|
    ensures var k := FirstPrefix(es, CStr(m, name));
            Entry(m, doc, name) == if k < |es| then Found(doc + 4 + OffsetOf(es, k)) else Missing
  {
    hide Walk, EncodeElements, Holds, LoadSigned;
    DocumentLength(m, doc, es);
    assert Holds(m, doc, EncodeDocument(es)) ==> doc + |EncodeDocument(es)| <= |m| by {
      HoldsFits(m, doc, EncodeDocument(es));
    }
    WalkElements(m, doc + |EncodeDocument(es)|, doc + 4, es, name);
  }

  lemma HoldsFits(m: seq<byte>, p: nat, s: seq<byte>)
    requires Holds(m, p, s)
    ensures p + |s| <= |m|
  {
  }

  // ----- What is found -----

  lemma {:induction false} ElementAt(m: seq<byte>, p: nat, es: seq<Element>, k: nat)
    requires Holds(m, p, EncodeElements(es)) && ProperElements(es) && k < |es|
    ensures Proper(es[k]) && Holds(m, p + OffsetOf(es, k), EncodeElement(es[k]))
    ensures OffsetOf(es, k) + |EncodeElement(es[k])| <= |EncodeElements(es)|
    decreases |es|
  {
    hide EncodeElement, Holds;
    HoldsParts(m, p, EncodeElement(es[0]), EncodeElements(es[1..]));
    if k > 0 {
      ElementAt(m, p + |EncodeElement(es[0])|, es[1..], k - 1);
    }
  }

  /** The entry found has the type of the element, and the value found is its encoding. */
  lemma FoundValue(m: seq<byte>, doc: nat, es: seq<Element>, name: nat)
    requires Holds(m, doc, EncodeDocument(es)) && |EncodeDocument(es)| < TWO_31 && ProperElements(es)
    requires Walkable(es, CStr(m, name)) && AllDistinguishable(m, name, es)
    requires FirstPrefix(es, CStr(m, name)) < |es|
    ensures doc + 4 <= |m| && Entry(m, doc, name).Found?
    ensures var entry, e := Entry(m, doc, name).at, es[FirstPrefix(es, CStr(m, name))];
            && entry < |m| && m[entry] == TypeOf(e.value)
            && Proper(e) && Holds(m, ValueAt(m, entry), EncodeValue(e.value))
            && ValueAt(m, entry) + |EncodeValue(e.value)| <= doc + |EncodeDocument(es)|
  {
    hide Walk, Holds, EncodeElements, EncodeElement, EncodeValue, EncodeDocument, OffsetOf, Walkable, ValueAt;
    hide TypeOf, FirstPrefix, Entry, WellFormed, ProperElements, AllDistinguishable, CStr, HasNul, LoadSigned;
    var k := FirstPrefix(es, CStr(m, name));
    DocumentLength(m, doc, es);
    EntryIsFirstPrefix(m, doc, es, name);
    ElementAt(m, doc + 4, es, k);
    ElementInMemory(m, doc + 4 + OffsetOf(es, k), es[k]);
    EncodedLength(es[k]);
  }

  /** The first element whose key is `name`; their number if there is none. */
  function FirstEqual(es: seq<Element>, name: seq<byte>): (k: nat)
    ensures k <= |es|
    ensures k < |es| ==> es[k].key == name
    ensures forall i :: 0 <= i < k ==> es[i].key != name
  {
    if es == [] || es[0].key == name then 0 else 1 + FirstEqual(es[1..], name)
  }

  /** The lookup is exact if and only if no key in front of the right one is a part of the name. */
  lemma LookupIsExact(es: seq<Element>, name: seq<byte>)
    ensures FirstPrefix(es, name) == FirstEqual(es, name) <==>
            forall i :: 0 <= i < FirstEqual(es, name) ==> !(es[i].key < name)
  {
    var k, e := FirstPrefix(es, name), FirstEqual(es, name);
    if k < e {
      assert es[k].key < name;
    }
    assert e < |es| ==> es[e].key <= name;
  }

  function LongestKey(es: seq<Element>): (n: nat)
    ensures forall i :: 0 <= i < |es| ==> |es[i].key| <= n
  {
    if es == [] then 0
    else
      var rest := LongestKey(es[1..]);
      if |es[0].key| > rest then |es[0].key| else rest
  }

  /** Every non-empty document has an element for some name that is none of its keys. */
  lemma AbsentNameIsFound(es: seq<Element>) returns (name: seq<byte>)
    requires es != [] && ProperElements(es)
    ensures 0 !in name && FirstEqual(es, name) == |es| && FirstPrefix(es, name) < |es|
  {
    name := es[0].key + seq(LongestKey(es) + 1, i => 46);
    assert es[0].key <= name;
  }

  // ----- Documents in documents -----

  predicate HasElements(v: Value) {
    v.Document? || v.Array?
  }

  /** Each name but the last leads to a document, over types that the code knows. */
  ghost predicate Reachable(es: seq<Element>, names: seq<seq<byte>>)
    decreases |names|
  {
    && names != [] && Walkable(es, names[0]) && FirstPrefix(es, names[0]) < |es|
    && (|names| > 1 ==>
          var v := es[FirstPrefix(es, names[0])].value;
          HasElements(v) && Reachable(v.elements, names[1..]))
  }

  ghost function ValueOf(es: seq<Element>, names: seq<seq<byte>>): Value
    requires Reachable(es, names)
    decreases |names|
  {
    var v := es[FirstPrefix(es, names[0])].value;
    if |names| == 1 then v else ValueOf(v.elements, names[1..])
  }

  ghost function Texts(m: seq<byte>, names: seq<nat>): (r: seq<seq<byte>>)
    ensures |r| == |names|
  {
    if names == [] then [] else [CStr(m, names[0])] + Texts(m, names[1..])
  }

  /** One lookup in the value of another. */
  ghost function Follow(m: seq<byte>, doc: nat, names: seq<nat>): Option<nat>
    requires names != []
    decreases |names|
  {
    if doc + 4 > |m| || !Entry(m, doc, names[0]).Found? then None
    else
      var value := ValueAt(m, Entry(m, doc, names[0]).at);
      if |names| == 1 then Some(value) else Follow(m, value, names[1..])
  }

  /** Nested lookups in the encoding find the encoding of the value in the nested documents. */
  lemma {:induction false} NestedLookup(m: seq<byte>, doc: nat, es: seq<Element>, names: seq<nat>)
    requires Holds(m, doc, EncodeDocument(es)) && |EncodeDocument(es)| < TWO_31 && ProperElements(es)
    requires names != [] && Reachable(es, Texts(m, names))
    requires forall i :: 0 <= i < |names| ==> HasNul(m, names[i])
    ensures Follow(m, doc, names).Some?
    ensures Holds(m, Follow(m, doc, names).value, EncodeValue(ValueOf(es, Texts(m, names))))
    decreases |names|
  {
    hide Walkable, Entry, Holds, ValueAt, ProperElements, FirstPrefix, CStr;
    TerminatedIsDistinguishable(m, names[0], es);
    FoundValue(m, doc, es, names[0]);
    if |names| > 1 {
      var v := es[FirstPrefix(es, CStr(m, names[0]))].value;
      assert Texts(m, names)[1..] == Texts(m, names[1..]);
      assert ProperElements(v.elements) && EncodeValue(v) == EncodeDocument(v.elements);
      NestedLookup(m, ValueAt(m, Entry(m, doc, names[0]).at), v.elements, names[1..]);
    }
  }

  // ----- Types that the code does not know -----

  const UNKNOWN: set<byte> := {0x07, 0x0B, 0x0C, 0x0D, 0x0E, 0x0F}

  /** A document with `v` under "a" and null under "b". */
  function Pair(v: Value): seq<Element> {
    [Element([97], v), Element([98], Null)]
  }

  /** The document in memory, and behind it the name "b". */
  function PairInMemory(v: Value): seq<byte> {
    EncodeDocument(Pair(v)) + [98, 0]
  }

  /** The element "b" is found behind `v`. */
  ghost predicate FoundBehind(v: Value) {
    Entry(PairInMemory(v), 0, |EncodeDocument(Pair(v))|) == Found(4 + |EncodeElement(Element([97], v))|)
  }

  lemma NullIsWellFormed()
    ensures WellFormed(Null) && EncodeElement(Element([98], Null)) == [0x0A, 98, 0]
  {
    var none := EncodeValue(Null);
    assert none == [];
    assert EncodeElement(Element([98], Null)) == [0x0A] + [98] + [0] + none;
  }

  lemma PairLayout(v: Value)
    requires WellFormed(v) && |EncodeValue(v)| + 11 < TWO_31
    ensures ProperElements(Pair(v)) && |EncodeDocument(Pair(v))| == |EncodeValue(v)| + 11
    ensures EncodeElements(Pair(v)) == EncodeElement(Element([97], v)) + [0x0A, 98, 0]
    ensures Holds(PairInMemory(v), 0, EncodeDocument(Pair(v)))
    ensures var name := |EncodeDocument(Pair(v))|;
            HasNul(PairInMemory(v), name) && CStr(PairInMemory(v), name) == [98]
  {
    hide EncodeValue, WellFormed;
    var es := Pair(v);
    assert es[1..] == [Element([98], Null)];
    assert es[1..][1..] == [];
    NullIsWellFormed();
    assert EncodeElements(es[1..]) == EncodeElement(es[1]);
    assert Proper(es[0]) && Proper(es[1]) && ProperElements(es[1..]);
    assert EncodeElements(es) == EncodeElement(es[0]) + EncodeElements(es[1..]);
    assert |EncodeElement(es[0])| == |EncodeValue(v)| + 3;
    var m := PairInMemory(v);
    assert m[..|EncodeDocument(es)|] == EncodeDocument(es);
    CStrOf(m, |EncodeDocument(es)|, [98]);
  }

  lemma KnownIsFoundBehind(v: Value)
    requires WellFormed(v) && |EncodeValue(v)| + 11 < TWO_31 && !Unsized(v)
    ensures FoundBehind(v)
  {
    hide EncodeValue, EncodeElement, EncodeElements, Entry, Holds, PairInMemory, Unsized;
    var es := Pair(v);
    PairLayout(v);
    assert es[1..][0] == es[1] && es[1].key <= [98];
    assert [97 as byte][0] != [98 as byte][0];
    assert FirstPrefix(es[1..], [98]) == 0;
    assert FirstPrefix(es, [98]) == 1;
    TerminatedIsDistinguishable(PairInMemory(v), |EncodeDocument(es)|, es);
    EntryIsFirstPrefix(PairInMemory(v), 0, es, |EncodeDocument(es)|);
    assert OffsetOf(es[1..], 0) == 0;
    assert OffsetOf(es, 1) == |EncodeElement(es[0])|;
  }

  lemma SkipNothing(m: seq<byte>, p: nat, v: Value)
    requires Unsized(v)
    ensures Skip(m, TypeOf(v), p) == Some(0)
  {
  }

  /** A value of an unknown type that begins with a zero, or whose second byte is one, hides what follows. */
  lemma UnknownHidesNext(v: Value)
    requires WellFormed(v) && |EncodeValue(v)| + 11 < TWO_31 && Unsized(v)
    requires |EncodeValue(v)| >= 2 && (EncodeValue(v)[0] == 0 || EncodeValue(v)[1] == 0)
    ensures !FoundBehind(v)
  {
    hide EncodeValue, EncodeElement, EncodeElements, EncodeDocument, Walk, Holds, PairInMemory, WellFormed, CStr, HasNul;
    hide Skip, TypeOf, Unsized, ValueAt, ProperElements, LoadSigned;
    var m, first, name := PairInMemory(v), Element([97], v), |EncodeDocument(Pair(v))|;
    PairLayout(v);
    DocumentLength(m, 0, Pair(v));
    HoldsParts(m, 4, EncodeElement(first), [0x0A, 98, 0]);
    HoldsFits(m, 4, EncodeElement(first));
    ElementInMemory(m, 4, first);
    SkipNothing(m, 7, v);
    StrcmpStops(m, 5, name);
    WalkOn(m, name, 4, name);
    HoldsAt(m, 7, EncodeValue(v), 0);
    HoldsAt(m, 7, EncodeValue(v), 1);
    EncodedLength(first);
    WalkIntoValue(m, name, 7, name);
  }

  lemma HoldsAt(m: seq<byte>, p: nat, s: seq<byte>, k: nat)
    requires Holds(m, p, s) && k < |s|
    ensures p + k < |m| && m[p + k] == s[k]
  {
    assert m[p..p + |s|][k] == m[p + k];
  }

  /** A zero ends the walk, and in front of a zero an empty key is seen, which is part of any name. */
  lemma WalkIntoValue(m: seq<byte>, end: int, p: nat, name: nat)
    requires p + 1 < end <= |m| && (m[p] == 0 || m[p + 1] == 0)
    ensures Walk(m, end, p, name) == if m[p] == 0 then Missing else Found(p)
  {
    assert m[p] != 0 ==> CStr(m, p + 1) == [];
    assert [] <= CStr(m, name);
  }

  /** A value of each unknown type. */
  function Sample(t: byte): (v: Value)
    requires t in UNKNOWN
    ensures TypeOf(v) == t && Unsized(v)
  {
    if t == 0x07 then ObjectId(seq(12, i => 0))
    else if t == 0x0B then Regex([], [])
    else if t == 0x0C then DbPointer([], seq(12, i => 0))
    else if t == 0x0D then Code([])
    else if t == 0x0E then Symbol([])
    else ScopedCode([], [])
  }

  lemma SmallLength(n: nat)
    requires n < 256
    ensures LEBytes(n, 4) == [n as byte, 0, 0, 0]
  {
    assert n / 256 == 0 && n % 256 == n;
    assert LEBytes(0, 0) == [];
    assert LEBytes(0, 1) == [0];
    assert LEBytes(0, 2) == [0, 0];
    assert LEBytes(0, 3) == [0, 0, 0];
  }

  /** A string that begins a value has the bytes 1, 0, 0, 0, 0 if it is empty. */
  lemma EmptyText()
    ensures EncodeText([]) == [1, 0, 0, 0, 0]
  {
    SmallLength(1);
  }

  lemma ScopeLayout(text: seq<byte>, elements: seq<Element>)
    ensures var n := |text| + |EncodeElements(elements)| + 14;
            && |EncodeValue(ScopedCode(text, elements))| == n
            && EncodeValue(ScopedCode(text, elements))[..4] == LEBytes(n, 4)
  {
    hide LEBytes, EncodeElements;
    var head := LEBytes(4 + |EncodeText(text)| + |EncodeDocument(elements)|, 4);
    assert EncodeValue(ScopedCode(text, elements)) == head + (EncodeText(text) + EncodeDocument(elements));
  }

  lemma EmptyScope()
    ensures WellFormed(ScopedCode([], [])) && |EncodeValue(ScopedCode([], []))| == 14
    ensures EncodeValue(ScopedCode([], []))[1] == 0
  {
    hide LEBytes, EncodeText, EncodeDocument, EncodeElements, EncodeValue;
    SmallLength(14);
    NoElements();
    ScopeLayout([], []);
    var s := EncodeValue(ScopedCode([], []));
    assert s[1] == s[..4][1];
  }

  lemma SampleLayout(t: byte)
    requires t in UNKNOWN
    ensures var v := Sample(t);
            && WellFormed(v) && 2 <= |EncodeValue(v)| < 100
            && (EncodeValue(v)[0] == 0 || EncodeValue(v)[1] == 0)
  {
    EmptyText();
    EmptyScope();
    hide LEBytes, EncodeText, EncodeDocument, EncodeElements, ProperElements;
    var v := Sample(t);
    if !v.ScopedCode? {
      assert v.Regex? ==> EncodeValue(v) == [0, 0];
      assert WellFormed(v);
    }
  }

  /** The element behind a value of type `t` is found for all such values exactly if the type is known. */
  lemma WhatIsFoundBehind(t: byte)
    ensures (forall v | TypeOf(v) == t && WellFormed(v) && |EncodeValue(v)| + 11 < TWO_31 :: FoundBehind(v))
            <==> t !in UNKNOWN
  {
    hide EncodeValue, FoundBehind, WellFormed;
    if t in UNKNOWN {
      SampleLayout(t);
      UnknownHidesNext(Sample(t));
      assert !FoundBehind(Sample(t));
    } else {
      forall v | TypeOf(v) == t && WellFormed(v) && |EncodeValue(v)| + 11 < TWO_31
        ensures FoundBehind(v)
      {
        KnownIsFoundBehind(v);
      }
    }
  }

  // ----- Arrays -----

  /** The key of array element `i`: its decimal digits. */
  function Index(i: nat): seq<byte> {
    Printed(i, 10, 11)
  }

  ghost predicate IsArray(es: seq<Element>) {
    forall i: nat :: i < |es| ==> es[i].key == Index(i)
  }

  /** The leading decimal digit. */
  function Lead(i: nat): (d: nat)
    ensures d <= i && d < 10
    ensures d == i <==> i < 10
  {
    if i < 10 then i else Lead(i / 10)
  }

  lemma {:induction false} LeadingDigit(i: nat, n: nat)
    requires 0 < i < Pow(10, n)
    ensures 0 < DigitCount(i, 10) <= n
    ensures DigitsOf(i, 10, DigitCount(i, 10))[0] == DigitChar(Lead(i))
  {
    hide DigitChar;
    if i >= 10 {
      QuotientBelow(i, Pow(10, n - 1));
      LeadingDigit(i / 10, n - 1);
    } else {
      assert i / 10 == 0 && i % 10 == i;
      assert DigitCount(i, 10) == 1;
      assert DigitsOf(0, 10, 0) == [];
    }
  }

  lemma QuotientBelow(i: nat, p: nat)
    requires i < 10 * p
    ensures i / 10 < p
  {
  }

  lemma Pow10Of11()
    ensures Pow(10, 11) > TWO_31
  {
    assert Pow(10, 3) == 1000;
    assert Pow(10, 6) == 1_000_000;
    assert Pow(10, 9) == 1_000_000_000;
  }

  lemma IndexBegins(i: nat)
    requires i < TWO_31
    ensures Index(i) != [] && Index(i)[0] == DigitChar(Lead(i))
    ensures i < 10 ==> |Index(i)| == 1
  {
    Pow10Of11();
    hide DigitChar, Pow;
    if i > 0 {
      LeadingDigit(i, 11);
    }
    if 0 < i < 10 {
      assert DigitCount(i, 10) == 1 + DigitCount(i / 10, 10);
    }
  }

  /**
   The lookup in an array finds element number "leading digit of the index": the right one if the
   index has one digit, another one otherwise.
   */
  lemma ArrayLookup(es: seq<Element>, index: nat)
    requires IsArray(es) && index < TWO_31
    ensures FirstPrefix(es, Index(index)) == if Lead(index) < |es| then Lead(index) else |es|
    ensures FirstPrefix(es, Index(index)) == (if index < |es| then index else |es|) <==>
            index < 10 || Lead(index) >= |es|
  {
    var k := FirstPrefix(es, Index(index));
    IndexBegins(index);
    if k < |es| && k < 10 {
      OneDigitPrefix(k, index);
    }
    if Lead(index) < |es| {
      IndexBegins(Lead(index));
      assert es[Lead(index)].key <= Index(index);
    }
  }

  lemma OneDigitPrefix(i: nat, index: nat)
    requires i < 10 && index < TWO_31 && Index(i) <= Index(index)
    ensures i == Lead(index)
  {
    IndexBegins(i);
    IndexBegins(index);
    assert Index(i)[0] == Index(index)[0];
  }

  lemma HoldsBelow(m: seq<byte>, more: seq<byte>, p: nat, s: seq<byte>)
    requires p + |s| <= |m|
    ensures Holds(m + more, p, s) <==> Holds(m, p, s)
  {
    assert (m + more)[p..p + |s|] == m[p..p + |s|];
  }

  /** The name that is looked up for an index. */
  function IndexName(index: int): seq<byte> {
    PrintedSigned(index, 10, 11)
  }

  /** There is an element with the number of the leading digit. */
  predicate Hits(es: seq<Element>, index: int) {
    index >= 0 && Lead(index) < |es|
  }

  lemma IndexLookup(es: seq<Element>, index: int)
    requires IsArray(es) && index < TWO_31
    ensures FirstPrefix(es, IndexName(index)) == if Hits(es, index) then Lead(index) else |es|
  {
    if index >= 0 {
      ArrayLookup(es, index);
    } else {
      SignIsNoKey(es, IndexName(index));
    }
  }

  /** The keys of an array do not begin with a sign. */
  lemma SignIsNoKey(es: seq<Element>, name: seq<byte>)
    requires IsArray(es) && name != [] && name[0] == MINUS
    ensures FirstPrefix(es, name) == |es|
    ensures forall i :: 0 <= i < |es| ==> es[i].key != [] && es[i].key[0] != MINUS
  {
    forall i: nat | i < |es|
      ensures es[i].key != [] && es[i].key[0] != MINUS
    {
      NoSign(i, 10, 11, []);
      assert (Index(i) + [])[0] == Index(i)[0];
    }
  }

  /** The buffer holds the name of the index, and behind it a zero if one fits into its first 11 bytes. */
  ghost predicate NamesIndex(buffer: seq<byte>, index: int) {
    var text := IndexName(index);
    && |buffer| == 12 && |text| <= 11 && buffer[..|text|] == text
    && (|text| < 11 ==> buffer[|text|] == 0)
  }

  /** The name of an array element.  It is terminated if and only if it is no sign with ten digits. */
  method ArrayName(index: int) returns (buffer: array<byte>)
    requires -TWO_31 <= index < TWO_31
    ensures fresh(buffer) && NamesIndex(buffer[..], index)
    ensures 0 in buffer[..11] <==> index > -1_000_000_000
  {
    hide PrintedSigned;
    buffer := new byte[12];
    LongToStr(index, 10, buffer, 0, 11);
    var text := IndexName(index);
    IndexLength(index);
    assert buffer[..|text|] == text;
    if |text| < 11 {
      assert buffer[..11][|text|] == 0;
    } else {
      assert buffer[..11] == text;
    }
  }

  lemma IndexLength(index: int)
    requires -TWO_31 <= index < TWO_31
    ensures |IndexName(index)| < 11 <==> index > -1_000_000_000
  {
    PowersOf10();
    hide Pow, DigitsOf;
    if index > 0 {
      LeadingDigit(index, 10);
    } else if index > -1_000_000_000 && index < 0 {
      LeadingDigit(-index, 9);
    } else if index < 0 {
      ManyDigits(-index, 10, 9);
    }
  }

  /** A number of at least `base^k` has more than `k` digits. */
  lemma ManyDigits(v: nat, base: nat, k: nat)
    requires 2 <= base && Pow(base, k) <= v
    ensures DigitCount(v, base) > k
  {
    CountBelowPow(v, base);
    if DigitCount(v, base) <= k {
      PowGrows(base, DigitCount(v, base), k);
    }
  }

  lemma PowersOf10()
    ensures Pow(10, 9) == 1_000_000_000 && Pow(10, 10) > TWO_31
  {
    assert Pow(10, 3) == 1000;
    assert Pow(10, 6) == 1_000_000;
  }

  /** The name as the lookup reads it, at the end of memory. */
  lemma NameInMemory(m: seq<byte>, buffer: seq<byte>, index: int)
    requires NamesIndex(buffer, index) && -TWO_31 <= index < TWO_31
    ensures var name := CStr(m + buffer, |m|);
            if index >= 0 then HasNul(m + buffer, |m|) && name == IndexName(index)
            else name != [] && name[0] == buffer[0] == MINUS
  {
    var all, text := m + buffer, IndexName(index);
    IndexLength(index);
    if index >= 0 {
      assert all[|m|..|m| + |text|] == buffer[..|text|];
      CStrOf(all, |m|, text);
    } else {
      assert buffer[0] == buffer[..|text|][0] == MINUS;
      assert all[|m|] == MINUS;
    }
  }

  /** The name is told apart from all keys of an array, terminated or not. */
  lemma NameIsDistinguishable(m: seq<byte>, buffer: seq<byte>, index: int, es: seq<Element>)
    requires NamesIndex(buffer, index) && -TWO_31 <= index < TWO_31 && IsArray(es) && ProperElements(es)
    ensures AllDistinguishable(m + buffer, |m|, es)
    ensures FirstPrefix(es, CStr(m + buffer, |m|)) == if Hits(es, index) then Lead(index) else |es|
    ensures Walkable(es, IndexName(index)) ==> Walkable(es, CStr(m + buffer, |m|))
  {
    hide IndexName, CStr, ProperElements, Unsized;
    NameInMemory(m, buffer, index);
    IndexLookup(es, index);
    if index >= 0 {
      TerminatedIsDistinguishable(m + buffer, |m|, es);
    } else {
      SignIsNoKey(es, CStr(m + buffer, |m|));
      assert (m + buffer)[|m|..] == buffer;
    }
  }

  /**
   With the name in a buffer of its own, the entry of an array element is found and lies in the
   array; nothing is found if there is no element with the number of the leading digit.
   */
  lemma ArrayEntry(m: seq<byte>, buffer: seq<byte>, doc: nat, index: int, es: seq<Element>)
    requires Holds(m, doc, EncodeDocument(es)) && |EncodeDocument(es)| < TWO_31 && ProperElements(es)
    requires IsArray(es) && -TWO_31 <= index < TWO_31 && Walkable(es, IndexName(index))
    requires NamesIndex(buffer, index)
    ensures doc + 4 <= |m|
    ensures !Hits(es, index) ==> Entry(m + buffer, doc, |m|) == Missing
    ensures Hits(es, index) ==>
              && Entry(m + buffer, doc, |m|).Found?
              && var entry, v := Entry(m + buffer, doc, |m|).at, es[Lead(index)].value;
                 && entry < |m + buffer| && (m + buffer)[entry] == TypeOf(v)
                 && Holds(m, ValueAt(m + buffer, entry), EncodeValue(v))
  {
    hide Holds, Walkable, EncodeElements, ProperElements, Entry, CStr, EncodeValue, TypeOf, FirstPrefix, IndexName;
    hide EncodeDocument, WellFormed, ValueAt, IsArray, AllDistinguishable, NamesIndex;
    var all := m + buffer;
    HoldsFits(m, doc, EncodeDocument(es));
    HoldsBelow(m, buffer, doc, EncodeDocument(es));
    NameIsDistinguishable(m, buffer, index, es);
    EntryIsFirstPrefix(all, doc, es, |m|);
    if Hits(es, index) {
      FoundValue(all, doc, es, |m|);
      HoldsBelow(m, buffer, ValueAt(all, Entry(all, doc, |m|).at), EncodeValue(es[Lead(index)].value));
    }
  }

  lemma NulBelow(m: seq<byte>, more: seq<byte>, a: nat)
    requires HasNul(m, a)
    ensures HasNul(m + more, a) && CStr(m + more, a) == CStr(m, a)
  {
    CStrInMemory(m, a);
    assert (m + more)[a..a + |CStr(m, a)|] == m[a..a + |CStr(m, a)|];
    CStrOf(m + more, a, CStr(m, a));
  }

  /** `bson_array_find`; without such an element, it returns an address from the text at address 0. */
  method ArrayFind(m: seq<byte>, doc: nat, index: int, ghost es: seq<Element>) returns (value: nat)
    requires Holds(m, doc, EncodeDocument(es)) && |EncodeDocument(es)| < TWO_31 && ProperElements(es)
    requires IsArray(es) && -TWO_31 <= index < TWO_31 && Walkable(es, IndexName(index))
    requires !Hits(es, index) ==> HasNul(m, 0)
    ensures if Hits(es, index) then Holds(m, value, EncodeValue(es[Lead(index)].value)) else value == ValueAt(m, 0)
  {
    hide Holds, Walkable, EncodeElements, EncodeDocument, ProperElements, Entry, CStr, HasNul, EncodeValue, NamesIndex;
    var buffer := ArrayName(index);
    ArrayEntry(m, buffer[..], doc, index, es);
    if !Hits(es, index) {
      NulBelow(m, buffer[..], 0);
    }
    value := Find(m + buffer[..], doc, |m|);
  }

  /** `bson_array_type`; without such an element, it returns the byte at address 0. */
  method ArrayType(m: seq<byte>, doc: nat, index: int, ghost es: seq<Element>) returns (t: byte)
    requires Holds(m, doc, EncodeDocument(es)) && |EncodeDocument(es)| < TWO_31 && ProperElements(es)
    requires IsArray(es) && -TWO_31 <= index < TWO_31 && Walkable(es, IndexName(index))
    ensures |m| > 0 && t == if Hits(es, index) then TypeOf(es[Lead(index)].value) else m[0]
  {
    hide Holds, Walkable, EncodeElements, EncodeDocument, ProperElements, Entry, CStr, HasNul, EncodeValue, ValueAt;
    hide TypeOf, NamesIndex;
    var buffer := ArrayName(index);
    ArrayEntry(m, buffer[..], doc, index, es);
    t := FindType(m + buffer[..], doc, |m|);
  }
}

/**
 * The flattened-devicetree emitter and its checker (`sim/tools/gen_dtb.py`; sections 5.2 to
 * 5.5 of the Devicetree Specification), with an independent decoder of the format.
 */
module Fdt {
  import opened Wrappers

  type Byte = x: nat | x < 256
  type Bytes = seq<Byte>

  const LIMIT: nat := 0x1_0000_0000
  const MAGIC: nat := 0xd00d_feed

  // ---- Bytes ----

  function Be32(n: nat): (b: Bytes)
    requires n < LIMIT
    ensures |b| == 4
  {
    var h := n / 0x100;
    var g := h / 0x100;
    [g / 0x100, g % 0x100, h % 0x100, n % 0x100]
  }

  /** The big-endian word at the front of s. */
  function Front32(s: Bytes): nat
    requires |s| >= 4
  {
    var a: nat, b: nat, c: nat, d: nat := s[0], s[1], s[2], s[3];
    a * 0x100_0000 + b * 0x1_0000 + c * 0x100 + d
  }

  lemma Front32Be32(n: nat, rest: Bytes)
    requires n < LIMIT
    ensures Front32(Be32(n) + rest) == n && (Be32(n) + rest)[4..] == rest
  {}

  predicate NulFree(name: Bytes) { 0 !in name }

  function Zeros(k: nat): (z: Bytes)
    ensures |z| == k
  { seq(k, _ => 0) }

  function Align4(data: Bytes): Bytes { data + Zeros((0 - |data|) % 4) }

  /** The checker's rounding, (n + 3) & ~3. */
  function RoundUp4(n: nat): nat { (n + 3) / 4 * 4 }

  lemma AlignLength(data: Bytes)
    ensures |Align4(data)| == RoundUp4(|data|) >= |data|
  {}

  /** Index of the first NUL, or the length. */
  function FindNul(s: Bytes): (k: nat)
    ensures k <= |s| && NulFree(s[..k]) && (k < |s| ==> s[k] == 0)
  {
    if s == [] || s[0] == 0 then 0
    else
      var k := FindNul(s[1..]);
      assert s[..k + 1] == [s[0]] + s[1..][..k];
      1 + k
  }

  lemma FindNulAfter(name: Bytes, rest: Bytes)
    requires NulFree(name)
    ensures FindNul(name + [0] + rest) == |name|
  {
    var s := name + [0] + rest;
    var k := FindNul(s);
    assert s[|name|] == 0 && forall j :: 0 <= j < |name| ==> s[j] == name[j];
    assert forall j :: 0 <= j < k ==> s[j] == s[..k][j];
  }

  // ---- What the builder is told, and how it is laid out ----

  datatype Event = Begin(name: Bytes) | End | Prop(name: Bytes, value: Bytes)

  type Offsets = map<Bytes, nat>

  predicate Encodable(e: Event, offs: Offsets) {
    match e
    case Begin(name) => NulFree(name)
    case End => true
    case Prop(name, value) => |value| < LIMIT && name in offs && offs[name] < LIMIT
  }

  predicate AllEncodable(evs: seq<Event>, offs: Offsets) { forall e <- evs :: Encodable(e, offs) }

  function Encode(e: Event, offs: Offsets): Bytes
    requires Encodable(e, offs)
  {
    match e
    case Begin(name) => Be32(1) + Align4(name + [0])
    case End => Be32(2)
    case Prop(name, value) => Be32(3) + (Be32(|value|) + (Be32(offs[name]) + Align4(value)))
  }

  function EncodeAll(evs: seq<Event>, offs: Offsets): Bytes
    requires AllEncodable(evs, offs)
  {
    if evs == [] then [] else Encode(evs[0], offs) + EncodeAll(evs[1..], offs)
  }

  lemma {:induction false} EncodeSnoc(evs: seq<Event>, e: Event, offs: Offsets)
    requires AllEncodable(evs, offs) && Encodable(e, offs)
    ensures AllEncodable(evs + [e], offs)
    ensures EncodeAll(evs + [e], offs) == EncodeAll(evs, offs) + Encode(e, offs)
  {
    hide Encode, Encodable;
    if evs == [] {
      assert ([] + [e])[1..] == [];
    } else {
      EncodeSnoc(evs[1..], e, offs);
      assert (evs + [e])[1..] == evs[1..] + [e];
    }
  }

  /** New names leave every offset already written valid. */
  lemma {:induction false} EncodeExtend(evs: seq<Event>, offs: Offsets, more: Offsets)
    requires AllEncodable(evs, offs) && forall n :: n in offs ==> n in more && more[n] == offs[n]
    ensures AllEncodable(evs, more) && EncodeAll(evs, more) == EncodeAll(evs, offs)
  {
    if evs != [] {
      EncodeExtend(evs[1..], offs, more);
      assert Encodable(evs[0], offs);
      assert Encode(evs[0], more) == Encode(evs[0], offs);
    }
  }

  /** Every recorded offset reads back its name from the strings block. */
  ghost predicate Table(strings: Bytes, offs: Offsets) {
    forall n :: n in offs ==> NameAt(strings, offs[n], n)
  }

  ghost predicate NameAt(strings: Bytes, off: nat, n: Bytes) {
    NulFree(n) && off + |n| < |strings| && strings[off..off + |n|] == n && strings[off + |n|] == 0
  }

  lemma NameReadsBack(strings: Bytes, off: nat, n: Bytes)
    requires NameAt(strings, off, n)
    ensures FindNul(strings[off..]) == |n| && strings[off..][..|n|] == n && off + |n| < |strings|
  {
    var rest := strings[off + |n| + 1..];
    assert strings[off..] == n + [0] + rest;
    FindNulAfter(n, rest);
  }

  // ---- An independent decoder ----

  /** Reads one token and its payload: the event and what follows it. */
  function ReadEvent(s: Bytes, strings: Bytes): (r: Option<(Event, Bytes)>)
    ensures r.Some? ==> |r.value.1| < |s|
  {
    if |s| < 4 then None
    else
      var tok, t := Front32(s), s[4..];
      if tok == 1 then
        var k := FindNul(t);
        if k == |t| || RoundUp4(k + 1) > |t| then None else Some((Begin(t[..k]), t[RoundUp4(k + 1)..]))
      else if tok == 2 then Some((End, t))
      else if tok == 3 && |t| >= 8 then
        var len, off, v := Front32(t), Front32(t[4..]), t[4..][4..];
        if off >= |strings| || RoundUp4(len) > |v| then None
        else
          var k := FindNul(strings[off..]);
          if off + k == |strings| then None else Some((Prop(strings[off..][..k], v[..len]), v[RoundUp4(len)..]))
      else None
  }

  function ReadEvents(s: Bytes, strings: Bytes): Option<seq<Event>>
    decreases |s|
  {
    if |s| >= 4 && Front32(s) == 9 then Some([])
    else
      match ReadEvent(s, strings)
      case None => None
      case Some((e, rest)) =>
        match ReadEvents(rest, strings) case None => None case Some(evs) => Some([e] + evs)
  }

  lemma ReadsBegin(name: Bytes, rest: Bytes, strings: Bytes)
    requires NulFree(name)
    ensures ReadEvent(Be32(1) + (Align4(name + [0]) + rest), strings) == Some((Begin(name), rest))
  {
    hide Be32, Front32, FindNul;
    var body := Align4(name + [0]) + rest;
    Front32Be32(1, body);
    AlignLength(name + [0]);
    var pad := Zeros((0 - |name + [0]|) % 4);
    assert body == name + [0] + (pad + rest);
    FindNulAfter(name, pad + rest);
    assert body[..|name|] == name;
    assert body[RoundUp4(|name| + 1)..] == rest;
  }

  lemma ReadsProp(name: Bytes, value: Bytes, off: nat, rest: Bytes, strings: Bytes)
    requires |value| < LIMIT && off < LIMIT && NameAt(strings, off, name)
    ensures ReadEvent(Be32(3) + (Be32(|value|) + (Be32(off) + (Align4(value) + rest))), strings) ==
      Some((Prop(name, value), rest))
  {
    hide Be32, Front32, FindNul;
    var v := Align4(value) + rest;
    var t := Be32(|value|) + (Be32(off) + v);
    Front32Be32(3, t);
    Front32Be32(|value|, Be32(off) + v);
    Front32Be32(off, v);
    AlignLength(value);
    NameReadsBack(strings, off, name);
    assert v[..|value|] == value;
    assert v[RoundUp4(|value|)..] == rest;
  }

  lemma ReadsEncoded(e: Event, offs: Offsets, strings: Bytes, rest: Bytes)
    requires Encodable(e, offs) && Table(strings, offs)
    ensures ReadEvent(Encode(e, offs) + rest, strings) == Some((e, rest))
    ensures |Encode(e, offs)| >= 4 && Front32(Encode(e, offs) + rest) != 9
  {
    hide Be32, Front32, ReadEvent, Align4;
    match e
    case Begin(name) =>
      ReadsBegin(name, rest, strings);
      assert Encode(e, offs) + rest == Be32(1) + (Align4(name + [0]) + rest);
      Front32Be32(1, Align4(name + [0]) + rest);
    case End =>
      Front32Be32(2, rest);
      ReadsEnd(rest, strings);
    case Prop(name, value) =>
      ReadsProp(name, value, offs[name], rest, strings);
      PropShape(e, offs, rest);
      Front32Be32(3, Be32(|value|) + (Be32(offs[name]) + (Align4(value) + rest)));
  }

  lemma ReadsEnd(rest: Bytes, strings: Bytes)
    ensures ReadEvent(Be32(2) + rest, strings) == Some((End, rest))
  {
    hide Be32, Front32;
    Front32Be32(2, rest);
  }

  lemma PropShape(e: Event, offs: Offsets, rest: Bytes)
    requires e.Prop? && Encodable(e, offs)
    ensures Encode(e, offs) + rest == Be32(3) + (Be32(|e.value|) + (Be32(offs[e.name]) + (Align4(e.value) + rest)))
  {
    hide Be32, Align4;
    var a, b, c, d := Be32(3), Be32(|e.value|), Be32(offs[e.name]), Align4(e.value);
    assert (c + d) + rest == c + (d + rest);
    assert (b + (c + d)) + rest == b + ((c + d) + rest);
    assert (a + (b + (c + d))) + rest == a + ((b + (c + d)) + rest);
  }

  /** The structure block decodes to exactly the events that were emitted. */
  lemma {:induction false} ReadsBack(evs: seq<Event>, offs: Offsets, strings: Bytes)
    requires AllEncodable(evs, offs) && Table(strings, offs)
    ensures ReadEvents(EncodeAll(evs, offs) + Be32(9), strings) == Some(evs)
  {
    hide Encode, Be32, Front32, ReadEvent;
    if evs == [] {
      assert EncodeAll(evs, offs) + Be32(9) == Be32(9) + [];
      Front32Be32(9, []);
    } else {
      var rest := EncodeAll(evs[1..], offs) + Be32(9);
      ReadsBack(evs[1..], offs, strings);
      ReadsEncoded(evs[0], offs, strings, rest);
      assert EncodeAll(evs, offs) + Be32(9) == Encode(evs[0], offs) + rest;
      assert [evs[0]] + evs[1..] == evs;
    }
  }

  // ---- Trees ----

  /** The items of a node, in order: properties and children, freely mixed. */
  datatype Items =
    | Nil
    | Property(name: Bytes, value: Bytes, next: Items)
    | Child(name: Bytes, items: Items, next: Items)

  function Linear(t: Items): seq<Event> {
    match t
    case Nil => []
    case Property(n, v, next) => [Prop(n, v)] + Linear(next)
    case Child(n, items, next) => [Begin(n)] + Linear(items) + [End] + Linear(next)
  }

  /** Items up to an End or the end of the events, and what is left. */
  function Parse(evs: seq<Event>): (r: Option<(Items, seq<Event>)>)
    ensures r.Some? ==> |r.value.1| <= |evs|
    decreases |evs|
  {
    if evs == [] || evs[0].End? then Some((Nil, evs))
    else match evs[0]
      case Prop(n, v) => (
        match Parse(evs[1..]) case None => None case Some((t, rest)) => Some((Property(n, v, t), rest)))
      case Begin(n) =>
        match Parse(evs[1..])
        case None => None
        case Some((items, rest)) =>
          if rest == [] then None
          else match Parse(rest[1..]) case None => None case Some((t, rest')) => Some((Child(n, items, t), rest'))
  }

  lemma ParseProp(n: Bytes, v: Bytes, evs: seq<Event>)
    requires Parse(evs).Some?
    ensures Parse([Prop(n, v)] + evs) == Some((Property(n, v, Parse(evs).value.0), Parse(evs).value.1))
  {
    assert ([Prop(n, v)] + evs)[1..] == evs;
  }

  lemma ParseChild(n: Bytes, evs: seq<Event>, items: Items, rest: seq<Event>)
    requires Parse(evs) == Some((items, [End] + rest)) && Parse(rest).Some?
    ensures Parse([Begin(n)] + evs) == Some((Child(n, items, Parse(rest).value.0), Parse(rest).value.1))
  {
    assert ([Begin(n)] + evs)[1..] == evs && ([End] + rest)[1..] == rest;
  }

  lemma Regroup(a: seq<Event>, b: seq<Event>, c: seq<Event>, d: seq<Event>, r: seq<Event>)
    ensures (a + b + c + d) + r == a + (b + (c + (d + r)))
    ensures (a + d) + r == a + (d + r)
  {
  }

  lemma {:induction false} ParseLinear(t: Items, rest: seq<Event>)
    requires rest == [] || rest[0].End?
    ensures Parse(Linear(t) + rest) == Some((t, rest))
    decreases t, 1
  {
    match t
    case Nil => assert Linear(t) + rest == rest;
    case Property(n, v, next) =>
      hide Parse;
      ParseLinear(next, rest);
      ParseProp(n, v, Linear(next) + rest);
      Regroup([Prop(n, v)], [], [], Linear(next), rest);
    case Child(n, items, next) => ParseLinearChild(t, rest);
  }

  lemma {:induction false} ParseLinearChild(t: Items, rest: seq<Event>)
    requires t.Child? && (rest == [] || rest[0].End?)
    ensures Parse(Linear(t) + rest) == Some((t, rest))
    decreases t, 0
  {
    hide Parse;
    var a, d := Linear(t.items), Linear(t.next);
    var tail := [End] + (d + rest);
    ParseLinear(t.items, tail);
    ParseLinear(t.next, rest);
    ParseChild(t.name, a + tail, t.items, d + rest);
    Regroup([Begin(t.name)], a, [End], d, rest);
  }

  /** Names are NUL-free. */
  ghost predicate Good(t: Items) {
    match t
    case Nil => true
    case Property(n, _, next) => NulFree(n) && Good(next)
    case Child(n, items, next) => NulFree(n) && Good(items) && Good(next)
  }

  // ---- The builder ----

  predicate InRange(ws: seq<nat>) { forall i :: 0 <= i < |ws| ==> ws[i] < LIMIT }

  function Words(ws: seq<nat>): (b: Bytes)
    requires InRange(ws)
    ensures |b| == 4 * |ws|
  {
    if ws == [] then [] else Be32(ws[0]) + Words(ws[1..])
  }

  /** The k-th word of a block. */
  function WordAt(b: Bytes, k: nat): nat
    requires 4 * k + 4 <= |b|
  {
    Front32(b[4 * k..])
  }

  lemma {:induction false} WordsReadBack(ws: seq<nat>, k: nat, rest: Bytes)
    requires InRange(ws) && k < |ws|
    ensures WordAt(Words(ws) + rest, k) == ws[k]
  {
    hide Be32, Front32;
    var tail := Words(ws[1..]) + rest;
    assert Words(ws) + rest == Be32(ws[0]) + tail;
    Front32Be32(ws[0], tail);
    if k > 0 {
      WordsReadBack(ws[1..], k - 1, rest);
      assert (Words(ws) + rest)[4 * k..] == tail[4 * (k - 1)..];
    } else {
      assert (Words(ws) + rest)[0..] == Words(ws) + rest;
    }
  }

  // ---- The blob: header, reservation block, structure block, strings block ----

  function HeaderWords(lenStruct: nat, lenStrings: nat): seq<nat> {
    [MAGIC, 56 + lenStruct + lenStrings, 56, 56 + lenStruct, 40, 17, 16, 0, lenStrings, lenStruct]
  }

  function Assemble(body: Bytes, strings: Bytes): Bytes
    requires 56 + |body| + |strings| < LIMIT
  {
    Words(HeaderWords(|body|, |strings|)) + (Words([0, 0, 0, 0]) + (body + strings))
  }

  /** Splits a blob by its header, without looking inside. */
  function Split(blob: Bytes): Option<(Bytes, Bytes)> {
    if |blob| < 40 then None
    else
      var st, str, lenStr, lenSt := WordAt(blob, 2), WordAt(blob, 3), WordAt(blob, 8), WordAt(blob, 9);
      if WordAt(blob, 0) != MAGIC || st + lenSt > |blob| || str + lenStr > |blob| then None
      else Some((blob[st..st + lenSt], blob[str..str + lenStr]))
  }

  function DecodeBlob(blob: Bytes): Option<seq<Event>> {
    match Split(blob) case None => None case Some((st, str)) => ReadEvents(st, str)
  }

  function DecodeTree(blob: Bytes): Option<Items> {
    match DecodeBlob(blob)
    case None => None
    case Some(evs) => match Parse(evs) case None => None case Some((t, rest)) => if rest == [] then Some(t) else None
  }

  lemma AssembledParts(body: Bytes, strings: Bytes)
    requires 56 + |body| + |strings| < LIMIT
    ensures var b := Assemble(body, strings); var h := HeaderWords(|body|, |strings|);
      && |b| == 56 + |body| + |strings|
      && (forall k :: 0 <= k < 10 ==> WordAt(b, k) == h[k])
      && b[40..56] == Words([0, 0, 0, 0])
      && b[56..56 + |body|] == body && b[56 + |body|..] == strings
  {
    hide WordAt;
    var rest := Words([0, 0, 0, 0]) + (body + strings);
    var h := HeaderWords(|body|, |strings|);
    forall k | 0 <= k < 10 ensures WordAt(Assemble(body, strings), k) == h[k] {
      WordsReadBack(h, k, rest);
    }
    hide Words;
    var b := Assemble(body, strings);
    assert b[40..] == rest;
    assert b[56..] == body + strings;
  }

  /** The header agrees with the blob's own layout, and the reservation block is empty. */
  predicate Consistent(blob: Bytes) {
    && |blob| >= 56 && WordAt(blob, 0) == MAGIC && WordAt(blob, 1) == |blob| && WordAt(blob, 2) == 56
    && WordAt(blob, 3) == 56 + WordAt(blob, 9) && WordAt(blob, 4) == 40
    && WordAt(blob, 3) + WordAt(blob, 8) == |blob| && blob[40..56] == Words([0, 0, 0, 0])
  }

  lemma AssembledSplits(body: Bytes, strings: Bytes)
    requires 56 + |body| + |strings| < LIMIT
    ensures Split(Assemble(body, strings)) == Some((body, strings)) && Consistent(Assemble(body, strings))
  {
    hide WordAt, Words, Assemble;
    AssembledParts(body, strings);
    var b, h := Assemble(body, strings), HeaderWords(|body|, |strings|);
    assert b[56 + |body|..56 + |body| + |strings|] == b[56 + |body|..];
    assert WordAt(b, 0) == h[0] && WordAt(b, 1) == h[1] && WordAt(b, 2) == h[2] && WordAt(b, 3) == h[3];
    assert WordAt(b, 4) == h[4] && WordAt(b, 8) == h[8] && WordAt(b, 9) == h[9];
  }

  /** The offset a name has or is about to get, and the bytes it adds. */
  function OffsetOf(name: Bytes, offs: Offsets, strings: Bytes): nat {
    if name in offs then offs[name] else |strings|
  }

  function Fresh(name: Bytes, known: set<Bytes>): nat { if name in known then 0 else |name| + 1 }

  class FdtBuilder {
    var struct_: Bytes
    var strings: Bytes
    var offsets: Offsets
    /** The calls made so far. */
    ghost var log: seq<Event>

    ghost predicate Valid()
      reads this
    {
      Table(strings, offsets) && AllEncodable(log, offsets) && struct_ == EncodeAll(log, offsets)
    }

    constructor ()
      ensures Valid() && log == [] && strings == [] && struct_ == [] && offsets == map[]
    {
      struct_, strings, offsets, log := [], [], map[], [];
    }

    method StringOff(name: Bytes) returns (off: nat)
      requires Valid() && NulFree(name)
      modifies this`strings, this`offsets
      ensures Valid() && name in offsets && off == offsets[name] == OffsetOf(name, old(offsets), old(strings))
      ensures old(strings) <= strings && |strings| == |old(strings)| + Fresh(name, old(offsets.Keys))
      ensures offsets.Keys == old(offsets.Keys) + {name}
    {
      if name !in offsets {
        ghost var was := offsets;
        offsets := offsets[name := |strings|];
        TableExtends(strings, was, name);
        EncodeExtend(log, was, offsets);
        strings := strings + (name + [0]);
      }
      assert NameAt(strings, offsets[name], name);
      off := offsets[name];
    }

    method BeginNode(name: Bytes)
      requires Valid() && NulFree(name)
      modifies this`struct_, this`log
      ensures Valid() && log == old(log) + [Begin(name)]
      ensures |struct_| == |old(struct_)| + 4 + RoundUp4(|name| + 1)
    {
      AlignLength(name + [0]);
      EncodeSnoc(log, Begin(name), offsets);
      struct_ := struct_ + (Be32(1) + Align4(name + [0]));
      log := log + [Begin(name)];
    }

    method EndNode()
      requires Valid()
      modifies this`struct_, this`log
      ensures Valid() && log == old(log) + [End] && |struct_| == |old(struct_)| + 4
    {
      EncodeSnoc(log, End, offsets);
      struct_ := struct_ + Be32(2);
      log := log + [End];
    }

    /** The length and the offset must fit their words, where packing would raise. */
    method PropRaw(name: Bytes, value: Bytes)
      requires Valid() && NulFree(name) && |value| < LIMIT && OffsetOf(name, offsets, strings) < LIMIT
      modifies this
      ensures Valid() && log == old(log) + [Prop(name, value)]
      ensures |struct_| == |old(struct_)| + 12 + RoundUp4(|value|)
      ensures |strings| == |old(strings)| + Fresh(name, old(offsets.Keys)) && offsets.Keys == old(offsets.Keys) + {name}
    {
      AlignLength(value);
      var off := StringOff(name);
      EncodeSnoc(log, Prop(name, value), offsets);
      struct_ := struct_ + (Be32(3) + (Be32(|value|) + (Be32(off) + Align4(value))));
      log := log + [Prop(name, value)];
    }

    method Build() returns (blob: Bytes)
      requires Valid() && 60 + |struct_| + |strings| < LIMIT
      modifies this`struct_
      ensures Consistent(blob) && DecodeBlob(blob) == Some(log)
    {
      hide Assemble, Split, Consistent;
      struct_ := struct_ + Be32(9);
      blob := Assemble(struct_, strings);
      AssembledSplits(struct_, strings);
      ReadsBack(log, offsets, strings);
    }
  }

  lemma TableExtends(strings: Bytes, offs: Offsets, name: Bytes)
    requires Table(strings, offs) && NulFree(name) && name !in offs
    ensures Table(strings + (name + [0]), offs[name := |strings|])
  {
    var more := strings + (name + [0]);
    forall n | n in offs ensures NameAt(more, offs[n], n) {
      var o := offs[n];
      assert NameAt(strings, o, n);
      assert more[o..o + |n|] == strings[o..o + |n|];
    }
    assert NameAt(more, |strings|, name);
  }

  // ---- Whole trees ----

  /** Bytes of the structure block that the items take. */
  function StructSize(t: Items): nat {
    match t
    case Nil => 0
    case Property(_, v, next) => 12 + RoundUp4(|v|) + StructSize(next)
    case Child(n, items, next) => 8 + RoundUp4(|n| + 1) + StructSize(items) + StructSize(next)
  }

  /** The property names known after the items, and the bytes the new ones add. */
  function Names(t: Items, known: set<Bytes>): set<Bytes> {
    match t
    case Nil => known
    case Property(n, _, next) => Names(next, known + {n})
    case Child(_, items, next) => Names(next, Names(items, known))
  }

  function NamesSize(t: Items, known: set<Bytes>): nat {
    match t
    case Nil => 0
    case Property(n, _, next) => Fresh(n, known) + NamesSize(next, known + {n})
    case Child(_, items, next) => NamesSize(items, known) + NamesSize(next, Names(items, known))
  }

  /** The blob's exact size. */
  function TreeSize(t: Items): nat { 60 + StructSize(t) + NamesSize(t, {}) }

  lemma OffsetFits(fdt: FdtBuilder, name: Bytes)
    requires fdt.Valid()
    ensures OffsetOf(name, fdt.offsets, fdt.strings) <= |fdt.strings|
  {
    if name in fdt.offsets { assert NameAt(fdt.strings, fdt.offsets[name], name); }
  }

  method Emit(fdt: FdtBuilder, t: Items)
    requires fdt.Valid() && Good(t)
    requires |fdt.strings| + NamesSize(t, fdt.offsets.Keys) < LIMIT && StructSize(t) < LIMIT
    modifies fdt
    ensures fdt.Valid() && fdt.log == old(fdt.log) + Linear(t)
    ensures |fdt.struct_| == old(|fdt.struct_|) + StructSize(t)
    ensures |fdt.strings| == old(|fdt.strings|) + NamesSize(t, old(fdt.offsets.Keys))
    ensures fdt.offsets.Keys == Names(t, old(fdt.offsets.Keys))
    decreases t, 1
  {
    hide FdtBuilder.Valid;
    match t
    case Nil =>
    case Property(_, _, _) => EmitProperty(fdt, t);
    case Child(_, _, _) => EmitChild(fdt, t);
  }

  method EmitProperty(fdt: FdtBuilder, t: Items)
    requires fdt.Valid() && Good(t) && t.Property?
    requires |fdt.strings| + NamesSize(t, fdt.offsets.Keys) < LIMIT && StructSize(t) < LIMIT
    modifies fdt
    ensures fdt.Valid() && fdt.log == old(fdt.log) + Linear(t)
    ensures |fdt.struct_| == old(|fdt.struct_|) + StructSize(t)
    ensures |fdt.strings| == old(|fdt.strings|) + NamesSize(t, old(fdt.offsets.Keys))
    ensures fdt.offsets.Keys == Names(t, old(fdt.offsets.Keys))
    decreases t, 0
  {
    hide FdtBuilder.Valid, Fresh, OffsetOf, RoundUp4;
    OffsetFits(fdt, t.name);
    AlignLength(t.value);
    fdt.PropRaw(t.name, t.value);
    Emit(fdt, t.next);
  }

  method EmitChild(fdt: FdtBuilder, t: Items)
    requires fdt.Valid() && Good(t) && t.Child?
    requires |fdt.strings| + NamesSize(t, fdt.offsets.Keys) < LIMIT && StructSize(t) < LIMIT
    modifies fdt
    ensures fdt.Valid() && fdt.log == old(fdt.log) + Linear(t)
    ensures |fdt.struct_| == old(|fdt.struct_|) + StructSize(t)
    ensures |fdt.strings| == old(|fdt.strings|) + NamesSize(t, old(fdt.offsets.Keys))
    ensures fdt.offsets.Keys == Names(t, old(fdt.offsets.Keys))
    decreases t, 0
  {
    hide FdtBuilder.Valid, Fresh, RoundUp4;
    ghost var log := fdt.log;
    fdt.BeginNode(t.name);
    Emit(fdt, t.items);
    fdt.EndNode();
    assert fdt.log == log + ([Begin(t.name)] + Linear(t.items) + [End]);
    Emit(fdt, t.next);
    assert fdt.log == log + ([Begin(t.name)] + Linear(t.items) + [End] + Linear(t.next));
  }

  /** Every tree of NUL-free names whose blob fits in 2^32 bytes decodes back to itself. */
  method BuildTree(t: Items) returns (blob: Bytes)
    requires Good(t) && TreeSize(t) < LIMIT
    ensures Consistent(blob) && DecodeBlob(blob) == Some(Linear(t)) && DecodeTree(blob) == Some(t)
  {
    hide DecodeBlob, StructSize, NamesSize, Parse, Linear, Table, AllEncodable, EncodeAll, Consistent;
    var fdt := new FdtBuilder();
    assert fdt.offsets.Keys == {};
    Emit(fdt, t);
    assert [] + Linear(t) == Linear(t) == Linear(t) + [];
    blob := fdt.Build();
    ParseLinear(t, []);
  }

  // ---- The checker ----

  function Max(a: nat, b: nat): nat { if a > b then a else b }

  datatype Report = Report(maxDepth: nat, props: nat)

  /** What the checker concludes from the events. */
  function Scan(evs: seq<Event>, depth: nat, maxDepth: nat, props: nat): Option<Report> {
    if evs == [] then
      if depth == 0 && maxDepth >= 2 && props > 0 then Some(Report(maxDepth, props)) else None
    else match evs[0]
      case Begin(_) => Scan(evs[1..], depth + 1, Max(maxDepth, depth + 1), props)
      case End => if depth == 0 then None else Scan(evs[1..], depth - 1, maxDepth, props)
      case Prop(_, _) => Scan(evs[1..], depth, maxDepth, props + 1)
  }

  function Depth(t: Items): nat {
    match t
    case Nil => 0
    case Property(_, _, next) => Depth(next)
    case Child(_, items, next) => Max(1 + Depth(items), Depth(next))
  }

  function Props(t: Items): nat {
    match t
    case Nil => 0
    case Property(_, _, next) => 1 + Props(next)
    case Child(_, items, next) => Props(items) + Props(next)
  }

  lemma ScanHead(e: Event, rest: seq<Event>, depth: nat, maxDepth: nat, props: nat)
    ensures Scan([e] + rest, depth, maxDepth, props) ==
      match e
      case Begin(_) => Scan(rest, depth + 1, Max(maxDepth, depth + 1), props)
      case End => if depth == 0 then None else Scan(rest, depth - 1, maxDepth, props)
      case Prop(_, _) => Scan(rest, depth, maxDepth, props + 1)
  {
    assert ([e] + rest)[1..] == rest;
  }

  lemma {:induction false} ScanItems(t: Items, rest: seq<Event>, depth: nat, maxDepth: nat, props: nat)
    requires depth <= maxDepth
    ensures Scan(Linear(t) + rest, depth, maxDepth, props) ==
            Scan(rest, depth, Max(maxDepth, depth + Depth(t)), props + Props(t))
  {
    hide Scan;
    match t
    case Nil => assert Linear(t) + rest == rest;
    case Property(n, v, next) =>
      Regroup([Prop(n, v)], [], [], Linear(next), rest);
      ScanHead(Prop(n, v), Linear(next) + rest, depth, maxDepth, props);
      ScanItems(next, rest, depth, maxDepth, props + 1);
    case Child(n, items, next) =>
      var a, d := Linear(items), Linear(next);
      var tail := [End] + (d + rest);
      var deeper, more := Max(maxDepth, depth + 1 + Depth(items)), props + Props(items);
      Regroup([Begin(n)], a, [End], d, rest);
      ScanHead(Begin(n), a + tail, depth, maxDepth, props);
      ScanItems(items, tail, depth + 1, Max(maxDepth, depth + 1), props);
      ScanHead(End, d + rest, depth + 1, deeper, more);
      ScanItems(next, rest, depth, deeper, more);
  }

  /** The checker accepts a tree exactly when it is at least two deep and has a property. */
  lemma TreeScans(t: Items)
    ensures Scan(Linear(t), 0, 0, 0) ==
      if Depth(t) >= 2 && Props(t) > 0 then Some(Report(Depth(t), Props(t))) else None
  {
    ScanItems(t, [], 0, 0, 0);
    assert Linear(t) + [] == Linear(t);
  }

  // What the checker reads of a structure block: tokens without names and values.  It is more
  // lenient than the decoder, which also wants every value inside the block and every name
  // terminated.

  function Rest(t: Bytes, n: nat): Bytes { if n <= |t| then t[n..] else [] }

  function ReadKind(s: Bytes, limit: nat): (r: Option<(Event, Bytes)>)
    ensures r.Some? ==> |r.value.1| < |s|
  {
    if |s| < 4 then None
    else
      var tok, t := Front32(s), s[4..];
      if tok == 1 then
        var k := FindNul(t);
        if k == |t| then None else Some((Begin([]), Rest(t, RoundUp4(k + 1))))
      else if tok == 2 then Some((End, t))
      else if tok == 3 && |t| >= 8 && Front32(t[4..]) < limit then
        Some((Prop([], []), Rest(t[4..][4..], RoundUp4(Front32(t)))))
      else None
  }

  function ReadKinds(s: Bytes, limit: nat): Option<seq<Event>>
    decreases |s|
  {
    if |s| >= 4 && Front32(s) == 9 then Some([])
    else
      match ReadKind(s, limit)
      case None => None
      case Some((e, rest)) =>
        match ReadKinds(rest, limit) case None => None case Some(evs) => Some([e] + evs)
  }

  /** Exactly what the checker answers, for every blob. */
  function Judged(blob: Bytes): Option<Report> {
    if !Consistent(blob) then None
    else
      var st, n := 56 + WordAt(blob, 9), WordAt(blob, 8);
      match ReadKinds(blob[56..st], n) case None => None case Some(evs) => Scan(evs, 0, 0, 0)
  }

  function Kind(e: Event): Event {
    match e case Begin(_) => Begin([]) case End => End case Prop(_, _) => Prop([], [])
  }

  function Kinds(evs: seq<Event>): seq<Event> {
    if evs == [] then [] else [Kind(evs[0])] + Kinds(evs[1..])
  }

  lemma KindOfEvent(s: Bytes, strings: Bytes)
    requires ReadEvent(s, strings).Some?
    ensures ReadKind(s, |strings|) == Some((Kind(ReadEvent(s, strings).value.0), ReadEvent(s, strings).value.1))
  {
    hide Front32, FindNul, RoundUp4;
  }

  /** What decodes, the checker reads as the decoder does. */
  lemma {:induction false} KindsOfEvents(s: Bytes, strings: Bytes)
    requires ReadEvents(s, strings).Some?
    ensures ReadKinds(s, |strings|) == Some(Kinds(ReadEvents(s, strings).value))
    decreases |s|
  {
    hide Front32, ReadEvent, ReadKind, Kind;
    if !(|s| >= 4 && Front32(s) == 9) {
      KindOfEvent(s, strings);
      var (e, rest) := ReadEvent(s, strings).value;
      KindsOfEvents(rest, strings);
      var evs := ReadEvents(rest, strings).value;
      assert ([e] + evs)[1..] == evs;
    }
  }

  lemma {:induction false} ScanKinds(evs: seq<Event>, depth: nat, maxDepth: nat, props: nat)
    ensures Scan(Kinds(evs), depth, maxDepth, props) == Scan(evs, depth, maxDepth, props)
  {
    if evs != [] {
      var rest := evs[1..];
      assert evs == [evs[0]] + rest;
      ScanHead(evs[0], rest, depth, maxDepth, props);
      ScanHead(Kind(evs[0]), Kinds(rest), depth, maxDepth, props);
      hide Scan;
      match evs[0]
      case Begin(_) => ScanKinds(rest, depth + 1, Max(maxDepth, depth + 1), props);
      case End => if depth > 0 { ScanKinds(rest, depth - 1, maxDepth, props); }
      case Prop(_, _) => ScanKinds(rest, depth, maxDepth, props + 1);
    }
  }

  /** The checker's loop variables. */
  datatype Cursor = Cursor(i: nat, depth: nat, maxDepth: nat, props: nat, sawEnd: bool)

  ghost function ScanFrom(evs: seq<Event>, c: Cursor): Option<Report> { Scan(evs, c.depth, c.maxDepth, c.props) }

  /** The answer from a position on. */
  ghost function Verdict(s: Bytes, limit: nat, c: Cursor): Option<Report> {
    match ReadKinds(s, limit) case None => None case Some(evs) => ScanFrom(evs, c)
  }

  lemma VerdictEnd(s: Bytes, limit: nat, c: Cursor)
    requires |s| >= 4 && Front32(s) == 9
    ensures Verdict(s, limit, c) == ScanFrom([], c)
  {
  }

  lemma VerdictNone(s: Bytes, limit: nat, c: Cursor)
    requires !(|s| >= 4 && Front32(s) == 9) && ReadKind(s, limit).None?
    ensures Verdict(s, limit, c) == None
  {
  }

  /** One token, on the answer. */
  lemma VerdictStep(s: Bytes, limit: nat, c: Cursor, e: Event, rest: Bytes, n: Cursor)
    requires |s| >= 4 && Front32(s) != 9 && ReadKind(s, limit) == Some((e, rest))
    requires match e
      case Begin(_) => n.depth == c.depth + 1 && n.maxDepth == Max(c.maxDepth, c.depth + 1) && n.props == c.props
      case End => c.depth > 0 ==> n.depth == c.depth - 1 && n.maxDepth == c.maxDepth && n.props == c.props
      case Prop(_, _) => n.depth == c.depth && n.maxDepth == c.maxDepth && n.props == c.props + 1
    ensures Verdict(s, limit, c) == if e.End? && c.depth == 0 then None else Verdict(rest, limit, n)
  {
    hide Front32, ReadKind;
    match ReadKinds(rest, limit) {
      case None =>
      case Some(evs) =>
        ScanHead(e, evs, c.depth, c.maxDepth, c.props);
        hide Scan;
    }
  }

  /** One token of the structure block; None is a failed assertion or a failed unpack. */
  method Token(st: Bytes, strings: Bytes, c: Cursor) returns (n: Option<Cursor>)
    requires c.i < |st| && !c.sawEnd
    ensures n.Some? ==> n.value.i > c.i
    ensures var was := Verdict(Rest(st, c.i), |strings|, c);
            if n.None? then was == None
            else if n.value.sawEnd then was == ScanFrom([], n.value)
            else was == Verdict(Rest(st, n.value.i), |strings|, n.value)
  {
    hide Front32, FindNul, RoundUp4, Verdict, ScanFrom;
    ghost var s, limit := Rest(st, c.i), |strings|;
    n := None;
    if c.i + 4 > |st| {
      VerdictNone(s, limit, c);
      return;
    }
    var tok, i := Front32(st[c.i..]), c.i + 4;
    assert st[i..] == s[4..];
    if tok == 1 {
      var k := FindNul(st[i..]);
      if i + k == |st| {
        VerdictNone(s, limit, c);
        return;
      }
      n := Some(Cursor(i + RoundUp4(k + 1), c.depth + 1, Max(c.maxDepth, c.depth + 1), c.props, false));
      RestOfRest(st, i, RoundUp4(k + 1));
      VerdictStep(s, limit, c, Begin([]), Rest(st, n.value.i), n.value);
    } else if tok == 2 {
      var next := Cursor(i, if c.depth == 0 then 0 else c.depth - 1, c.maxDepth, c.props, false);
      VerdictStep(s, limit, c, End, Rest(st, i), next);
      if c.depth == 0 { return; }
      n := Some(next);
    } else if tok == 3 {
      if i + 8 > |st| {
        VerdictNone(s, limit, c);
        return;
      }
      assert st[i + 4..] == s[4..][4..] && st[i + 8..] == s[4..][4..][4..];
      var len, off := Front32(st[i..]), Front32(st[i + 4..]);
      if off >= |strings| {
        VerdictNone(s, limit, c);
        return;
      }
      n := Some(Cursor(i + 8 + RoundUp4(len), c.depth, c.maxDepth, c.props + 1, false));
      RestOfRest(st, i + 8, RoundUp4(len));
      VerdictStep(s, limit, c, Prop([], []), Rest(st, n.value.i), n.value);
    } else if tok == 9 {
      n := Some(Cursor(i, c.depth, c.maxDepth, c.props, true));
      VerdictEnd(s, limit, c);
      SameScan(c, n.value);
    } else {
      VerdictNone(s, limit, c);
    }
  }

  lemma RestOfRest(st: Bytes, i: nat, n: nat)
    requires i <= |st|
    ensures Rest(st[i..], n) == Rest(st, i + n)
  {
  }

  lemma SameScan(c: Cursor, n: Cursor)
    requires n.depth == c.depth && n.maxDepth == c.maxDepth && n.props == c.props
    ensures ScanFrom([], c) == ScanFrom([], n)
  {
  }

  /** The cursor loop and the checks after it, on every structure block. */
  method Check(st: Bytes, strings: Bytes) returns (r: Option<Report>)
    ensures r == match ReadKinds(st, |strings|) case None => None case Some(evs) => Scan(evs, 0, 0, 0)
  {
    hide ReadKinds;
    ghost var answer := Verdict(st, |strings|, Cursor(0, 0, 0, 0, false));
    assert Rest(st, 0) == st;
    var c := Cursor(0, 0, 0, 0, false);
    while c.i < |st| && !c.sawEnd
      invariant answer == if c.sawEnd then ScanFrom([], c) else Verdict(Rest(st, c.i), |strings|, c)
      decreases |st| - c.i
    {
      var n := Token(st, strings, c);
      if n.None? { return None; }
      c := n.value;
    }
    if !c.sawEnd {
      RunOff(st, c.i, |strings|, c);
      return None;
    }
    if c.depth != 0 || c.maxDepth < 2 || c.props == 0 { return None; }
    r := Some(Report(c.maxDepth, c.props));
  }

  lemma RunOff(st: Bytes, i: nat, limit: nat, c: Cursor)
    requires i >= |st|
    ensures Verdict(Rest(st, i), limit, c) == None
  {
    assert Rest(st, i) == [];
  }

  /** The whole checker, on any blob: its exact answer, which on a consistent blob that decodes
      is that of the decoded events. */
  method ParseAndValidate(blob: Bytes) returns (r: Option<Report>)
    ensures r == Judged(blob)
    ensures Consistent(blob) && DecodeBlob(blob).Some? ==> r == Scan(DecodeBlob(blob).value, 0, 0, 0)
  {
    hide WordAt, Words, Scan, ReadEvents, ReadKinds;
    if |blob| < 40 { return None; }
    var size, st, str, lenStr, lenSt :=
      WordAt(blob, 1), WordAt(blob, 2), WordAt(blob, 3), WordAt(blob, 8), WordAt(blob, 9);
    if WordAt(blob, 0) != MAGIC || size != |blob| || WordAt(blob, 4) != 40 { return None; }
    if st != 56 || str != st + lenSt || str + lenStr != size { return None; }
    if blob[40..56] != Words([0, 0, 0, 0]) { return None; }
    var body, strings := blob[st..st + lenSt], blob[str..str + lenStr];
    r := Check(body, strings);
    if ReadEvents(body, strings).Some? {
      KindsOfEvents(body, strings);
      ScanKinds(ReadEvents(body, strings).value, 0, 0, 0);
    }
  }

  /** End to end: a tree's blob decodes to the tree, and passes the checker exactly when the
      tree is at least two deep and has a property; the report gives both numbers. */
  method BuildAndValidate(t: Items) returns (blob: Bytes, r: Option<Report>)
    requires Good(t) && TreeSize(t) < LIMIT
    ensures DecodeTree(blob) == Some(t)
    ensures r == if Depth(t) >= 2 && Props(t) > 0 then Some(Report(Depth(t), Props(t))) else None
  {
    hide TreeSize, Parse, Linear, DecodeTree, DecodeBlob, Depth, Props, Consistent, Judged;
    blob := BuildTree(t);
    r := ParseAndValidate(blob);
    TreeScans(t);
  }

  // ---- Where checker and decoder part ----

  lemma ReadsOn(s: Bytes, strings: Bytes, e: Event, rest: Bytes)
    requires |s| >= 4 && Front32(s) != 9 && ReadEvent(s, strings) == Some((e, rest))
    ensures ReadEvents(s, strings) ==
      match ReadEvents(rest, strings) case None => None case Some(evs) => Some([e] + evs)
  {
  }

  /** A node in a node with one property, the name at offset 0; from the end on. */
  function Ends(): Bytes { Be32(2) + (Be32(2) + (Be32(9) + [])) }

  function PropToken(): Bytes { Be32(3) + (Be32(0) + (Be32(0) + (Align4([]) + Ends()))) }

  function NodeToken(rest: Bytes): Bytes { Be32(1) + (Align4([] + [0]) + rest) }

  lemma EndsRead(strings: Bytes)
    ensures ReadEvents(Ends(), strings) == Some([End, End])
  {
    hide Be32, Front32;
    var f := Be32(9) + [];
    Front32Be32(9, []);
    Front32Be32(2, f);
    Front32Be32(2, Be32(2) + f);
    ReadsEnd(f, strings);
    ReadsEnd(Be32(2) + f, strings);
    ReadsOn(Be32(2) + f, strings, End, f);
    ReadsOn(Be32(2) + (Be32(2) + f), strings, End, Be32(2) + f);
    assert [End] + [] == [End] && [End] + [End] == [End, End];
  }

  lemma NodeReads(rest: Bytes, strings: Bytes)
    ensures ReadEvents(NodeToken(rest), strings) ==
      match ReadEvents(rest, strings) case None => None case Some(evs) => Some([Begin([])] + evs)
  {
    hide Be32, Front32, ReadEvent, ReadEvents, Align4;
    Front32Be32(1, Align4([] + [0]) + rest);
    ReadsBegin([], rest, strings);
    ReadsOn(NodeToken(rest), strings, Begin([]), rest);
  }

  /** The name is the empty one where a NUL is there, and nothing otherwise. */
  lemma PropReads()
    ensures ReadEvents(PropToken(), [0]) == Some([Prop([], []), End, End])
    ensures ReadEvents(PropToken(), [97]) == None
  {
    PropUnread();
    hide Be32, Front32, ReadEvent, ReadEvents, Align4;
    Front32Be32(3, Be32(0) + (Be32(0) + (Align4([]) + Ends())));
    ReadsProp([], [], 0, Ends(), [0]);
    EndsRead([0]);
    ReadsOn(PropToken(), [0], Prop([], []), Ends());
    assert [Prop([], [])] + [End, End] == [Prop([], []), End, End];
  }

  lemma PropUnread()
    ensures ReadEvents(PropToken(), [97]) == None
  {
    hide Be32, Front32;
    var v := Align4([]) + Ends();
    Front32Be32(3, Be32(0) + (Be32(0) + v));
    Front32Be32(0, Be32(0) + v);
    Front32Be32(0, v);
    var strings: Bytes := [97];
    assert strings[0..] == strings && FindNul(strings[1..]) == 0 && FindNul(strings) == 1;
  }

  /** The checker does accept what does not decode: here the one property's name has no NUL
      before the end of the strings block. */
  method AcceptsUnterminated() returns (blob: Bytes, r: Option<Report>)
    ensures r == Some(Report(2, 1)) && Consistent(blob) && DecodeBlob(blob) == None
  {
    var body := NodeToken(NodeToken(PropToken()));
    AlignLength([] + [0]);
    AlignLength([]);
    assert |body| == 40;
    UnterminatedReads(body);
    hide Assemble, Split, ReadEvents, ReadKinds, WordAt, Words, Scan, NodeToken, PropToken;
    var strings: Bytes := [97];
    blob := Assemble(body, strings);
    AssembledSplits(body, strings);
    AssembledBody(body, strings);
    r := ParseAndValidate(blob);
  }

  lemma AssembledBody(body: Bytes, strings: Bytes)
    requires 56 + |body| + |strings| < LIMIT
    ensures var b := Assemble(body, strings);
            |b| >= 56 + |body| && b[56..56 + |body|] == body && WordAt(b, 9) == |body| && WordAt(b, 8) == |strings|
  {
    hide WordAt, Words, Assemble;
    AssembledParts(body, strings);
    var h := HeaderWords(|body|, |strings|);
    assert WordAt(Assemble(body, strings), 8) == h[8] && WordAt(Assemble(body, strings), 9) == h[9];
  }

  lemma UnterminatedReads(body: Bytes)
    requires body == NodeToken(NodeToken(PropToken()))
    ensures ReadEvents(body, [97]) == None
    ensures ReadKinds(body, 1).Some? && Scan(ReadKinds(body, 1).value, 0, 0, 0) == Some(Report(2, 1))
  {
    hide ReadEvents, ReadKinds, NodeToken, PropToken, Scan;
    PropReads();
    var p := PropToken();
    NodeReads(p, [97]);
    NodeReads(NodeToken(p), [97]);
    NodeReads(p, [0]);
    NodeReads(NodeToken(p), [0]);
    KindsOfEvents(body, [0]);
    var evs := [Begin([])] + ([Begin([])] + [Prop([], []), End, End]);
    ScanKinds(evs, 0, 0, 0);
    ScanHead(Begin([]), [Begin([])] + [Prop([], []), End, End], 0, 0, 0);
    ScanHead(Begin([]), [Prop([], []), End, End], 1, 1, 0);
    ScanLast();
  }

  lemma ScanLast()
    ensures Scan([Prop([], []), End, End], 2, 2, 0) == Some(Report(2, 1))
  {
    ScanHead(Prop([], []), [End, End], 2, 2, 0);
    ScanHead(End, [End], 2, 2, 1);
    ScanHead(End, [], 1, 2, 1);
    assert [Prop([], [])] + [End, End] == [Prop([], []), End, End];
    assert [End] + [End] == [End, End] && [End] + [] == [End];
  }
}

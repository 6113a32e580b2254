/** The 9P2000 wire format (npwire): numbers, strings, qids and stats, as they are written into a growing buffer and
    taken off the front of a received one.

    A message is its type, its tag, a row of fields, and possibly a tail: a counted list, counted bytes or a stat. */
module NpWire {
  import opened Packets

  type u8 = n: nat | n < 0x100
  type u16 = n: nat | n < 0x1_0000
  type u32 = n: nat | n < 0x1_0000_0000
  type u64 = n: nat | n < 0x1_0000_0000_0000_0000

  // ----- numbers, least significant byte first

  function Power(width: nat): (p: nat)
    ensures p > 0
  {
    if width == 0 then 1 else 256 * Power(width - 1)
  }

  function Le(n: nat, width: nat): (b: seq<byte>)
    ensures |b| == width
  {
    if width == 0 then [] else [(n % 256) as byte] + Le(n / 256, width - 1)
  }

  function UnLe(b: seq<byte>): nat {
    if b == [] then 0 else b[0] as nat + 256 * UnLe(b[1..])
  }

  lemma {:induction false} UnLeOfLe(n: nat, width: nat)
    requires n < Power(width)
    ensures UnLe(Le(n, width)) == n
  {
    if width > 0 {
      UnLeOfLe(n / 256, width - 1);
      assert Le(n, width)[1..] == Le(n / 256, width - 1);
    }
  }

  lemma {:induction false} LeOfUnLe(b: seq<byte>)
    ensures UnLe(b) < Power(|b|) && Le(UnLe(b), |b|) == b
  {
    if b != [] {
      LeOfUnLe(b[1..]);
      var rest := UnLe(b[1..]);
      DivDigit(b[0] as nat, rest);
      assert b == [b[0]] + b[1..];
    }
  }

  lemma DivDigit(d: nat, rest: nat)
    requires d < 256
    ensures (d + 256 * rest) / 256 == rest && (d + 256 * rest) % 256 == d
  {
  }

  lemma Powers()
    ensures Power(1) == 0x100 && Power(2) == 0x1_0000 && Power(4) == 0x1_0000_0000 && Power(8) == 0x1_0000_0000_0000_0000
  {
    assert Power(3) == 0x100_0000;
    assert Power(6) == 0x1_0000_0000_0000;
  }

  // ----- strings

  /** A continuation byte. */
  predicate Cont(b: byte) {
    0x80 <= b < 0xC0
  }

  /** The length of the UTF-8 sequence at the front, 0 if there is none (RFC 3629, section 4). */
  function CharLen(s: seq<byte>): (n: nat)
    requires s != []
    ensures n <= |s|
  {
    var b := s[0];
    if b < 0x80 then 1
    else if 0xC2 <= b < 0xE0 && |s| >= 2 && Cont(s[1]) then 2
    else if 0xE0 <= b < 0xF0 && |s| >= 3 && Cont(s[1]) && Cont(s[2]) && (b == 0xE0 ==> s[1] >= 0xA0) && (b == 0xED ==> s[1] < 0xA0) then 3
    else if 0xF0 <= b < 0xF5 && |s| >= 4 && Cont(s[1]) && Cont(s[2]) && Cont(s[3]) && (b == 0xF0 ==> s[1] >= 0x90) && (b == 0xF4 ==> s[1] < 0x90) then 4
    else 0
  }

  predicate Utf8(s: seq<byte>) {
    s == [] || (CharLen(s) > 0 && Utf8(s[CharLen(s)..]))
  }

  type Text = s: seq<byte> | Utf8(s) witness []

  // ----- fields

  datatype Qid = Qid(type_: u8, version: u32, path: u64)

  datatype Stat = Stat(type_: u16, dev: u32, qid: Qid, mode: u32, atime: u32, mtime: u32, length: u64,
                       name: Text, uid: Text, gid: Text, muid: Text)

  datatype Field = Num(width: nat, n: nat) | Str(s: Text) | Id(q: Qid)

  datatype Shape = NumOf(width: nat) | StrOf | IdOf

  function ShapeOf(f: Field): Shape {
    match f
    case Num(width, _) => NumOf(width)
    case Str(_) => StrOf
    case Id(_) => IdOf
  }

  function Shapes(fs: seq<Field>): (r: seq<Shape>)
    ensures |r| == |fs| && forall i :: 0 <= i < |fs| ==> r[i] == ShapeOf(fs[i])
  {
    seq(|fs|, i requires 0 <= i < |fs| => ShapeOf(fs[i]))
  }

  predicate FieldOk(f: Field) {
    f.Num? ==> f.n < Power(f.width)
  }

  /** The outcome of serializing: lengths must fit their counts. */
  datatype Serialized = Encoded(bytes: seq<byte>) | Failed

  datatype Fault = Short | BadText

  /** The outcome of taking a value off the front. */
  datatype Parsed<T> = Good(value: T, rest: seq<byte>) | Bad(fault: Fault)

  function EncodeQid(q: Qid): (b: seq<byte>)
    ensures |b| == 13
  {
    Le(q.type_, 1) + Le(q.version, 4) + Le(q.path, 8)
  }

  function EncodeField(f: Field): Serialized {
    match f
    case Num(width, n) => Encoded(Le(n, width))
    case Str(s) => if |s| < 0x1_0000 then Encoded(Le(|s|, 2) + s) else Failed
    case Id(q) => Encoded(EncodeQid(q))
  }

  function DecodeQid(b: seq<byte>): Qid
    requires |b| == 13
  {
    LeOfUnLe(b[0..1]);
    LeOfUnLe(b[1..5]);
    LeOfUnLe(b[5..13]);
    Powers();
    Qid(UnLe(b[0..1]), UnLe(b[1..5]), UnLe(b[5..13]))
  }

  function DecodeField(shape: Shape, b: seq<byte>): Parsed<Field> {
    match shape
    case NumOf(width) => if |b| < width then Bad(Short) else Good(Num(width, UnLe(b[..width])), b[width..])
    case StrOf =>
      if |b| < 2 then Bad(Short)
      else
        var len := UnLe(b[..2]);
        if |b| - 2 < len then Bad(Short)
        else if !Utf8(b[2..2 + len]) then Bad(BadText)
        else Good(Str(b[2..2 + len]), b[2 + len..])
    case IdOf => if |b| < 13 then Bad(Short) else Good(Id(DecodeQid(b[..13])), b[13..])
  }

  lemma QidThere(q: Qid)
    ensures DecodeQid(EncodeQid(q)) == q
  {
    var b := EncodeQid(q);
    Powers();
    UnLeOfLe(q.type_, 1);
    UnLeOfLe(q.version, 4);
    UnLeOfLe(q.path, 8);
    assert b[0..1] == Le(q.type_, 1) && b[1..5] == Le(q.version, 4) && b[5..13] == Le(q.path, 8);
  }

  lemma QidBack(b: seq<byte>)
    requires |b| == 13
    ensures EncodeQid(DecodeQid(b)) == b
  {
    LeOfUnLe(b[0..1]);
    LeOfUnLe(b[1..5]);
    LeOfUnLe(b[5..13]);
    assert b == b[0..1] + b[1..5] + b[5..13];
  }

  /** What was written is read back, and what follows it is left alone. */
  lemma FieldThere(f: Field, rest: seq<byte>)
    requires FieldOk(f) && EncodeField(f).Encoded?
    ensures DecodeField(ShapeOf(f), EncodeField(f).bytes + rest) == Good(f, rest)
  {
    hide Utf8, EncodeQid, DecodeQid, Le, UnLe, Power;
    var e := EncodeField(f).bytes;
    var b := e + rest;
    assert b[..|e|] == e && b[|e|..] == rest;
    match f
    case Num(width, n) => UnLeOfLe(n, width);
    case Str(s) =>
      Powers();
      UnLeOfLe(|s|, 2);
      assert b[..2] == Le(|s|, 2) && b[2..2 + |s|] == s;
    case Id(q) => QidThere(q);
  }

  /** Whatever can be read is exactly what writing the value read gives. */
  lemma FieldBack(shape: Shape, b: seq<byte>)
    requires DecodeField(shape, b).Good?
    ensures var (f, rest) := (DecodeField(shape, b).value, DecodeField(shape, b).rest);
            FieldOk(f) && ShapeOf(f) == shape && EncodeField(f).Encoded? && b == EncodeField(f).bytes + rest
  {
    hide Utf8, EncodeQid, DecodeQid, Le, UnLe, Power;
    match shape
    case NumOf(width) => LeOfUnLe(b[..width]);
    case StrOf =>
      Powers();
      LeOfUnLe(b[..2]);
      var len := UnLe(b[..2]);
      assert b == b[..2] + b[2..2 + len] + b[2 + len..];
    case IdOf =>
      QidBack(b[..13]);
      assert b == b[..13] + b[13..];
  }

  function Joined(a: Serialized, b: Serialized): Serialized {
    if a.Encoded? && b.Encoded? then Encoded(a.bytes + b.bytes) else Failed
  }

  function EncodeFields(fs: seq<Field>): Serialized {
    if fs == [] then Encoded([]) else Joined(EncodeField(fs[0]), EncodeFields(fs[1..]))
  }

  function DecodeFields(shapes: seq<Shape>, b: seq<byte>): Parsed<seq<Field>>
    decreases |shapes|
  {
    if shapes == [] then Good([], b)
    else match DecodeField(shapes[0], b)
         case Bad(fault) => Bad(fault)
         case Good(f, rest) =>
           match DecodeFields(shapes[1..], rest)
           case Bad(fault) => Bad(fault)
           case Good(fs, rest1) => Good([f] + fs, rest1)
  }

  predicate FieldsOk(fs: seq<Field>) {
    forall i :: 0 <= i < |fs| ==> FieldOk(fs[i])
  }

  lemma {:induction false} FieldsThere(fs: seq<Field>, rest: seq<byte>)
    requires FieldsOk(fs) && EncodeFields(fs).Encoded?
    ensures DecodeFields(Shapes(fs), EncodeFields(fs).bytes + rest) == Good(fs, rest)
    decreases |fs|
  {
    hide EncodeField, DecodeField, FieldOk;
    if fs == [] {
      assert [] + rest == rest;
    } else {
      var first, more := EncodeField(fs[0]).bytes, EncodeFields(fs[1..]).bytes;
      var shapes := Shapes(fs);
      assert FieldsOk(fs[1..]) && FieldOk(fs[0]);
      assert shapes[0] == ShapeOf(fs[0]) && shapes[1..] == Shapes(fs[1..]);
      assert fs == [fs[0]] + fs[1..];
      hide Shapes, FieldsOk, ShapeOf;
      FieldThere(fs[0], more + rest);
      FieldsThere(fs[1..], rest);
      assert first + more + rest == first + (more + rest);
    }
  }

  lemma {:induction false} FieldsBack(shapes: seq<Shape>, b: seq<byte>)
    requires DecodeFields(shapes, b).Good?
    ensures var (fs, rest) := (DecodeFields(shapes, b).value, DecodeFields(shapes, b).rest);
            FieldsOk(fs) && Shapes(fs) == shapes && EncodeFields(fs).Encoded? && b == EncodeFields(fs).bytes + rest
    decreases |shapes|
  {
    hide EncodeField, DecodeField, FieldOk;
    if shapes == [] {
      assert b == [] + b;
    } else {
      FieldBack(shapes[0], b);
      var (f, rest) := (DecodeField(shapes[0], b).value, DecodeField(shapes[0], b).rest);
      FieldsBack(shapes[1..], rest);
      var fs := DecodeFields(shapes[1..], rest).value;
      assert ([f] + fs)[1..] == fs;
      assert Shapes([f] + fs) == shapes;
    }
  }

  /** Writing field by field. */
  lemma {:induction false} EncodeConcat(fs: seq<Field>, gs: seq<Field>)
    ensures EncodeFields(fs + gs) == Joined(EncodeFields(fs), EncodeFields(gs))
    decreases |fs|
  {
    hide EncodeField;
    if fs == [] {
      assert fs + gs == gs;
    } else {
      EncodeConcat(fs[1..], gs);
      assert (fs + gs)[1..] == fs[1..] + gs;
      var a, b, c := EncodeField(fs[0]), EncodeFields(fs[1..]), EncodeFields(gs);
      assert a.Encoded? && b.Encoded? && c.Encoded? ==> a.bytes + (b.bytes + c.bytes) == a.bytes + b.bytes + c.bytes;
    }
  }

  /** Fields can be written exactly if every string's length fits into two bytes. */
  lemma {:induction false} FieldsFit(fs: seq<Field>)
    ensures EncodeFields(fs).Encoded? <==> forall i :: 0 <= i < |fs| && fs[i].Str? ==> |fs[i].s| < 0x1_0000
    decreases |fs|
  {
    hide Utf8, EncodeQid, Le;
    if fs != [] {
      FieldsFit(fs[1..]);
      assert forall i :: 0 <= i < |fs| - 1 ==> fs[1..][i] == fs[i + 1];
      if EncodeFields(fs[1..]).Encoded? {
        forall i | 0 < i < |fs| && fs[i].Str?
          ensures |fs[i].s| < 0x1_0000
        {
          assert fs[1..][i - 1] == fs[i];
        }
      }
    }
  }

  lemma EncodeOne(f: Field)
    ensures EncodeFields([f]) == EncodeField(f)
  {
    hide EncodeField;
    assert [f][1..] == [];
    assert EncodeField(f).Encoded? ==> EncodeField(f).bytes + [] == EncodeField(f).bytes;
  }

  function Then(a: Parsed<seq<Field>>, more: seq<Shape>): Parsed<seq<Field>> {
    match a
    case Bad(fault) => Bad(fault)
    case Good(fs, rest) =>
      match DecodeFields(more, rest)
      case Bad(fault) => Bad(fault)
      case Good(gs, rest1) => Good(fs + gs, rest1)
  }

  /** Reading field by field. */
  lemma {:induction false} DecodeConcat(shapes: seq<Shape>, more: seq<Shape>, b: seq<byte>)
    ensures DecodeFields(shapes + more, b) == Then(DecodeFields(shapes, b), more)
    decreases |shapes|
  {
    hide DecodeField;
    if shapes == [] {
      assert shapes + more == more;
      assert DecodeFields(more, b).Good? ==> [] + DecodeFields(more, b).value == DecodeFields(more, b).value;
    } else if DecodeField(shapes[0], b).Good? {
      assert (shapes + more)[1..] == shapes[1..] + more;
      var (f, rest) := (DecodeField(shapes[0], b).value, DecodeField(shapes[0], b).rest);
      DecodeConcat(shapes[1..], more, rest);
      var a := DecodeFields(shapes[1..], rest);
      if a.Good? {
        var c := DecodeFields(more, a.rest);
        assert c.Good? ==> [f] + (a.value + c.value) == [f] + a.value + c.value;
      }
    }
  }

  lemma DecodeOne(shape: Shape, b: seq<byte>)
    ensures DecodeFields([shape], b) == match DecodeField(shape, b) case Bad(fault) => Bad(fault) case Good(f, rest) => Good([f], rest)
  {
    hide DecodeField;
    assert [shape][1..] == [];
    assert DecodeField(shape, b).Good? ==> [DecodeField(shape, b).value] + [] == [DecodeField(shape, b).value];
  }

  // ----- stats and tails

  function StatFields(s: Stat): (fs: seq<Field>)
    ensures |fs| == 11
  {
    FixedFields(s) + [Str(s.name), Str(s.uid), Str(s.gid), Str(s.muid)]
  }

  function FixedFields(s: Stat): (fs: seq<Field>)
    ensures |fs| == 7
  {
    [Num(2, s.type_), Num(4, s.dev), Id(s.qid), Num(4, s.mode), Num(4, s.atime), Num(4, s.mtime), Num(8, s.length)]
  }

  function StatShapes(): seq<Shape> {
    [NumOf(2), NumOf(4), IdOf, NumOf(4), NumOf(4), NumOf(4), NumOf(8), StrOf, StrOf, StrOf, StrOf]
  }

  function StatOf(fs: seq<Field>): Stat
    requires FieldsOk(fs) && Shapes(fs) == StatShapes()
  {
    Powers();
    assert forall i :: 0 <= i < |fs| ==> ShapeOf(fs[i]) == StatShapes()[i];
    assert forall i :: 0 <= i < |fs| ==> FieldOk(fs[i]);
    Stat(fs[0].n, fs[1].n, fs[2].q, fs[3].n, fs[4].n, fs[5].n, fs[6].n, fs[7].s, fs[8].s, fs[9].s, fs[10].s)
  }

  /** Bytes behind a count of two bytes. */
  function Counted(e: Serialized): Serialized {
    if e.Encoded? && |e.bytes| < 0x1_0000 then Encoded(Le(|e.bytes|, 2) + e.bytes) else Failed
  }

  function EncodeStat(s: Stat): Serialized {
    Counted(EncodeFields(StatFields(s)))
  }

  /** The count is checked against what is there, but not against the size of the stat. */
  function DecodeStat(b: seq<byte>): Parsed<Stat> {
    if |b| < 2 || |b| - 2 < UnLe(b[..2]) then Bad(Short)
    else match DecodeFields(StatShapes(), b[2..])
         case Bad(fault) => Bad(fault)
         case Good(fs, rest) => FieldsBack(StatShapes(), b[2..]); Good(StatOf(fs), rest)
  }

  lemma CountThere(n: nat, b: seq<byte>)
    requires n < 0x1_0000
    ensures var all := Le(n, 2) + b; |all| == |b| + 2 && all[..2] == Le(n, 2) && UnLe(all[..2]) == n && all[2..] == b
  {
    Powers();
    UnLeOfLe(n, 2);
    assert (Le(n, 2) + b)[..2] == Le(n, 2);
  }

  lemma StatFieldsOk(s: Stat)
    ensures FieldsOk(StatFields(s)) && Shapes(StatFields(s)) == StatShapes() && StatOf(StatFields(s)) == s
  {
    Powers();
    hide Power;
  }

  /** A stat is read back from the front of whatever holds it. */
  lemma StatThere(s: Stat, rest: seq<byte>)
    requires EncodeStat(s).Encoded?
    ensures DecodeStat(EncodeStat(s).bytes + rest) == Good(s, rest)
  {
    StatFieldsOk(s);
    hide StatFields, StatShapes, StatOf, EncodeFields, DecodeFields, Le, UnLe, FieldsOk, Shapes;
    var body := EncodeFields(StatFields(s)).bytes;
    FieldsThere(StatFields(s), rest);
    CountThere(|body|, body + rest);
    assert EncodeStat(s).bytes + rest == Le(|body|, 2) + (body + rest);
  }

  function EncodeStats(stats: seq<Stat>): Serialized {
    if stats == [] then Encoded([]) else Joined(EncodeStat(stats[0]), EncodeStats(stats[1..]))
  }

  /** What a reader of a directory gets from the bytes: stats, until nothing is left. */
  function DecodeStats(b: seq<byte>): Parsed<seq<Stat>>
    decreases |b|
  {
    if b == [] then Good([], [])
    else match DecodeStat(b)
         case Bad(fault) => Bad(fault)
         case Good(s, rest) =>
           StatShrinks(b);
           match DecodeStats(rest)
           case Bad(fault) => Bad(fault)
           case Good(more, rest1) => Good([s] + more, rest1)
  }

  lemma StatShrinks(b: seq<byte>)
    requires DecodeStat(b).Good?
    ensures |DecodeStat(b).rest| < |b|
  {
    hide StatOf, StatShapes, DecodeFields, EncodeFields;
    FieldsBack(StatShapes(), b[2..]);
  }

  /** A directory's stats, one behind the other, are read back one by one. */
  lemma {:induction false} StatsThere(stats: seq<Stat>)
    requires EncodeStats(stats).Encoded?
    ensures DecodeStats(EncodeStats(stats).bytes) == Good(stats, [])
    decreases |stats|
  {
    hide EncodeStat, DecodeStat;
    if stats != [] {
      StatThere(stats[0], EncodeStats(stats[1..]).bytes);
      StatsThere(stats[1..]);
      StatSome(stats[0]);
      assert stats == [stats[0]] + stats[1..];
    }
  }

  lemma StatSome(s: Stat)
    requires EncodeStat(s).Encoded?
    ensures |EncodeStat(s).bytes| >= 2
  {
  }

  datatype Tail = Nothing | Names(names: seq<Text>) | Ids(ids: seq<Qid>) | Data(data: seq<byte>) | Info(stat: Stat)

  datatype TailShape = NothingOf | NamesOf | IdsOf | DataOf | InfoOf

  function TailShapeOf(t: Tail): TailShape {
    match t
    case Nothing => NothingOf
    case Names(_) => NamesOf
    case Ids(_) => IdsOf
    case Data(_) => DataOf
    case Info(_) => InfoOf
  }

  function Strs(names: seq<Text>): (fs: seq<Field>)
    ensures |fs| == |names| && forall i :: 0 <= i < |fs| ==> fs[i] == Str(names[i])
  {
    seq(|names|, i requires 0 <= i < |names| => Str(names[i]))
  }

  function IdFields(ids: seq<Qid>): (fs: seq<Field>)
    ensures |fs| == |ids| && forall i :: 0 <= i < |fs| ==> fs[i] == Id(ids[i])
  {
    seq(|ids|, i requires 0 <= i < |ids| => Id(ids[i]))
  }

  function Repeat(n: nat, shape: Shape): (r: seq<Shape>)
    ensures |r| == n && forall i :: 0 <= i < n ==> r[i] == shape
  {
    seq(n, _ => shape)
  }

  /** A list behind its length. */
  function EncodeList(fs: seq<Field>): Serialized {
    if |fs| < 0x1_0000 then Joined(Encoded(Le(|fs|, 2)), EncodeFields(fs)) else Failed
  }

  function EncodeTail(t: Tail): Serialized {
    match t
    case Nothing => Encoded([])
    case Names(names) => EncodeList(Strs(names))
    case Ids(ids) => EncodeList(IdFields(ids))
    case Data(data) => if |data| < 0x1_0000_0000 then Encoded(Le(|data|, 4) + data) else Failed
    case Info(stat) => Counted(EncodeStat(stat))
  }

  function DecodeList(shape: Shape, b: seq<byte>): Parsed<seq<Field>> {
    if |b| < 2 then Bad(Short) else DecodeFields(Repeat(UnLe(b[..2]), shape), b[2..])
  }

  function NamesFrom(fs: seq<Field>): (names: seq<Text>)
    requires forall i :: 0 <= i < |fs| ==> fs[i].Str?
    ensures Strs(names) == fs
  {
    seq(|fs|, i requires 0 <= i < |fs| => fs[i].s)
  }

  function IdsFrom(fs: seq<Field>): (ids: seq<Qid>)
    requires forall i :: 0 <= i < |fs| ==> fs[i].Id?
    ensures IdFields(ids) == fs
  {
    seq(|fs|, i requires 0 <= i < |fs| => fs[i].q)
  }

  lemma ListBack(shape: Shape, b: seq<byte>)
    requires DecodeList(shape, b).Good?
    ensures var (fs, rest) := (DecodeList(shape, b).value, DecodeList(shape, b).rest);
            && |fs| < 0x1_0000 && (forall i :: 0 <= i < |fs| ==> ShapeOf(fs[i]) == shape)
            && EncodeList(fs).Encoded? && b == EncodeList(fs).bytes + rest
  {
    hide DecodeFields, EncodeFields, Le, UnLe;
    Powers();
    LeOfUnLe(b[..2]);
    FieldsBack(Repeat(UnLe(b[..2]), shape), b[2..]);
    var fs := DecodeList(shape, b).value;
    assert forall i :: 0 <= i < |fs| ==> Shapes(fs)[i] == shape;
    assert |Shapes(fs)| == UnLe(b[..2]);
    assert b == b[..2] + b[2..];
  }

  lemma ListThere(shape: Shape, fs: seq<Field>, rest: seq<byte>)
    requires FieldsOk(fs) && (forall i :: 0 <= i < |fs| ==> ShapeOf(fs[i]) == shape) && EncodeList(fs).Encoded?
    ensures DecodeList(shape, EncodeList(fs).bytes + rest) == Good(fs, rest)
  {
    hide DecodeFields, EncodeFields, Le, UnLe;
    var body := EncodeFields(fs).bytes;
    FieldsThere(fs, rest);
    CountThere(|fs|, body + rest);
    assert EncodeList(fs).bytes + rest == Le(|fs|, 2) + (body + rest);
    assert Shapes(fs) == Repeat(|fs|, shape);
  }

  function DecodeTail(shape: TailShape, b: seq<byte>): Parsed<Tail> {
    match shape
    case NothingOf => Good(Nothing, b)
    case NamesOf =>
      (match DecodeList(StrOf, b)
       case Bad(fault) => Bad(fault)
       case Good(fs, rest) => ListBack(StrOf, b); Good(Names(NamesFrom(fs)), rest))
    case IdsOf =>
      (match DecodeList(IdOf, b)
       case Bad(fault) => Bad(fault)
       case Good(fs, rest) => ListBack(IdOf, b); Good(Ids(IdsFrom(fs)), rest))
    case DataOf =>
      if |b| < 4 || |b| - 4 < UnLe(b[..4]) then Bad(Short)
      else Good(Data(b[4..4 + UnLe(b[..4])]), b[4 + UnLe(b[..4])..])
    case InfoOf =>
      if |b| < 2 || |b| - 2 < UnLe(b[..2]) then Bad(Short)
      else match DecodeStat(b[2..])
           case Bad(fault) => Bad(fault)
           case Good(s, rest) => Good(Info(s), rest)
  }

  lemma TailThere(t: Tail, rest: seq<byte>)
    requires EncodeTail(t).Encoded?
    ensures DecodeTail(TailShapeOf(t), EncodeTail(t).bytes + rest) == Good(t, rest)
  {
    hide EncodeStat, DecodeStat, EncodeList, DecodeList, Le, UnLe;
    match t
    case Nothing =>
      assert [] + rest == rest;
    case Names(names) =>
      ListThere(StrOf, Strs(names), rest);
      StrsInjective(names, NamesFrom(Strs(names)));
    case Ids(ids) =>
      ListThere(IdOf, IdFields(ids), rest);
      IdsInjective(ids, IdsFrom(IdFields(ids)));
    case Data(data) =>
      Powers();
      UnLeOfLe(|data|, 4);
      var b := EncodeTail(t).bytes + rest;
      assert b[..4] == Le(|data|, 4) && b[4..4 + |data|] == data && b[4 + |data|..] == rest;
    case Info(stat) =>
      var e := EncodeStat(stat).bytes;
      StatThere(stat, rest);
      CountThere(|e|, e + rest);
      assert EncodeTail(t).bytes + rest == Le(|e|, 2) + (e + rest);
  }

  lemma StrsInjective(a: seq<Text>, b: seq<Text>)
    requires Strs(a) == Strs(b)
    ensures a == b
  {
    forall i | 0 <= i < |a|
      ensures a[i] == b[i]
    {
      assert Strs(a)[i] == Strs(b)[i];
    }
  }

  lemma IdsInjective(a: seq<Qid>, b: seq<Qid>)
    requires IdFields(a) == IdFields(b)
    ensures a == b
  {
    forall i | 0 <= i < |a|
      ensures a[i] == b[i]
    {
      assert IdFields(a)[i] == IdFields(b)[i];
    }
  }

  /** The two sizes in front of a stat are what they should be, with so many bytes left over behind it. */
  predicate Measured(shape: TailShape, b: seq<byte>, left: nat) {
    shape == InfoOf ==> |b| >= 4 && UnLe(b[..2]) == |b| - left - 2 && UnLe(b[2..4]) == |b| - left - 4
  }

  /** Every tail but a stat is read from exactly the bytes that writing it gives; a stat only if its two sizes, which the
      reader does not compare with it, are right. */
  lemma TailBack(shape: TailShape, b: seq<byte>)
    requires DecodeTail(shape, b).Good?
    ensures var (t, rest) := (DecodeTail(shape, b).value, DecodeTail(shape, b).rest);
            && TailShapeOf(t) == shape
            && (EncodeTail(t).Encoded? && b == EncodeTail(t).bytes + rest <==> Measured(shape, b, |rest|))
  {
    hide EncodeStat, DecodeStat, EncodeList, DecodeList, Le, UnLe;
    match shape
    case NothingOf => assert [] + b == b;
    case NamesOf => ListBack(StrOf, b);
    case IdsOf => ListBack(IdOf, b);
    case DataOf =>
      Powers();
      LeOfUnLe(b[..4]);
      var n := UnLe(b[..4]);
      assert b == b[..4] + b[4..4 + n] + b[4 + n..];
    case InfoOf => InfoBack(b);
  }

  /** What is read as a stat is, up to the sizes, what writing it gives. */
  lemma StatBack(b: seq<byte>)
    requires DecodeStat(b).Good?
    ensures var (s, rest) := (DecodeStat(b).value, DecodeStat(b).rest);
            && EncodeFields(StatFields(s)).Encoded? && |b| >= 2
            && b == b[..2] + (EncodeFields(StatFields(s)).bytes + rest)
  {
    hide EncodeFields, DecodeFields, StatFields, StatShapes, UnLe, FieldsOk, Shapes, FieldOk, ShapeOf;
    FieldsBack(StatShapes(), b[2..]);
    FieldsOfStat(DecodeFields(StatShapes(), b[2..]).value);
    assert b == b[..2] + b[2..];
  }

  lemma FieldsOfStat(fs: seq<Field>)
    requires FieldsOk(fs) && Shapes(fs) == StatShapes()
    ensures StatFields(StatOf(fs)) == fs
  {
    hide Power, Utf8;
    Powers();
    assert |fs| == |StatShapes()|;
    assert forall i :: 0 <= i < |fs| ==> ShapeOf(fs[i]) == StatShapes()[i];
  }

  lemma TwoBytes(b: seq<byte>, n: nat)
    requires |b| == 2
    ensures UnLe(b) < 0x1_0000 && (n < 0x1_0000 ==> (b == Le(n, 2) <==> UnLe(b) == n))
  {
    Powers();
    LeOfUnLe(b);
    if n < 0x1_0000 {
      UnLeOfLe(n, 2);
    }
  }

  lemma SameFront(a: seq<byte>, b: seq<byte>, c: seq<byte>, d: seq<byte>, rest: seq<byte>)
    requires |a| == |c| == 2 && |b| == |d| == 2
    ensures a + (b + rest) == c + (d + rest) <==> a == c && b == d
  {
    var x, y := a + (b + rest), c + (d + rest);
    assert x[..2] == a && x[2..4] == b && y[..2] == c && y[2..4] == d;
  }

  lemma FrontOf(b: seq<byte>, rest: seq<byte>)
    requires |b| >= 4 && b[2..] == b[2..][..2] + rest
    ensures b == b[..2] + (b[2..4] + rest) && |b| == |rest| + 4
  {
    assert b == b[..2] + b[2..];
    assert b[2..][..2] == b[2..4];
  }

  /** What stands behind two counts is what counting twice gives exactly if the counts are right. */
  lemma CountedTwice(x: seq<byte>, y: seq<byte>, e: seq<byte>, rest: seq<byte>)
    requires |x| == |y| == 2
    ensures var t := Counted(Counted(Encoded(e)));
            t.Encoded? && x + (y + (e + rest)) == t.bytes + rest <==> UnLe(x) == |e| + 2 && UnLe(y) == |e|
  {
    hide Le, UnLe;
    TwoBytes(x, |e| + 2);
    TwoBytes(y, |e|);
    if |e| + 2 < 0x1_0000 {
      var (outer, inner) := (Le(|e| + 2, 2), Le(|e|, 2));
      SameFront(x, y, outer, inner, e + rest);
      assert outer + (inner + e) + rest == outer + (inner + (e + rest));
    }
  }

  lemma InfoBack(b: seq<byte>)
    requires DecodeTail(InfoOf, b).Good?
    ensures var (t, rest) := (DecodeTail(InfoOf, b).value, DecodeTail(InfoOf, b).rest);
            t.Info? && (EncodeTail(t).Encoded? && b == EncodeTail(t).bytes + rest <==> Measured(InfoOf, b, |rest|))
  {
    hide EncodeFields, DecodeStat, Le, UnLe, StatFields, Counted;
    StatBack(b[2..]);
    var (s, rest) := (DecodeStat(b[2..]).value, DecodeStat(b[2..]).rest);
    var e := EncodeFields(StatFields(s)).bytes;
    FrontOf(b, e + rest);
    CountedTwice(b[..2], b[2..4], e, rest);
  }

  /** A stat with any two sizes in front of it. */
  function Sized(s: Stat, outer: u16, inner: u16): seq<byte>
    requires EncodeFields(StatFields(s)).Encoded?
  {
    Le(outer, 2) + (Le(inner, 2) + EncodeFields(StatFields(s)).bytes)
  }

  /** The sizes are accepted as long as that much is there, and give the same stat; only one pair is what writing gives. */
  lemma AnySizes(s: Stat, outer: u16, inner: u16)
    requires EncodeFields(StatFields(s)).Encoded?
    ensures var (b, n) := (Sized(s, outer, inner), |EncodeFields(StatFields(s)).bytes|);
            && DecodeTail(InfoOf, b) == (if outer <= n + 2 && inner <= n then Good(Info(s), []) else Bad(Short))
            && (EncodeTail(Info(s)) == Encoded(b) <==> outer == n + 2 && inner == n)
  {
    StatFieldsOk(s);
    hide StatFields, StatShapes, StatOf, EncodeFields, DecodeFields, Le, UnLe, FieldsOk, Shapes, Counted;
    var e := EncodeFields(StatFields(s)).bytes;
    FieldsThere(StatFields(s), []);
    assert e + [] == e;
    CountThere(outer, Le(inner, 2) + e);
    CountThere(inner, e);
    CountedTwice(Le(outer, 2), Le(inner, 2), e, []);
    var t := Counted(Counted(Encoded(e)));
    assert t.Encoded? ==> t.bytes + [] == t.bytes;
    CountThere(outer, []);
    CountThere(inner, []);
  }

  lemma SameBack(front: seq<byte>, a: seq<byte>, b: seq<byte>)
    ensures front + a == front + b <==> a == b
  {
    assert (front + a)[|front|..] == a && (front + b)[|front|..] == b;
  }

  // ----- messages

  /** What follows a message's type and tag. */
  datatype Body = Body(fields: seq<Field>, tail: Tail)

  /** How a type of message is laid out.  exact: bytes left over are an error. */
  datatype Layout = Layout(shapes: seq<Shape>, tail: TailShape, exact: bool) | NoLayout

  datatype MaybeTag = NoTag | Tag(tag: u16)

  datatype DecodeError =
    | TooShort(of: MaybeTag) | TooLong(tag: u16) | UnknownType(type_: u8, tag: u16) | UnsupportedType(type_: u8, tag: u16) | InvalidUtf8(tag: u16)

  datatype Outcome<T> = Ok(tag: u16, value: T) | Err(error: DecodeError)

  /** All type numbers of the protocol, Terror excepted, and the two of its extension. */
  predicate KnownType(ty: u8) {
    ty == 30 || ty == 31 || (100 <= ty <= 127 && ty != 106)
  }

  predicate Matches(body: Body, layout: Layout) {
    layout.Layout? && FieldsOk(body.fields) && Shapes(body.fields) == layout.shapes && TailShapeOf(body.tail) == layout.tail
  }

  function EncodeBody(body: Body): Serialized {
    Joined(EncodeFields(body.fields), EncodeTail(body.tail))
  }

  function Head(ty: u8, tag: u16): seq<byte> {
    Le(ty, 1) + Le(tag, 2)
  }

  function EncodeMessage(ty: u8, tag: u16, body: Body): Serialized {
    Joined(Encoded(Head(ty, tag)), EncodeBody(body))
  }

  function Error(fault: Fault, tag: u16): DecodeError {
    if fault == Short then TooShort(Tag(tag)) else InvalidUtf8(tag)
  }

  function DecodeBody(layout: Layout, b: seq<byte>, tag: u16): Outcome<Body>
    requires layout.Layout?
  {
    match DecodeFields(layout.shapes, b)
    case Bad(fault) => Err(Error(fault, tag))
    case Good(fields, rest) =>
      match DecodeTail(layout.tail, rest)
      case Bad(fault) => Err(Error(fault, tag))
      case Good(tail, rest1) => if layout.exact && rest1 != [] then Err(TooLong(tag)) else Ok(tag, Body(fields, tail))
  }

  lemma TailOk(shape: TailShape, b: seq<byte>)
    requires DecodeTail(shape, b).Good?
    ensures TailShapeOf(DecodeTail(shape, b).value) == shape
  {
    hide DecodeList, DecodeStat, UnLe;
  }

  lemma BodyOk(layout: Layout, b: seq<byte>, tag: u16)
    requires layout.Layout? && DecodeBody(layout, b, tag).Ok?
    ensures Matches(DecodeBody(layout, b, tag).value, layout) && DecodeBody(layout, b, tag).tag == tag
  {
    FieldsBack(layout.shapes, b);
    TailOk(layout.tail, DecodeFields(layout.shapes, b).rest);
  }

  lemma BodyThere(layout: Layout, body: Body, tag: u16)
    requires Matches(body, layout) && EncodeBody(body).Encoded?
    ensures DecodeBody(layout, EncodeBody(body).bytes, tag) == Ok(tag, body)
  {
    hide EncodeFields, EncodeTail, DecodeFields, DecodeTail, FieldsOk, Shapes;
    FieldsThere(body.fields, EncodeTail(body.tail).bytes);
    TailThere(body.tail, []);
    assert EncodeTail(body.tail).bytes + [] == EncodeTail(body.tail).bytes;
  }

  /** Where the layout is not exact, it does not matter what comes behind. */
  lemma BodyThereAndMore(layout: Layout, body: Body, tag: u16, more: seq<byte>)
    requires Matches(body, layout) && EncodeBody(body).Encoded? && !layout.exact
    ensures DecodeBody(layout, EncodeBody(body).bytes + more, tag) == Ok(tag, body)
  {
    hide EncodeFields, EncodeTail, DecodeFields, DecodeTail, FieldsOk, Shapes;
    FieldsThere(body.fields, EncodeTail(body.tail).bytes + more);
    TailThere(body.tail, more);
    assert EncodeBody(body).bytes + more == EncodeFields(body.fields).bytes + (EncodeTail(body.tail).bytes + more);
  }

  /** Up to the sizes of a stat, a body is accepted only if it is what writing it gives, and, where the layout is not
      exact, something behind it. */
  lemma BodyBack(layout: Layout, b: seq<byte>, tag: u16)
    requires layout.Layout? && DecodeBody(layout, b, tag).Ok?
    ensures var body := DecodeBody(layout, b, tag).value;
            && (layout.exact ==> (EncodeBody(body) == Encoded(b) <==> Measured(layout.tail, DecodeFields(layout.shapes, b).rest, 0)))
            && (layout.tail != InfoOf ==> EncodeBody(body).Encoded? && EncodeBody(body).bytes <= b)
  {
    hide EncodeFields, EncodeTail, DecodeFields, DecodeTail, FieldsOk, Shapes, UnLe;
    FieldsBack(layout.shapes, b);
    var rest := DecodeFields(layout.shapes, b).rest;
    TailBack(layout.tail, rest);
    var body := DecodeBody(layout, b, tag).value;
    var head := EncodeFields(body.fields).bytes;
    var rest1 := DecodeTail(layout.tail, rest).rest;
    if EncodeTail(body.tail).Encoded? {
      var tail := EncodeTail(body.tail).bytes;
      assert head + (tail + rest1) == head + tail + rest1;
      assert rest1 == [] ==> tail + rest1 == tail;
      assert (head + tail)[|head|..] == tail && (head + rest)[|head|..] == rest;
    }
  }

  lemma FourBehind(b: seq<byte>)
    requires DecodeFields([NumOf(4)], b).Good?
    ensures |b| >= 4 && DecodeFields([NumOf(4)], b).rest == b[4..]
  {
    hide UnLe, DecodeQid, Utf8;
    Powers();
    assert [NumOf(4)][1..] == [];
  }

  lemma SizesThere(b: seq<byte>)
    requires DecodeTail(InfoOf, b).Good?
    ensures |b| >= 4
  {
    hide UnLe, DecodeFields;
  }

  /** One number of four bytes comes before the stat whose sizes are looked at. */
  lemma MeasuredBehind(b: seq<byte>)
    requires DecodeFields([NumOf(4)], b).Good? && DecodeTail(InfoOf, DecodeFields([NumOf(4)], b).rest).Good?
    ensures |b| >= 8
    ensures Measured(InfoOf, DecodeFields([NumOf(4)], b).rest, 0) <==> UnLe(b[4..6]) == |b| - 6 && UnLe(b[6..8]) == |b| - 8
  {
    hide UnLe, DecodeFields, DecodeTail;
    FourBehind(b);
    var rest := DecodeFields([NumOf(4)], b).rest;
    SizesThere(rest);
    assert rest[..2] == b[4..6] && rest[2..4] == b[6..8];
  }

  /** The type and the tag of a message, and what follows. */
  datatype Framed = Frame(ty: u8, tag: u16, rest: seq<byte>) | BadFrame(error: DecodeError)

  function DecodeHead(b: seq<byte>): Framed {
    LeOfUnLe(b[..if |b| < 1 then 0 else 1]);
    LeOfUnLe(if |b| < 3 then [] else b[1..3]);
    Powers();
    if |b| < 3 then BadFrame(TooShort(NoTag))
    else if !KnownType(UnLe(b[..1])) then BadFrame(UnknownType(UnLe(b[..1]), UnLe(b[1..3])))
    else Frame(UnLe(b[..1]), UnLe(b[1..3]), b[3..])
  }

  lemma HeadThere(ty: u8, tag: u16, rest: seq<byte>)
    requires KnownType(ty)
    ensures DecodeHead(Head(ty, tag) + rest) == Frame(ty, tag, rest)
  {
    Powers();
    UnLeOfLe(ty, 1);
    UnLeOfLe(tag, 2);
    var b := Head(ty, tag) + rest;
    assert b[..1] == Le(ty, 1) && b[1..3] == Le(tag, 2) && b[3..] == rest;
  }

  lemma HeadBack(b: seq<byte>)
    requires DecodeHead(b).Frame?
    ensures b == Head(DecodeHead(b).ty, DecodeHead(b).tag) + DecodeHead(b).rest
    ensures |b| >= 3 && DecodeHead(b).rest == b[3..]
  {
    LeOfUnLe(b[..1]);
    LeOfUnLe(b[1..3]);
    assert b == b[..1] + b[1..3] + b[3..];
  }
}

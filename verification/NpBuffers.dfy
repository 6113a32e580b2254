/** The buffers that messages are written into and taken from (npwire, ser.rs and de.rs). */
module NpBuffers {
  import opened Packets
  import opened NpWire

  lemma {:induction false} FieldFails(fs: seq<Field>, i: nat)
    requires i < |fs| && EncodeField(fs[i]).Failed?
    ensures EncodeFields(fs).Failed?
    decreases i
  {
    hide EncodeField;
    if i > 0 {
      FieldFails(fs[1..], i - 1);
    }
  }

  /** A buffer that grows. */
  class BytesMut {
    var data: seq<byte>

    ghost var start: seq<byte>    // what was there before
    ghost var fields: seq<Field>  // what has been written since

    ghost predicate Valid()
      reads this
    {
      EncodeFields(fields).Encoded? && data == start + EncodeFields(fields).bytes
    }

    constructor (ty: u8, tag: u16)
      ensures Valid() && data == start == Head(ty, tag) && fields == []
    {
      data := Le(ty, 1) + Le(tag, 2);
      start, fields := Le(ty, 1) + Le(tag, 2), [];
    }

    /** From here on, fields are counted afresh. */
    ghost method Mark()
      modifies this`start, this`fields
      ensures Valid() && start == data && fields == []
    {
      start, fields := data, [];
    }

    ghost method Wrote(f: Field, before: seq<byte>)
      requires EncodeFields(fields).Encoded? && before == start + EncodeFields(fields).bytes
      requires EncodeField(f).Encoded? && data == before + EncodeField(f).bytes
      modifies this`fields
      ensures Valid() && fields == old(fields) + [f]
    {
      hide EncodeField, EncodeFields;
      EncodeConcat(fields, [f]);
      EncodeOne(f);
      assert start + EncodeFields(fields).bytes + EncodeField(f).bytes == start + (EncodeFields(fields).bytes + EncodeField(f).bytes);
      fields := fields + [f];
    }

    method PutNum(width: nat, n: nat)
      requires Valid()
      modifies this
      ensures Valid() && fields == old(fields) + [Num(width, n)] && start == old(start) && data == old(data) + Le(n, width)
    {
      hide EncodeFields, Le;
      data := data + Le(n, width);
      Wrote(Num(width, n), old(data));
    }

    method PutQid(q: Qid)
      requires Valid()
      modifies this
      ensures Valid() && fields == old(fields) + [Id(q)] && start == old(start)
    {
      hide EncodeFields, Le;
      data := data + EncodeQid(q);
      Wrote(Id(q), old(data));
    }

    method PutString(s: Text) returns (ok: bool)
      requires Valid()
      modifies this
      ensures ok <==> EncodeField(Str(s)).Encoded?
      ensures ok ==> Valid() && fields == old(fields) + [Str(s)] && start == old(start)
    {
      hide EncodeFields, Le, Utf8;
      if |s| >= 0x1_0000 {
        return false;
      }
      data := data + Le(|s|, 2);
      data := data + s;
      assert old(data) + (Le(|s|, 2) + s) == data;
      Wrote(Str(s), old(data));
      ok := true;
    }

    /** Bytes that are no field. */
    method PutSlice(bytes: seq<byte>)
      modifies this
      ensures Valid() && data == start == old(data) + bytes && fields == []
    {
      data := data + bytes;
      Mark();
    }

    /** Puts the right count where room was left for it. */
    method Patch(pos: nat, n: nat, ghost before: seq<byte>, ghost body: seq<byte>)
      requires pos == |before| && data == before + Le(0, 2) + body
      modifies this
      ensures Valid() && data == start == before + Le(n, 2) + body && fields == []
    {
      hide Le;
      assert data[..pos] == before && data[pos + 2..] == body;
      data := data[..pos] + Le(n, 2) + data[pos + 2..];
      Mark();
    }

    /** The fields of a stat. */
    method PutStatFields(stat: Stat) returns (ok: bool)
      requires Valid() && fields == []
      modifies this
      ensures ok <==> EncodeFields(StatFields(stat)).Encoded?
      ensures ok ==> Valid() && fields == StatFields(stat) && start == old(start)
    {
      hide EncodeFields, EncodeField, Le, Utf8;
      PutNum(2, stat.type_);
      PutNum(4, stat.dev);
      PutQid(stat.qid);
      PutNum(4, stat.mode);
      PutNum(4, stat.atime);
      PutNum(4, stat.mtime);
      PutNum(8, stat.length);
      ok := PutString(stat.name);
      if !ok {
        FieldFails(StatFields(stat), 7);
        return;
      }
      ok := PutString(stat.uid);
      if !ok {
        FieldFails(StatFields(stat), 8);
        return;
      }
      ok := PutString(stat.gid);
      if !ok {
        FieldFails(StatFields(stat), 9);
        return;
      }
      ok := PutString(stat.muid);
      if !ok {
        FieldFails(StatFields(stat), 10);
        return;
      }
      assert fields == StatFields(stat);
    }

    /** put_stat: the stat behind its size, which is filled in afterwards. */
    method PutStat(stat: Stat) returns (ok: bool)
      requires Valid()
      modifies this
      ensures ok <==> EncodeStat(stat).Encoded?
      ensures ok ==> Valid() && fields == [] && data == start == old(data) + EncodeStat(stat).bytes
    {
      hide EncodeFields, StatFields, Le;
      var lenpos := |data|;
      ghost var before := data;
      PutNum(2, 0);
      var lenstart := |data|;
      Mark();
      ok := PutStatFields(stat);
      if !ok {
        return;
      }
      ghost var body := EncodeFields(StatFields(stat)).bytes;
      var len := |data| - lenstart;
      if len >= 0x1_0000 {
        return false;
      }
      Patch(lenpos, len, before, body);
      assert before + Le(len, 2) + body == before + (Le(len, 2) + body);
    }
  }

  /** What taking something off the front of a buffer yields. */
  datatype Got<T> = Value(value: T) | Fault(fault: Fault)

  /** A received buffer, which shrinks from the front. */
  class Bytes {
    var data: seq<byte>

    ghost var start: seq<byte>    // what there was when reading began
    ghost var plan: seq<Shape>    // what is to be read
    ghost var fields: seq<Field>  // what has been read

    ghost predicate Valid()
      reads this
    {
      |fields| <= |plan| && DecodeFields(plan[..|fields|], start) == Good(fields, data)
    }

    constructor (data: seq<byte>)
      ensures this.data == data
    {
      this.data := data;
      start, plan, fields := data, [], [];
    }

    ghost method Begin(plan: seq<Shape>)
      modifies this`start, this`plan, this`fields
      ensures Valid() && this.plan == plan && start == data && fields == []
    {
      this.plan := plan;
      start, fields := data, [];
    }

    /** The next field has been read, or not. */
    ghost method Took(shape: Shape, before: seq<byte>)
      requires |fields| < |plan| && plan[|fields|] == shape && DecodeFields(plan[..|fields|], start) == Good(fields, before)
      requires DecodeField(shape, before).Good? ==> data == DecodeField(shape, before).rest
      modifies this`fields
      ensures DecodeField(shape, before).Good? ==> Valid() && fields == old(fields) + [DecodeField(shape, before).value]
      ensures DecodeField(shape, before).Bad? ==> DecodeFields(plan, start) == Bad(DecodeField(shape, before).fault)
    {
      hide DecodeField, DecodeFields;
      var k := |fields|;
      DecodeConcat(plan[..k], [shape], start);
      DecodeOne(shape, before);
      assert plan[..k] + [shape] == plan[..k + 1];
      match DecodeField(shape, before)
      case Good(f, _) => fields := fields + [f];
      case Bad(_) =>
        DecodeConcat(plan[..k + 1], plan[k + 1..], start);
        assert plan[..k + 1] + plan[k + 1..] == plan;
    }

    /** Everything planned has been read. */
    lemma Whole()
      requires Valid() && |fields| == |plan|
      ensures DecodeFields(plan, start) == Good(fields, data) && FieldsOk(fields) && Shapes(fields) == plan
    {
      hide DecodeFields;
      assert plan[..|fields|] == plan;
      FieldsBack(plan, start);
    }

    method GetNum(width: nat) returns (r: Got<nat>)
      requires Valid() && |fields| < |plan| && plan[|fields|] == NumOf(width)
      modifies this`data, this`fields
      ensures r.Value? ==> Valid() && fields == old(fields) + [Num(width, r.value)] && r.value < Power(width)
      ensures r.Fault? ==> DecodeFields(plan, start) == Bad(r.fault)
    {
      hide DecodeFields, UnLe;
      ghost var before := data;
      if |data| < width {
        Took(NumOf(width), before);
        return Fault(Short);
      }
      var n := UnLe(data[..width]);
      LeOfUnLe(data[..width]);
      data := data[width..];
      Took(NumOf(width), before);
      r := Value(n);
    }

    method GetQid() returns (r: Got<Qid>)
      requires Valid() && |fields| < |plan| && plan[|fields|] == IdOf
      modifies this`data, this`fields
      ensures r.Value? ==> Valid() && fields == old(fields) + [Id(r.value)]
      ensures r.Fault? ==> DecodeFields(plan, start) == Bad(r.fault)
    {
      hide DecodeFields, UnLe, DecodeQid;
      ghost var before := data;
      if |data| < 13 {
        Took(IdOf, before);
        return Fault(Short);
      }
      var q := DecodeQid(data[..13]);
      data := data[13..];
      Took(IdOf, before);
      r := Value(q);
    }

    /** yank_string. */
    method GetString() returns (r: Got<Text>)
      requires Valid() && |fields| < |plan| && plan[|fields|] == StrOf
      modifies this`data, this`fields
      ensures r.Value? ==> Valid() && fields == old(fields) + [Str(r.value)]
      ensures r.Fault? ==> DecodeFields(plan, start) == Bad(r.fault)
    {
      hide DecodeFields, UnLe, Utf8;
      ghost var before := data;
      if |data| < 2 {
        Took(StrOf, before);
        return Fault(Short);
      }
      var len := UnLe(data[..2]);
      data := data[2..];
      if |data| < len {
        Took(StrOf, before);
        return Fault(Short);
      }
      var s := data[..len];
      data := data[len..];
      assert s == before[2..2 + len] && data == before[2 + len..];
      if !Utf8(s) {
        Took(StrOf, before);
        return Fault(BadText);
      }
      Took(StrOf, before);
      var text: Text := s;
      r := Value(text);
    }
  
    /** A number that is not among the planned fields. */
    method TakeNum(width: nat) returns (r: Got<nat>)
      modifies this`data
      ensures |old(data)| < width ==> r == Fault(Short)
      ensures |old(data)| >= width ==> r == Value(UnLe(old(data)[..width])) && data == old(data)[width..]
    {
      if |data| < width {
        return Fault(Short);
      }
      r := Value(UnLe(data[..width]));
      data := data[width..];
    }

    /** yank_stat. */
    method YankStat() returns (r: Got<Stat>)
      modifies this
      ensures match DecodeStat(old(data))
              case Good(stat, rest) => r == Value(stat) && data == rest
              case Bad(fault) => r == Fault(fault)
    {
      hide DecodeFields, UnLe, StatShapes, StatOf, DecodeStat;
      var len := TakeNum(2);
      if len.Fault? || |data| < len.value {
        ShortStat(old(data));
        return Fault(Short);
      }
      Begin(StatShapes());
      StatFrom(old(data));
      r := YankFields();
    }

    /** The two times of a stat, and the length of its file. */
    method YankTimes() returns (r: Got<(u32, u32, u64)>)
      requires Valid() && plan == StatShapes() && |fields| == 4
      modifies this`data, this`fields
      ensures r.Value? ==> Valid() && fields == old(fields) + [Num(4, r.value.0), Num(4, r.value.1), Num(8, r.value.2)]
      ensures r.Fault? ==> DecodeFields(plan, start) == Bad(r.fault)
    {
      hide DecodeFields, Power, Utf8, FieldsOk, Shapes, Valid;
      Powers();
      var atime := GetNum(4);
      if atime.Fault? { return Fault(atime.fault); }
      var mtime := GetNum(4);
      if mtime.Fault? { return Fault(mtime.fault); }
      var length := GetNum(8);
      if length.Fault? { return Fault(length.fault); }
      r := Value((atime.value, mtime.value, length.value));
    }

    /** The fields of a stat that have a fixed size. */
    method YankFixed() returns (r: Got<Stat>)
      requires Valid() && plan == StatShapes() && fields == []
      modifies this`data, this`fields
      ensures r.Value? ==> Valid() && fields == FixedFields(r.value) && r.value.name == r.value.uid == r.value.gid == r.value.muid == []
      ensures r.Fault? ==> DecodeFields(plan, start) == Bad(r.fault)
    {
      hide DecodeFields, Power, Utf8, FieldsOk, Shapes, Valid;
      Powers();
      var type_ := GetNum(2);
      if type_.Fault? { return Fault(type_.fault); }
      var dev := GetNum(4);
      if dev.Fault? { return Fault(dev.fault); }
      var qid := GetQid();
      if qid.Fault? { return Fault(qid.fault); }
      var mode := GetNum(4);
      if mode.Fault? { return Fault(mode.fault); }
      var times := YankTimes();
      if times.Fault? { return Fault(times.fault); }
      assert Utf8([]) by { NoText(); }
      var (atime, mtime, length) := times.value;
      r := Value(Stat(type_.value, dev.value, qid.value, mode.value, atime, mtime, length, [], [], [], []));
    }

    method YankFields() returns (r: Got<Stat>)
      requires Valid() && plan == StatShapes() && fields == []
      modifies this`data, this`fields
      ensures match DecodeFields(StatShapes(), start)
              case Good(fs, rest) => FieldsOk(fs) && Shapes(fs) == StatShapes() && r == Value(StatOf(fs)) && data == rest
              case Bad(fault) => r == Fault(fault)
    {
      hide DecodeFields, Power, Utf8;
      var fixed := YankFixed();
      if fixed.Fault? { return Fault(fixed.fault); }
      var name := GetString();
      if name.Fault? { return Fault(name.fault); }
      var uid := GetString();
      if uid.Fault? { return Fault(uid.fault); }
      var gid := GetString();
      if gid.Fault? { return Fault(gid.fault); }
      var muid := GetString();
      if muid.Fault? { return Fault(muid.fault); }
      Whole();
      var stat := fixed.value.(name := name.value, uid := uid.value, gid := gid.value, muid := muid.value);
      assert fields == StatFields(stat);
      StatFieldsOk(stat);
      r := Value(stat);
    }
  }

  lemma NoText()
    ensures Utf8([])
  {
  }

  lemma ShortStat(b: seq<byte>)
    requires |b| < 2 || |b| - 2 < UnLe(b[..2])
    ensures DecodeStat(b) == Bad(Short)
  {
  }

  lemma StatFrom(b: seq<byte>)
    requires |b| >= 2 && |b| - 2 >= UnLe(b[..2])
    ensures match DecodeFields(StatShapes(), b[2..])
            case Bad(fault) => DecodeStat(b) == Bad(fault)
            case Good(fs, rest) => FieldsOk(fs) && Shapes(fs) == StatShapes() && DecodeStat(b) == Good(StatOf(fs), rest)
  {
    hide StatOf, StatShapes, DecodeFields;
    if DecodeFields(StatShapes(), b[2..]).Good? {
      FieldsBack(StatShapes(), b[2..]);
    }
  }
}

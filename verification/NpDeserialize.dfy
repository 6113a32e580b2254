/** Reading the messages of 9P2000 (npwire, de/t.rs and de/r.rs), message by message. */
module NpDeserialize {
  import opened Packets
  import opened NpWire
  import opened NpBuffers
  import T = NpTMessages
  import R = NpRMessages

  /** What a request of a type, whose body starts here, is read as. */
  function BodyT(ty: u8, b: seq<byte>, tag: u16): Outcome<T.TMessage>
    requires T.LayoutOf(ty).Layout?
  {
    match DecodeBody(T.LayoutOf(ty), b, tag)
    case Err(error) => Err(error)
    case Ok(tag, body) => BodyOk(T.LayoutOf(ty), b, tag); Ok(tag, T.MessageOf(ty, body))
  }

  function BodyR(ty: u8, b: seq<byte>, tag: u16): Outcome<R.RMessage>
    requires R.LayoutOf(ty).Layout?
  {
    match DecodeBody(R.LayoutOf(ty), b, tag)
    case Err(error) => Err(error)
    case Ok(tag, body) => BodyOk(R.LayoutOf(ty), b, tag); Ok(tag, R.MessageOf(ty, body))
  }

  method Tversion(buf: Bytes, tag: u16) returns (r: Outcome<T.TMessage>)
    modifies buf
    ensures r == BodyT(100, old(buf.data), tag)
  {
    hide DecodeFields, Utf8, Power;
    Powers();
    buf.Begin(T.LayoutOf(100).shapes);
    var msize := buf.GetNum(4);
    if msize.Fault? { return Err(Error(msize.fault, tag)); }
    var version := buf.GetString();
    if version.Fault? { return Err(Error(version.fault, tag)); }
    buf.Whole();
    if |buf.data| != 0 { return Err(TooLong(tag)); }
    r := Ok(tag, T.Tversion(msize.value, version.value));
  }

  method Tflush(buf: Bytes, tag: u16) returns (r: Outcome<T.TMessage>)
    modifies buf
    ensures r == BodyT(108, old(buf.data), tag)
  {
    hide DecodeFields, Utf8, Power;
    Powers();
    buf.Begin(T.LayoutOf(108).shapes);
    var oldtag := buf.GetNum(2);
    if oldtag.Fault? { return Err(Error(oldtag.fault, tag)); }
    buf.Whole();
    if |buf.data| != 0 { return Err(TooLong(tag)); }
    r := Ok(tag, T.Tflush(oldtag.value));
  }

  method Twalk(buf: Bytes, tag: u16) returns (r: Outcome<T.TMessage>)
    modifies buf
    ensures r == BodyT(110, old(buf.data), tag)
  {
    hide DecodeFields, DecodeTail, Utf8, Power;
    Powers();
    buf.Begin(T.LayoutOf(110).shapes);
    var fid := buf.GetNum(4);
    if fid.Fault? { return Err(Error(fid.fault, tag)); }
    var newfid := buf.GetNum(4);
    if newfid.Fault? { return Err(Error(newfid.fault, tag)); }
    buf.Whole();
    var wname := GetNames(buf);
    if wname.Fault? { return Err(Error(wname.fault, tag)); }
    if |buf.data| != 0 { return Err(TooLong(tag)); }
    r := Ok(tag, T.Twalk(fid.value, newfid.value, wname.value));
  }

  /** Names, behind their number. */
  method GetNames(buf: Bytes) returns (r: Got<seq<Text>>)
    modifies buf
    ensures match DecodeTail(NamesOf, old(buf.data))
            case Bad(fault) => r == Fault(fault)
            case Good(tail, rest) => tail.Names? && r == Value(tail.names) && buf.data == rest
  {
    hide DecodeFields, Utf8, UnLe;
    var nwname := buf.TakeNum(2);
    if nwname.Fault? { return Fault(nwname.fault); }
    var names: seq<Text> := [];
    buf.Begin(Repeat(nwname.value, StrOf));
    for i := 0 to nwname.value
      invariant buf.Valid() && buf.plan == Repeat(nwname.value, StrOf) && buf.fields == Strs(names) && |names| == i
      invariant buf.start == old(buf.data)[2..]
    {
      var name := buf.GetString();
      if name.Fault? { return Fault(name.fault); }
      names := names + [name.value];
    }
    buf.Whole();
    ListBack(StrOf, old(buf.data));
    StrsInjective(names, NamesFrom(Strs(names)));
    r := Value(names);
  }

  /** Tread, and Treads, which is laid out like it. */
  method Tread(buf: Bytes, tag: u16, ty: u8) returns (r: Outcome<T.TMessage>)
    requires ty == 116 || ty == 30
    modifies buf
    ensures r == BodyT(ty, old(buf.data), tag)
  {
    hide DecodeFields, Utf8, Power;
    Powers();
    buf.Begin(T.LayoutOf(ty).shapes);
    var fid := buf.GetNum(4);
    if fid.Fault? { return Err(Error(fid.fault, tag)); }
    var offset := buf.GetNum(8);
    if offset.Fault? { return Err(Error(offset.fault, tag)); }
    var count := buf.GetNum(4);
    if count.Fault? { return Err(Error(count.fault, tag)); }
    buf.Whole();
    if |buf.data| != 0 { return Err(TooLong(tag)); }
    r := Ok(tag, if ty == 116 then T.Tread(fid.value, offset.value, count.value) else T.Treads(fid.value, offset.value, count.value));
  }

  method Twrite(buf: Bytes, tag: u16) returns (r: Outcome<T.TMessage>)
    modifies buf
    ensures r == BodyT(118, old(buf.data), tag)
  {
    hide DecodeFields, Utf8, Power, UnLe;
    Powers();
    buf.Begin(T.LayoutOf(118).shapes);
    var fid := buf.GetNum(4);
    if fid.Fault? { return Err(Error(fid.fault, tag)); }
    var offset := buf.GetNum(8);
    if offset.Fault? { return Err(Error(offset.fault, tag)); }
    buf.Whole();
    ghost var d := buf.data;
    var count := buf.TakeNum(4);
    if count.Fault? { return Err(Error(count.fault, tag)); }
    assert |buf.data| == count.value ==> d[4..4 + count.value] == d[4..] && d[4 + count.value..] == [];
    if |buf.data| < count.value {
      r := Err(TooShort(Tag(tag)));
    } else if |buf.data| > count.value {
      r := Err(TooLong(tag));
    } else {
      r := Ok(tag, T.Twrite(fid.value, offset.value, buf.data));
    }
  }

  /** Tclunk, Tremove and Tstat. */
  method FidOnly(buf: Bytes, tag: u16, ty: u8) returns (r: Outcome<T.TMessage>)
    requires ty == 120 || ty == 122 || ty == 124
    modifies buf
    ensures r == BodyT(ty, old(buf.data), tag)
  {
    hide DecodeFields, Utf8, Power;
    Powers();
    buf.Begin(T.LayoutOf(ty).shapes);
    var fid := buf.GetNum(4);
    if fid.Fault? { return Err(Error(fid.fault, tag)); }
    buf.Whole();
    if |buf.data| != 0 { return Err(TooLong(tag)); }
    r := Ok(tag, if ty == 120 then T.Tclunk(fid.value) else if ty == 122 then T.Tremove(fid.value) else T.Tstat(fid.value));
  }

  method Tauth(buf: Bytes, tag: u16) returns (r: Outcome<T.TMessage>)
    modifies buf
    ensures r == BodyT(102, old(buf.data), tag)
  {
    hide DecodeFields, Utf8, Power;
    Powers();
    buf.Begin(T.LayoutOf(102).shapes);
    var afid := buf.GetNum(4);
    if afid.Fault? { return Err(Error(afid.fault, tag)); }
    var uname := buf.GetString();
    if uname.Fault? { return Err(Error(uname.fault, tag)); }
    var aname := buf.GetString();
    if aname.Fault? { return Err(Error(aname.fault, tag)); }
    buf.Whole();
    r := Ok(tag, T.Tauth(afid.value, uname.value, aname.value));
  }

  method Tattach(buf: Bytes, tag: u16) returns (r: Outcome<T.TMessage>)
    modifies buf
    ensures r == BodyT(104, old(buf.data), tag)
  {
    hide DecodeFields, Utf8, Power;
    Powers();
    buf.Begin(T.LayoutOf(104).shapes);
    var fid := buf.GetNum(4);
    if fid.Fault? { return Err(Error(fid.fault, tag)); }
    var afid := buf.GetNum(4);
    if afid.Fault? { return Err(Error(afid.fault, tag)); }
    var uname := buf.GetString();
    if uname.Fault? { return Err(Error(uname.fault, tag)); }
    var aname := buf.GetString();
    if aname.Fault? { return Err(Error(aname.fault, tag)); }
    buf.Whole();
    r := Ok(tag, T.Tattach(fid.value, afid.value, uname.value, aname.value));
  }

  method Topen(buf: Bytes, tag: u16) returns (r: Outcome<T.TMessage>)
    modifies buf
    ensures r == BodyT(112, old(buf.data), tag)
  {
    hide DecodeFields, Utf8, Power;
    Powers();
    buf.Begin(T.LayoutOf(112).shapes);
    var fid := buf.GetNum(4);
    if fid.Fault? { return Err(Error(fid.fault, tag)); }
    var mode := buf.GetNum(1);
    if mode.Fault? { return Err(Error(mode.fault, tag)); }
    buf.Whole();
    if |buf.data| != 0 { return Err(TooLong(tag)); }
    r := Ok(tag, T.Topen(fid.value, mode.value));
  }

  method Tcreate(buf: Bytes, tag: u16) returns (r: Outcome<T.TMessage>)
    modifies buf
    ensures r == BodyT(114, old(buf.data), tag)
  {
    hide DecodeFields, Utf8, Power;
    Powers();
    buf.Begin(T.LayoutOf(114).shapes);
    var fid := buf.GetNum(4);
    if fid.Fault? { return Err(Error(fid.fault, tag)); }
    var name := buf.GetString();
    if name.Fault? { return Err(Error(name.fault, tag)); }
    var perm := buf.GetNum(4);
    if perm.Fault? { return Err(Error(perm.fault, tag)); }
    var mode := buf.GetNum(1);
    if mode.Fault? { return Err(Error(mode.fault, tag)); }
    buf.Whole();
    if |buf.data| != 0 { return Err(TooLong(tag)); }
    r := Ok(tag, T.Tcreate(fid.value, name.value, perm.value, mode.value));
  }

  /** A stat, behind its second size. */
  method GetInfo(buf: Bytes) returns (r: Got<Stat>)
    modifies buf
    ensures match DecodeTail(InfoOf, old(buf.data))
            case Bad(fault) => r == Fault(fault)
            case Good(tail, rest) => tail.Info? && r == Value(tail.stat) && buf.data == rest
  {
    hide DecodeFields, DecodeStat, UnLe;
    var statLen := buf.TakeNum(2);
    if statLen.Fault? { return Fault(statLen.fault); }
    if |buf.data| < statLen.value { return Fault(Short); }
    r := buf.YankStat();
  }

  method Twstat(buf: Bytes, tag: u16) returns (r: Outcome<T.TMessage>)
    modifies buf
    ensures r == BodyT(126, old(buf.data), tag)
  {
    hide DecodeFields, DecodeTail, Utf8, Power;
    Powers();
    buf.Begin(T.LayoutOf(126).shapes);
    var fid := buf.GetNum(4);
    if fid.Fault? { return Err(Error(fid.fault, tag)); }
    buf.Whole();
    var stat := GetInfo(buf);
    if stat.Fault? { return Err(Error(stat.fault, tag)); }
    if |buf.data| != 0 { return Err(TooLong(tag)); }
    r := Ok(tag, T.Twstat(fid.value, stat.value));
  }

  /** The type and the tag, which everything else depends on. */
  method GetHead(buf: Bytes) returns (h: Framed)
    modifies buf
    ensures h == DecodeHead(old(buf.data)) && (h.Frame? ==> h.rest == buf.data)
  {
    hide UnLe;
    Powers();
    ghost var b := buf.data;
    var ty := buf.TakeNum(1);
    if ty.Fault? { return BadFrame(TooShort(NoTag)); }
    var tag := buf.TakeNum(2);
    if tag.Fault? { return BadFrame(TooShort(NoTag)); }
    assert b[1..][..2] == b[1..3] && b[1..][2..] == b[3..];
    LeOfUnLe(b[..1]);
    LeOfUnLe(b[1..3]);
    if !KnownType(ty.value) { return BadFrame(UnknownType(ty.value, tag.value)); }
    h := Frame(ty.value, tag.value, buf.data);
  }

  /** deserialize_t. */
  method DeserializeT(bytes: seq<byte>) returns (r: Outcome<T.TMessage>)
    ensures r == T.Decode(bytes)
  {
    hide DecodeHead, DecodeBody;
    var buf := new Bytes(bytes);
    var h := GetHead(buf);
    if h.BadFrame? { return Err(h.error); }
    match h.ty
    case 30 => r := Tread(buf, h.tag, 30);
    case 100 => r := Tversion(buf, h.tag);
    case 102 => r := Tauth(buf, h.tag);
    case 104 => r := Tattach(buf, h.tag);
    case 108 => r := Tflush(buf, h.tag);
    case 110 => r := Twalk(buf, h.tag);
    case 112 => r := Topen(buf, h.tag);
    case 114 => r := Tcreate(buf, h.tag);
    case 116 => r := Tread(buf, h.tag, 116);
    case 118 => r := Twrite(buf, h.tag);
    case 120 => r := FidOnly(buf, h.tag, 120);
    case 122 => r := FidOnly(buf, h.tag, 122);
    case 124 => r := FidOnly(buf, h.tag, 124);
    case 126 => r := Twstat(buf, h.tag);
    case _ => r := Err(UnsupportedType(h.ty, h.tag));
  }

  // ----- replies

  method Rversion(buf: Bytes, tag: u16) returns (r: Outcome<R.RMessage>)
    modifies buf
    ensures r == BodyR(101, old(buf.data), tag)
  {
    hide DecodeFields, Utf8, Power;
    Powers();
    buf.Begin(R.LayoutOf(101).shapes);
    var msize := buf.GetNum(4);
    if msize.Fault? { return Err(Error(msize.fault, tag)); }
    var version := buf.GetString();
    if version.Fault? { return Err(Error(version.fault, tag)); }
    buf.Whole();
    if |buf.data| != 0 { return Err(TooLong(tag)); }
    r := Ok(tag, R.Rversion(msize.value, version.value));
  }

  /** Rauth and Rattach. */
  method QidOnly(buf: Bytes, tag: u16, ty: u8) returns (r: Outcome<R.RMessage>)
    requires ty == 103 || ty == 105
    modifies buf
    ensures r == BodyR(ty, old(buf.data), tag)
  {
    hide DecodeFields, Utf8, Power;
    buf.Begin(R.LayoutOf(ty).shapes);
    var qid := buf.GetQid();
    if qid.Fault? { return Err(Error(qid.fault, tag)); }
    buf.Whole();
    if |buf.data| != 0 { return Err(TooLong(tag)); }
    r := Ok(tag, if ty == 103 then R.Rauth(qid.value) else R.Rattach(qid.value));
  }

  method Rerror(buf: Bytes, tag: u16) returns (r: Outcome<R.RMessage>)
    modifies buf
    ensures r == BodyR(107, old(buf.data), tag)
  {
    hide DecodeFields, Utf8, Power;
    Powers();
    buf.Begin(R.LayoutOf(107).shapes);
    var ename := buf.GetString();
    if ename.Fault? { return Err(Error(ename.fault, tag)); }
    buf.Whole();
    if |buf.data| != 0 { return Err(TooLong(tag)); }
    r := Ok(tag, R.Rerror(ename.value));
  }

  /** The replies that say nothing. */
  method Empty(buf: Bytes, tag: u16, ty: u8) returns (r: Outcome<R.RMessage>)
    requires ty == 109 || ty == 121 || ty == 123 || ty == 127
    modifies buf
    ensures r == BodyR(ty, old(buf.data), tag)
  {
    hide Utf8, Power;
    if |buf.data| != 0 { return Err(TooLong(tag)); }
    r := Ok(tag, if ty == 109 then R.Rflush else if ty == 121 then R.Rclunk else if ty == 123 then R.Rremove else R.Rwstat);
  }

  method Rwalk(buf: Bytes, tag: u16) returns (r: Outcome<R.RMessage>)
    modifies buf
    ensures r == BodyR(111, old(buf.data), tag)
  {
    hide DecodeTail, Utf8, Power;
    var wqid := GetIds(buf);
    if wqid.Fault? { return Err(Error(wqid.fault, tag)); }
    if |buf.data| != 0 { return Err(TooLong(tag)); }
    r := Ok(tag, R.Rwalk(wqid.value));
  }

  /** Qids, behind their number. */
  method GetIds(buf: Bytes) returns (r: Got<seq<Qid>>)
    modifies buf
    ensures match DecodeTail(IdsOf, old(buf.data))
            case Bad(fault) => r == Fault(fault)
            case Good(tail, rest) => tail.Ids? && r == Value(tail.ids) && buf.data == rest
  {
    hide DecodeFields, UnLe;
    var nwqid := buf.TakeNum(2);
    if nwqid.Fault? { return Fault(nwqid.fault); }
    var ids := [];
    buf.Begin(Repeat(nwqid.value, IdOf));
    for i := 0 to nwqid.value
      invariant buf.Valid() && buf.plan == Repeat(nwqid.value, IdOf) && buf.fields == IdFields(ids) && |ids| == i
      invariant buf.start == old(buf.data)[2..]
    {
      var qid := buf.GetQid();
      if qid.Fault? { return Fault(qid.fault); }
      ids := ids + [qid.value];
    }
    buf.Whole();
    ListBack(IdOf, old(buf.data));
    IdsInjective(ids, IdsFrom(IdFields(ids)));
    r := Value(ids);
  }

  /** Ropen and Rcreate. */
  method Opened(buf: Bytes, tag: u16, ty: u8) returns (r: Outcome<R.RMessage>)
    requires ty == 113 || ty == 115
    modifies buf
    ensures r == BodyR(ty, old(buf.data), tag)
  {
    hide DecodeFields, Utf8, Power;
    Powers();
    buf.Begin(R.LayoutOf(ty).shapes);
    var qid := buf.GetQid();
    if qid.Fault? { return Err(Error(qid.fault, tag)); }
    var iounit := buf.GetNum(4);
    if iounit.Fault? { return Err(Error(iounit.fault, tag)); }
    buf.Whole();
    if |buf.data| != 0 { return Err(TooLong(tag)); }
    r := Ok(tag, if ty == 113 then R.Ropen(qid.value, iounit.value) else R.Rcreate(qid.value, iounit.value));
  }

  method Rread(buf: Bytes, tag: u16) returns (r: Outcome<R.RMessage>)
    modifies buf
    ensures r == BodyR(117, old(buf.data), tag)
  {
    hide Utf8, Power, UnLe;
    ghost var d := buf.data;
    var count := buf.TakeNum(4);
    if count.Fault? { return Err(Error(count.fault, tag)); }
    assert |buf.data| >= count.value ==> d[4..4 + count.value] == d[4..][..count.value] && d[4 + count.value..] == d[4..][count.value..];
    if |buf.data| < count.value { return Err(TooShort(Tag(tag))); }
    var data: seq<byte> := [];
    if count.value > 0 {
      data := buf.data[..count.value];
      buf.data := buf.data[count.value..];
    }
    if |buf.data| != 0 { return Err(TooLong(tag)); }
    r := Ok(tag, R.Rread(data));
  }

  method Rwrite(buf: Bytes, tag: u16) returns (r: Outcome<R.RMessage>)
    modifies buf
    ensures r == BodyR(119, old(buf.data), tag)
  {
    hide DecodeFields, Utf8, Power;
    Powers();
    buf.Begin(R.LayoutOf(119).shapes);
    var count := buf.GetNum(4);
    if count.Fault? { return Err(Error(count.fault, tag)); }
    buf.Whole();
    if |buf.data| != 0 { return Err(TooLong(tag)); }
    r := Ok(tag, R.Rwrite(count.value));
  }

  method Rstat(buf: Bytes, tag: u16) returns (r: Outcome<R.RMessage>)
    modifies buf
    ensures r == BodyR(125, old(buf.data), tag)
  {
    hide DecodeTail, Utf8, Power;
    var stat := GetInfo(buf);
    if stat.Fault? { return Err(Error(stat.fault, tag)); }
    if |buf.data| != 0 { return Err(TooLong(tag)); }
    r := Ok(tag, R.Rstat(stat.value));
  }

  /** deserialize_r. */
  method DeserializeR(bytes: seq<byte>) returns (r: Outcome<R.RMessage>)
    ensures r == R.Decode(bytes)
  {
    hide DecodeHead, DecodeBody;
    var buf := new Bytes(bytes);
    var h := GetHead(buf);
    if h.BadFrame? { return Err(h.error); }
    match h.ty
    case 101 => r := Rversion(buf, h.tag);
    case 103 => r := QidOnly(buf, h.tag, 103);
    case 105 => r := QidOnly(buf, h.tag, 105);
    case 107 => r := Rerror(buf, h.tag);
    case 109 => r := Empty(buf, h.tag, 109);
    case 111 => r := Rwalk(buf, h.tag);
    case 113 => r := Opened(buf, h.tag, 113);
    case 115 => r := Opened(buf, h.tag, 115);
    case 117 => r := Rread(buf, h.tag);
    case 119 => r := Rwrite(buf, h.tag);
    case 121 => r := Empty(buf, h.tag, 121);
    case 123 => r := Empty(buf, h.tag, 123);
    case 125 => r := Rstat(buf, h.tag);
    case 127 => r := Empty(buf, h.tag, 127);
    case _ => r := Err(UnsupportedType(h.ty, h.tag));
  }
}

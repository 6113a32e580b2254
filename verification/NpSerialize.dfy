/** Serializing the messages of 9P2000 (npwire, ser/t.rs and ser/r.rs), message by message. */
module NpSerialize {
  import opened Packets
  import opened NpWire
  import opened NpBuffers
  import T = NpTMessages
  import R = NpRMessages

  /** A message without a tail is done when its fields are. */
  lemma NoTail(ty: u8, tag: u16, fields: seq<Field>)
    ensures EncodeFields(fields).Encoded? ==> EncodeMessage(ty, tag, Body(fields, Nothing)) == Encoded(Head(ty, tag) + EncodeFields(fields).bytes)
    ensures EncodeFields(fields).Failed? ==> EncodeMessage(ty, tag, Body(fields, Nothing)) == Failed
  {
    hide EncodeFields;
    assert EncodeFields(fields).Encoded? ==> EncodeFields(fields).bytes + [] == EncodeFields(fields).bytes;
  }

  lemma WithTail(ty: u8, tag: u16, fields: seq<Field>, tail: Tail)
    ensures EncodeFields(fields).Encoded? && EncodeTail(tail).Encoded? ==>
              EncodeMessage(ty, tag, Body(fields, tail)) == Encoded(Head(ty, tag) + EncodeFields(fields).bytes + EncodeTail(tail).bytes)
    ensures EncodeTail(tail).Failed? ==> EncodeMessage(ty, tag, Body(fields, tail)) == Failed
  {
    hide EncodeFields, EncodeTail;
    var h, f, t := Head(ty, tag), EncodeFields(fields), EncodeTail(tail);
    assert f.Encoded? && t.Encoded? ==> h + (f.bytes + t.bytes) == h + f.bytes + t.bytes;
  }

  method Tversion(m: T.TMessage, tag: u16) returns (r: Serialized)
    requires m.Tversion?
    ensures r == T.Encode(m, tag)
  {
    hide EncodeFields, EncodeField, Utf8, Head, EncodeMessage;
    NoTail(100, tag, T.BodyOf(m).fields);
    var buf := new BytesMut(100, tag);
    buf.PutNum(4, m.msize);
    var ok := buf.PutString(m.version);
    if !ok {
      FieldFails(T.BodyOf(m).fields, 1);
      return Failed;
    }
    assert buf.fields == T.BodyOf(m).fields;
    r := Encoded(buf.data);
  }

  method Tauth(m: T.TMessage, tag: u16) returns (r: Serialized)
    requires m.Tauth?
    ensures r == T.Encode(m, tag)
  {
    hide EncodeFields, EncodeField, Utf8, Head, EncodeMessage;
    NoTail(102, tag, T.BodyOf(m).fields);
    var buf := new BytesMut(102, tag);
    buf.PutNum(4, m.afid);
    var ok := buf.PutString(m.uname);
    if !ok {
      FieldFails(T.BodyOf(m).fields, 1);
      return Failed;
    }
    ok := buf.PutString(m.aname);
    if !ok {
      FieldFails(T.BodyOf(m).fields, 2);
      return Failed;
    }
    assert buf.fields == T.BodyOf(m).fields;
    r := Encoded(buf.data);
  }

  method Tattach(m: T.TMessage, tag: u16) returns (r: Serialized)
    requires m.Tattach?
    ensures r == T.Encode(m, tag)
  {
    hide EncodeFields, EncodeField, Utf8, Head, EncodeMessage;
    NoTail(104, tag, T.BodyOf(m).fields);
    var buf := new BytesMut(104, tag);
    buf.PutNum(4, m.fid);
    buf.PutNum(4, m.afid);
    var ok := buf.PutString(m.uname);
    if !ok {
      FieldFails(T.BodyOf(m).fields, 2);
      return Failed;
    }
    ok := buf.PutString(m.aname);
    if !ok {
      FieldFails(T.BodyOf(m).fields, 3);
      return Failed;
    }
    assert buf.fields == T.BodyOf(m).fields;
    r := Encoded(buf.data);
  }

  method Tcreate(m: T.TMessage, tag: u16) returns (r: Serialized)
    requires m.Tcreate?
    ensures r == T.Encode(m, tag)
  {
    hide EncodeFields, EncodeField, Utf8, Head, EncodeMessage;
    NoTail(114, tag, T.BodyOf(m).fields);
    var buf := new BytesMut(114, tag);
    buf.PutNum(4, m.fid);
    var ok := buf.PutString(m.name);
    if !ok {
      FieldFails(T.BodyOf(m).fields, 1);
      return Failed;
    }
    buf.PutNum(4, m.perm);
    buf.PutNum(1, m.mode);
    assert buf.fields == T.BodyOf(m).fields;
    r := Encoded(buf.data);
  }

  /** The requests made of numbers only. */
  method Numbers(m: T.TMessage, tag: u16) returns (r: Serialized)
    requires m.Tflush? || m.Topen? || m.Tread? || m.Treads? || m.Tclunk? || m.Tremove? || m.Tstat?
    ensures r == T.Encode(m, tag)
  {
    hide EncodeFields, EncodeField, Utf8, Head, EncodeMessage, Le;
    NoTail(T.TypeOf(m), tag, T.BodyOf(m).fields);
    var buf := new BytesMut(T.TypeOf(m), tag);
    match m {
      case Tflush(oldtag) =>
        buf.PutNum(2, oldtag);
      case Topen(fid, mode) =>
        buf.PutNum(4, fid);
        buf.PutNum(1, mode);
      case Tread(fid, offset, count) =>
        buf.PutNum(4, fid);
        buf.PutNum(8, offset);
        buf.PutNum(4, count);
      case Treads(fid, offset, count) =>
        buf.PutNum(4, fid);
        buf.PutNum(8, offset);
        buf.PutNum(4, count);
      case Tclunk(fid) =>
        buf.PutNum(4, fid);
      case Tremove(fid) =>
        buf.PutNum(4, fid);
      case Tstat(fid) =>
        buf.PutNum(4, fid);
    }
    assert buf.fields == T.BodyOf(m).fields;
    r := Encoded(buf.data);
  }

  lemma ListBytes(fs: seq<Field>)
    requires |fs| < 0x1_0000
    ensures EncodeList(fs) == EncodeFields([Num(2, |fs|)] + fs)
  {
    hide EncodeFields, Le;
    EncodeConcat([Num(2, |fs|)], fs);
    EncodeOne(Num(2, |fs|));
  }

  /** The names of a walk, behind their number. */
  method PutNames(buf: BytesMut, names: seq<Text>) returns (ok: bool)
    requires buf.Valid() && buf.fields == [] && buf.start == buf.data
    modifies buf
    ensures ok <==> EncodeTail(Names(names)).Encoded?
    ensures ok ==> buf.data == old(buf.data) + EncodeTail(Names(names)).bytes
  {
    hide EncodeFields, EncodeField, Utf8, Le;
    if |names| >= 0x1_0000 {
      return false;
    }
    ghost var fs := [Num(2, |names|)] + Strs(names);
    ListBytes(Strs(names));
    buf.PutNum(2, |names|);
    for i := 0 to |names|
      invariant buf.Valid() && buf.start == old(buf.data) && buf.fields == fs[..i + 1]
    {
      assert fs[i + 1] == Str(names[i]);
      ok := buf.PutString(names[i]);
      if !ok {
        FieldFails(fs, i + 1);
        return;
      }
      assert fs[..i + 1] + [fs[i + 1]] == fs[..i + 2];
    }
    assert fs[..|names| + 1] == fs;
    ok := true;
  }

  method Twalk(m: T.TMessage, tag: u16) returns (r: Serialized)
    requires m.Twalk?
    ensures r == T.Encode(m, tag)
  {
    hide EncodeFields, EncodeField, EncodeTail, Utf8, Head, EncodeMessage, Le;
    WithTail(110, tag, T.BodyOf(m).fields, T.BodyOf(m).tail);
    var buf := new BytesMut(110, tag);
    buf.PutNum(4, m.fid);
    buf.PutNum(4, m.newfid);
    assert buf.fields == T.BodyOf(m).fields;
    buf.Mark();
    var ok := PutNames(buf, m.wname);
    if !ok {
      return Failed;
    }
    r := Encoded(buf.data);
  }

  /** Bytes, behind their number. */
  method PutData(buf: BytesMut, data: seq<byte>) returns (ok: bool)
    requires buf.Valid() && buf.fields == [] && buf.start == buf.data
    modifies buf
    ensures ok <==> EncodeTail(Data(data)).Encoded?
    ensures ok ==> buf.data == old(buf.data) + EncodeTail(Data(data)).bytes
  {
    hide EncodeFields, EncodeField, Le;
    if |data| >= 0x1_0000_0000 {
      return false;
    }
    buf.PutNum(4, |data|);
    buf.PutSlice(data);
    assert old(buf.data) + Le(|data|, 4) + data == old(buf.data) + (Le(|data|, 4) + data);
    ok := true;
  }

  method Twrite(m: T.TMessage, tag: u16) returns (r: Serialized)
    requires m.Twrite?
    ensures r == T.Encode(m, tag)
  {
    hide EncodeFields, EncodeField, EncodeTail, Head, EncodeMessage, Le;
    WithTail(118, tag, T.BodyOf(m).fields, T.BodyOf(m).tail);
    var buf := new BytesMut(118, tag);
    buf.PutNum(4, m.fid);
    buf.PutNum(8, m.offset);
    assert buf.fields == T.BodyOf(m).fields;
    buf.Mark();
    var ok := PutData(buf, m.data);
    if !ok {
      return Failed;
    }
    r := Encoded(buf.data);
  }

  /** A stat, behind the size of what put_stat writes, which is filled in afterwards. */
  method PutInfo(buf: BytesMut, stat: Stat) returns (ok: bool)
    requires buf.Valid()
    modifies buf
    ensures ok <==> EncodeTail(Info(stat)).Encoded?
    ensures ok ==> buf.data == old(buf.data) + EncodeTail(Info(stat)).bytes
  {
    hide EncodeFields, EncodeField, EncodeStat, Le;
    ghost var before := buf.data;
    var lenpos := |buf.data|;
    buf.PutNum(2, 0);
    var lenstart := |buf.data|;
    ok := buf.PutStat(stat);
    if !ok {
      return;
    }
    var statlen := |buf.data| - lenstart;
    if statlen >= 0x1_0000 {
      return false;
    }
    ghost var e := EncodeStat(stat).bytes;
    buf.Patch(lenpos, statlen, before, e);
    assert before + Le(statlen, 2) + e == before + (Le(statlen, 2) + e);
  }

  method Twstat(m: T.TMessage, tag: u16) returns (r: Serialized)
    requires m.Twstat?
    ensures r == T.Encode(m, tag)
  {
    hide EncodeFields, EncodeField, EncodeTail, Head, EncodeMessage, Le;
    WithTail(126, tag, T.BodyOf(m).fields, T.BodyOf(m).tail);
    var buf := new BytesMut(126, tag);
    buf.PutNum(4, m.fid);
    assert buf.fields == T.BodyOf(m).fields;
    var ok := PutInfo(buf, m.stat);
    if !ok {
      return Failed;
    }
    r := Encoded(buf.data);
  }

  /** TMessage::serialize. */
  method SerializeT(m: T.TMessage, tag: u16) returns (r: Serialized)
    ensures r == T.Encode(m, tag)
  {
    match m
    case Tversion(_, _) => r := Tversion(m, tag);
    case Tauth(_, _, _) => r := Tauth(m, tag);
    case Tattach(_, _, _, _) => r := Tattach(m, tag);
    case Twalk(_, _, _) => r := Twalk(m, tag);
    case Tcreate(_, _, _, _) => r := Tcreate(m, tag);
    case Twrite(_, _, _) => r := Twrite(m, tag);
    case Twstat(_, _) => r := Twstat(m, tag);
    case _ => r := Numbers(m, tag);
  }

  // ----- replies

  method Rversion(m: R.RMessage, tag: u16) returns (r: Serialized)
    requires m.Rversion?
    ensures r == R.Encode(m, tag)
  {
    hide EncodeFields, EncodeField, Utf8, Head, EncodeMessage;
    NoTail(101, tag, R.BodyOf(m).fields);
    var buf := new BytesMut(101, tag);
    buf.PutNum(4, m.msize);
    var ok := buf.PutString(m.version);
    if !ok {
      FieldFails(R.BodyOf(m).fields, 1);
      return Failed;
    }
    assert buf.fields == R.BodyOf(m).fields;
    r := Encoded(buf.data);
  }

  method Rerror(m: R.RMessage, tag: u16) returns (r: Serialized)
    requires m.Rerror?
    ensures r == R.Encode(m, tag)
  {
    hide EncodeFields, EncodeField, Utf8, Head, EncodeMessage;
    NoTail(107, tag, R.BodyOf(m).fields);
    var buf := new BytesMut(107, tag);
    var ok := buf.PutString(m.ename);
    if !ok {
      FieldFails(R.BodyOf(m).fields, 0);
      return Failed;
    }
    assert buf.fields == R.BodyOf(m).fields;
    r := Encoded(buf.data);
  }

  /** The replies made of a qid and numbers only, or of nothing. */
  method Plain(m: R.RMessage, tag: u16) returns (r: Serialized)
    requires m.Rauth? || m.Rattach? || m.Rflush? || m.Ropen? || m.Rcreate? || m.Rwrite? || m.Rclunk? || m.Rremove? || m.Rwstat?
    ensures r == R.Encode(m, tag)
  {
    hide EncodeFields, EncodeField, Utf8, Head, EncodeMessage, Le;
    NoTail(R.TypeOf(m), tag, R.BodyOf(m).fields);
    var buf := new BytesMut(R.TypeOf(m), tag);
    match m {
      case Rauth(aqid) =>
        buf.PutQid(aqid);
      case Rattach(qid) =>
        buf.PutQid(qid);
      case Ropen(qid, iounit) =>
        buf.PutQid(qid);
        buf.PutNum(4, iounit);
      case Rcreate(qid, iounit) =>
        buf.PutQid(qid);
        buf.PutNum(4, iounit);
      case Rwrite(count) =>
        buf.PutNum(4, count);
      case _ =>
    }
    assert buf.fields == R.BodyOf(m).fields;
    r := Encoded(buf.data);
  }

  method Rwalk(m: R.RMessage, tag: u16) returns (r: Serialized)
    requires m.Rwalk?
    ensures r == R.Encode(m, tag)
  {
    hide EncodeFields, EncodeField, Head, EncodeMessage, Le, EncodeQid;
    WithTail(111, tag, [], Ids(m.wqid));
    if |m.wqid| >= 0x1_0000 {
      return Failed;
    }
    var buf := new BytesMut(111, tag);
    ghost var fs := [Num(2, |m.wqid|)] + IdFields(m.wqid);
    ListBytes(IdFields(m.wqid));
    assert buf.data == buf.start + EncodeFields([]).bytes;
    buf.Mark();
    buf.PutNum(2, |m.wqid|);
    for i := 0 to |m.wqid|
      invariant fresh(buf) && buf.Valid() && buf.start == Head(111, tag) + EncodeFields([]).bytes && buf.fields == fs[..i + 1]
    {
      assert fs[i + 1] == Id(m.wqid[i]);
      buf.PutQid(m.wqid[i]);
      assert fs[..i + 1] + [fs[i + 1]] == fs[..i + 2];
    }
    assert fs[..|m.wqid| + 1] == fs;
    r := Encoded(buf.data);
  }

  /** The replies that end in counted bytes. */
  method Read(m: R.RMessage, tag: u16) returns (r: Serialized)
    requires m.Rread? || m.Rreads?
    ensures r == R.Encode(m, tag)
  {
    hide EncodeFields, EncodeField, EncodeTail, Head, EncodeMessage, Le;
    WithTail(R.TypeOf(m), tag, R.BodyOf(m).fields, R.BodyOf(m).tail);
    var buf := new BytesMut(R.TypeOf(m), tag);
    if m.Rreads? {
      buf.PutNum(8, m.offset);
    }
    assert buf.fields == R.BodyOf(m).fields;
    buf.Mark();
    var ok := PutData(buf, m.data);
    if !ok {
      return Failed;
    }
    r := Encoded(buf.data);
  }

  method Rstat(m: R.RMessage, tag: u16) returns (r: Serialized)
    requires m.Rstat?
    ensures r == R.Encode(m, tag)
  {
    hide EncodeFields, EncodeField, EncodeTail, Head, EncodeMessage, Le;
    WithTail(125, tag, R.BodyOf(m).fields, R.BodyOf(m).tail);
    var buf := new BytesMut(125, tag);
    assert buf.fields == R.BodyOf(m).fields;
    var ok := PutInfo(buf, m.stat);
    if !ok {
      return Failed;
    }
    r := Encoded(buf.data);
  }

  /** RMessage::serialize. */
  method SerializeR(m: R.RMessage, tag: u16) returns (r: Serialized)
    ensures r == R.Encode(m, tag)
  {
    match m
    case Rversion(_, _) => r := Rversion(m, tag);
    case Rerror(_) => r := Rerror(m, tag);
    case Rwalk(_) => r := Rwalk(m, tag);
    case Rread(_) => r := Read(m, tag);
    case Rreads(_, _) => r := Read(m, tag);
    case Rstat(_) => r := Rstat(m, tag);
    case _ => r := Plain(m, tag);
  }
}

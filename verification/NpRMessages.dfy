/** The replies of 9P2000 (npwire, ser/r.rs and de/r.rs). */
module NpRMessages {
  import opened Packets
  import opened NpWire

  datatype RMessage =
    | Rreads(offset: u64, data: seq<byte>)
    | Rversion(msize: u32, version: Text)
    | Rauth(aqid: Qid)
    | Rattach(qid: Qid)
    | Rerror(ename: Text)
    | Rflush
    | Rwalk(wqid: seq<Qid>)
    | Ropen(qid: Qid, iounit: u32)
    | Rcreate(qid: Qid, iounit: u32)
    | Rread(data: seq<byte>)
    | Rwrite(count: u32)
    | Rclunk
    | Rremove
    | Rstat(stat: Stat)
    | Rwstat

  function TypeOf(m: RMessage): u8 {
    match m
    case Rreads(_, _) => 31
    case Rversion(_, _) => 101
    case Rauth(_) => 103
    case Rattach(_) => 105
    case Rerror(_) => 107
    case Rflush => 109
    case Rwalk(_) => 111
    case Ropen(_, _) => 113
    case Rcreate(_, _) => 115
    case Rread(_) => 117
    case Rwrite(_) => 119
    case Rclunk => 121
    case Rremove => 123
    case Rstat(_) => 125
    case Rwstat => 127
  }

  function BodyOf(m: RMessage): Body {
    match m
    case Rreads(offset, data) => Body([Num(8, offset)], Data(data))
    case Rversion(msize, version) => Body([Num(4, msize), Str(version)], Nothing)
    case Rauth(aqid) => Body([Id(aqid)], Nothing)
    case Rattach(qid) => Body([Id(qid)], Nothing)
    case Rerror(ename) => Body([Str(ename)], Nothing)
    case Rflush => Body([], Nothing)
    case Rwalk(wqid) => Body([], Ids(wqid))
    case Ropen(qid, iounit) => Body([Id(qid), Num(4, iounit)], Nothing)
    case Rcreate(qid, iounit) => Body([Id(qid), Num(4, iounit)], Nothing)
    case Rread(data) => Body([], Data(data))
    case Rwrite(count) => Body([Num(4, count)], Nothing)
    case Rclunk => Body([], Nothing)
    case Rremove => Body([], Nothing)
    case Rstat(stat) => Body([], Info(stat))
    case Rwstat => Body([], Nothing)
  }

  /** What is expected behind each type; there is no parser for Rreads. */
  function LayoutOf(ty: u8): Layout {
    match ty
    case 101 => Layout([NumOf(4), StrOf], NothingOf, true)
    case 103 => Layout([IdOf], NothingOf, true)
    case 105 => Layout([IdOf], NothingOf, true)
    case 107 => Layout([StrOf], NothingOf, true)
    case 109 => Layout([], NothingOf, true)
    case 111 => Layout([], IdsOf, true)
    case 113 => Layout([IdOf, NumOf(4)], NothingOf, true)
    case 115 => Layout([IdOf, NumOf(4)], NothingOf, true)
    case 117 => Layout([], DataOf, true)
    case 119 => Layout([NumOf(4)], NothingOf, true)
    case 121 => Layout([], NothingOf, true)
    case 123 => Layout([], NothingOf, true)
    case 125 => Layout([], InfoOf, true)
    case 127 => Layout([], NothingOf, true)
    case _ => NoLayout
  }

  function MessageOf(ty: u8, body: Body): RMessage
    requires Matches(body, LayoutOf(ty))
  {
    var fs := body.fields;
    Powers();
    assert forall i :: 0 <= i < |fs| ==> FieldOk(fs[i]) && ShapeOf(fs[i]) == LayoutOf(ty).shapes[i];
    match ty
    case 101 => Rversion(fs[0].n, fs[1].s)
    case 103 => Rauth(fs[0].q)
    case 105 => Rattach(fs[0].q)
    case 107 => Rerror(fs[0].s)
    case 109 => Rflush
    case 111 => Rwalk(body.tail.ids)
    case 113 => Ropen(fs[0].q, fs[1].n)
    case 115 => Rcreate(fs[0].q, fs[1].n)
    case 117 => Rread(body.tail.data)
    case 119 => Rwrite(fs[0].n)
    case 121 => Rclunk
    case 123 => Rremove
    case 125 => Rstat(body.tail.stat)
    case 127 => Rwstat
  }

  function Encode(m: RMessage, tag: u16): Serialized {
    EncodeMessage(TypeOf(m), tag, BodyOf(m))
  }

  function Decode(b: seq<byte>): Outcome<RMessage> {
    match DecodeHead(b)
    case BadFrame(error) => Err(error)
    case Frame(ty, tag, rest) =>
      if LayoutOf(ty).NoLayout? then Err(UnsupportedType(ty, tag))
      else match DecodeBody(LayoutOf(ty), rest, tag)
           case Err(error) => Err(error)
           case Ok(tag, body) => BodyOk(LayoutOf(ty), rest, tag); Ok(tag, MessageOf(ty, body))
  }

  lemma BodyFits(m: RMessage)
    requires !m.Rreads?
    ensures Matches(BodyOf(m), LayoutOf(TypeOf(m))) && MessageOf(TypeOf(m), BodyOf(m)) == m
  {
    Powers();
    hide Power;
    assert Shapes(BodyOf(m).fields) == LayoutOf(TypeOf(m)).shapes;
  }

  /** Every reply that can be serialized is read back, with its tag, unless it is an Rreads, which is not understood. */
  lemma RoundTrip(m: RMessage, tag: u16)
    requires Encode(m, tag).Encoded?
    ensures Decode(Encode(m, tag).bytes) == if m.Rreads? then Err(UnsupportedType(31, tag)) else Ok(tag, m)
  {
    assert KnownType(TypeOf(m));
    assert m.Rreads? ==> TypeOf(m) == 31 && LayoutOf(31).NoLayout?;
    if !m.Rreads? {
      BodyFits(m);
      assert LayoutOf(TypeOf(m)).Layout?;
    }
    hide BodyOf, LayoutOf, MessageOf, TypeOf, Matches, EncodeBody, DecodeBody, DecodeHead, Head;
    var rest := EncodeBody(BodyOf(m)).bytes;
    HeadThere(TypeOf(m), tag, rest);
    if !m.Rreads? {
      BodyThere(LayoutOf(TypeOf(m)), BodyOf(m), tag);
    }
  }

  lemma BodyBackOf(ty: u8, body: Body)
    requires Matches(body, LayoutOf(ty))
    ensures BodyOf(MessageOf(ty, body)) == body && TypeOf(MessageOf(ty, body)) == ty
  {
    var fs := body.fields;
    assert forall i :: 0 <= i < |fs| ==> ShapeOf(fs[i]) == LayoutOf(ty).shapes[i];
    assert |fs| == |LayoutOf(ty).shapes|;
    assert fs == BodyOf(MessageOf(ty, body)).fields;
  }

  lemma KindOf(ty: u8, body: Body)
    requires Matches(body, LayoutOf(ty))
    ensures LayoutOf(ty).exact && (LayoutOf(ty).tail == InfoOf <==> MessageOf(ty, body).Rstat?)
    ensures MessageOf(ty, body).Rstat? <==> ty == 125
  {
    hide Utf8, Power;
  }

  /** Any two sizes are accepted in an Rstat, and give the same stat, as long as that much is there; two zeros always are.
      Only one pair is what serializing gives. */
  lemma SizesAreNotCompared(stat: Stat, outer: u16, inner: u16, tag: u16)
    requires EncodeFields(StatFields(stat)).Encoded?
    ensures var b := Head(125, tag) + Sized(stat, outer, inner);
            var n := |EncodeFields(StatFields(stat)).bytes|;
            && Decode(b) == (if outer <= n + 2 && inner <= n then Ok(tag, Rstat(stat)) else Err(TooShort(Tag(tag))))
            && (Encode(Rstat(stat), tag) == Encoded(b) <==> outer == n + 2 && inner == n)
  {
    hide StatFields, EncodeTail, DecodeTail, Le, UnLe, DecodeHead, Head, Sized;
    var tail := Sized(stat, outer, inner);
    HeadThere(125, tag, tail);
    AnySizes(stat, outer, inner);
    var t := EncodeTail(Info(stat));
    if t.Encoded? {
      assert [] + t.bytes == t.bytes;
      SameBack(Head(125, tag), t.bytes, tail);
    }
  }

  /** An Rstat's sizes stand behind its type and its tag. */
  lemma WhereSizesAre(b: seq<byte>, tag: u16)
    requires |b| >= 3 && DecodeBody(LayoutOf(125), b[3..], tag).Ok?
    ensures |b| >= 7
    ensures Measured(InfoOf, DecodeFields(LayoutOf(125).shapes, b[3..]).rest, 0)
            <==> UnLe(b[3..5]) == |b| - 5 && UnLe(b[5..7]) == |b| - 7
  {
    hide UnLe, DecodeTail;
    var rest := b[3..];
    SizesThere(rest);
    assert rest[..2] == b[3..5] && rest[2..4] == b[5..7];
  }

  /** The converse: only what serializing gives is accepted, except that a stat's two sizes may be wrong; it is what
      serializing gives exactly if they are right. */
  lemma OnlyWhatIsWritten(b: seq<byte>)
    requires Decode(b).Ok?
    ensures var (m, e) := (Decode(b).value, Encode(Decode(b).value, Decode(b).tag));
            if m.Rstat? then |b| >= 7 && (e == Encoded(b) <==> UnLe(b[3..5]) == |b| - 5 && UnLe(b[5..7]) == |b| - 7)
            else e == Encoded(b)
  {
    hide BodyOf, LayoutOf, MessageOf, TypeOf, Matches, EncodeBody, DecodeBody, DecodeHead, Head, UnLe;
    var h := DecodeHead(b);
    var layout := LayoutOf(h.ty);
    BodyOk(layout, h.rest, h.tag);
    var body := DecodeBody(layout, h.rest, h.tag).value;
    BodyBackOf(h.ty, body);
    KindOf(h.ty, body);
    HeadBack(b);
    BodyBack(layout, h.rest, h.tag);
    if MessageOf(h.ty, body).Rstat? {
      WhereSizesAre(b, h.tag);
    }
    if EncodeBody(body).Encoded? {
      SameBack(Head(h.ty, h.tag), EncodeBody(body).bytes, h.rest);
    }
  }
}

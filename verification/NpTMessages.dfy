/** The requests of 9P2000 (npwire, ser/t.rs and de/t.rs). */
module NpTMessages {
  import opened Packets
  import opened NpWire

  datatype TMessage =
    | Treads(fid: u32, offset: u64, count: u32)
    | Tversion(msize: u32, version: Text)
    | Tauth(afid: u32, uname: Text, aname: Text)
    | Tflush(oldtag: u16)
    | Tattach(fid: u32, afid: u32, uname: Text, aname: Text)
    | Twalk(fid: u32, newfid: u32, wname: seq<Text>)
    | Topen(fid: u32, mode: u8)
    | Tcreate(fid: u32, name: Text, perm: u32, mode: u8)
    | Tread(fid: u32, offset: u64, count: u32)
    | Twrite(fid: u32, offset: u64, data: seq<byte>)
    | Tclunk(fid: u32)
    | Tremove(fid: u32)
    | Tstat(fid: u32)
    | Twstat(fid: u32, stat: Stat)

  /** The type a request is sent with; Treads is sent with that of Tread. */
  function TypeOf(m: TMessage): u8 {
    match m
    case Treads(_, _, _) => 116
    case Tversion(_, _) => 100
    case Tauth(_, _, _) => 102
    case Tattach(_, _, _, _) => 104
    case Tflush(_) => 108
    case Twalk(_, _, _) => 110
    case Topen(_, _) => 112
    case Tcreate(_, _, _, _) => 114
    case Tread(_, _, _) => 116
    case Twrite(_, _, _) => 118
    case Tclunk(_) => 120
    case Tremove(_) => 122
    case Tstat(_) => 124
    case Twstat(_, _) => 126
  }

  function BodyOf(m: TMessage): Body {
    match m
    case Treads(fid, offset, count) => Body([Num(4, fid), Num(8, offset), Num(4, count)], Nothing)
    case Tversion(msize, version) => Body([Num(4, msize), Str(version)], Nothing)
    case Tauth(afid, uname, aname) => Body([Num(4, afid), Str(uname), Str(aname)], Nothing)
    case Tflush(oldtag) => Body([Num(2, oldtag)], Nothing)
    case Tattach(fid, afid, uname, aname) => Body([Num(4, fid), Num(4, afid), Str(uname), Str(aname)], Nothing)
    case Twalk(fid, newfid, wname) => Body([Num(4, fid), Num(4, newfid)], Names(wname))
    case Topen(fid, mode) => Body([Num(4, fid), Num(1, mode)], Nothing)
    case Tcreate(fid, name, perm, mode) => Body([Num(4, fid), Str(name), Num(4, perm), Num(1, mode)], Nothing)
    case Tread(fid, offset, count) => Body([Num(4, fid), Num(8, offset), Num(4, count)], Nothing)
    case Twrite(fid, offset, data) => Body([Num(4, fid), Num(8, offset)], Data(data))
    case Tclunk(fid) => Body([Num(4, fid)], Nothing)
    case Tremove(fid) => Body([Num(4, fid)], Nothing)
    case Tstat(fid) => Body([Num(4, fid)], Nothing)
    case Twstat(fid, stat) => Body([Num(4, fid)], Info(stat))
  }

  /** What is expected behind each type; of Tauth and Tattach the end is not checked. */
  function LayoutOf(ty: u8): Layout {
    match ty
    case 30 => Layout([NumOf(4), NumOf(8), NumOf(4)], NothingOf, true)
    case 100 => Layout([NumOf(4), StrOf], NothingOf, true)
    case 102 => Layout([NumOf(4), StrOf, StrOf], NothingOf, false)
    case 104 => Layout([NumOf(4), NumOf(4), StrOf, StrOf], NothingOf, false)
    case 108 => Layout([NumOf(2)], NothingOf, true)
    case 110 => Layout([NumOf(4), NumOf(4)], NamesOf, true)
    case 112 => Layout([NumOf(4), NumOf(1)], NothingOf, true)
    case 114 => Layout([NumOf(4), StrOf, NumOf(4), NumOf(1)], NothingOf, true)
    case 116 => Layout([NumOf(4), NumOf(8), NumOf(4)], NothingOf, true)
    case 118 => Layout([NumOf(4), NumOf(8)], DataOf, true)
    case 120 => Layout([NumOf(4)], NothingOf, true)
    case 122 => Layout([NumOf(4)], NothingOf, true)
    case 124 => Layout([NumOf(4)], NothingOf, true)
    case 126 => Layout([NumOf(4)], InfoOf, true)
    case _ => NoLayout
  }

  function MessageOf(ty: u8, body: Body): TMessage
    requires Matches(body, LayoutOf(ty))
  {
    var fs := body.fields;
    Powers();
    assert forall i :: 0 <= i < |fs| ==> FieldOk(fs[i]) && ShapeOf(fs[i]) == LayoutOf(ty).shapes[i];
    match ty
    case 30 => Treads(fs[0].n, fs[1].n, fs[2].n)
    case 100 => Tversion(fs[0].n, fs[1].s)
    case 102 => Tauth(fs[0].n, fs[1].s, fs[2].s)
    case 104 => Tattach(fs[0].n, fs[1].n, fs[2].s, fs[3].s)
    case 108 => Tflush(fs[0].n)
    case 110 => Twalk(fs[0].n, fs[1].n, body.tail.names)
    case 112 => Topen(fs[0].n, fs[1].n)
    case 114 => Tcreate(fs[0].n, fs[1].s, fs[2].n, fs[3].n)
    case 116 => Tread(fs[0].n, fs[1].n, fs[2].n)
    case 118 => Twrite(fs[0].n, fs[1].n, body.tail.data)
    case 120 => Tclunk(fs[0].n)
    case 122 => Tremove(fs[0].n)
    case 124 => Tstat(fs[0].n)
    case 126 => Twstat(fs[0].n, body.tail.stat)
  }

  function Encode(m: TMessage, tag: u16): Serialized {
    EncodeMessage(TypeOf(m), tag, BodyOf(m))
  }

  function Decode(b: seq<byte>): Outcome<TMessage> {
    match DecodeHead(b)
    case BadFrame(error) => Err(error)
    case Frame(ty, tag, rest) =>
      if LayoutOf(ty).NoLayout? then Err(UnsupportedType(ty, tag))
      else match DecodeBody(LayoutOf(ty), rest, tag)
           case Err(error) => Err(error)
           case Ok(tag, body) => BodyOk(LayoutOf(ty), rest, tag); Ok(tag, MessageOf(ty, body))
  }

  /** What a receiver takes a request for: Treads looks like Tread. */
  function SentAs(m: TMessage): TMessage {
    if m.Treads? then Tread(m.fid, m.offset, m.count) else m
  }

  lemma BodyFits(m: TMessage)
    ensures KnownType(TypeOf(m)) && Matches(BodyOf(m), LayoutOf(TypeOf(m))) && MessageOf(TypeOf(m), BodyOf(m)) == SentAs(m)
  {
    Powers();
    hide Power;
    assert Shapes(BodyOf(m).fields) == LayoutOf(TypeOf(m)).shapes;
  }

  /** Every request that can be serialized is read back, with its tag - exactly, unless it is a Treads, which comes back
      as a Tread. */
  lemma RoundTrip(m: TMessage, tag: u16)
    requires Encode(m, tag).Encoded?
    ensures Decode(Encode(m, tag).bytes) == Ok(tag, SentAs(m))
    ensures Decode(Encode(m, tag).bytes) == Ok(tag, m) <==> !m.Treads?
  {
    BodyFits(m);
    assert LayoutOf(TypeOf(m)).Layout?;
    hide BodyOf, LayoutOf, MessageOf, TypeOf, Matches, EncodeBody, DecodeBody, DecodeHead, Head;
    var rest := EncodeBody(BodyOf(m)).bytes;
    HeadThere(TypeOf(m), tag, rest);
    BodyThere(LayoutOf(TypeOf(m)), BodyOf(m), tag);
  }

  lemma Loose(m: TMessage)
    requires m.Tauth? || m.Tattach?
    ensures LayoutOf(TypeOf(m)).Layout? && !LayoutOf(TypeOf(m)).exact
  {
  }

  /** Tauth and Tattach are accepted whatever follows them. */
  lemma MoreIsAccepted(m: TMessage, tag: u16, more: seq<byte>)
    requires Encode(m, tag).Encoded? && (m.Tauth? || m.Tattach?)
    ensures Decode(Encode(m, tag).bytes + more) == Ok(tag, m)
  {
    hide BodyOf, LayoutOf, MessageOf, TypeOf, Matches, EncodeBody, DecodeBody, DecodeHead, Head;
    BodyFits(m);
    Loose(m);
    var rest := EncodeBody(BodyOf(m)).bytes;
    HeadThere(TypeOf(m), tag, rest + more);
    BodyThereAndMore(LayoutOf(TypeOf(m)), BodyOf(m), tag, more);
    assert Encode(m, tag).bytes + more == Head(TypeOf(m), tag) + (rest + more);
  }

  lemma BodyBackOf(ty: u8, body: Body)
    requires Matches(body, LayoutOf(ty))
    ensures BodyOf(MessageOf(ty, body)) == body && (ty != 30 ==> TypeOf(MessageOf(ty, body)) == ty)
  {
    hide Utf8, Power;
    var fs := body.fields;
    assert forall i :: 0 <= i < |fs| ==> ShapeOf(fs[i]) == LayoutOf(ty).shapes[i];
    assert |fs| == |LayoutOf(ty).shapes|;
    assert fs == BodyOf(MessageOf(ty, body)).fields;
  }

  lemma KindOf(ty: u8, body: Body)
    requires Matches(body, LayoutOf(ty))
    ensures var m := MessageOf(ty, body);
            && (LayoutOf(ty).tail == InfoOf <==> m.Twstat?) && (ty == 126 <==> m.Twstat?)
            && (!LayoutOf(ty).exact <==> m.Tauth? || m.Tattach?)
            && (ty == 30 <==> m.Treads?)
  {
    hide Utf8, Power;
  }

  /** Any two sizes are accepted in a Twstat, and give the same stat, as long as that much is there; two zeros always
      are.  Only one pair is what serializing gives. */
  lemma SizesAreNotCompared(fid: u32, stat: Stat, outer: u16, inner: u16, tag: u16)
    requires EncodeFields(StatFields(stat)).Encoded?
    ensures var b := Head(126, tag) + (Le(fid, 4) + Sized(stat, outer, inner));
            var n := |EncodeFields(StatFields(stat)).bytes|;
            && Decode(b) == (if outer <= n + 2 && inner <= n then Ok(tag, Twstat(fid, stat)) else Err(TooShort(Tag(tag))))
            && (Encode(Twstat(fid, stat), tag) == Encoded(b) <==> outer == n + 2 && inner == n)
  {
    hide StatFields, EncodeFields, EncodeTail, DecodeTail, Le, UnLe, DecodeHead, Head, Sized;
    var tail := Sized(stat, outer, inner);
    HeadThere(126, tag, Le(fid, 4) + tail);
    AnySizes(stat, outer, inner);
    OneNumber(fid, tail);
    var t := EncodeTail(Info(stat));
    if t.Encoded? {
      SameBack(Head(126, tag), Le(fid, 4) + t.bytes, Le(fid, 4) + tail);
      SameBack(Le(fid, 4), t.bytes, tail);
    }
  }

  lemma OneNumber(fid: u32, rest: seq<byte>)
    ensures EncodeFields([Num(4, fid)]) == Encoded(Le(fid, 4))
    ensures DecodeFields([NumOf(4)], Le(fid, 4) + rest) == Good([Num(4, fid)], rest)
  {
    Powers();
    var fs := [Num(4, fid)];
    assert fs[1..] == [];
    FieldsThere(fs, rest);
    assert Le(fid, 4) + [] == Le(fid, 4);
  }

  lemma SentAsTread(m: TMessage)
    requires m.Treads?
    ensures TypeOf(m) == 116
  {
  }

  lemma TypeShows(m: TMessage, tag: u16, b: seq<byte>)
    requires Encode(m, tag) == Encoded(b)
    ensures DecodeHead(b).Frame? && DecodeHead(b).ty == TypeOf(m)
  {
    BodyFits(m);
    hide BodyOf, LayoutOf, MessageOf, TypeOf, Matches, EncodeBody, DecodeHead, Head;
    HeadThere(TypeOf(m), tag, EncodeBody(BodyOf(m)).bytes);
  }

  /** A Twstat's sizes stand behind its type, its tag and its fid. */
  lemma WhereSizesAre(b: seq<byte>, tag: u16)
    requires |b| >= 3 && DecodeBody(LayoutOf(126), b[3..], tag).Ok?
    ensures |b| >= 11
    ensures Measured(InfoOf, DecodeFields(LayoutOf(126).shapes, b[3..]).rest, 0)
            <==> UnLe(b[7..9]) == |b| - 9 && UnLe(b[9..11]) == |b| - 11
  {
    hide UnLe, DecodeFields, DecodeTail, Measured;
    var rest := b[3..];
    MeasuredBehind(rest);
    assert rest[4..6] == b[7..9] && rest[6..8] == b[9..11];
  }

  /** The converse of the round trip.  A Twstat is what serializing gives exactly if its two sizes are right, a Treads
      never; anything else always is - followed by anything in the case of Tauth and Tattach. */
  lemma OnlyWhatIsWritten(b: seq<byte>)
    requires Decode(b).Ok?
    ensures var (m, e) := (Decode(b).value, Encode(Decode(b).value, Decode(b).tag));
            && (m.Treads? ==> e != Encoded(b))
            && (m.Twstat? ==> |b| >= 11 && (e == Encoded(b) <==> UnLe(b[7..9]) == |b| - 9 && UnLe(b[9..11]) == |b| - 11))
            && (!m.Treads? && !m.Twstat? ==> e.Encoded? && e.bytes <= b)
            && (!m.Treads? && !m.Twstat? && !m.Tauth? && !m.Tattach? ==> e == Encoded(b))
  {
    hide BodyOf, LayoutOf, MessageOf, TypeOf, Matches, EncodeBody, DecodeBody, DecodeHead, Head, UnLe;
    var h := DecodeHead(b);
    var layout := LayoutOf(h.ty);
    BodyOk(layout, h.rest, h.tag);
    var body := DecodeBody(layout, h.rest, h.tag).value;
    var m := MessageOf(h.ty, body);
    BodyBackOf(h.ty, body);
    KindOf(h.ty, body);
    HeadBack(b);
    BodyBack(layout, h.rest, h.tag);
    if m.Treads? {
      if Encode(m, h.tag) == Encoded(b) {
        TypeShows(m, h.tag, b);
        SentAsTread(m);
      }
    } else if m.Twstat? {
      WhereSizesAre(b, h.tag);
    }
  }
}

/** Where everything stands in the bytes of a 9P message: the type first, then the tag, then the fields of the message in the
    order of the protocol's manual, numbers least significant byte first, strings behind their length. */
module NpLayout {
  import opened Packets
  import opened NpWire
  import T = NpTMessages
  import R = NpRMessages

  /** The number that `width` bytes from place i on stand for. */
  function Digits(b: seq<byte>, i: nat, width: nat): nat
    requires i + width <= |b|
    decreases width
  {
    if width == 0 then 0 else b[i] as nat + 256 * Digits(b, i + 1, width - 1)
  }

  predicate NumAt(b: seq<byte>, i: nat, width: nat, n: nat) {
    i + width <= |b| && Digits(b, i, width) == n
  }

  predicate TextAt(b: seq<byte>, i: nat, s: seq<byte>) {
    i + 2 + |s| <= |b| && NumAt(b, i, 2, |s|) && b[i + 2..i + 2 + |s|] == s
  }

  predicate QidAt(b: seq<byte>, i: nat, q: Qid) {
    i + 13 <= |b| && NumAt(b, i, 1, q.type_) && NumAt(b, i + 1, 4, q.version) && NumAt(b, i + 5, 8, q.path)
  }

  /** A stat behind its size. */
  predicate StatAt(b: seq<byte>, i: nat, s: Stat) {
    && NumAt(b, i, 2, StatSize(s)) && i + 2 + StatSize(s) <= |b|
    && NumAt(b, i + 2, 2, s.type_) && NumAt(b, i + 4, 4, s.dev) && QidAt(b, i + 8, s.qid)
    && NumAt(b, i + 21, 4, s.mode) && NumAt(b, i + 25, 4, s.atime) && NumAt(b, i + 29, 4, s.mtime) && NumAt(b, i + 33, 8, s.length)
    && TextAt(b, i + 41, s.name) && TextAt(b, i + 43 + |s.name|, s.uid)
    && TextAt(b, i + 45 + |s.name| + |s.uid|, s.gid) && TextAt(b, i + 47 + |s.name| + |s.uid| + |s.gid|, s.muid)
  }

  function StatSize(s: Stat): nat {
    47 + |s.name| + |s.uid| + |s.gid| + |s.muid|
  }

  /** Strings one behind the other, up to the end. */
  predicate NamesAt(b: seq<byte>, i: nat, names: seq<Text>)
    decreases |names|
  {
    if names == [] then i == |b| else TextAt(b, i, names[0]) && NamesAt(b, i + 2 + |names[0]|, names[1..])
  }

  predicate QidsAt(b: seq<byte>, i: nat, ids: seq<Qid>) {
    |b| == i + 13 * |ids| && forall k :: 0 <= k < |ids| ==> QidAt(b, i + 13 * k, ids[k])
  }

  predicate HeadAt(b: seq<byte>, ty: nat, tag: nat) {
    |b| >= 3 && b[0] as nat == ty && NumAt(b, 1, 2, tag)
  }

  /** The bytes of every request. */
  predicate IsRequest(b: seq<byte>, tag: u16, m: T.TMessage) {
    match m
    case Tversion(msize, version) => HeadAt(b, 100, tag) && NumAt(b, 3, 4, msize) && TextAt(b, 7, version) && |b| == 9 + |version|
    case Tauth(afid, uname, aname) =>
      && HeadAt(b, 102, tag) && NumAt(b, 3, 4, afid) && TextAt(b, 7, uname) && TextAt(b, 9 + |uname|, aname)
      && |b| == 11 + |uname| + |aname|
    case Tattach(fid, afid, uname, aname) =>
      && HeadAt(b, 104, tag) && NumAt(b, 3, 4, fid) && NumAt(b, 7, 4, afid) && TextAt(b, 11, uname) && TextAt(b, 13 + |uname|, aname)
      && |b| == 15 + |uname| + |aname|
    case Tflush(oldtag) => HeadAt(b, 108, tag) && NumAt(b, 3, 2, oldtag) && |b| == 5
    case Twalk(fid, newfid, wname) =>
      HeadAt(b, 110, tag) && NumAt(b, 3, 4, fid) && NumAt(b, 7, 4, newfid) && NumAt(b, 11, 2, |wname|) && NamesAt(b, 13, wname)
    case Topen(fid, mode) => HeadAt(b, 112, tag) && NumAt(b, 3, 4, fid) && NumAt(b, 7, 1, mode) && |b| == 8
    case Tcreate(fid, name, perm, mode) =>
      && HeadAt(b, 114, tag) && NumAt(b, 3, 4, fid) && TextAt(b, 7, name)
      && NumAt(b, 9 + |name|, 4, perm) && NumAt(b, 13 + |name|, 1, mode) && |b| == 14 + |name|
    case Tread(fid, offset, count) =>
      HeadAt(b, 116, tag) && NumAt(b, 3, 4, fid) && NumAt(b, 7, 8, offset) && NumAt(b, 15, 4, count) && |b| == 19
    case Treads(fid, offset, count) =>
      HeadAt(b, 116, tag) && NumAt(b, 3, 4, fid) && NumAt(b, 7, 8, offset) && NumAt(b, 15, 4, count) && |b| == 19
    case Twrite(fid, offset, data) =>
      && HeadAt(b, 118, tag) && NumAt(b, 3, 4, fid) && NumAt(b, 7, 8, offset) && NumAt(b, 15, 4, |data|)
      && |b| == 19 + |data| && b[19..] == data
    case Tclunk(fid) => HeadAt(b, 120, tag) && NumAt(b, 3, 4, fid) && |b| == 7
    case Tremove(fid) => HeadAt(b, 122, tag) && NumAt(b, 3, 4, fid) && |b| == 7
    case Tstat(fid) => HeadAt(b, 124, tag) && NumAt(b, 3, 4, fid) && |b| == 7
    case Twstat(fid, stat) =>
      && HeadAt(b, 126, tag) && NumAt(b, 3, 4, fid) && NumAt(b, 7, 2, 2 + StatSize(stat)) && StatAt(b, 9, stat)
      && |b| == 11 + StatSize(stat)
  }

  /** The bytes of every reply. */
  predicate IsReply(b: seq<byte>, tag: u16, m: R.RMessage) {
    match m
    case Rreads(offset, data) =>
      HeadAt(b, 31, tag) && NumAt(b, 3, 8, offset) && NumAt(b, 11, 4, |data|) && |b| == 15 + |data| && b[15..] == data
    case Rversion(msize, version) => HeadAt(b, 101, tag) && NumAt(b, 3, 4, msize) && TextAt(b, 7, version) && |b| == 9 + |version|
    case Rauth(aqid) => HeadAt(b, 103, tag) && QidAt(b, 3, aqid) && |b| == 16
    case Rattach(qid) => HeadAt(b, 105, tag) && QidAt(b, 3, qid) && |b| == 16
    case Rerror(ename) => HeadAt(b, 107, tag) && TextAt(b, 3, ename) && |b| == 5 + |ename|
    case Rflush => HeadAt(b, 109, tag) && |b| == 3
    case Rwalk(wqid) => HeadAt(b, 111, tag) && NumAt(b, 3, 2, |wqid|) && QidsAt(b, 5, wqid)
    case Ropen(qid, iounit) => HeadAt(b, 113, tag) && QidAt(b, 3, qid) && NumAt(b, 16, 4, iounit) && |b| == 20
    case Rcreate(qid, iounit) => HeadAt(b, 115, tag) && QidAt(b, 3, qid) && NumAt(b, 16, 4, iounit) && |b| == 20
    case Rread(data) => HeadAt(b, 117, tag) && NumAt(b, 3, 4, |data|) && |b| == 7 + |data| && b[7..] == data
    case Rwrite(count) => HeadAt(b, 119, tag) && NumAt(b, 3, 4, count) && |b| == 7
    case Rclunk => HeadAt(b, 121, tag) && |b| == 3
    case Rremove => HeadAt(b, 123, tag) && |b| == 3
    case Rstat(stat) => HeadAt(b, 125, tag) && NumAt(b, 3, 2, 2 + StatSize(stat)) && StatAt(b, 5, stat) && |b| == 7 + StatSize(stat)
    case Rwstat => HeadAt(b, 127, tag) && |b| == 3
  }

  // ----- pieces

  lemma {:induction false} DigitsOfLe(b: seq<byte>, i: nat, width: nat, n: nat)
    requires i + width <= |b| && b[i..i + width] == Le(n, width) && n < Power(width)
    ensures Digits(b, i, width) == n
    decreases width
  {
    if width > 0 {
      var le := Le(n, width);
      assert b[i] == le[0] && b[i + 1..i + 1 + (width - 1)] == le[1..];
      DigitsOfLe(b, i + 1, width - 1, n / 256);
    }
  }

  /** A number that is written somewhere can be read there. */
  lemma NumIsAt(front: seq<byte>, width: nat, n: nat, rest: seq<byte>)
    requires n < Power(width)
    ensures NumAt(front + Le(n, width) + rest, |front|, width, n)
  {
    hide Le, Digits;
    var b := front + Le(n, width) + rest;
    assert b[|front|..|front| + width] == Le(n, width);
    DigitsOfLe(b, |front|, width, n);
  }

  /** How many bytes a field takes. */
  function Len(f: Field): nat {
    match f
    case Num(width, _) => width
    case Str(s) => 2 + |s|
    case Id(_) => 13
  }

  predicate FieldAt(b: seq<byte>, i: nat, f: Field) {
    match f
    case Num(width, n) => NumAt(b, i, width, n)
    case Str(s) => TextAt(b, i, s)
    case Id(q) => QidAt(b, i, q)
  }

  lemma FieldIsAt(front: seq<byte>, f: Field, rest: seq<byte>)
    requires EncodeField(f).Encoded? && FieldOk(f)
    ensures |EncodeField(f).bytes| == Len(f) && FieldAt(front + EncodeField(f).bytes + rest, |front|, f)
  {
    hide Le, Digits, Utf8, Power;
    Powers();
    var b := front + EncodeField(f).bytes + rest;
    match f
    case Num(width, n) => NumIsAt(front, width, n, rest);
    case Str(s) =>
      NumIsAt(front, 2, |s|, s + rest);
      assert b == front + Le(|s|, 2) + (s + rest);
    case Id(q) =>
      var (x, y, z) := (Le(q.type_, 1), Le(q.version, 4), Le(q.path, 8));
      NumIsAt(front, 1, q.type_, y + z + rest);
      NumIsAt(front + x, 4, q.version, z + rest);
      NumIsAt(front + x + y, 8, q.path, rest);
      assert b == front + x + (y + z + rest) && b == front + x + y + (z + rest) && b == front + x + y + z + rest;
  }

  function Total(fs: seq<Field>): nat {
    if fs == [] then 0 else Len(fs[0]) + Total(fs[1..])
  }

  predicate FieldsAt(b: seq<byte>, i: nat, fs: seq<Field>)
    decreases |fs|
  {
    fs != [] ==> FieldAt(b, i, fs[0]) && FieldsAt(b, i + Len(fs[0]), fs[1..])
  }

  /** Fields that are written one behind the other stand one behind the other. */
  lemma {:induction false} FieldsAreAt(front: seq<byte>, fs: seq<Field>, rest: seq<byte>)
    requires EncodeFields(fs).Encoded? && FieldsOk(fs)
    ensures |EncodeFields(fs).bytes| == Total(fs) && FieldsAt(front + EncodeFields(fs).bytes + rest, |front|, fs)
    decreases |fs|
  {
    hide EncodeField, FieldAt, FieldOk, Len;
    if fs != [] {
      var (x, y) := (EncodeField(fs[0]).bytes, EncodeFields(fs[1..]).bytes);
      assert FieldOk(fs[0]) && FieldsOk(fs[1..]);
      FieldIsAt(front, fs[0], y + rest);
      FieldsAreAt(front + x, fs[1..], rest);
      assert front + (x + y) + rest == front + x + (y + rest) && front + (x + y) + rest == front + x + y + rest;
    }
  }

  lemma {:induction false} FieldsSplit(b: seq<byte>, i: nat, fs: seq<Field>, gs: seq<Field>)
    ensures Total(fs + gs) == Total(fs) + Total(gs)
    ensures FieldsAt(b, i, fs + gs) <==> FieldsAt(b, i, fs) && FieldsAt(b, i + Total(fs), gs)
    decreases |fs|
  {
    hide FieldAt, Len;
    if fs == [] {
      assert fs + gs == gs;
    } else {
      assert (fs + gs)[1..] == fs[1..] + gs;
      FieldsSplit(b, i + Len(fs[0]), fs[1..], gs);
    }
  }

  lemma One(b: seq<byte>, i: nat, f: Field)
    ensures Total([f]) == Len(f) && (FieldsAt(b, i, [f]) <==> FieldAt(b, i, f))
  {
    hide FieldAt, Len;
    assert [f][1..] == [];
  }

  lemma Two(b: seq<byte>, i: nat, f: Field, g: Field)
    ensures Total([f, g]) == Len(f) + Len(g) && (FieldsAt(b, i, [f, g]) <==> FieldAt(b, i, f) && FieldAt(b, i + Len(f), g))
  {
    hide FieldAt, Len, FieldsAt, Total;
    One(b, i, f);
    One(b, i + Len(f), g);
    FieldsSplit(b, i, [f], [g]);
    assert [f] + [g] == [f, g];
  }

  lemma Three(b: seq<byte>, i: nat, f: Field, g: Field, h: Field)
    ensures Total([f, g, h]) == Len(f) + Len(g) + Len(h)
    ensures FieldsAt(b, i, [f, g, h]) <==> FieldAt(b, i, f) && FieldAt(b, i + Len(f), g) && FieldAt(b, i + Len(f) + Len(g), h)
  {
    hide FieldAt, Len, FieldsAt, Total;
    One(b, i, f);
    Two(b, i + Len(f), g, h);
    FieldsSplit(b, i, [f], [g, h]);
    assert [f] + [g, h] == [f, g, h];
  }

  lemma Four(b: seq<byte>, i: nat, f: Field, g: Field, h: Field, k: Field)
    ensures Total([f, g, h, k]) == Len(f) + Len(g) + Len(h) + Len(k)
    ensures FieldsAt(b, i, [f, g, h, k]) <==>
              && FieldAt(b, i, f) && FieldAt(b, i + Len(f), g) && FieldAt(b, i + Len(f) + Len(g), h)
              && FieldAt(b, i + Len(f) + Len(g) + Len(h), k)
  {
    hide FieldAt, Len, FieldsAt, Total;
    Two(b, i, f, g);
    Two(b, i + Len(f) + Len(g), h, k);
    FieldsSplit(b, i, [f, g], [h, k]);
    assert [f, g] + [h, k] == [f, g, h, k];
  }

  /** The fields of a stat, one behind the other. */
  lemma StatFieldsAt(b: seq<byte>, at: nat, s: Stat)
    requires FieldsAt(b, at, StatFields(s))
    ensures Total(StatFields(s)) == StatSize(s)
    ensures NumAt(b, at, 2, s.type_) && NumAt(b, at + 2, 4, s.dev) && QidAt(b, at + 6, s.qid) && NumAt(b, at + 19, 4, s.mode)
    ensures NumAt(b, at + 23, 4, s.atime) && NumAt(b, at + 27, 4, s.mtime) && NumAt(b, at + 31, 8, s.length)
    ensures TextAt(b, at + 39, s.name) && TextAt(b, at + 41 + |s.name|, s.uid)
    ensures TextAt(b, at + 43 + |s.name| + |s.uid|, s.gid) && TextAt(b, at + 45 + |s.name| + |s.uid| + |s.gid|, s.muid)
  {
    hide FieldsAt, Total, NumAt, TextAt, QidAt, Utf8;
    var (f, g) := ([Num(2, s.type_), Num(4, s.dev), Id(s.qid), Num(4, s.mode)], [Num(4, s.atime), Num(4, s.mtime), Num(8, s.length)]);
    var h := [Str(s.name), Str(s.uid), Str(s.gid), Str(s.muid)];
    assert StatFields(s) == f + g + h;
    FieldsSplit(b, at, f + g, h);
    FieldsSplit(b, at, f, g);
    Four(b, at, f[0], f[1], f[2], f[3]);
    Three(b, at + 23, g[0], g[1], g[2]);
    Four(b, at + 39, h[0], h[1], h[2], h[3]);
  }

  /** A stat that is written somewhere stands there. */
  lemma StatIsAt(front: seq<byte>, s: Stat, rest: seq<byte>)
    requires EncodeStat(s).Encoded?
    ensures |EncodeStat(s).bytes| == 2 + StatSize(s) && StatAt(front + EncodeStat(s).bytes + rest, |front|, s)
  {
    hide Le, Digits, EncodeFields, FieldsAt, Total, FieldsOk, Power, StatFields, NumAt, TextAt, QidAt, StatSize;
    Powers();
    StatFieldsOk(s);
    var e := EncodeFields(StatFields(s)).bytes;
    var size := Le(|e|, 2);
    FieldsAreAt(front + size, StatFields(s), rest);
    var b := front + (size + e) + rest;
    assert b == front + size + e + rest && b == front + size + (e + rest);
    StatFieldsAt(b, |front| + 2, s);
    NumIsAt(front, 2, |e|, e + rest);
  }

  lemma HeadIsAt(ty: u8, tag: u16, rest: seq<byte>)
    ensures |Head(ty, tag)| == 3 && HeadAt(Head(ty, tag) + rest, ty, tag)
  {
    hide Le, Digits, Power;
    Powers();
    NumIsAt([], 1, ty, Le(tag, 2) + rest);
    NumIsAt(Le(ty, 1), 2, tag, rest);
    var b := Head(ty, tag) + rest;
    assert b == [] + Le(ty, 1) + (Le(tag, 2) + rest) && b == Le(ty, 1) + Le(tag, 2) + rest;
    FirstDigit(b);
  }

  lemma FirstDigit(b: seq<byte>)
    requires |b| >= 1
    ensures Digits(b, 0, 1) == b[0] as nat
  {
    assert Digits(b, 1, 0) == 0;
  }

  /** The head, the fields and the tail of a message, one behind the other. */
  lemma MessageIsAt(ty: u8, tag: u16, body: Body) returns (b: seq<byte>, at: nat)
    requires EncodeMessage(ty, tag, body).Encoded? && FieldsOk(body.fields)
    ensures b == EncodeMessage(ty, tag, body).bytes && HeadAt(b, ty, tag) && FieldsAt(b, 3, body.fields)
    ensures EncodeTail(body.tail).Encoded? && at == 3 + Total(body.fields) && |b| == at + |EncodeTail(body.tail).bytes|
    ensures b[at..] == EncodeTail(body.tail).bytes
  {
    hide Le, Digits, EncodeFields, FieldsAt, Total, FieldsOk, EncodeTail, NumAt;
    var (x, y) := (EncodeFields(body.fields).bytes, EncodeTail(body.tail).bytes);
    b := EncodeMessage(ty, tag, body).bytes;
    HeadIsAt(ty, tag, x + y);
    FieldsAreAt(Head(ty, tag), body.fields, y);
    at := 3 + Total(body.fields);
    assert b == Head(ty, tag) + x + y;
  }

  lemma {:induction false} NamesAre(front: seq<byte>, names: seq<Text>)
    requires EncodeFields(Strs(names)).Encoded?
    ensures NamesAt(front + EncodeFields(Strs(names)).bytes, |front|, names)
    decreases |names|
  {
    hide TextAt, EncodeField, Utf8;
    var fs := Strs(names);
    if names == [] {
      assert fs == [];
    } else {
      assert fs[1..] == Strs(names[1..]);
      var (x, y) := (EncodeField(fs[0]).bytes, EncodeFields(fs[1..]).bytes);
      FieldIsAt(front, fs[0], y);
      NamesAre(front + x, names[1..]);
      assert front + (x + y) == front + x + y;
    }
  }

  lemma {:induction false} QidsAre(front: seq<byte>, ids: seq<Qid>, rest: seq<byte>)
    requires EncodeFields(IdFields(ids)).Encoded?
    ensures var e := EncodeFields(IdFields(ids)).bytes;
            |e| == 13 * |ids| && forall k :: 0 <= k < |ids| ==> QidAt(front + e + rest, |front| + 13 * k, ids[k])
    decreases |ids|
  {
    hide QidAt, EncodeField, Utf8;
    var fs := IdFields(ids);
    if ids == [] {
      assert fs == [];
    } else {
      assert fs[1..] == IdFields(ids[1..]);
      var (x, y) := (EncodeField(fs[0]).bytes, EncodeFields(fs[1..]).bytes);
      FieldIsAt(front, fs[0], y + rest);
      QidsAre(front + x, ids[1..], rest);
      var b := front + (x + y) + rest;
      assert b == front + x + (y + rest) && b == front + x + y + rest;
      forall k | 0 <= k < |ids|
        ensures QidAt(b, |front| + 13 * k, ids[k])
      {
        if k > 0 {
          assert ids[k] == ids[1..][k - 1] && |front| + 13 * k == |front + x| + 13 * (k - 1);
        }
      }
    }
  }

  /** A counted list of strings, counted bytes, or a stat at the end of a message. */
  lemma TailIsAt(front: seq<byte>, t: Tail)
    requires EncodeTail(t).Encoded?
    ensures var b := front + EncodeTail(t).bytes;
            match t
            case Nothing => |b| == |front|
            case Names(names) => NumAt(b, |front|, 2, |names|) && NamesAt(b, |front| + 2, names)
            case Ids(ids) => NumAt(b, |front|, 2, |ids|) && QidsAt(b, |front| + 2, ids)
            case Data(data) => NumAt(b, |front|, 4, |data|) && |b| == |front| + 4 + |data| && b[|front| + 4..] == data
            case Info(s) => NumAt(b, |front|, 2, 2 + StatSize(s)) && StatAt(b, |front| + 2, s) && |b| == |front| + 4 + StatSize(s)
  {
    hide Le, NumAt, NamesAt, StatAt, QidAt, EncodeFields, EncodeStat, Power;
    Powers();
    var b := front + EncodeTail(t).bytes;
    match t
    case Nothing =>
    case Names(names) =>
      var (x, y) := (Le(|names|, 2), EncodeFields(Strs(names)).bytes);
      NumIsAt(front, 2, |names|, y);
      NamesAre(front + x, names);
      assert b == front + x + y;
    case Ids(ids) =>
      var (x, y) := (Le(|ids|, 2), EncodeFields(IdFields(ids)).bytes);
      NumIsAt(front, 2, |ids|, y);
      QidsAre(front + x, ids, []);
      assert b == front + x + y && b == front + x + y + [];
    case Data(data) =>
      NumIsAt(front, 4, |data|, data);
      assert b == front + Le(|data|, 4) + data;
    case Info(s) =>
      var e := EncodeStat(s).bytes;
      var x := Le(|e|, 2);
      StatIsAt(front + x, s, []);
      NumIsAt(front, 2, |e|, e);
      assert b == front + x + e && b == front + x + e + [];
  }

  // ----- the messages

  /** Every request is laid out as the protocol has it. */
  lemma RequestBytes(m: T.TMessage, tag: u16)
    requires T.Encode(m, tag).Encoded?
    ensures IsRequest(T.Encode(m, tag).bytes, tag, m)
  {
    hide Le, Digits, NumAt, TextAt, NamesAt, StatAt, HeadAt, EncodeFields, EncodeTail, FieldsAt, Total, Power, Utf8;
    var body := T.BodyOf(m);
    assert FieldsOk(body.fields) by { Powers(); }
    var fs := body.fields;
    var b, at := MessageIsAt(T.TypeOf(m), tag, body);
    TailIsAt(b[..at], body.tail);
    assert b == b[..at] + b[at..];
    if |fs| == 1 {
      One(b, 3, fs[0]);
    } else if |fs| == 2 {
      Two(b, 3, fs[0], fs[1]);
    } else if |fs| == 3 {
      Three(b, 3, fs[0], fs[1], fs[2]);
    } else {
      Four(b, 3, fs[0], fs[1], fs[2], fs[3]);
    }
  }

  /** Every reply is laid out as the protocol has it. */
  lemma ReplyBytes(m: R.RMessage, tag: u16)
    requires R.Encode(m, tag).Encoded?
    ensures IsReply(R.Encode(m, tag).bytes, tag, m)
  {
    hide Le, Digits, NumAt, TextAt, QidAt, StatAt, HeadAt, EncodeFields, EncodeTail, FieldsAt, Total, Power, Utf8;
    var body := R.BodyOf(m);
    assert FieldsOk(body.fields) by { Powers(); }
    var fs := body.fields;
    var b, at := MessageIsAt(R.TypeOf(m), tag, body);
    TailIsAt(b[..at], body.tail);
    assert b == b[..at] + b[at..];
    if fs == [] {
      assert Total(fs) == 0 by { NoFields(fs); }
    } else if |fs| == 1 {
      One(b, 3, fs[0]);
    } else {
      Two(b, 3, fs[0], fs[1]);
    }
  }

  lemma NoFields(fs: seq<Field>)
    requires fs == []
    ensures Total(fs) == 0
  {
  }

  // ----- errors

  /** The tag that an error is answered with, if it has one. */
  function TagOf(e: DecodeError): MaybeTag {
    match e
    case TooShort(of) => of
    case TooLong(tag) => Tag(tag)
    case UnknownType(_, tag) => Tag(tag)
    case UnsupportedType(_, tag) => Tag(tag)
    case InvalidUtf8(tag) => Tag(tag)
  }

  /** The type numbers of the protocol and of its extension; Terror, 106, is never sent. */
  predicate IsType(ty: nat) {
    ty in {30, 31} || 100 <= ty <= 105 || 107 <= ty <= 127
  }

  lemma {:induction false} UnLeIsDigits(b: seq<byte>, i: nat, width: nat)
    requires i + width <= |b|
    ensures UnLe(b[i..i + width]) == Digits(b, i, width)
    decreases width
  {
    if width > 0 {
      UnLeIsDigits(b, i + 1, width - 1);
      assert b[i..i + width][1..] == b[i + 1..i + 1 + (width - 1)];
    }
  }

  lemma HeadMeans(b: seq<byte>)
    ensures match DecodeHead(b)
            case BadFrame(TooShort(of)) => |b| < 3 && of == NoTag
            case BadFrame(UnknownType(ty, tag)) => HeadAt(b, ty, tag) && !IsType(ty)
            case BadFrame(_) => false
            case Frame(ty, tag, rest) => HeadAt(b, ty, tag) && IsType(ty) && rest == b[3..]
  {
    hide UnLe, Digits;
    if |b| >= 3 {
      UnLeIsDigits(b, 0, 1);
      UnLeIsDigits(b, 1, 2);
      FirstDigit(b);
    }
  }

  lemma BodyErrors(layout: Layout, b: seq<byte>, tag: u16)
    requires layout.Layout? && DecodeBody(layout, b, tag).Err?
    ensures var e := DecodeBody(layout, b, tag).error;
            TagOf(e) == Tag(tag) && !e.UnknownType? && !e.UnsupportedType? && (e.TooLong? ==> layout.exact)
  {
    hide DecodeFields, DecodeTail;
  }

  /** A request that is refused is refused by the tag in its second and third byte, if there are so many; and for its type
      exactly if that is none of the protocol's, or none of a request. */
  lemma RequestErrors(b: seq<byte>)
    requires T.Decode(b).Err?
    ensures var e := T.Decode(b).error;
            && (if |b| < 3 then e == TooShort(NoTag) else TagOf(e).Tag? && NumAt(b, 1, 2, TagOf(e).tag))
            && (|b| >= 3 ==> var ty := b[0] as nat;
                  && (e.UnknownType? <==> !IsType(ty)) && (e.UnsupportedType? <==> IsType(ty) && ty != 30 && (ty == 31 || ty % 2 == 1))
                  && (e.UnknownType? || e.UnsupportedType? ==> e.type_ == ty))
  {
    hide DecodeHead, NumAt, DecodeBody;
    HeadMeans(b);
    match DecodeHead(b)
    case Frame(ty, tag, rest) =>
      var layout := T.LayoutOf(ty);
      if layout.Layout? && DecodeBody(layout, rest, tag).Err? {
        BodyErrors(layout, rest, tag);
      }
    case BadFrame(_) =>
  }

  /** So is a reply that is refused. */
  lemma ReplyErrors(b: seq<byte>)
    requires R.Decode(b).Err?
    ensures var e := R.Decode(b).error;
            && (if |b| < 3 then e == TooShort(NoTag) else TagOf(e).Tag? && NumAt(b, 1, 2, TagOf(e).tag))
            && (|b| >= 3 ==> var ty := b[0] as nat;
                  && (e.UnknownType? <==> !IsType(ty)) && (e.UnsupportedType? <==> IsType(ty) && (ty == 30 || ty == 31 || ty % 2 == 0))
                  && (e.UnknownType? || e.UnsupportedType? ==> e.type_ == ty))
  {
    hide DecodeHead, NumAt, DecodeBody;
    HeadMeans(b);
    match DecodeHead(b)
    case Frame(ty, tag, rest) =>
      var layout := R.LayoutOf(ty);
      if layout.Layout? && DecodeBody(layout, rest, tag).Err? {
        BodyErrors(layout, rest, tag);
      }
    case BadFrame(_) =>
  }
}

/** Response framing: the looser grammar the reader accepts, and when a response survives the trip. */
module Responses {
  import opened Base
  import opened Framing

  datatype Obj = Obj(key: Str, etag: Str, modNano: int64, value: seq<byte>)
  datatype Response = Response(err: Str, obj: Option<Obj>)

  const KEY_WIDTHS: seq<nat> := [2, 2]
  const VALUE_WIDTHS: seq<nat> := [4]

  /** What the reader distinguishes. Any status byte but 1 means success, any flag but 0 an object. */
  datatype Wire =
    | ErrorWire(text: Str)
    | EmptyWire(status: byte)
    | ObjectWire(status: byte, flag: byte, obj: Obj)

  predicate ObjFits(o: Obj) {
    |o.key| <= 0xFFFF && |o.etag| <= 0xFFFF && |o.value| <= 0xFFFF_FFFF
  }

  predicate WireOk(w: Wire) {
    match w
    case ErrorWire(text) => |text| <= 0xFFFF
    case EmptyWire(status) => status != 1
    case ObjectWire(status, flag, obj) => status != 1 && flag != 0 && ObjFits(obj)
  }

  function ObjBytes(o: Obj): seq<byte> {
    Fields(KEY_WIDTHS, [o.key, o.etag]) + (Int64Bytes(o.modNano) + Fields(VALUE_WIDTHS, [o.value]))
  }

  function StatusOf(w: Wire): byte {
    if w.ErrorWire? then 1 else w.status
  }

  function AfterStatus(w: Wire): seq<byte> {
    match w
    case ErrorWire(text) => Field(2, text)
    case EmptyWire(_) => [0]
    case ObjectWire(_, flag, obj) => [flag] + ObjBytes(obj)
  }

  function Head(status: byte): (h: seq<byte>)
    ensures |h| == 3
  {
    [MAGIC, VERSION, status]
  }

  function WireBytes(w: Wire): seq<byte> {
    Head(StatusOf(w)) + AfterStatus(w)
  }

  function Meaning(w: Wire): Response {
    match w
    case ErrorWire(text) => Response(text, None)
    case EmptyWire(_) => Response([], None)
    case ObjectWire(_, _, obj) => Response([], Some(obj))
  }

  /** What the writer picks for a response; an error hides the object. */
  function WireOf(r: Response): Wire {
    if r.err != [] then ErrorWire(r.err)
    else if r.obj.None? then EmptyWire(0)
    else ObjectWire(0, 1, r.obj.value)
  }

  // ---------------------------------------------------------------- unique reading

  lemma ObjFieldsFit(o: Obj)
    ensures ObjFits(o) <==> FieldsFit(KEY_WIDTHS, [o.key, o.etag]) && FieldsFit(VALUE_WIDTHS, [o.value])
  {
    Widths();
    var k, v := [o.key, o.etag], [o.value];
    if FieldsFit(KEY_WIDTHS, k) && FieldsFit(VALUE_WIDTHS, v) {
      assert |k[0]| < Pow256(KEY_WIDTHS[0]) && |k[1]| < Pow256(KEY_WIDTHS[1]) && |v[0]| < Pow256(VALUE_WIDTHS[0]);
    }
  }

  lemma Int64Unique(a: int64, x: seq<byte>, b: int64, y: seq<byte>)
    requires Int64Bytes(a) + x == Int64Bytes(b) + y
    ensures a == b && x == y
  {
    var s, t := Int64Bytes(a) + x, Int64Bytes(b) + y;
    assert s[..8] == Int64Bytes(a) && t[..8] == Int64Bytes(b);
    Int64RoundTrip(a, Int64Bytes(a));
    Int64RoundTrip(b, Int64Bytes(b));
    assert s[8..] == x && t[8..] == y;
  }

  lemma ObjSplit(o: Obj, t: seq<byte>)
    ensures ObjBytes(o) + t == Fields(KEY_WIDTHS, [o.key, o.etag])
            + (Int64Bytes(o.modNano) + (Fields(VALUE_WIDTHS, [o.value]) + t))
  {
  }

  lemma ObjUnique(a: Obj, x: seq<byte>, b: Obj, y: seq<byte>)
    requires ObjFits(a) && ObjFits(b)
    requires ObjBytes(a) + x == ObjBytes(b) + y
    ensures a == b && x == y
  {
    ObjFieldsFit(a);
    ObjFieldsFit(b);
    ObjSplit(a, x);
    ObjSplit(b, y);
    var ka, kb, va, vb := [a.key, a.etag], [b.key, b.etag], [a.value], [b.value];
    var xa, xb := Fields(VALUE_WIDTHS, va) + x, Fields(VALUE_WIDTHS, vb) + y;
    FieldsUnique(KEY_WIDTHS, ka, Int64Bytes(a.modNano) + xa, kb, Int64Bytes(b.modNano) + xb);
    Int64Unique(a.modNano, xa, b.modNano, xb);
    FieldsUnique(VALUE_WIDTHS, va, x, vb, y);
    assert ka[0] == kb[0] && ka[1] == kb[1] && va[0] == vb[0];
  }

  lemma HeadUnique(a: byte, x: seq<byte>, b: byte, y: seq<byte>)
    requires Head(a) + x == Head(b) + y
    ensures a == b && x == y
  {
    var s, t := Head(a) + x, Head(b) + y;
    assert s[2] == a && t[2] == b && s[3..] == x && t[3..] == y;
  }

  lemma FirstUnique(a: byte, x: seq<byte>, b: byte, y: seq<byte>)
    requires [a] + x == [b] + y
    ensures a == b && x == y
  {
    var s, t := [a] + x, [b] + y;
    assert s[0] == a && t[0] == b && s[1..] == x && t[1..] == y;
  }

  lemma WireSplit(w: Wire, t: seq<byte>)
    ensures WireBytes(w) + t == Head(StatusOf(w)) + (AfterStatus(w) + t)
    ensures w.EmptyWire? ==> AfterStatus(w) + t == [0] + t
    ensures w.ObjectWire? ==> AfterStatus(w) + t == [w.flag] + (ObjBytes(w.obj) + t)
  {
    Assoc(Head(StatusOf(w)), AfterStatus(w), t);
    if w.ObjectWire? { Assoc([w.flag], ObjBytes(w.obj), t); }
  }

  /** No wire form is a prefix of another, and its bytes determine it. */
  lemma WireUnique(a: Wire, x: seq<byte>, b: Wire, y: seq<byte>)
    requires WireOk(a) && WireOk(b)
    requires WireBytes(a) + x == WireBytes(b) + y
    ensures a == b && x == y
  {
    WireSplit(a, x);
    WireSplit(b, y);
    HeadUnique(StatusOf(a), AfterStatus(a) + x, StatusOf(b), AfterStatus(b) + y);
    if a.ErrorWire? {
      Widths();
      FieldUnique(2, a.text, x, b.text, y);
    } else {
      var (fa, ra) := if a.EmptyWire? then (0, x) else (a.flag, ObjBytes(a.obj) + x);
      var (fb, rb) := if b.EmptyWire? then (0, y) else (b.flag, ObjBytes(b.obj) + y);
      FirstUnique(fa, ra, fb, rb);
      if a.ObjectWire? {
        ObjUnique(a.obj, x, b.obj, y);
      }
    }
  }

  ghost predicate NoWire(d: seq<byte>) {
    forall w: Wire, t :: WireOk(w) ==> d != WireBytes(w) + t
  }

  lemma Rejoin(f: seq<byte>, cut: nat, p: seq<byte>, t: seq<byte>)
    requires cut <= |f| && f[..cut] == p + t
    ensures f + [] == p + (t + f[cut..])
  {
  }

  /** A response cut short anywhere reads as nothing at all. */
  lemma TruncatedWireRejected(w: Wire, cut: nat)
    requires WireOk(w) && cut < |WireBytes(w)|
    ensures NoWire(WireBytes(w)[..cut])
  {
    var f := WireBytes(w);
    forall v: Wire, t | WireOk(v) ensures f[..cut] != WireBytes(v) + t {
      if f[..cut] == WireBytes(v) + t {
        Rejoin(f, cut, WireBytes(v), t);
        WireUnique(w, [], v, t + f[cut..]);
        assert false;
      }
    }
  }

  // ---------------------------------------------------------------- the writer's range

  /** The lengths the writer stores without losing digits, and no object hidden by an error. */
  predicate ResponseFits(r: Response) {
    if r.err != [] then |r.err| <= 0xFFFF && r.obj.None?
    else r.obj.Some? ==> ObjFits(r.obj.value)
  }

  ghost predicate ReadsBack(r: Response) {
    exists w: Wire :: WireOk(w) && Meaning(w) == r && WireBytes(WireOf(r)) == WireBytes(w)
  }

  /** A response survives the wire exactly when its lengths fit; the writer itself never checks. */
  lemma ReadsBackIff(r: Response)
    ensures ReadsBack(r) <==> ResponseFits(r)
  {
    if ResponseFits(r) {
      assert WireOk(WireOf(r)) && Meaning(WireOf(r)) == r;
    }
  }

  /** The bytes of a response one by one. */
  lemma ResponseLayout(r: Response)
    ensures WireBytes(WireOf(r))
      == if r.err != [] then [0x4A, 1, 1] + ([|r.err| / 256 % 256, |r.err| % 256] + r.err)
         else if r.obj.None? then [0x4A, 1, 0, 0]
         else
           var o := r.obj.value;
           [0x4A, 1, 0, 1]
           + ([|o.key| / 256 % 256, |o.key| % 256] + o.key
           + ([|o.etag| / 256 % 256, |o.etag| % 256] + o.etag
           + (Int64Bytes(o.modNano)
           + ([|o.value| / 256 / 256 / 256 % 256, |o.value| / 256 / 256 % 256, |o.value| / 256 % 256, |o.value| % 256]
              + o.value))))
  {
    U16(|r.err|);
    if r.err == [] && r.obj.Some? {
      var o := r.obj.value;
      ObjLayout(o);
      assert Head(0) + ([1] + ObjBytes(o)) == [0x4A, 1, 0, 1] + ObjBytes(o);
    }
  }

  lemma ObjLayout(o: Obj)
    ensures ObjBytes(o)
      == [|o.key| / 256 % 256, |o.key| % 256] + o.key
         + ([|o.etag| / 256 % 256, |o.etag| % 256] + o.etag
         + (Int64Bytes(o.modNano)
         + ([|o.value| / 256 / 256 / 256 % 256, |o.value| / 256 / 256 % 256, |o.value| / 256 % 256, |o.value| % 256]
            + o.value)))
  {
    U16(|o.key|);
    U16(|o.etag|);
    U32(|o.value|);
    TwoFields(o.key, o.etag);
    OneField(o.value);
    Assoc(Field(2, o.key), Field(2, o.etag), Int64Bytes(o.modNano) + Field(4, o.value));
  }

  /** An error text of 64 KiB or more keeps only the low 16 bits of its length: the reader takes a
      shorter text and the rest stays in the stream for the next reader. */
  lemma OversizeErrorLeavesResidue(text: Str, tail: seq<byte>)
    requires |text| > 0xFFFF
    ensures
      var n := |text| % 0x1_0000;
      && WireBytes(ErrorWire(text)) + tail == WireBytes(ErrorWire(text[..n])) + (text[n..] + tail)
      && text[n..] != []
  {
    var n := |text| % 0x1_0000;
    TruncatedLength(text);
    WireSplit(ErrorWire(text), tail);
    WireSplit(ErrorWire(text[..n]), text[n..] + tail);
    Assoc(Field(2, text[..n]), text[n..], tail);
  }

  lemma Assoc(a: seq<byte>, b: seq<byte>, c: seq<byte>)
    ensures a + b + c == a + (b + c)
  {
  }

  lemma TruncatedLength(text: Str)
    ensures
      var n := |text| % 0x1_0000;
      Field(2, text) == Field(2, text[..n]) + text[n..]
  {
    var n := |text| % 0x1_0000;
    LowU16(|text|);
    Glue(BigEndian(|text|, 2), text, n);
  }

  lemma Glue(p: seq<byte>, s: seq<byte>, n: nat)
    requires n <= |s|
    ensures p + s == p + s[..n] + s[n..]
  {
  }

  lemma LowU16(v: nat)
    ensures BigEndian(v, 2) == BigEndian(v % 0x1_0000, 2)
  {
    var n, q := v % 0x1_0000, v / 0x1_0000;
    assert v == 256 * (256 * q) + n;
    U16(v);
    U16(n);
    assert v % 256 == n % 256;
    assert v / 256 == 256 * q + n / 256;
  }

  // ---------------------------------------------------------------- reader

  lemma NoWireShort(d: seq<byte>)
    requires |d| < 3 || d[0] != MAGIC || d[1] != VERSION
    ensures NoWire(d)
  {
  }

  lemma NoWireError(d: seq<byte>)
    requires NoField(2, d)
    ensures NoWire(Head(1) + d)
  {
    Widths();
    forall w: Wire, t | WireOk(w) && Head(1) + d == WireBytes(w) + t ensures false {
      WireSplit(w, t);
      HeadUnique(1, d, StatusOf(w), AfterStatus(w) + t);
    }
  }

  lemma NoWireFlag(status: byte)
    requires status != 1
    ensures NoWire(Head(status))
  {
  }

  lemma NoWireObject(status: byte, flag: byte, d: seq<byte>)
    requires status != 1 && flag != 0
    requires forall o: Obj, t :: ObjFits(o) ==> d != ObjBytes(o) + t
    ensures NoWire(Head(status) + ([flag] + d))
  {
    forall w: Wire, t | WireOk(w) && Head(status) + ([flag] + d) == WireBytes(w) + t ensures false {
      WireSplit(w, t);
      HeadUnique(status, [flag] + d, StatusOf(w), AfterStatus(w) + t);
      FirstUnique(flag, d, if w.EmptyWire? then 0 else w.flag,
                  if w.EmptyWire? then t else ObjBytes(w.obj) + t);
    }
  }

  method ReadObject(stream: Stream) returns (r: Option<Obj>)
    modifies stream
    ensures r.Some? ==> ObjFits(r.value) && old(stream.data) == ObjBytes(r.value) + stream.data
    ensures r.None? ==> forall o: Obj, t :: ObjFits(o) ==> old(stream.data) != ObjBytes(o) + t
  {
    ghost var d := stream.data;
    var names := stream.ReadFields(KEY_WIDTHS);
    if names.None? {
      NoNames(d);
      return None;
    }
    ghost var afterNames := stream.data;
    var nano := stream.ReadFull(8);
    if nano.None? {
      NoTime(names.value, afterNames);
      return None;
    }
    Int64RoundTrip(0, nano.value);
    var modNano := ToSigned(FromBigEndian(nano.value));
    ghost var afterTime := stream.data;
    assert afterNames == Int64Bytes(modNano) + afterTime;
    var value := stream.ReadFields(VALUE_WIDTHS);
    if value.None? {
      NoValue(names.value, modNano, afterTime);
      return None;
    }
    r := Some(Obj(names.value[0], names.value[1], modNano, value.value[0]));
    assert [r.value.key, r.value.etag] == names.value && [r.value.value] == value.value;
    ObjFieldsFit(r.value);
  }

  lemma NoNames(d: seq<byte>)
    requires NoFields(KEY_WIDTHS, d)
    ensures forall o: Obj, t :: ObjFits(o) ==> d != ObjBytes(o) + t
  {
    forall o: Obj, t | ObjFits(o) ensures d != ObjBytes(o) + t {
      ObjFieldsFit(o);
      assert ObjBytes(o) + t == Fields(KEY_WIDTHS, [o.key, o.etag])
             + (Int64Bytes(o.modNano) + Fields(VALUE_WIDTHS, [o.value]) + t);
    }
  }

  lemma NoTime(names: seq<seq<byte>>, d: seq<byte>)
    requires FieldsFit(KEY_WIDTHS, names) && |d| < 8
    ensures forall o: Obj, t :: ObjFits(o) ==> Fields(KEY_WIDTHS, names) + d != ObjBytes(o) + t
  {
    forall o: Obj, t | ObjFits(o) ensures Fields(KEY_WIDTHS, names) + d != ObjBytes(o) + t {
      ObjFieldsFit(o);
      var rest := Int64Bytes(o.modNano) + Fields(VALUE_WIDTHS, [o.value]) + t;
      assert ObjBytes(o) + t == Fields(KEY_WIDTHS, [o.key, o.etag]) + rest;
      if Fields(KEY_WIDTHS, names) + d == Fields(KEY_WIDTHS, [o.key, o.etag]) + rest {
        FieldsUnique(KEY_WIDTHS, names, d, [o.key, o.etag], rest);
        assert false;
      }
    }
  }

  lemma NoValue(names: seq<seq<byte>>, nano: int64, d: seq<byte>)
    requires FieldsFit(KEY_WIDTHS, names) && NoFields(VALUE_WIDTHS, d)
    ensures forall o: Obj, t :: ObjFits(o) ==>
      Fields(KEY_WIDTHS, names) + (Int64Bytes(nano) + d) != ObjBytes(o) + t
  {
    var s := Int64Bytes(nano) + d;
    forall o: Obj, t | ObjFits(o) ensures Fields(KEY_WIDTHS, names) + s != ObjBytes(o) + t {
      ObjFieldsFit(o);
      var value := Fields(VALUE_WIDTHS, [o.value]) + t;
      var rest := Int64Bytes(o.modNano) + value;
      assert ObjBytes(o) + t == Fields(KEY_WIDTHS, [o.key, o.etag]) + rest;
      if Fields(KEY_WIDTHS, names) + s == Fields(KEY_WIDTHS, [o.key, o.etag]) + rest {
        FieldsUnique(KEY_WIDTHS, names, s, [o.key, o.etag], rest);
        Int64Unique(nano, d, o.modNano, value);
        assert false;
      }
    }
  }

  /** Reads one response: consumes exactly one wire form, or nothing readable was there. */
  method ReadResponse(stream: Stream) returns (r: Option<Response>, ghost wire: Wire)
    modifies stream
    ensures r.Some? ==> WireOk(wire) && Meaning(wire) == r.value
                        && old(stream.data) == WireBytes(wire) + stream.data
    ensures r.None? ==> NoWire(old(stream.data))
  {
    ghost var d := stream.data;
    wire := EmptyWire(0);
    var header := stream.ReadFull(3);
    if header.None? || header.value[0] != MAGIC || header.value[1] != VERSION {
      NoWireShort(d);
      return None, wire;
    }
    var status := header.value[2];
    assert header.value == Head(status);
    if status == 1 {
      ghost var body := stream.data;
      assert d == Head(1) + body;
      var text := stream.ReadField(2);
      if text.None? {
        NoWireError(body);
        return None, wire;
      }
      Widths();
      return Some(Response(text.value, None)), ErrorWire(text.value);
    }
    var flag := stream.ReadFull(1);
    if flag.None? {
      assert d == Head(status);
      NoWireFlag(status);
      return None, wire;
    }
    assert flag.value == [flag.value[0]];
    if flag.value[0] == 0 {
      return Some(Response([], None)), EmptyWire(status);
    }
    ghost var rest := stream.data;
    assert d == Head(status) + ([flag.value[0]] + rest);
    var obj := ReadObject(stream);
    if obj.None? {
      NoWireObject(status, flag.value[0], rest);
      return None, wire;
    }
    wire := ObjectWire(status, flag.value[0], obj.value);
    WireSplit(wire, stream.data);
    return Some(Response([], obj)), wire;
  }

  // ---------------------------------------------------------------- writer

  function ObjectLength(o: Obj): nat {
    3 + 1 + 2 + |o.key| + 2 + |o.etag| + 8 + 4 + |o.value|
  }

  method FillObject(buf: array<byte>, o: Obj)
    requires ObjectLength(o) <= buf.Length
    modifies buf
    ensures buf[..ObjectLength(o)] == WireBytes(ObjectWire(0, 1, o))
  {
    ObjectPieces(o);
    ghost var wire := [MAGIC, VERSION, 0, 1];
    var off := Copy(buf, 0, [MAGIC, VERSION, 0, 1]);
    assert buf[..off] == wire;
    off := PutField(buf, off, 2, o.key);
    wire := wire + Field(2, o.key);
    off := PutField(buf, off, 2, o.etag);
    wire := wire + Field(2, o.etag);
    off := Copy(buf, off, Int64Bytes(o.modNano));
    wire := wire + Int64Bytes(o.modNano);
    off := PutField(buf, off, 4, o.value);
    wire := wire + Field(4, o.value);
    assert buf[..off] == wire;
  }

  lemma ObjectPieces(o: Obj)
    ensures [MAGIC, VERSION, 0, 1] == Head(0) + [1]
    ensures WireBytes(ObjectWire(0, 1, o))
         == Head(0) + [1] + Field(2, o.key) + Field(2, o.etag) + Int64Bytes(o.modNano) + Field(4, o.value)
  {
    TwoFields(o.key, o.etag);
    OneField(o.value);
    WirePieces(Head(0), [1], Field(2, o.key), Field(2, o.etag), Int64Bytes(o.modNano), Field(4, o.value));
  }

  lemma WirePieces(h: seq<byte>, f: seq<byte>, a: seq<byte>, b: seq<byte>, c: seq<byte>, d: seq<byte>)
    ensures h + (f + ((a + b) + (c + d))) == (h + f) + a + b + c + d
  {
  }

  lemma TwoFields(a: seq<byte>, b: seq<byte>)
    ensures Fields(KEY_WIDTHS, [a, b]) == Field(2, a) + Field(2, b)
  {
    assert Fields([], []) == [] && KEY_WIDTHS[1..] == [2] && [a, b][1..] == [b];
    assert Fields([2], [b]) == Field(2, b) + Fields([2][1..], [b][1..]);
  }

  lemma OneField(a: seq<byte>)
    ensures Fields(VALUE_WIDTHS, [a]) == Field(4, a)
  {
  }

  /** Serializes a response; whatever was in the pooled buffer before, the wire is the response's. */
  method WriteResponse(pool: array<byte>, r: Response) returns (wire: seq<byte>)
    requires pool.Length == POOL_BUFFER
    modifies pool
    ensures wire == WireBytes(WireOf(r))
  {
    if r.err != [] {
      var buf := new byte[3 + 2 + |r.err|];
      var off := Copy(buf, 0, [MAGIC, VERSION, 1]);
      off := PutField(buf, off, 2, r.err);
      return buf[..off];
    }
    if r.obj.None? {
      return [MAGIC, VERSION, 0, 0];
    }
    var total := ObjectLength(r.obj.value);
    var buf := pool;
    if total > POOL_BUFFER {
      buf := new byte[total];
    }
    FillObject(buf, r.obj.value);
    return buf[..total];
  }
}

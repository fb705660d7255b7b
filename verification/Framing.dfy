/** Binary framing of inter-query requests and responses. */
module Framing {
  import opened Base

  const MAGIC: byte := 0x4A
  const VERSION: byte := 1
  const POOL_BUFFER := 65536

  // ---------------------------------------------------------------- integers

  function Pow256(w: nat): nat {
    if w == 0 then 1 else 256 * Pow256(w - 1)
  }

  /** The low `w` bytes of `v`, most significant first: what PutUint16/32/64 store, truncation and all. */
  function BigEndian(v: nat, w: nat): (r: seq<byte>)
    ensures |r| == w
  {
    if w == 0 then [] else BigEndian(v / 256, w - 1) + [v % 256]
  }

  function FromBigEndian(s: seq<byte>): nat {
    if s == [] then 0 else 256 * FromBigEndian(s[..|s| - 1]) + s[|s| - 1]
  }

  lemma {:induction false} IntRoundTrip(v: nat, w: nat)
    requires v < Pow256(w)
    ensures FromBigEndian(BigEndian(v, w)) == v
  {
    if w > 0 {
      IntRoundTrip(v / 256, w - 1);
      assert BigEndian(v, w)[..w - 1] == BigEndian(v / 256, w - 1);
    }
  }

  lemma {:induction false} BytesRoundTrip(s: seq<byte>)
    ensures FromBigEndian(s) < Pow256(|s|)
    ensures BigEndian(FromBigEndian(s), |s|) == s
  {
    if s != [] {
      BytesRoundTrip(s[..|s| - 1]);
    }
  }

  lemma Widths()
    ensures Pow256(2) == 0x1_0000 && Pow256(4) == 0x1_0000_0000 && Pow256(8) == 0x1_0000_0000_0000_0000
  {
    assert Pow256(3) == 256 * Pow256(2);
    assert Pow256(4) == 256 * Pow256(3);
    assert Pow256(5) == 256 * Pow256(4);
    assert Pow256(6) == 256 * Pow256(5);
    assert Pow256(7) == 256 * Pow256(6);
  }

  type int64 = x: int | -0x8000_0000_0000_0000 <= x < 0x8000_0000_0000_0000

  /** Go's `uint64(x)` and `int64(u)`. */
  function ToUnsigned(x: int64): nat {
    if x < 0 then x + 0x1_0000_0000_0000_0000 else x
  }

  function ToSigned(u: nat): int64
    requires u < 0x1_0000_0000_0000_0000
  {
    if u < 0x8000_0000_0000_0000 then u else u - 0x1_0000_0000_0000_0000
  }

  function Int64Bytes(x: int64): (r: seq<byte>)
    ensures |r| == 8
  {
    BigEndian(ToUnsigned(x), 8)
  }

  lemma Int64RoundTrip(x: int64, s: seq<byte>)
    requires |s| == 8
    ensures FromBigEndian(Int64Bytes(x)) < 0x1_0000_0000_0000_0000
    ensures ToSigned(FromBigEndian(Int64Bytes(x))) == x
    ensures FromBigEndian(s) < 0x1_0000_0000_0000_0000
    ensures Int64Bytes(ToSigned(FromBigEndian(s))) == s
  {
    Widths();
    IntRoundTrip(ToUnsigned(x), 8);
    BytesRoundTrip(s);
  }

  // ---------------------------------------------------------------- length-prefixed fields

  function Field(w: nat, s: seq<byte>): (r: seq<byte>)
    ensures |r| == w + |s|
  {
    BigEndian(|s|, w) + s
  }

  /** Consecutive fields; `ws` gives the width of each length prefix. */
  function Fields(ws: seq<nat>, fs: seq<seq<byte>>): seq<byte>
    requires |ws| == |fs|
  {
    if ws == [] then [] else Field(ws[0], fs[0]) + Fields(ws[1..], fs[1..])
  }

  ghost predicate FieldsFit(ws: seq<nat>, fs: seq<seq<byte>>) {
    |ws| == |fs| && forall i :: 0 <= i < |ws| ==> |fs[i]| < Pow256(ws[i])
  }

  lemma FieldUnique(w: nat, a: seq<byte>, x: seq<byte>, b: seq<byte>, y: seq<byte>)
    requires |a| < Pow256(w) && |b| < Pow256(w)
    requires Field(w, a) + x == Field(w, b) + y
    ensures a == b && x == y
  {
    var s := Field(w, a) + x;
    assert s[..w] == BigEndian(|a|, w) && (Field(w, b) + y)[..w] == BigEndian(|b|, w);
    IntRoundTrip(|a|, w);
    IntRoundTrip(|b|, w);
    assert |a| == |b|;
    assert s[w..w + |a|] == a && (Field(w, b) + y)[w..w + |b|] == b;
    assert s[w + |a|..] == x && (Field(w, b) + y)[w + |b|..] == y;
  }

  lemma {:induction false} FieldsUnique(ws: seq<nat>, fs: seq<seq<byte>>, x: seq<byte>, gs: seq<seq<byte>>, y: seq<byte>)
    requires FieldsFit(ws, fs) && FieldsFit(ws, gs)
    requires Fields(ws, fs) + x == Fields(ws, gs) + y
    ensures fs == gs && x == y
  {
    if ws == [] {
      assert Fields(ws, fs) + x == x && Fields(ws, gs) + y == y;
    } else {
      var fx, gy := Fields(ws[1..], fs[1..]) + x, Fields(ws[1..], gs[1..]) + y;
      assert Fields(ws, fs) + x == Field(ws[0], fs[0]) + fx;
      assert Fields(ws, gs) + y == Field(ws[0], gs[0]) + gy;
      FieldUnique(ws[0], fs[0], fx, gs[0], gy);
      FieldsUnique(ws[1..], fs[1..], x, gs[1..], y);
      assert fs == [fs[0]] + fs[1..] && gs == [gs[0]] + gs[1..];
    }
  }

  // ---------------------------------------------------------------- streams

  class Stream {
    var data: seq<byte>   // the unread bytes

    constructor (data: seq<byte>)
      ensures this.data == data
    {
      this.data := data;
    }

    /** `io.ReadFull`: all `n` bytes, or an error after consuming whatever there was. */
    method ReadFull(n: nat) returns (r: Option<seq<byte>>)
      modifies this
      ensures if n <= |old(data)| then r == Some(old(data)[..n]) && data == old(data)[n..]
              else r == None && data == []
    {
      if n <= |data| {
        r := Some(data[..n]);
        data := data[n..];
      } else {
        r := None;
        data := [];
      }
    }

    /** A length prefix of `w` bytes, then that many bytes. */
    method ReadField(w: nat) returns (r: Option<seq<byte>>)
      modifies this
      ensures r.Some? ==> |r.value| < Pow256(w) && old(data) == Field(w, r.value) + data
      ensures r.None? ==> NoField(w, old(data))
    {
      var prefix := ReadFull(w);
      if prefix.None? {
        return None;
      }
      BytesRoundTrip(prefix.value);
      var n := FromBigEndian(prefix.value);
      r := ReadFull(n);
      if r.None? {
        ShortField(w, old(data));
      } else {
        assert old(data) == prefix.value + (r.value + data);
      }
    }

    /** The reader's block for one field, once per width. */
    method ReadFields(ws: seq<nat>) returns (r: Option<seq<seq<byte>>>)
      modifies this
      ensures r.Some? ==> FieldsFit(ws, r.value) && old(data) == Fields(ws, r.value) + data
      ensures r.None? ==> NoFields(ws, old(data))
      decreases |ws|
    {
      if ws == [] {
        return Some([]);
      }
      var first := ReadField(ws[0]);
      if first.None? {
        FirstMissing(ws, old(data));
        return None;
      }
      ghost var middle := data;
      var rest := ReadFields(ws[1..]);
      if rest.None? {
        LaterMissing(ws, first.value, middle);
        return None;
      }
      r := Some([first.value] + rest.value);
      assert r.value[1..] == rest.value;
      assert old(data) == Field(ws[0], first.value) + (Fields(ws[1..], rest.value) + data);
    }
  }

  ghost predicate NoField(w: nat, d: seq<byte>) {
    forall s, t :: |s| < Pow256(w) ==> d != Field(w, s) + t
  }

  ghost predicate NoFields(ws: seq<nat>, d: seq<byte>) {
    forall fs, t :: FieldsFit(ws, fs) ==> d != Fields(ws, fs) + t
  }

  lemma ShortField(w: nat, d: seq<byte>)
    requires |d| >= w && |d| < w + FromBigEndian(d[..w])
    ensures NoField(w, d)
  {
    forall s, t | |s| < Pow256(w) ensures d != Field(w, s) + t {
      if d == Field(w, s) + t {
        assert d[..w] == BigEndian(|s|, w);
        IntRoundTrip(|s|, w);
        assert false;
      }
    }
  }

  lemma FirstMissing(ws: seq<nat>, d: seq<byte>)
    requires ws != [] && NoField(ws[0], d)
    ensures NoFields(ws, d)
  {
    forall fs, t | FieldsFit(ws, fs) ensures d != Fields(ws, fs) + t {
      assert Fields(ws, fs) + t == Field(ws[0], fs[0]) + (Fields(ws[1..], fs[1..]) + t);
    }
  }

  lemma LaterMissing(ws: seq<nat>, first: seq<byte>, d: seq<byte>)
    requires ws != [] && |first| < Pow256(ws[0]) && NoFields(ws[1..], d)
    ensures NoFields(ws, Field(ws[0], first) + d)
  {
    forall fs, t | FieldsFit(ws, fs) ensures Field(ws[0], first) + d != Fields(ws, fs) + t {
      var rest := Fields(ws[1..], fs[1..]) + t;
      assert Fields(ws, fs) + t == Field(ws[0], fs[0]) + rest;
      if Field(ws[0], first) + d == Field(ws[0], fs[0]) + rest {
        FieldUnique(ws[0], first, d, fs[0], rest);
        assert FieldsFit(ws[1..], fs[1..]);
        assert false;
      }
    }
  }

  // ---------------------------------------------------------------- requests

  datatype Request = Request(op: byte, ts: int64, auth: Str, namespace: Str, key: Str,
                             expectedETag: Str, value: seq<byte>)

  const REQUEST_WIDTHS: seq<nat> := [2, 2, 2, 2, 4]

  function RequestFields(r: Request): seq<seq<byte>> {
    [r.auth, r.namespace, r.key, r.expectedETag, r.value]
  }

  function RequestHeader(op: byte, ts: int64): (h: seq<byte>)
    ensures |h| == 11
  {
    [MAGIC, VERSION, op] + Int64Bytes(ts)
  }

  function RequestFrame(r: Request): seq<byte> {
    RequestHeader(r.op, r.ts) + Fields(REQUEST_WIDTHS, RequestFields(r))
  }

  /** The size limits the writer enforces. */
  predicate RequestFits(r: Request) {
    && |r.auth| <= 0xFFFF && |r.namespace| <= 0xFFFF && |r.key| <= 0xFFFF
    && |r.expectedETag| <= 0xFFFF && |r.value| <= 0xFFFF_FFFF
  }

  lemma FitsIsFieldsFit(r: Request)
    ensures RequestFits(r) <==> FieldsFit(REQUEST_WIDTHS, RequestFields(r))
  {
    Widths();
    var fs := RequestFields(r);
    if FieldsFit(REQUEST_WIDTHS, fs) {
      assert |fs[0]| < Pow256(REQUEST_WIDTHS[0]) && |fs[1]| < Pow256(REQUEST_WIDTHS[1])
          && |fs[2]| < Pow256(REQUEST_WIDTHS[2]) && |fs[3]| < Pow256(REQUEST_WIDTHS[3])
          && |fs[4]| < Pow256(REQUEST_WIDTHS[4]);
    }
  }

  lemma HeaderUnique(op: byte, ts: int64, x: seq<byte>, op': byte, ts': int64, y: seq<byte>)
    requires RequestHeader(op, ts) + x == RequestHeader(op', ts') + y
    ensures op == op' && ts == ts' && x == y
  {
    var s := RequestHeader(op, ts) + x;
    var s' := RequestHeader(op', ts') + y;
    assert s[2] == op && s'[2] == op';
    assert s[3..11] == Int64Bytes(ts) && s'[3..11] == Int64Bytes(ts');
    Int64RoundTrip(ts, Int64Bytes(ts));
    Int64RoundTrip(ts', Int64Bytes(ts'));
    assert s[11..] == x && s'[11..] == y;
  }

  /** No request frame is a prefix of another, and a frame determines its request. */
  lemma RequestFrameUnique(a: Request, x: seq<byte>, b: Request, y: seq<byte>)
    requires RequestFits(a) && RequestFits(b)
    requires RequestFrame(a) + x == RequestFrame(b) + y
    ensures a == b && x == y
  {
    var fa, fb := Fields(REQUEST_WIDTHS, RequestFields(a)), Fields(REQUEST_WIDTHS, RequestFields(b));
    assert RequestFrame(a) + x == RequestHeader(a.op, a.ts) + (fa + x);
    assert RequestFrame(b) + y == RequestHeader(b.op, b.ts) + (fb + y);
    HeaderUnique(a.op, a.ts, fa + x, b.op, b.ts, fb + y);
    FitsIsFieldsFit(a);
    FitsIsFieldsFit(b);
    FieldsUnique(REQUEST_WIDTHS, RequestFields(a), x, RequestFields(b), y);
    assert RequestFields(a)[0] == a.auth && RequestFields(a)[1] == a.namespace && RequestFields(a)[2] == a.key
        && RequestFields(a)[3] == a.expectedETag && RequestFields(a)[4] == a.value;
  }

  lemma U16(v: nat)
    ensures BigEndian(v, 2) == [v / 256 % 256, v % 256]
  {
    assert BigEndian(v / 256, 1) == BigEndian(v / 256 / 256, 0) + [v / 256 % 256];
  }

  lemma U32(v: nat)
    ensures BigEndian(v, 4) == [v / 256 / 256 / 256 % 256, v / 256 / 256 % 256, v / 256 % 256, v % 256]
  {
    U16(v / 256 / 256);
    assert BigEndian(v / 256, 3) == BigEndian(v / 256 / 256, 2) + [v / 256 % 256];
  }

  /** The bytes of a request one by one, as any other implementation would have to write them. */
  lemma RequestLayout(r: Request)
    ensures RequestFrame(r)
      == [0x4A, 1, r.op] + Int64Bytes(r.ts)
         + ([|r.auth| / 256 % 256, |r.auth| % 256] + r.auth
         + ([|r.namespace| / 256 % 256, |r.namespace| % 256] + r.namespace
         + ([|r.key| / 256 % 256, |r.key| % 256] + r.key
         + ([|r.expectedETag| / 256 % 256, |r.expectedETag| % 256] + r.expectedETag
         + ([|r.value| / 256 / 256 / 256 % 256, |r.value| / 256 / 256 % 256, |r.value| / 256 % 256, |r.value| % 256]
            + r.value)))))
  {
    U16(|r.auth|);
    U16(|r.namespace|);
    U16(|r.key|);
    U16(|r.expectedETag|);
    U32(|r.value|);
    FiveFields(2, r.auth, 2, r.namespace, 2, r.key, 2, r.expectedETag, 4, r.value);
  }

  lemma FiveFields(v: nat, a: seq<byte>, w: nat, b: seq<byte>, x: nat, c: seq<byte>, y: nat, d: seq<byte>, z: nat, e: seq<byte>)
    ensures Fields([v, w, x, y, z], [a, b, c, d, e]) == Field(v, a) + (Field(w, b) + (Field(x, c) + (Field(y, d) + Field(z, e))))
  {
    assert Fields([], []) == [];
    assert [z][1..] == [] && [e][1..] == [];
    assert Fields([z], [e]) == Field(z, e) + [];
    assert [y, z][1..] == [z] && [d, e][1..] == [e];
    assert Fields([y, z], [d, e]) == Field(y, d) + Field(z, e);
    assert [x, y, z][1..] == [y, z] && [c, d, e][1..] == [d, e];
    assert Fields([x, y, z], [c, d, e]) == Field(x, c) + Fields([y, z], [d, e]);
    assert [w, x, y, z][1..] == [x, y, z] && [b, c, d, e][1..] == [c, d, e];
    assert Fields([w, x, y, z], [b, c, d, e]) == Field(w, b) + Fields([x, y, z], [c, d, e]);
    assert [v, w, x, y, z][1..] == [w, x, y, z] && [a, b, c, d, e][1..] == [b, c, d, e];
  }

  ghost predicate NoRequest(d: seq<byte>) {
    forall r: Request, t :: RequestFits(r) ==> d != RequestFrame(r) + t
  }

  lemma BadHeader(d: seq<byte>)
    requires |d| < 11 || d[0] != MAGIC || d[1] != VERSION
    ensures NoRequest(d)
  {
  }

  lemma BadFields(op: byte, ts: int64, d: seq<byte>)
    requires NoFields(REQUEST_WIDTHS, d)
    ensures NoRequest(RequestHeader(op, ts) + d)
  {
    forall r: Request, t | RequestFits(r) ensures RequestHeader(op, ts) + d != RequestFrame(r) + t {
      var rest := Fields(REQUEST_WIDTHS, RequestFields(r)) + t;
      assert RequestFrame(r) + t == RequestHeader(r.op, r.ts) + rest;
      FitsIsFieldsFit(r);
      if RequestHeader(op, ts) + d == RequestHeader(r.op, r.ts) + rest {
        HeaderUnique(op, ts, d, r.op, r.ts, rest);
        assert false;
      }
    }
  }

  /** Reads one request. What it accepts re-encodes to exactly the bytes it consumed; what it
      rejects does not begin with any request frame. */
  method ReadRequest(stream: Stream) returns (r: Option<Request>)
    modifies stream
    ensures r.Some? ==> RequestFits(r.value) && old(stream.data) == RequestFrame(r.value) + stream.data
    ensures r.None? ==> NoRequest(old(stream.data))
  {
    ghost var d := stream.data;
    var header := stream.ReadFull(11);
    if header.None? || header.value[0] != MAGIC || header.value[1] != VERSION {
      BadHeader(d);
      return None;
    }
    var h := header.value;
    Int64RoundTrip(0, h[3..11]);
    var op, ts := h[2], ToSigned(FromBigEndian(h[3..11]));
    assert h == RequestHeader(op, ts);
    ghost var body := stream.data;
    var fields := stream.ReadFields(REQUEST_WIDTHS);
    assert d == RequestHeader(op, ts) + body;
    if fields.None? {
      BadFields(op, ts, body);
      return None;
    }
    var f := fields.value;
    r := Some(Request(op, ts, f[0], f[1], f[2], f[3], f[4]));
    assert RequestFields(r.value) == f;
    FitsIsFieldsFit(r.value);
    assert d == RequestFrame(r.value) + stream.data;
  }

  /** A frame followed by anything reads back as its request and leaves exactly what followed. */
  method ReadBack(req: Request, tail: seq<byte>) returns (r: Option<Request>, rest: seq<byte>)
    requires RequestFits(req)
    ensures r == Some(req) && rest == tail
  {
    var stream := new Stream(RequestFrame(req) + tail);
    r := ReadRequest(stream);
    rest := stream.data;
    RequestFrameUnique(req, tail, r.value, rest);
  }

  /** Every proper prefix of a frame fails to read. */
  lemma TruncatedRequestRejected(req: Request, cut: nat)
    requires RequestFits(req) && cut < |RequestFrame(req)|
    ensures NoRequest(RequestFrame(req)[..cut])
  {
    var f := RequestFrame(req);
    forall r: Request, t | RequestFits(r) ensures f[..cut] != RequestFrame(r) + t {
      if f[..cut] == RequestFrame(r) + t {
        assert f + [] == f == RequestFrame(r) + (t + f[cut..]);
        RequestFrameUnique(req, [], r, t + f[cut..]);
        assert false;
      }
    }
  }

  // ---------------------------------------------------------------- the in-place writer

  /** Go's `copy(buf[off:], bytes)`; the bytes before `off` stay. */
  method Copy(buf: array<byte>, off: nat, bytes: seq<byte>) returns (end: nat)
    requires off + |bytes| <= buf.Length
    modifies buf
    ensures end == off + |bytes|
    ensures buf[..end] == old(buf[..off]) + bytes
  {
    for i := 0 to |bytes|
      invariant buf[..off + i] == old(buf[..off]) + bytes[..i]
    {
      buf[off + i] := bytes[i];
      assert bytes[..i + 1] == bytes[..i] + [bytes[i]];
    }
    assert bytes[..|bytes|] == bytes;
    end := off + |bytes|;
  }

  method PutField(buf: array<byte>, off: nat, w: nat, s: seq<byte>) returns (end: nat)
    requires off + w + |s| <= buf.Length
    modifies buf
    ensures end == off + w + |s|
    ensures buf[..end] == old(buf[..off]) + Field(w, s)
  {
    end := Copy(buf, off, BigEndian(|s|, w));
    end := Copy(buf, end, s);
  }

  lemma {:induction false} FieldsSnoc(ws: seq<nat>, fs: seq<seq<byte>>, w: nat, f: seq<byte>)
    requires |ws| == |fs|
    ensures Fields(ws + [w], fs + [f]) == Fields(ws, fs) + Field(w, f)
  {
    var ws', fs' := ws + [w], fs + [f];
    if ws == [] {
      assert Fields(ws'[1..], fs'[1..]) == [];
    } else {
      assert ws'[1..] == ws[1..] + [w] && fs'[1..] == fs[1..] + [f];
      FieldsSnoc(ws[1..], fs[1..], w, f);
    }
  }

  /** The frame of a request up to and excluding its i-th field. */
  ghost function FrameUpTo(req: Request, i: nat): seq<byte>
    requires i <= 5
  {
    RequestHeader(req.op, req.ts) + Fields(REQUEST_WIDTHS[..i], RequestFields(req)[..i])
  }

  method PutRequestField(buf: array<byte>, off: nat, ghost req: Request, ghost i: nat, w: nat, s: seq<byte>)
    returns (end: nat)
    requires off + w + |s| <= buf.Length
    requires i < 5 && w == REQUEST_WIDTHS[i] && s == RequestFields(req)[i]
    requires buf[..off] == FrameUpTo(req, i)
    modifies buf
    ensures end == off + w + |s| && buf[..end] == FrameUpTo(req, i + 1)
  {
    end := PutField(buf, off, w, s);
    var ws, fs := REQUEST_WIDTHS, RequestFields(req);
    assert ws[..i + 1] == ws[..i] + [w] && fs[..i + 1] == fs[..i] + [s];
    FieldsSnoc(ws[..i], fs[..i], w, s);
  }

  function RequestLength(r: Request): nat {
    11 + 2 + |r.auth| + 2 + |r.namespace| + 2 + |r.key| + 2 + |r.expectedETag| + 4 + |r.value|
  }

  method FillRequest(buf: array<byte>, req: Request)
    requires RequestLength(req) <= buf.Length
    modifies buf
    ensures buf[..RequestLength(req)] == RequestFrame(req)
  {
    var off := Copy(buf, 0, [MAGIC, VERSION, req.op]);
    off := Copy(buf, off, Int64Bytes(req.ts));
    assert buf[..off] == FrameUpTo(req, 0);
    off := PutRequestField(buf, off, req, 0, 2, req.auth);
    off := PutRequestField(buf, off, req, 1, 2, req.namespace);
    off := PutRequestField(buf, off, req, 2, 2, req.key);
    off := PutRequestField(buf, off, req, 3, 2, req.expectedETag);
    off := PutRequestField(buf, off, req, 4, 4, req.value);
    assert REQUEST_WIDTHS[..5] == REQUEST_WIDTHS && RequestFields(req)[..5] == RequestFields(req);
  }

  /** Serializes into the pooled buffer when the frame fits it, else into a new one. Nothing a
      previous user left in the pooled buffer reaches the wire. */
  method WriteRequest(pool: array<byte>, req: Request) returns (wire: Option<seq<byte>>)
    requires pool.Length == POOL_BUFFER
    modifies pool
    ensures wire == if RequestFits(req) then Some(RequestFrame(req)) else None
  {
    if |req.auth| > 0xFFFF || |req.namespace| > 0xFFFF || |req.key| > 0xFFFF
       || |req.expectedETag| > 0xFFFF || |req.value| > 0xFFFF_FFFF {
      return None;
    }
    var total := RequestLength(req);
    var buf := pool;
    if total > POOL_BUFFER {
      buf := new byte[total];
    }
    FillRequest(buf, req);
    return Some(buf[..total]);
  }
}

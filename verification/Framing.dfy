/** The wire format: 2 bytes of message id and 2 bytes of body length, both big-endian,
    then the body.  Encoder and both readers as functions, and the laws that connect them. */
module Framing {
  import opened Constants

  type Byte = b: int | 0 <= b < 0x100
  type Short = x: int | -0x8000 <= x < 0x8000

  /** `static_cast<short>` of a non-negative size: reduction modulo 2^16, upper half negative. */
  function ToShort(n: nat): Short {
    var m := n % 0x1_0000;
    if m < 0x8000 then m else m - 0x1_0000
  }

  /** The two bytes of a short in network byte order. */
  function HostToNetwork(x: Short): (bytes: seq<Byte>)
    ensures |bytes| == 2
  {
    var u := if x < 0 then x + 0x1_0000 else x;
    [u / 0x100, u % 0x100]
  }

  /** The short two bytes in network order stand for. */
  function NetworkToHost(hi: Byte, lo: Byte): Short {
    var u := hi * 0x100 + lo;
    if u < 0x8000 then u else u - 0x1_0000
  }

  datatype Frame = Frame(id: Short, body: seq<Byte>)

  /** What `Send` lets into a send queue. */
  predicate Sendable(f: Frame) {
    1 <= |f.body| <= MAX_LENGTH
  }

  function Encode(f: Frame): (bytes: seq<Byte>)
    requires |f.body| < 0x8000
    ensures |bytes| == HEAD_TOTAL_LEN + |f.body|
  {
    HostToNetwork(f.id) + HostToNetwork(|f.body|) + f.body
  }

  predicate AllSendable(fs: seq<Frame>) {
    forall i :: 0 <= i < |fs| ==> Sendable(fs[i])
  }

  function EncodeAll(fs: seq<Frame>): seq<Byte>
    requires AllSendable(fs)
  {
    if fs == [] then [] else Encode(fs[0]) + EncodeAll(fs[1..])
  }

  /** The two peers that read frames. */
  datatype Side = Client | Server

  /** What a reader concludes from a complete header. */
  datatype Verdict = Accept | BadId | BadLength

  function Inspect(side: Side, id: Short, len: Short): Verdict {
    match side
    case Client => if len <= 0 || len > MAX_LENGTH then BadLength else Accept
    case Server =>
      if id < MSG_HELLO_WORLD || id > MSG_ID_LIMIT then BadId
      else if len > MAX_LENGTH || len <= 0 then BadLength
      else Accept
  }

  /** Frames that both survive `Send` and pass the reader's header checks. */
  predicate Carried(side: Side, f: Frame) {
    Sendable(f) && (side.Server? ==> MSG_HELLO_WORLD <= f.id <= MSG_ID_LIMIT)
  }

  predicate AllCarried(side: Side, fs: seq<Frame>) {
    forall i :: 0 <= i < |fs| ==> Carried(side, fs[i])
  }

  /** One turn of a reader on the bytes still unread. */
  datatype Parse = Incomplete | Refused(why: Verdict) | Parsed(frame: Frame, rest: seq<Byte>)

  function HeaderId(s: seq<Byte>): Short
    requires |s| >= HEAD_TOTAL_LEN
  {
    NetworkToHost(s[0], s[1])
  }

  function HeaderLength(s: seq<Byte>): Short
    requires |s| >= HEAD_TOTAL_LEN
  {
    NetworkToHost(s[2], s[3])
  }

  function ParseOne(side: Side, s: seq<Byte>): (p: Parse)
    ensures p.Parsed? ==> |p.rest| < |s| && Carried(side, p.frame)
  {
    if |s| < HEAD_TOTAL_LEN then Incomplete
    else
      var verdict := Inspect(side, HeaderId(s), HeaderLength(s));
      var len := HeaderLength(s);
      if verdict != Accept then Refused(verdict)
      else if |s| < HEAD_TOTAL_LEN + len then Incomplete
      else Parsed(Frame(HeaderId(s), s[HEAD_TOTAL_LEN..HEAD_TOTAL_LEN + len]), s[HEAD_TOTAL_LEN + len..])
  }

  /** All frames a reader gets out of a stream before the stream ends or is refused. */
  function Decode(side: Side, s: seq<Byte>): (fs: seq<Frame>)
    decreases |s|
  {
    var p := ParseOne(side, s);
    if p.Parsed? then [p.frame] + Decode(side, p.rest) else []
  }

  /** The bytes a reader leaves undecoded. */
  function Residue(side: Side, s: seq<Byte>): seq<Byte>
    decreases |s|
  {
    var p := ParseOne(side, s);
    if p.Parsed? then Residue(side, p.rest) else s
  }

  /** What the reader reports when it stops: `Incomplete` at the end of the stream, or a refusal. */
  function FinalParse(side: Side, s: seq<Byte>): Parse {
    ParseOne(side, Residue(side, s))
  }

  // ---- shorts ----

  lemma ShortSurvives(x: Short)
    ensures var b := HostToNetwork(x); NetworkToHost(b[0], b[1]) == x
  {
    var u := if x < 0 then x + 0x1_0000 else x;
    assert u == (u / 0x100) * 0x100 + u % 0x100;
  }

  lemma BytesSurvive(hi: Byte, lo: Byte)
    ensures HostToNetwork(NetworkToHost(hi, lo)) == [hi, lo]
  {
    var u := hi * 0x100 + lo;
    assert u / 0x100 == hi && u % 0x100 == lo;
  }

  /** The layout of the wire, byte by byte: id and body length with the high byte first, then the body. */
  lemma WireFormat(f: Frame)
    requires |f.body| < 0x8000
    ensures var e := Encode(f);
            var b0: int, b1: int, b2: int, b3: int := e[0], e[1], e[2], e[3];
            && (b0 * 256 + b1) % 65536 == f.id % 65536
            && b2 * 256 + b3 == |f.body|
            && e[4..] == f.body
  {
  }

  /** What a reader makes of four header bytes: the id and the length they spell with the high byte first,
      as signed shorts. */
  lemma HeaderMeans(s: seq<Byte>)
    requires |s| >= HEAD_TOTAL_LEN
    ensures var b0: int, b1: int, b2: int, b3: int := s[0], s[1], s[2], s[3];
            && HeaderId(s) == (if b0 < 128 then b0 * 256 + b1 else b0 * 256 + b1 - 65536)
            && HeaderLength(s) == (if b2 < 128 then b2 * 256 + b3 else b2 * 256 + b3 - 65536)
  {
  }

  /** Exactly which streams begin with a frame for the reader, and which frame it is, in terms of their bytes
      alone. */
  lemma ParseReadsBytes(side: Side, s: seq<Byte>)
    ensures ParseOne(side, s).Parsed? <==>
              && |s| >= 4
              && var b0: int, b1: int, b2: int, b3: int := s[0], s[1], s[2], s[3];
                 && 1 <= b2 * 256 + b3 <= 2048 && b2 * 256 + b3 <= |s| - 4
                 && (side.Server? ==> 1001 <= b0 * 256 + b1 <= 9999)
    ensures var p := ParseOne(side, s);
            p.Parsed? ==>
              var b0: int, b1: int, b2: int, b3: int := s[0], s[1], s[2], s[3];
              && (b0 * 256 + b1) % 65536 == p.frame.id % 65536
              && p.frame.body == s[4..4 + b2 * 256 + b3] && p.rest == s[4 + b2 * 256 + b3..]
  {
  }

  // ---- one frame ----

  lemma ParseEncoded(side: Side, f: Frame, tail: seq<Byte>)
    requires Carried(side, f)
    ensures ParseOne(side, Encode(f) + tail) == Parsed(f, tail)
  {
    ShortSurvives(f.id);
    ShortSurvives(|f.body|);
    var s := Encode(f) + tail;
    assert s[HEAD_TOTAL_LEN..HEAD_TOTAL_LEN + |f.body|] == f.body;
    assert s[HEAD_TOTAL_LEN + |f.body|..] == tail;
  }

  lemma ParseTruncated(side: Side, f: Frame, p: seq<Byte>)
    requires Carried(side, f) && p <= Encode(f) && |p| < |Encode(f)|
    ensures ParseOne(side, p) == Incomplete
  {
    ShortSurvives(f.id);
    ShortSurvives(|f.body|);
    if |p| >= HEAD_TOTAL_LEN {
      assert forall i :: 0 <= i < HEAD_TOTAL_LEN ==> p[i] == Encode(f)[i];
    }
  }

  /** A parsed frame accounts for exactly the bytes it consumed. */
  lemma ParseIsExact(side: Side, s: seq<Byte>)
    requires ParseOne(side, s).Parsed?
    ensures var p := ParseOne(side, s); Encode(p.frame) + p.rest == s
  {
    BytesSurvive(s[0], s[1]);
    BytesSurvive(s[2], s[3]);
    var len := HeaderLength(s);
    assert s == s[..2] + s[2..4] + s[4..4 + len] + s[4 + len..];
  }

  // ---- streams ----

  lemma {:induction false} EncodeAllAppend(fs: seq<Frame>, gs: seq<Frame>)
    requires AllSendable(fs) && AllSendable(gs)
    ensures AllSendable(fs + gs)
    ensures EncodeAll(fs + gs) == EncodeAll(fs) + EncodeAll(gs)
  {
    if fs == [] {
      assert fs + gs == gs;
    } else {
      assert (fs + gs)[1..] == fs[1..] + gs;
      EncodeAllAppend(fs[1..], gs);
      assert Encode(fs[0]) + (EncodeAll(fs[1..]) + EncodeAll(gs)) == EncodeAll(fs) + EncodeAll(gs);
    }
  }

  lemma EncodeAllCons(f: Frame, fs: seq<Frame>)
    requires Sendable(f) && AllSendable(fs)
    ensures AllSendable([f] + fs) && EncodeAll([f] + fs) == Encode(f) + EncodeAll(fs)
  {
    assert ([f] + fs)[1..] == fs;
  }

  lemma DecodeCons(side: Side, f: Frame, tail: seq<Byte>)
    requires Carried(side, f)
    ensures Decode(side, Encode(f) + tail) == [f] + Decode(side, tail)
  {
    ParseEncoded(side, f, tail);
  }

  lemma RoundTripCons(side: Side, f: Frame, fs: seq<Frame>, tail: seq<Byte>)
    requires Carried(side, f) && AllSendable(fs)
    requires Decode(side, EncodeAll(fs) + tail) == fs + Decode(side, tail)
    ensures Decode(side, EncodeAll([f] + fs) + tail) == [f] + fs + Decode(side, tail)
  {
    EncodeAllCons(f, fs);
    Reassociate(Encode(f), EncodeAll(fs), tail);
    DecodeCons(side, f, EncodeAll(fs) + tail);
    Reassociate([f], fs, Decode(side, tail));
  }

  /** Encode-then-decode is the identity, and whatever follows is decoded on its own. */
  lemma {:induction false} RoundTrip(side: Side, fs: seq<Frame>, tail: seq<Byte>)
    requires AllCarried(side, fs)
    ensures Decode(side, EncodeAll(fs) + tail) == fs + Decode(side, tail)
  {
    if fs == [] {
      assert EncodeAll(fs) + tail == tail;
    } else {
      assert fs == [fs[0]] + fs[1..];
      RoundTrip(side, fs[1..], tail);
      RoundTripCons(side, fs[0], fs[1..], tail);
    }
  }

  lemma Reassociate<T>(a: seq<T>, b: seq<T>, c: seq<T>)
    ensures (a + b) + c == a + (b + c)
  {
  }

  lemma DecodeEncoded(side: Side, fs: seq<Frame>)
    requires AllCarried(side, fs)
    ensures Decode(side, EncodeAll(fs)) == fs
  {
    RoundTrip(side, fs, []);
    assert EncodeAll(fs) + [] == EncodeAll(fs);
    assert Decode(side, []) == [];
  }

  /** `n` frames of `fs` lie whole inside `p`, and no more than `n`. */
  ghost predicate HoldsExactly(fs: seq<Frame>, p: seq<Byte>, n: nat)
    requires AllSendable(fs) && n <= |fs|
  {
    EncodeAll(fs[..n]) <= p && (n < |fs| ==> |p| < |EncodeAll(fs[..n + 1])|)
  }

  lemma HoldsExactlyCons(f: Frame, fs: seq<Frame>, q: seq<Byte>, n: nat)
    requires Sendable(f) && AllSendable(fs) && n <= |fs| && HoldsExactly(fs, q, n)
    ensures HoldsExactly([f] + fs, Encode(f) + q, n + 1)
  {
    assert ([f] + fs)[..n + 1] == [f] + fs[..n];
    EncodeAllCons(f, fs[..n]);
    if n < |fs| {
      assert ([f] + fs)[..n + 2] == [f] + fs[..n + 1];
      EncodeAllCons(f, fs[..n + 1]);
    }
  }

  /** A prefix of `a + b` ends inside `a` or inside `b`. */
  lemma PrefixSplit<T>(p: seq<T>, a: seq<T>, b: seq<T>)
    requires p <= a + b
    ensures |p| <= |a| ==> p <= a
    ensures |p| >= |a| ==> p == a + p[|a|..] && p[|a|..] <= b
  {
    assert forall i :: 0 <= i < |p| ==> p[i] == (a + b)[i];
  }

  lemma HoldsNone(side: Side, f: Frame, fs: seq<Frame>, p: seq<Byte>)
    requires Carried(side, f) && AllSendable(fs)
    requires p <= Encode(f) && |p| < |Encode(f)|
    ensures Decode(side, p) == [] && HoldsExactly([f] + fs, p, 0)
  {
    ParseTruncated(side, f, p);
    EncodeAllCons(f, []);
    assert ([f] + fs)[..1] == [f] + [];
  }

  /** The claim of `PrefixDecodes`. */
  ghost predicate DecodesWhole(side: Side, fs: seq<Frame>, p: seq<Byte>)
    requires AllSendable(fs)
  {
    Decode(side, p) <= fs && HoldsExactly(fs, p, |Decode(side, p)|)
  }

  lemma DecodesWholeCons(side: Side, f: Frame, fs: seq<Frame>, q: seq<Byte>)
    requires Carried(side, f) && AllSendable(fs) && DecodesWhole(side, fs, q)
    ensures DecodesWhole(side, [f] + fs, Encode(f) + q)
  {
    var d := Decode(side, q);
    DecodeCons(side, f, q);
    HoldsExactlyCons(f, fs, q, |d|);
    assert [f] + d <= [f] + fs;
  }

  /** Any prefix of an encoded stream decodes to exactly the frames that fit in it whole. */
  lemma {:induction false} PrefixDecodes(side: Side, fs: seq<Frame>, p: seq<Byte>)
    requires AllCarried(side, fs) && p <= EncodeAll(fs)
    ensures Decode(side, p) <= fs && HoldsExactly(fs, p, |Decode(side, p)|)
  {
    if fs != [] {
      var f, more := fs[0], fs[1..];
      assert fs == [f] + more;
      PrefixSplit(p, Encode(f), EncodeAll(more));
      if |p| < |Encode(f)| {
        HoldsNone(side, f, more, p);
      } else {
        PrefixDecodes(side, more, p[|Encode(f)|..]);
        DecodesWholeCons(side, f, more, p[|Encode(f)|..]);
      }
    }
  }

  /** Reading is conservative: decoded frames and residue together are the stream, byte for byte. */
  lemma {:induction false} DecodeIsExact(side: Side, s: seq<Byte>)
    ensures AllCarried(side, Decode(side, s))
    ensures EncodeAll(Decode(side, s)) + Residue(side, s) == s
    decreases |s|
  {
    var p := ParseOne(side, s);
    if p.Parsed? {
      ParseIsExact(side, s);
      DecodeIsExact(side, p.rest);
      var rest := Decode(side, p.rest);
      EncodeAllCons(p.frame, rest);
      Reassociate(Encode(p.frame), EncodeAll(rest), Residue(side, p.rest));
    }
  }

  lemma ParseStable(side: Side, s: seq<Byte>, more: seq<Byte>)
    requires !ParseOne(side, s).Incomplete?
    ensures match ParseOne(side, s)
            case Parsed(f, rest) => ParseOne(side, s + more) == Parsed(f, rest + more)
            case Refused(why) => ParseOne(side, s + more) == Refused(why)
            case Incomplete => true
  {
    var p := ParseOne(side, s);
    if p.Parsed? {
      ParseIsExact(side, s);
      assert s + more == Encode(p.frame) + (p.rest + more);
      ParseEncoded(side, p.frame, p.rest + more);
    }
  }

  /** A longer stream only extends the decoded list. */
  lemma {:induction false} DecodeMonotone(side: Side, s: seq<Byte>, more: seq<Byte>)
    ensures Decode(side, s) <= Decode(side, s + more)
    decreases |s|
  {
    var p := ParseOne(side, s);
    if p.Parsed? {
      ParseStable(side, s, more);
      DecodeMonotone(side, p.rest, more);
    }
  }

  /** The encoding is uniquely decodable. */
  lemma EncodeAllInjective(side: Side, fs: seq<Frame>, gs: seq<Frame>)
    requires AllCarried(side, fs) && AllCarried(side, gs)
    requires EncodeAll(fs) == EncodeAll(gs)
    ensures fs == gs
  {
    DecodeEncoded(side, fs);
    DecodeEncoded(side, gs);
  }

  // ---- the string overload of Send ----

  /** The frame `Send(std::string, short)` asks for: the length is cast to short first, and the
      raw overload then refuses every length outside 1..MAX_LENGTH. */
  function StringFrame(text: seq<Byte>, id: Short): (r: seq<Frame>)
    ensures |r| <= 1 && AllSendable(r)
  {
    var len := ToShort(|text|);
    if len <= 0 || len > MAX_LENGTH then [] else [Frame(id, text[..len])]
  }

  /** A text is queued iff its length modulo 2^16 is in 1..2048, and then only that many bytes of it. */
  lemma StringFrameExact(text: seq<Byte>, id: Short)
    ensures StringFrame(text, id) != [] <==> 1 <= |text| % 0x1_0000 <= MAX_LENGTH
    ensures StringFrame(text, id) != [] ==> StringFrame(text, id) == [Frame(id, text[..|text| % 0x1_0000])]
    ensures StringFrame(text, id) == [Frame(id, text)] <==> 1 <= |text| <= MAX_LENGTH
  {
    var m := |text| % 0x1_0000;
    if 1 <= |text| <= MAX_LENGTH {
      assert m == |text| && text[..m] == text;
    }
  }

  /** A text of 65537 bytes is not refused: one byte of it goes out. */
  lemma LongTextIsTruncated(text: seq<Byte>, id: Short)
    requires |text| == 0x1_0001
    ensures StringFrame(text, id) == [Frame(id, text[..1])]
    ensures Decode(Client, EncodeAll(StringFrame(text, id))) != [Frame(id, text)]
  {
    StringFrameExact(text, id);
    var f := Frame(id, text[..1]);
    DecodeEncoded(Client, [f]);
  }
}

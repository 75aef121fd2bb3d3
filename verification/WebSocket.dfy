/** Receiving WebSocket frames (sections 5.2 to 5.4 of RFC 6455) and joining fragments inside the receive buffer. */
module WebSocket {
  import opened Arithmetic

  type Byte = x: int | 0 <= x < 256
  type Bytes = seq<Byte>

  /** Exclusive or, bit by bit from the low end. */
  function Xor(a: nat, b: nat): nat
    decreases a + b
  {
    if a == 0 && b == 0 then 0 else (a % 2 + b % 2) % 2 + 2 * Xor(a / 2, b / 2)
  }

  lemma XorParts(a: nat, b: nat)
    ensures Xor(a, b) % 2 == (a % 2 + b % 2) % 2 && Xor(a, b) / 2 == Xor(a / 2, b / 2)
  {
  }

  lemma {:induction false} XorBelow(a: nat, b: nat, bits: nat)
    requires a < Power2(bits) && b < Power2(bits)
    ensures Xor(a, b) < Power2(bits)
    decreases bits
  {
    if bits > 0 {
      XorParts(a, b);
      XorBelow(a / 2, b / 2, bits - 1);
    }
  }

  lemma BitTwice(p: nat, q: nat)
    requires p < 2 && q < 2
    ensures ((p + q) % 2 + q) % 2 == p
  {
  }

  lemma HalvesDetermine(x: nat, y: nat)
    requires x % 2 == y % 2 && x / 2 == y / 2
    ensures x == y
  {
  }

  lemma {:induction false} XorTwice(a: nat, b: nat)
    ensures Xor(Xor(a, b), b) == a
    decreases a + b
  {
    if a != 0 || b != 0 {
      var x := Xor(a, b);
      XorParts(a, b);
      XorParts(x, b);
      XorTwice(a / 2, b / 2);
      BitTwice(a % 2, b % 2);
      HalvesDetermine(Xor(x, b), a);
    }
  }

  /** Bit k of a number, counted from the low end. */
  function Bit(x: nat, k: nat): (b: nat)
    ensures b < 2
  {
    if k == 0 then x % 2 else Bit(x / 2, k - 1)
  }

  /** Each bit of the result is the sum of two bits, modulo 2. */
  lemma {:induction false} XorBits(a: nat, b: nat, k: nat)
    ensures Bit(Xor(a, b), k) == (Bit(a, k) + Bit(b, k)) % 2
    decreases k
  {
    XorParts(a, b);
    if k > 0 {
      XorBits(a / 2, b / 2, k - 1);
    }
  }

  /** `out` has the bits of `wire`, turned over where `key` has a one. */
  predicate TurnedBy(out: Byte, wire: Byte, key: Byte) {
    forall k | 0 <= k < 8 :: Bit(out, k) == (Bit(wire, k) + Bit(key, k)) % 2
  }

  lemma XorByteTurns(a: Byte, b: Byte)
    ensures TurnedBy(XorByte(a, b), a, b)
  {
    forall k | 0 <= k < 8
      ensures Bit(XorByte(a, b), k) == (Bit(a, k) + Bit(b, k)) % 2
    {
      XorBits(a, b, k);
    }
  }

  function XorByte(a: Byte, b: Byte): Byte {
    assert Power2(8) == 256 by {
      assert Power2(4) == 16;
    }
    XorBelow(a, b, 8);
    Xor(a, b)
  }

  function Masked(payload: Bytes, mask: Bytes): (m: Bytes)
    requires |mask| == 4
    ensures |m| == |payload|
  {
    seq(|payload|, i requires 0 <= i < |payload| => XorByte(payload[i], mask[i % 4]))
  }

  /** Byte i of `out` is byte i of `wire` turned over by byte i modulo 4 of `key` (section 5.3 of RFC 6455). */
  predicate Turned(out: Bytes, wire: Bytes, key: Bytes) {
    |out| == |wire| && |key| == 4 && forall i | 0 <= i < |out| :: TurnedBy(out[i], wire[i], key[i % 4])
  }

  lemma MaskedTurns(payload: Bytes, mask: Bytes)
    requires |mask| == 4
    ensures Turned(Masked(payload, mask), payload, mask)
  {
    hide TurnedBy, XorByte;
    forall i | 0 <= i < |payload|
      ensures TurnedBy(Masked(payload, mask)[i], payload[i], mask[i % 4])
    {
      XorByteTurns(payload[i], mask[i % 4]);
    }
  }

  lemma MaskingTwice(payload: Bytes, mask: Bytes)
    requires |mask| == 4
    ensures Masked(Masked(payload, mask), mask) == payload
  {
    var m := Masked(Masked(payload, mask), mask);
    forall i | 0 <= i < |payload|
      ensures m[i] == payload[i]
    {
      XorTwice(payload[i], mask[i % 4]);
    }
  }

  // ---------- Frames on the wire ----------

  const GIGABYTE := 1024 * 1024 * 1024

  /** Which of the three length fields the sender used. */
  datatype LengthForm = Short | Medium | Long

  /** `mask` is empty or has four bytes. */
  datatype AnyFrame = Frame(flags: Byte, form: LengthForm, mask: Bytes, payload: Bytes) {
    predicate Wellformed() {
      && (|mask| == 0 || |mask| == 4)
      && |payload| <= match form { case Short => 125 case Medium => 65535 case Long => GIGABYTE }
    }

    predicate Final() { flags >= 128 }

    function Op(): nat { flags % 16 }
  }

  type Frame = f: AnyFrame | f.Wellformed() witness Frame(0, Short, [], [])

  function BigEndian(value: nat, bytes: nat): (b: Bytes)
    ensures |b| == bytes
  {
    if bytes == 0 then [] else BigEndian(value / 256, bytes - 1) + [value % 256]
  }

  function LengthField(f: Frame): Bytes {
    match f.form
    case Short => []
    case Medium => BigEndian(|f.payload|, 2)
    case Long => BigEndian(|f.payload|, 8)
  }

  function LengthCode(f: Frame): nat
  {
    match f.form case Short => |f.payload| case Medium => 126 case Long => 127
  }

  function Header(f: Frame): Bytes
  {
    [f.flags, LengthCode(f) + (if f.mask == [] then 0 else 128)] + LengthField(f) + f.mask
  }

  /** The payload as it travels. */
  function OnWire(f: Frame): Bytes {
    if f.mask == [] then f.payload else Masked(f.payload, f.mask)
  }

  function Encode(f: Frame): Bytes
  {
    Header(f) + OnWire(f)
  }

  function ReadBigEndian(b: Bytes): nat {
    if b == [] then 0 else 256 * ReadBigEndian(b[..|b| - 1]) + b[|b| - 1]
  }

  lemma {:induction false} BigEndianRoundTrip(value: nat, bytes: nat)
    requires value < Power2(8 * bytes)
    ensures ReadBigEndian(BigEndian(value, bytes)) == value
    decreases bytes
  {
    if bytes > 0 {
      PowerOfByte(bytes - 1);
      BigEndianRoundTrip(value / 256, bytes - 1);
      var b := BigEndian(value, bytes);
      assert b[..|b| - 1] == BigEndian(value / 256, bytes - 1);
    }
  }

  lemma PowerOfByte(bytes: nat)
    ensures Power2(8 * (bytes + 1)) == 256 * Power2(8 * bytes)
  {
    var n := 8 * bytes;
    assert Power2(n + 2) == 4 * Power2(n);
    assert Power2(n + 4) == 4 * Power2(n + 2);
    assert Power2(n + 6) == 4 * Power2(n + 4);
    assert Power2(n + 8) == 4 * Power2(n + 6);
  }

  // ---------- ws_process ----------

  /** The message record; `total` is what ws_process returns, with 0 for a frame that is not complete. */
  datatype Parsed = Parsed(flags: Byte, headerLen: nat, dataLen: nat, maskLen: nat, total: nat)

  function ParseHeader(buf: Bytes): Parsed {
    if |buf| < 2 then Parsed(0, 0, 0, 0, 0)
    else
      var n := buf[1] % 128;
      var maskLen := if buf[1] >= 128 then 4 else 0;
      if n < 126 && |buf| >= maskLen then
        Parsed(buf[0], 2 + maskLen, n, maskLen, 0)
      else if n == 126 && |buf| >= 4 + maskLen then
        Parsed(buf[0], 4 + maskLen, ReadBigEndian(buf[2..4]), maskLen, 0)
      else if |buf| >= 10 + maskLen then
        Parsed(buf[0], 10 + maskLen, ReadBigEndian(buf[2..10]), maskLen, 0)
      else Parsed(buf[0], 0, 0, maskLen, 0)
  }

  function Parse(buf: Bytes): (p: Parsed)
    ensures p.total <= |buf|
    ensures p.total > 0 ==> p.total == p.headerLen + p.dataLen && 2 + p.maskLen <= p.headerLen && |buf| >= 2
    ensures p.total > 0 ==> p.maskLen == 0 || p.maskLen == 4
  {
    var p := ParseHeader(buf);
    if p.dataLen > GIGABYTE || p.headerLen + p.dataLen > |buf| then p
    else p.(total := p.headerLen + p.dataLen)
  }

  /** The payload after unmasking in place. */
  function PayloadOf(buf: Bytes): Bytes
    requires Parse(buf).total > 0
  {
    var p := Parse(buf);
    var data := buf[p.headerLen..p.total];
    if p.maskLen == 0 then data else Masked(data, buf[p.headerLen - 4..p.headerLen])
  }

  lemma PowerValues()
    ensures Power2(16) == 65536 && Power2(64) > GIGABYTE
  {
    assert Power2(0) == 1;
    assert Power2(8 * 1) == 256 by { PowerOfByte(0); }
    assert Power2(8 * 2) == 65536 by { PowerOfByte(1); }
    assert Power2(8 * 3) == 16777216 by { PowerOfByte(2); }
    assert Power2(8 * 4) == 4294967296 by { PowerOfByte(3); }
    PowerOfByte(4);
    PowerOfByte(5);
    PowerOfByte(6);
    PowerOfByte(7);
  }

  lemma LengthFieldReadsBack(f: Frame)
    requires !f.form.Short?
    ensures ReadBigEndian(LengthField(f)) == |f.payload|
  {
    PowerValues();
    BigEndianRoundTrip(|f.payload|, if f.form.Medium? then 2 else 8);
  }

  lemma SliceOfPrefix(buf: Bytes, n: nat, i: nat, j: nat)
    requires i <= j <= n <= |buf|
    ensures buf[..n][i..j] == buf[i..j]
  {
  }

  lemma HeaderParses(f: Frame, buf: Bytes)
    requires |Header(f)| <= |buf| && buf[..|Header(f)|] == Header(f)
    ensures ParseHeader(buf) == Parsed(f.flags, |Header(f)|, |f.payload|, |f.mask|, 0)
  {
    var header := Header(f);
    assert buf[0] == header[0] && buf[1] == header[1];
    if f.form.Medium? {
      SliceOfPrefix(buf, |header|, 2, 4);
      assert header[2..4] == LengthField(f);
      LengthFieldReadsBack(f);
    } else if f.form.Long? {
      SliceOfPrefix(buf, |header|, 2, 10);
      assert header[2..10] == LengthField(f);
      LengthFieldReadsBack(f);
    }
  }

  lemma FrameParts<T>(header: seq<T>, wire: seq<T>, rest: seq<T>)
    ensures var s, h, end := header + wire + rest, |header|, |header| + |wire|;
            s[..h] == header && s[h..end] == wire
    ensures forall i | 0 <= i <= |header| :: (header + wire + rest)[i..|header|] == header[i..]
  {
  }

  lemma HeaderEnds(f: Frame)
    ensures |Header(f)| >= 2 + |f.mask| && Header(f)[|Header(f)| - |f.mask|..] == f.mask
  {
    hide LengthField, LengthCode;
  }

  /** A complete frame at the head of the buffer is recognised, whatever follows it. */
  lemma CompleteFrameParses(f: Frame, rest: Bytes)
    ensures var p := Parse(Encode(f) + rest);
            && p == Parsed(f.flags, |Header(f)|, |f.payload|, |f.mask|, |Encode(f)|)
            && PayloadOf(Encode(f) + rest) == f.payload
  {
    hide Masked, ParseHeader, Header, PayloadOf;
    var buf, h := Encode(f) + rest, |Header(f)|;
    EncodedParts(f);
    FrameParts(Header(f), OnWire(f), rest);
    HeaderEnds(f);
    HeaderParses(f, buf);
    PayloadForm(buf);
    if f.mask != [] {
      assert buf[h - 4..h] == Header(f)[h - 4..];
      MaskingTwice(f.payload, f.mask);
    }
  }

  /** In every buffer that parses, the payload is what lies behind the header, turned over by the four bytes before it
      when the frame says that it is masked. */
  lemma PayloadIsUnmasked(buf: Bytes)
    requires Parse(buf).total > 0
    ensures var p := Parse(buf);
            && (p.maskLen == 4 <==> buf[1] >= 128)
            && (if buf[1] >= 128
                then Turned(PayloadOf(buf), buf[p.headerLen..p.total], buf[p.headerLen - 4..p.headerLen])
                else PayloadOf(buf) == buf[p.headerLen..p.total])
  {
    MaskFlag(buf);
    hide Turned, Masked, ParseHeader;
    var p := Parse(buf);
    if p.maskLen == 4 {
      MaskedTurns(buf[p.headerLen..p.total], buf[p.headerLen - 4..p.headerLen]);
    }
  }

  lemma MaskFlag(buf: Bytes)
    requires Parse(buf).total > 0
    ensures Parse(buf).maskLen == if buf[1] >= 128 then 4 else 0
  {
  }

  lemma {:induction false} BigEndianInverse(b: Bytes)
    ensures BigEndian(ReadBigEndian(b), |b|) == b
  {
    if b != [] {
      BigEndianInverse(b[..|b| - 1]);
      assert b == b[..|b| - 1] + [b[|b| - 1]];
    }
  }

  /** Each byte of a number, high bytes first. */
  lemma {:induction false} BigEndianBytes(value: nat, bytes: nat, i: nat)
    requires i < bytes
    ensures BigEndian(value, bytes)[bytes - 1 - i] == Shifted(value, i) % 256
    decreases i
  {
    if i > 0 {
      BigEndianBytes(value / 256, bytes - 1, i - 1);
    }
  }

  /** The number without its low `bytes` bytes. */
  function Shifted(value: nat, bytes: nat): nat {
    if bytes == 0 then value else Shifted(value / 256, bytes - 1)
  }

  function FormOf(buf: Bytes): LengthForm
    requires |buf| >= 2
  {
    if buf[1] % 128 < 126 then Short else if buf[1] % 128 == 126 then Medium else Long
  }

  /** The frame that a buffer starts with. */
  function FrameAt(buf: Bytes): AnyFrame
    requires Parse(buf).total > 0
  {
    var p := Parse(buf);
    Frame(p.flags, FormOf(buf), if p.maskLen == 4 then buf[p.headerLen - 4..p.headerLen] else [], PayloadOf(buf))
  }

  lemma MaskedPartReadsBack(buf: Bytes)
    requires Parse(buf).total > 0
    ensures var p := Parse(buf);
            buf[p.headerLen..p.total] ==
              if p.maskLen == 4 then Masked(PayloadOf(buf), buf[p.headerLen - 4..p.headerLen]) else PayloadOf(buf)
  {
    var p := Parse(buf);
    if p.maskLen == 4 {
      MaskingTwice(buf[p.headerLen..p.total], buf[p.headerLen - 4..p.headerLen]);
    }
  }

  lemma HeadInParts<T>(s: seq<T>, k: nat, n: nat)
    requires 2 <= k <= n <= |s|
    ensures s[..n] == [s[0], s[1]] + s[2..k] + s[k..n]
  {
  }

  lemma FrameAtIsWellformed(buf: Bytes)
    requires Parse(buf).total > 0
    ensures FrameAt(buf).Wellformed()
    ensures (FrameAt(buf).mask == [] <==> buf[1] < 128) && |FrameAt(buf).payload| == Parse(buf).dataLen
  {
    hide Masked, Parse, ParseHeader, PayloadOf, ReadBigEndian;
    PayloadForm(buf);
    LengthWasRead(buf);
  }

  lemma LengthReadsBack(buf: Bytes)
    requires Parse(buf).total > 0 && FrameAt(buf).Wellformed()
    ensures var p, f: Frame := Parse(buf), FrameAt(buf);
            && LengthField(f) == buf[2..p.headerLen - p.maskLen]
            && LengthCode(f) == buf[1] % 128
  {
    hide Masked, Parse, ParseHeader, PayloadOf, ReadBigEndian, BigEndian;
    var p := Parse(buf);
    FrameAtIsWellformed(buf);
    LengthWasRead(buf);
    BigEndianInverse(buf[2..p.headerLen - p.maskLen]);
  }

  /** The header that was read is the header of that frame. */
  lemma HeaderReadsBack(buf: Bytes)
    requires Parse(buf).total > 0
    ensures FrameAt(buf).Wellformed()
    ensures var f: Frame := FrameAt(buf); Header(f) == buf[..Parse(buf).headerLen]
  {
    hide Masked, Parse, ParseHeader, PayloadOf, LengthField, LengthCode;
    var p := Parse(buf);
    FrameAtIsWellformed(buf);
    LengthReadsBack(buf);
    LengthWasRead(buf);
    HeadInParts(buf, p.headerLen - p.maskLen, p.headerLen);
  }

  /** What the header says about lengths, form by form. */
  lemma LengthWasRead(buf: Bytes)
    requires Parse(buf).total > 0
    ensures var p := Parse(buf);
            && p.flags == buf[0] && (buf[1] >= 128 <==> p.maskLen == 4)
            && p.dataLen <= (match FormOf(buf) case Short => 125 case Medium => 65535 case Long => GIGABYTE)
            && p.headerLen - p.maskLen == (match FormOf(buf) case Short => 2 case Medium => 4 case Long => 10)
            && p.dataLen == (if FormOf(buf).Short? then buf[1] % 128
                             else ReadBigEndian(buf[2..p.headerLen - p.maskLen]))
  {
    hide ReadBigEndian;
    if FormOf(buf).Medium? {
      PowerValues();
      BigEndianBelow(buf[2..4]);
    }
  }

  lemma {:induction false} BigEndianBelow(b: Bytes)
    ensures ReadBigEndian(b) < Power2(8 * |b|)
  {
    if b != [] {
      PowerOfByte(|b| - 1);
      BigEndianBelow(b[..|b| - 1]);
    }
  }

  /** A length above one gigabyte is never accepted. */
  lemma HugeFrameWaits(buf: Bytes)
    requires |buf| >= 14 && buf[1] % 128 == 127 && ReadBigEndian(buf[2..10]) > 1073741824
    ensures Parse(buf).total == 0
  {
    hide ReadBigEndian;
  }

  /** Only frames parse: a buffer that parses starts with the bytes of the frame found in it. */
  lemma OnlyFramesParse(buf: Bytes)
    requires Parse(buf).total > 0
    ensures FrameAt(buf).Wellformed()
    ensures var f: Frame := FrameAt(buf); buf[..Parse(buf).total] == Encode(f) && f.payload == PayloadOf(buf)
  {
    HeaderReadsBack(buf);
    MaskedPartReadsBack(buf);
    hide Masked, Header, PayloadOf;
    var p := Parse(buf);
    assert buf[..p.total] == buf[..p.headerLen] + buf[p.headerLen..p.total];
  }

  /** The first byte holds the flag of the last fragment, three reserved bits and the operation. */
  lemma FirstByte(f: Frame)
    ensures f.flags == (if f.Final() then 128 else 0) + 16 * (f.flags / 16 % 8) + f.Op()
    ensures f.Op() < 16 && Encode(f)[0] == f.flags && (Encode(f)[1] >= 128 <==> f.mask != [])
  {
  }

  lemma HeaderWaits(f: Frame, part: Bytes)
    requires 2 <= |part| < |Header(f)| && part[1] == Header(f)[1]
    ensures var p := ParseHeader(part);
            p.headerLen > |part| || (p.headerLen == 0 && p.dataLen == 0)
  {
    assert part[1] % 128 == LengthCode(f);
    assert part[1] >= 128 <==> f.mask != [];
  }

  /** A frame that has not completely arrived is left alone. */
  lemma PartialFrameWaits(f: Frame, part: Bytes)
    requires |part| < |Encode(f)| && part == Encode(f)[..|part|]
    ensures Parse(part).total == 0
  {
    var h := |Header(f)|;
    if |part| >= h {
      assert part[..h] == Header(f);
      HeaderParses(f, part);
    } else if |part| >= 2 {
      assert part[1] == Encode(f)[1] == Header(f)[1];
      HeaderWaits(f, part);
    }
  }

  // ---------- The callback ----------

  datatype Event =
    | Control(flags: Byte, data: Bytes)       // MG_EV_WS_CTL
    | Message(flags: Byte, data: Bytes)       // MG_EV_WS_MSG
    | PongSent(data: Bytes)
    | Unknown(op: nat)                        // mg_error
    | Undefined                               // a final continuation with nothing before it: no C meaning

  /** The receive buffer, the offset kept in pfn_data, what the handler was told, and is_closing. */
  datatype Conn = Conn(recv: Bytes, ofs: nat, events: seq<Event>, closing: bool)

  /** mg_iobuf_del, with its clamping. */
  function Del(buf: Bytes, ofs: nat, len: nat): (r: Bytes)
    ensures |r| <= |buf| && (ofs + len <= |buf| ==> |r| == |buf| - len)
  {
    var o := if ofs > |buf| then |buf| else ofs;
    var n := if o + len > |buf| then |buf| - o else len;
    buf[..o] + buf[o + n..]
  }

  function Notified(op: nat, final: bool, flags: Byte, data: Bytes): seq<Event> {
    match op
    case 0 => [Control(flags, data)]
    case 9 => [PongSent(data), Control(flags, data)]
    case 10 => [Control(flags, data)]
    case 1 => if final then [Message(flags, data)] else []
    case 2 => if final then [Message(flags, data)] else []
    case 8 => [Control(flags, data)]
    case _ => [Unknown(op)]
  }

  /** `data` written over what lies at `at`. */
  function Overwrite<T>(s: seq<T>, at: nat, data: seq<T>): (r: seq<T>)
    requires at + |data| <= |s|
    ensures |r| == |s|
  {
    s[..at] + data + s[at + |data|..]
  }

  lemma OverwriteParts<T>(s: seq<T>, at: nat, data: seq<T>)
    requires at + |data| <= |s|
    ensures var r, end := Overwrite(s, at, data), at + |data|;
            r[..at] == s[..at] && r[at..end] == data && r[end..] == s[end..]
    ensures Overwrite(s, at, s[at..at + |data|]) == s
  {
  }

  /** The buffer with the payload of the frame at `ofs` unmasked in place. */
  function Unmasked(c: Conn, p: Parsed, data: Bytes): (buf: Bytes)
    requires c.ofs + p.total <= |c.recv| && p.total == p.headerLen + p.dataLen && |data| == p.dataLen
    ensures |buf| == |c.recv|
  {
    Overwrite(c.recv, c.ofs + p.headerLen, data)
  }

  /** The body of the reassembly loop for a frame that parsed: `buf` is the buffer after unmasking. */
  function HandleFrame(c: Conn, p: Parsed, data: Bytes): (d: Conn)
    requires c.ofs + p.total <= |c.recv| && p.total == p.headerLen + p.dataLen && p.headerLen >= 2
    requires |data| == p.dataLen
    ensures d.ofs <= |d.recv|
    ensures |d.recv| - d.ofs < |c.recv| - c.ofs
  {
    var final, op := p.flags >= 128, p.flags % 16;
    var events := c.events + Notified(op, final, p.flags, data);
    var closing := c.closing || op == 8 || op !in {0, 1, 2, 8, 9, 10};
    Assembled(Conn(Unmasked(c, p, data), c.ofs, events, closing), final, op == 0, p.headerLen, p.dataLen)
  }

  /** What the loop does with the frame at `ofs`: a fragment loses its header, all but the flags of a first one, and
      stays; the last one completes a message; any other frame goes. */
  function Assembled(c: Conn, final: bool, continued: bool, headerLen: nat, dataLen: nat): (d: Conn)
    requires c.ofs + headerLen + dataLen <= |c.recv| && headerLen >= 2
    ensures d.ofs <= |d.recv|
    ensures |d.recv| - d.ofs < |c.recv| - c.ofs
  {
    if final && !continued then
      c.(recv := Del(c.recv, c.ofs, headerLen + dataLen))
    else
      var ofs := if continued then c.ofs else c.ofs + 1;
      var kept := Del(c.recv, ofs, if continued then headerLen else headerLen - 1);
      var end := ofs + dataLen;
      if !final then
        c.(recv := kept, ofs := end)
      else if end == 0 then
        c.(recv := kept, events := c.events + [Undefined])
      else
        Conn(Del(kept, 0, end), 0, c.events + [Message(kept[0], kept[1..end])], c.closing)
  }

  function Drain(c: Conn): (d: Conn)
    requires c.ofs <= |c.recv|
    ensures d.ofs <= |d.recv|
    decreases |c.recv| - c.ofs
  {
    var buf := c.recv[c.ofs..];
    var p := Parse(buf);
    if p.total == 0 then c else Drain(HandleFrame(c, p, PayloadOf(buf)))
  }

  /** One read event: new bytes are appended, then the loop runs. */
  function Read(c: Conn, chunk: Bytes): (d: Conn)
    requires c.ofs <= |c.recv|
    ensures d.ofs <= |d.recv|
  {
    Drain(c.(recv := c.recv + chunk))
  }

  function ReadAll(c: Conn, chunks: seq<Bytes>): (d: Conn)
    requires c.ofs <= |c.recv|
    ensures d.ofs <= |d.recv|
    decreases |chunks|
  {
    if chunks == [] then c else ReadAll(Read(c, chunks[0]), chunks[1..])
  }

  // ---------- What a stream of frames means ----------

  /** A message under way: the flags of its first frame and the payloads so far. */
  datatype Assembly = Idle | Partial(flags: Byte, data: Bytes)

  /** Section 5.4: control frames are whole and may come in between; a new message waits for the end of the last. */
  predicate InOrder(a: Assembly, f: Frame) {
    match f.Op()
    case 0 => a.Partial?
    case 1 => a.Idle?
    case 2 => a.Idle?
    case 8 => f.Final()
    case 9 => f.Final()
    case 10 => f.Final()
    case _ => false
  }

  function Next(a: Assembly, f: Frame): Assembly
    requires InOrder(a, f)
  {
    match f.Op()
    case 0 => if f.Final() then Idle else Partial(a.flags, a.data + f.payload)
    case 1 => if f.Final() then Idle else Partial(f.flags, f.payload)
    case 2 => if f.Final() then Idle else Partial(f.flags, f.payload)
    case _ => a
  }

  function Told(a: Assembly, f: Frame): seq<Event>
    requires InOrder(a, f)
  {
    match f.Op()
    case 0 => [Control(f.flags, f.payload)]
              + (if f.Final() then [Message(a.flags, a.data + f.payload)] else [])
    case 1 => if f.Final() then [Message(f.flags, f.payload)] else []
    case 2 => if f.Final() then [Message(f.flags, f.payload)] else []
    case 9 => [PongSent(f.payload), Control(f.flags, f.payload)]
    case _ => [Control(f.flags, f.payload)]
  }

  predicate Stream(a: Assembly, frames: seq<Frame>)
    decreases |frames|
  {
    frames == [] || (InOrder(a, frames[0]) && Stream(Next(a, frames[0]), frames[1..]))
  }

  function After(a: Assembly, frames: seq<Frame>): Assembly
    requires Stream(a, frames)
    decreases |frames|
  {
    if frames == [] then a else After(Next(a, frames[0]), frames[1..])
  }

  function Meaning(a: Assembly, frames: seq<Frame>): seq<Event>
    requires Stream(a, frames)
    decreases |frames|
  {
    if frames == [] then [] else Told(a, frames[0]) + Meaning(Next(a, frames[0]), frames[1..])
  }

  function Wire(frames: seq<Frame>): Bytes {
    if frames == [] then [] else Encode(frames[0]) + Wire(frames[1..])
  }

  predicate Closes(frames: seq<Frame>) {
    frames != [] && (frames[0].Op() == 8 || Closes(frames[1..]))
  }

  /** How the receive buffer holds a message under way: one byte of flags, then the payloads. */
  function Held(a: Assembly): Bytes {
    match a case Idle => [] case Partial(flags, data) => [flags] + data
  }

  function Holding(a: Assembly, tail: Bytes, events: seq<Event>, closing: bool): (c: Conn)
    ensures c.ofs <= |c.recv|
  {
    Conn(Held(a) + tail, |Held(a)|, events, closing)
  }

  // ---------- Reassembly ----------

  lemma SliceOfTail<T>(s: seq<T>, ofs: nat, i: nat, j: nat)
    requires i <= j && ofs + j <= |s|
    ensures s[ofs..][i..j] == s[ofs + i..ofs + j]
  {
  }

  /** `n` bytes from `first` on were turned over by the four bytes before them if `masked`, and nothing else changed. */
  predicate PayloadTurned(before: Bytes, after: Bytes, first: nat, n: nat, masked: bool) {
    && first + n <= |before| == |after|
    && after[..first] == before[..first] && after[first + n..] == before[first + n..]
    && (if masked then first >= 4 && Turned(after[first..first + n], before[first..first + n], before[first - 4..first])
        else after == before)
  }

  lemma InPlaceIsTurned(before: Bytes, first: nat, n: nat)
    requires first + n <= |before|
    ensures PayloadTurned(before, before, first, n, false)
    ensures first >= 4 ==>
        PayloadTurned(before, Overwrite(before, first, Masked(before[first..first + n], before[first - 4..first])),
                      first, n, true)
  {
    hide Masked, Turned, Overwrite;
    if first >= 4 {
      MaskedTurns(before[first..first + n], before[first - 4..first]);
      OverwriteParts(before, first, Masked(before[first..first + n], before[first - 4..first]));
    }
  }

  lemma UnmaskedInPlace(c: Conn, p: Parsed)
    requires c.ofs <= |c.recv| && p == Parse(c.recv[c.ofs..]) && p.total > 0
    ensures var first, end := c.ofs + p.headerLen, c.ofs + p.total;
            Unmasked(c, p, PayloadOf(c.recv[c.ofs..])) ==
              if p.maskLen > 0
              then Overwrite(c.recv, first, Masked(c.recv[first..end], c.recv[first - 4..first]))
              else c.recv
    ensures p.maskLen == if c.recv[c.ofs + 1] >= 128 then 4 else 0
  {
    hide Masked, ParseHeader, Parse, PayloadOf, Overwrite;
    var tail, first, end := c.recv[c.ofs..], c.ofs + p.headerLen, c.ofs + p.total;
    MaskFlag(tail);
    PayloadForm(tail);
    SliceOfTail(c.recv, c.ofs, p.headerLen, p.total);
    if p.maskLen > 0 {
      SliceOfTail(c.recv, c.ofs, p.headerLen - 4, p.headerLen);
    } else {
      OverwriteParts(c.recv, first, c.recv[first..end]);
    }
  }

  lemma PayloadForm(buf: Bytes)
    requires Parse(buf).total > 0
    ensures var p := Parse(buf);
            PayloadOf(buf) == if p.maskLen > 0 then Masked(buf[p.headerLen..p.total], buf[p.headerLen - 4..p.headerLen])
                              else buf[p.headerLen..p.total]
  {
    hide Masked, ParseHeader, Parse;
  }

  lemma UnmaskedPayload(c: Conn, p: Parsed, data: Bytes)
    requires c.ofs + p.total <= |c.recv| && p.total == p.headerLen + p.dataLen && |data| == p.dataLen
    ensures Unmasked(c, p, data)[c.ofs + p.headerLen..c.ofs + p.total] == data
  {
  }

  lemma DelElements(buf: Bytes, ofs: nat, len: nat)
    ensures var deleted := if ofs >= |buf| then 0 else if ofs + len <= |buf| then len else |buf| - ofs;
            && |Del(buf, ofs, len)| == |buf| - deleted
            && forall i | 0 <= i < |buf| - deleted :: Del(buf, ofs, len)[i] == buf[if i < ofs then i else i + deleted]
  {
  }

  lemma DelMiddle(x: Bytes, y: Bytes, z: Bytes)
    ensures Del(x + y + z, |x|, |y|) == x + z
  {
  }

  function ParsedFrame(f: Frame): Parsed
  {
    Parsed(f.flags, |Header(f)|, |f.payload|, |f.mask|, |Encode(f)|)
  }

  lemma OverwriteMiddle<T>(before: seq<T>, header: seq<T>, wire: seq<T>, rest: seq<T>, data: seq<T>)
    requires |data| == |wire|
    ensures Overwrite(before + (header + wire + rest), |before| + |header|, data) == before + header + (data + rest)
  {
    var s := before + (header + wire + rest);
    assert s[..|before| + |header|] == before + header;
    assert s[|before| + |header| + |data|..] == rest;
  }

  lemma UnmaskedFrame(a: Assembly, f: Frame, rest: Bytes, events: seq<Event>, closing: bool)
    ensures Unmasked(Holding(a, Encode(f) + rest, events, closing), ParsedFrame(f), f.payload)
         == Held(a) + Header(f) + (f.payload + rest)
    ensures |Encode(f)| == |Header(f)| + |f.payload|
  {
    hide Overwrite, Header, Held, OnWire;
    EncodedParts(f);
    OverwriteMiddle(Held(a), Header(f), OnWire(f), rest, f.payload);
  }

  lemma EncodedParts(f: Frame)
    ensures Encode(f) == Header(f) + OnWire(f) && |OnWire(f)| == |f.payload|
  {
    hide Masked, Header;
  }

  /** A frame at the offset of `c`, which its buffer holds behind `held`. */
  predicate FrameLies(c: Conn, held: Bytes, header: Bytes, payload: Bytes, rest: Bytes) {
    c.recv == held + header + (payload + rest) && c.ofs == |held| && |header| >= 2
  }

  lemma WholeFrameGoes(c: Conn, held: Bytes, header: Bytes, payload: Bytes, rest: Bytes)
    requires FrameLies(c, held, header, payload, rest)
    ensures Assembled(c, true, false, |header|, |payload|) == c.(recv := held + rest)
  {
    hide Del;
    assert held + header + (payload + rest) == held + (header + payload) + rest;
    DelMiddle(held, header + payload, rest);
  }

  lemma FragmentStays(c: Conn, held: Bytes, header: Bytes, payload: Bytes, rest: Bytes)
    requires FrameLies(c, held, header, payload, rest)
    ensures Assembled(c, false, true, |header|, |payload|)
         == c.(recv := held + payload + rest, ofs := |held + payload|)
  {
    hide Del;
    DelMiddle(held, header, payload + rest);
    assert held + (payload + rest) == held + payload + rest;
  }

  lemma FirstFragmentStays(c: Conn, header: Bytes, payload: Bytes, rest: Bytes)
    requires FrameLies(c, [], header, payload, rest)
    ensures Assembled(c, false, false, |header|, |payload|)
         == c.(recv := [header[0]] + payload + rest, ofs := |[header[0]] + payload|)
  {
    hide Del;
    assert [] + header + (payload + rest) == [header[0]] + header[1..] + (payload + rest);
    DelMiddle([header[0]], header[1..], payload + rest);
    assert [header[0]] + (payload + rest) == [header[0]] + payload + rest;
  }

  lemma LastFragmentCompletes(c: Conn, flags: Byte, data: Bytes, header: Bytes, payload: Bytes, rest: Bytes)
    requires FrameLies(c, [flags] + data, header, payload, rest)
    ensures Assembled(c, true, true, |header|, |payload|)
         == Conn(rest, 0, c.events + [Message(flags, data + payload)], c.closing)
  {
    hide Del;
    var joined := [flags] + (data + payload);
    DelMiddle([flags] + data, header, payload + rest);
    assert [flags] + data + (payload + rest) == joined + rest;
    assert (joined + rest)[1..|joined|] == data + payload;
    DelStart(joined, rest);
  }

  lemma DelStart(x: Bytes, y: Bytes)
    ensures Del(x + y, 0, |x|) == y
  {
  }

  /** The frame with its payload unmasked and its events told, before the buffer is put in order. */
  function Announced(a: Assembly, f: Frame, rest: Bytes, events: seq<Event>, closing: bool): Conn
  {
    Conn(Held(a) + Header(f) + (f.payload + rest), |Held(a)|,
         events + Notified(f.Op(), f.Final(), f.flags, f.payload),
         closing || f.Op() == 8)
  }

  lemma FrameIsAnnounced(a: Assembly, f: Frame, rest: Bytes, events: seq<Event>, closing: bool)
    requires InOrder(a, f)
    ensures |Header(f)| >= 2
    ensures HandleFrame(Holding(a, Encode(f) + rest, events, closing), ParsedFrame(f), f.payload)
         == Assembled(Announced(a, f, rest, events, closing), f.Final(), f.Op() == 0, |Header(f)|, |f.payload|)
  {
    hide Encode, Unmasked, LengthField, LengthCode, Assembled, Notified;
    UnmaskedFrame(a, f, rest, events, closing);
  }

  /** What the switch tells, and what becomes of the message under way. */
  lemma TellsAndNext(a: Assembly, f: Frame)
    requires InOrder(a, f)
    ensures f.Op() != 0 || !f.Final() ==> Notified(f.Op(), f.Final(), f.flags, f.payload) == Told(a, f)
    ensures f.Op() == 0 && f.Final() ==>
        Notified(f.Op(), f.Final(), f.flags, f.payload) + [Message(a.flags, a.data + f.payload)] == Told(a, f)
    ensures f.Op() == 0 ==> a.Partial?
    ensures f.Op() == 0 && f.Final() ==> Next(a, f) == Idle
    ensures f.Op() == 0 && !f.Final() ==> Next(a, f) == Partial(a.flags, a.data + f.payload)
    ensures f.Op() != 0 && f.Final() ==> Next(a, f) == a
    ensures f.Op() != 0 && !f.Final() ==> a == Idle && Next(a, f) == Partial(f.flags, f.payload)
  {
  }

  lemma HeldJoins(flags: Byte, data: Bytes, payload: Bytes)
    ensures Held(Partial(flags, data)) + payload == Held(Partial(flags, data + payload))
    ensures Held(Idle) == []
  {
  }

  /** Handling one frame turns the buffer for `a` into the buffer for the next assembly; what follows is untouched. */
  lemma FrameIsHandled(a: Assembly, f: Frame, rest: Bytes, events: seq<Event>, closing: bool)
    requires InOrder(a, f)
    ensures HandleFrame(Holding(a, Encode(f) + rest, events, closing), ParsedFrame(f), f.payload)
         == Holding(Next(a, f), rest, events + Told(a, f), closing || f.Op() == 8)
  {
    FrameIsAnnounced(a, f, rest, events, closing);
    TellsAndNext(a, f);
    var c := Announced(a, f, rest, events, closing);
    assert Header(f)[0] == f.flags;
    hide Encode, Header, Notified, Told, Next, InOrder, Assembled, HandleFrame, Del;
    if f.Op() == 0 && f.Final() {
      LastFragmentCompletes(c, a.flags, a.data, Header(f), f.payload, rest);
      assert [] + rest == rest;
      var message := Message(a.flags, a.data + f.payload);
      assert c.events + [message] == events + (Notified(f.Op(), f.Final(), f.flags, f.payload) + [message]);
    } else if f.Op() == 0 {
      FragmentStays(c, Held(a), Header(f), f.payload, rest);
      HeldJoins(a.flags, a.data, f.payload);
    } else if f.Final() {
      WholeFrameGoes(c, Held(a), Header(f), f.payload, rest);
    } else {
      FirstFragmentStays(c, Header(f), f.payload, rest);
    }
  }

  /** A whole frame with an operation that the standard does not define is reported, removed, and ends the
      connection. */
  lemma UnknownOperationCloses(a: Assembly, f: Frame, rest: Bytes, events: seq<Event>, closing: bool)
    requires f.Final() && f.Op() !in {0, 1, 2, 8, 9, 10}
    ensures HandleFrame(Holding(a, Encode(f) + rest, events, closing), ParsedFrame(f), f.payload)
         == Holding(a, rest, events + [Unknown(f.Op())], true)
  {
    hide Encode, Unmasked, LengthField, LengthCode, Assembled;
    UnmaskedFrame(a, f, rest, events, closing);
    var c := Conn(Held(a) + Header(f) + (f.payload + rest), |Held(a)|, events + [Unknown(f.Op())], true);
    WholeFrameGoes(c, Held(a), Header(f), f.payload, rest);
  }

  lemma DrainOne(a: Assembly, f: Frame, rest: Bytes, events: seq<Event>, closing: bool)
    requires InOrder(a, f)
    ensures Drain(Holding(a, Encode(f) + rest, events, closing))
         == Drain(Holding(Next(a, f), rest, events + Told(a, f), closing || f.Op() == 8))
  {
    var c := Holding(a, Encode(f) + rest, events, closing);
    assert c.recv[c.ofs..] == Encode(f) + rest;
    CompleteFrameParses(f, rest);
    FrameIsHandled(a, f, rest, events, closing);
  }

  predicate IsPrefix(part: Bytes, whole: Bytes) {
    |part| <= |whole| && part == whole[..|part|]
  }

  /** Nothing, or an incomplete first frame. */
  predicate Incomplete(left: Bytes, frames: seq<Frame>) {
    left == [] || (frames != [] && |left| < |Encode(frames[0])|)
  }

  lemma DrainNothing(a: Assembly, frames: seq<Frame>, left: Bytes, events: seq<Event>, closing: bool)
    requires IsPrefix(left, Wire(frames)) && Incomplete(left, frames)
    ensures var c := Holding(a, left, events, closing); Drain(c) == c
  {
    var c := Holding(a, left, events, closing);
    assert c.recv[c.ofs..] == left;
    if left != [] {
      assert left == Encode(frames[0])[..|left|];
      PartialFrameWaits(frames[0], left);
    }
  }

  /** Progress through a stream: after `told`, the assembly is `b` and `rest` is still to come. */
  ghost predicate Reached(
      a: Assembly, frames: seq<Frame>, told: seq<Event>, closed: bool, b: Assembly, rest: seq<Frame>)
  {
    && Stream(a, frames) && Stream(b, rest)
    && Meaning(a, frames) == told + Meaning(b, rest)
    && After(a, frames) == After(b, rest)
    && (Closes(frames) <==> closed || Closes(rest))
  }

  lemma ReachedHere(a: Assembly, frames: seq<Frame>)
    requires Stream(a, frames)
    ensures Reached(a, frames, [], false, a, frames)
  {
    assert [] + Meaning(a, frames) == Meaning(a, frames);
  }

  lemma ReachedNext(
      a: Assembly, frames: seq<Frame>, told: seq<Event>, closed: bool, b: Assembly, rest: seq<Frame>)
    requires frames != [] && Stream(a, frames)
    requires Reached(Next(a, frames[0]), frames[1..], told, closed, b, rest)
    ensures Reached(a, frames, Told(a, frames[0]) + told, frames[0].Op() == 8 || closed, b, rest)
  {
    assert Told(a, frames[0]) + (told + Meaning(b, rest)) == Told(a, frames[0]) + told + Meaning(b, rest);
  }

  /** The loop takes all complete frames and leaves a tail that is the start of the next one. */
  lemma {:induction false} DrainTakesWholeFrames(
      a: Assembly, frames: seq<Frame>, tail: Bytes, events: seq<Event>, closing: bool)
    returns (told: seq<Event>, closed: bool, b: Assembly, rest: seq<Frame>, left: Bytes)
    requires Stream(a, frames) && IsPrefix(tail, Wire(frames))
    ensures Reached(a, frames, told, closed, b, rest) && Stream(b, rest)
    ensures IsPrefix(left, Wire(rest)) && Incomplete(left, rest)
    ensures Wire(frames)[|tail|..] == Wire(rest)[|left|..]
    ensures Drain(Holding(a, tail, events, closing)) == Holding(b, left, events + told, closing || closed)
    decreases |frames|
  {
    hide Drain, Encode, Told, Next, InOrder, Reached, Holding;
    if frames == [] || |tail| < |Encode(frames[0])| {
      told, closed, b, rest, left := [], false, a, frames, tail;
      DrainNothing(a, frames, tail, events, closing);
      ReachedHere(a, frames);
      assert events + [] == events;
    } else {
      var f, e := frames[0], Encode(frames[0]);
      var more := tail[|e|..];
      assert tail == e + more;
      DrainOne(a, f, more, events, closing);
      told, closed, b, rest, left :=
        DrainTakesWholeFrames(Next(a, f), frames[1..], more, events + Told(a, f), closing || f.Op() == 8);
      ReachedNext(a, frames, told, closed, b, rest);
      assert events + Told(a, f) + told == events + (Told(a, f) + told);
      told, closed := Told(a, f) + told, f.Op() == 8 || closed;
    }
  }

  function Joined(chunks: seq<Bytes>): Bytes {
    if chunks == [] then [] else chunks[0] + Joined(chunks[1..])
  }

  lemma ReachedThen(
      a: Assembly, frames: seq<Frame>, told: seq<Event>, closed: bool, b: Assembly, rest: seq<Frame>,
      told2: seq<Event>, closed2: bool, c: Assembly, rest2: seq<Frame>)
    requires Reached(a, frames, told, closed, b, rest) && Reached(b, rest, told2, closed2, c, rest2)
    ensures Reached(a, frames, told + told2, closed || closed2, c, rest2)
  {
    assert told + (told2 + Meaning(c, rest2)) == told + told2 + Meaning(c, rest2);
  }

  /** Two wires with the same remainder after `tail` and after `left`. */
  lemma RemainderContinues(wire: Bytes, tail: Bytes, wire2: Bytes, left: Bytes, more: Bytes)
    requires IsPrefix(tail + more, wire) && IsPrefix(left, wire2)
    requires wire[|tail|..] == wire2[|left|..]
    ensures IsPrefix(left + more, wire2)
    ensures wire[|tail + more|..] == wire2[|left + more|..]
  {
    assert wire == tail + more + wire[|tail + more|..];
    assert wire[|tail|..] == more + wire[|tail + more|..];
    assert wire2 == left + wire2[|left|..];
    assert wire2 == left + more + wire[|tail + more|..];
  }

  lemma ReadIntoHolding(a: Assembly, part: Bytes, chunk: Bytes, events: seq<Event>, closing: bool)
    ensures Read(Holding(a, part, events, closing), chunk) == Drain(Holding(a, part + chunk, events, closing))
  {
    hide Drain;
    assert Held(a) + part + chunk == Held(a) + (part + chunk);
  }

  /** Read events may cut the bytes anywhere. */
  lemma {:induction false} ChunksDoNotMatter(
      a: Assembly, frames: seq<Frame>, part: Bytes, chunks: seq<Bytes>, events: seq<Event>, closing: bool)
    returns (told: seq<Event>, closed: bool, b: Assembly, rest: seq<Frame>, left: Bytes)
    requires Stream(a, frames) && Incomplete(part, frames) && IsPrefix(part + Joined(chunks), Wire(frames))
    ensures Reached(a, frames, told, closed, b, rest)
    ensures IsPrefix(left, Wire(rest)) && Incomplete(left, rest)
    ensures Wire(frames)[|part + Joined(chunks)|..] == Wire(rest)[|left|..]
    ensures ReadAll(Holding(a, part, events, closing), chunks)
         == Holding(b, left, events + told, closing || closed)
    decreases |chunks|
  {
    hide Drain, Encode, Told, Next, InOrder, Wire, Meaning, After, Stream, Incomplete, Closes, Holding, Read, Reached;
    if chunks == [] {
      told, closed, b, rest, left := [], false, a, frames, part;
      assert part + Joined(chunks) == part;
      ReachedHere(a, frames);
      assert events + [] == events;
    } else {
      var tail := part + chunks[0];
      assert part + Joined(chunks) == tail + Joined(chunks[1..]);
      assert IsPrefix(tail, Wire(frames));
      ReadIntoHolding(a, part, chunks[0], events, closing);
      var t1, c1, a1, r1, l1 := DrainTakesWholeFrames(a, frames, tail, events, closing);
      RemainderContinues(Wire(frames), tail, Wire(r1), l1, Joined(chunks[1..]));
      var t2, c2;
      t2, c2, b, rest, left := ChunksDoNotMatter(a1, r1, l1, chunks[1..], events + t1, closing || c1);
      ReachedThen(a, frames, t1, c1, a1, r1, t2, c2, b, rest);
      assert events + t1 + t2 == events + (t1 + t2);
      told, closed := t1 + t2, c1 || c2;
    }
  }

  lemma NothingLeft(rest: seq<Frame>, left: Bytes)
    requires IsPrefix(left, Wire(rest)) && Incomplete(left, rest) && |left| == |Wire(rest)|
    ensures rest == [] && left == []
  {
  }

  const FRESH := Conn([], 0, [], false)

  /** For every stream of frames in order and every way to cut its bytes into read events: the handler is told exactly
      what the stream means, and the buffer holds only the message still under way. */
  lemma ReassemblyIsExact(frames: seq<Frame>, chunks: seq<Bytes>)
    requires Stream(Idle, frames) && Joined(chunks) == Wire(frames)
    ensures ReadAll(FRESH, chunks) == Holding(After(Idle, frames), [], Meaning(Idle, frames), Closes(frames))
  {
    hide Drain, Encode, Told, Next, InOrder;
    assert [] + Joined(chunks) == Wire(frames);
    var told, closed, b, rest, left := ChunksDoNotMatter(Idle, frames, [], chunks, [], false);
    assert Holding(Idle, [], [], false) == FRESH;
    assert Wire(rest)[|left|..] == [];
    NothingLeft(rest, left);
    assert [] + told == told && told + Meaning(b, []) == told;
  }

  /** While the bytes are still arriving, what the handler was told is a prefix of the meaning, and the bytes kept back
      are the untouched beginning of the next frame. */
  lemma NothingConsumedAhead(frames: seq<Frame>, chunks: seq<Bytes>)
    requires Stream(Idle, frames) && IsPrefix(Joined(chunks), Wire(frames))
    ensures exists told, closed, b, rest, left ::
              && Reached(Idle, frames, told, closed, b, rest)
              && Incomplete(left, rest) && IsPrefix(left, Wire(rest))
              && Wire(frames)[|Joined(chunks)|..] == Wire(rest)[|left|..]
              && ReadAll(FRESH, chunks) == Holding(b, left, told, closed)
  {
    hide ReadAll, Wire, Joined, Encode, Told, Next, InOrder, Drain;
    assert [] + Joined(chunks) == Joined(chunks);
    var told, closed, b, rest, left := ChunksDoNotMatter(Idle, frames, [], chunks, [], false);
    assert Holding(Idle, [], [], false) == FRESH;
    assert [] + told == told;
  }

  // ---------- One message ----------

  function Messages(events: seq<Event>): seq<Event> {
    if events == [] then []
    else Delivered(events[0]) + Messages(events[1..])
  }

  function Delivered(e: Event): seq<Event> { if e.Message? then [e] else [] }

  lemma MessagesStart(e: Event, rest: seq<Event>)
    ensures Messages([e] + rest) == Delivered(e) + Messages(rest)
    ensures Messages([e]) == Delivered(e)
  {
    assert ([e] + rest)[1..] == rest && [e][1..] == [];
    assert Delivered(e) + [] == Delivered(e);
  }

  lemma NoMessages()
    ensures Messages([]) == []
  {
  }

  lemma {:induction false} MessagesJoin(a: seq<Event>, b: seq<Event>)
    ensures Messages(a + b) == Messages(a) + Messages(b)
  {
    hide Messages, Delivered;
    if a == [] {
      NoMessages();
      assert a + b == b;
    } else {
      var e, rest := a[0], a[1..];
      MessagesJoin(rest, b);
      MessagesStart(e, rest);
      MessagesStart(e, rest + b);
      assert [e] + rest == a && [e] + (rest + b) == a + b;
    }
  }

  /** What may stand between the first and the last fragment of a message: fragments that go on, and control frames. */
  predicate Between(frames: seq<Frame>) {
    forall i | 0 <= i < |frames| ::
      if frames[i].Op() == 0 then !frames[i].Final() else frames[i].Final() && frames[i].Op() in {8, 9, 10}
  }

  /** The payloads of the fragments, without those of the control frames. */
  function Fragments(frames: seq<Frame>): Bytes {
    if frames == [] then []
    else (if frames[0].Op() == 0 then frames[0].payload else []) + Fragments(frames[1..])
  }

  lemma {:induction false} RestOfMessage(flags: Byte, data: Bytes, middle: seq<Frame>, last: Frame)
    requires Between(middle) && last.Op() == 0 && last.Final()
    ensures var a, frames := Partial(flags, data), middle + [last];
            && Stream(a, frames) && After(a, frames) == Idle
            && Messages(Meaning(a, frames)) == [Message(flags, data + Fragments(middle) + last.payload)]
    decreases |middle|
  {
    hide Told, Next, InOrder, Messages, Stream, After, Meaning, Fragments, Between;
    if middle == [] {
      NoFragments(data);
      assert middle + [last] == [last];
      OnlyLast(flags, data, last);
    } else {
      var f, rest := middle[0], middle[1..] + [last];
      var grown := if f.Op() == 0 then data + f.payload else data;
      BetweenTold(flags, data, f, middle);
      RestOfMessage(flags, grown, middle[1..], last);
      FragmentsStart(data, middle);
      assert middle + [last] == [f] + rest;
      NextFrameOfMessage(Partial(flags, data), f, rest);
    }
  }

  lemma OnlyLast(flags: Byte, data: Bytes, last: Frame)
    requires last.Op() == 0 && last.Final()
    ensures var a := Partial(flags, data);
            && Stream(a, [last]) && After(a, [last]) == Idle
            && Messages(Meaning(a, [last])) == [Message(flags, data + last.payload)]
  {
    LastTold(flags, data, last);
    hide Told, Next, InOrder, Messages;
    var a := Partial(flags, data);
    MeaningStart(a, last, []);
    assert [last] + [] == [last] && Told(a, last) + [] == Told(a, last);
  }

  lemma NextFrameOfMessage(a: Assembly, f: Frame, rest: seq<Frame>)
    requires InOrder(a, f) && Stream(Next(a, f), rest) && Messages(Told(a, f)) == []
    ensures Stream(a, [f] + rest) && After(a, [f] + rest) == After(Next(a, f), rest)
    ensures Messages(Meaning(a, [f] + rest)) == Messages(Meaning(Next(a, f), rest))
  {
    hide Told, Next, InOrder, Messages, Stream, After, Meaning;
    MeaningStart(a, f, rest);
    MessagesJoin(Told(a, f), Meaning(Next(a, f), rest));
  }

  lemma NoFragments(data: Bytes)
    ensures data + Fragments([]) == data
  {
  }

  lemma FragmentsStart(data: Bytes, middle: seq<Frame>)
    requires middle != []
    ensures data + Fragments(middle)
         == (if middle[0].Op() == 0 then data + middle[0].payload else data) + Fragments(middle[1..])
  {
  }

  lemma MeaningStart(a: Assembly, f: Frame, rest: seq<Frame>)
    requires InOrder(a, f) && Stream(Next(a, f), rest)
    ensures Stream(a, [f] + rest)
    ensures After(a, [f] + rest) == After(Next(a, f), rest)
    ensures Meaning(a, [f] + rest) == Told(a, f) + Meaning(Next(a, f), rest)
  {
    hide InOrder, Next, Told;
    assert ([f] + rest)[1..] == rest;
  }

  lemma LastTold(flags: Byte, data: Bytes, last: Frame)
    requires last.Op() == 0 && last.Final()
    ensures InOrder(Partial(flags, data), last) && Next(Partial(flags, data), last) == Idle
    ensures Messages(Told(Partial(flags, data), last)) == [Message(flags, data + last.payload)]
  {
    var told := Told(Partial(flags, data), last);
    var message := Message(flags, data + last.payload);
    assert told == [Control(last.flags, last.payload)] + [message];
    MessagesStart(Control(last.flags, last.payload), [message]);
    MessagesStart(message, []);
  }

  lemma BetweenTold(flags: Byte, data: Bytes, f: Frame, middle: seq<Frame>)
    requires middle != [] && f == middle[0] && Between(middle)
    ensures Between(middle[1..]) && InOrder(Partial(flags, data), f)
    ensures Next(Partial(flags, data), f) == Partial(flags, if f.Op() == 0 then data + f.payload else data)
    ensures Messages(Told(Partial(flags, data), f)) == []
  {
    var told := Told(Partial(flags, data), f);
    assert told == (if f.Op() == 9 then [PongSent(f.payload)] else []) + [Control(f.flags, f.payload)];
    MessagesStart(Control(f.flags, f.payload), []);
    MessagesStart(PongSent(f.payload), [Control(f.flags, f.payload)]);
    assert [] + [Control(f.flags, f.payload)] == [Control(f.flags, f.payload)];
  }

  /** A fragmented message with control frames in between, cut into read events in any way, is delivered as one message:
      the payloads of its fragments one after the other, under the flags of the first. Nothing stays behind. */
  lemma MessageIsConcatenation(first: Frame, middle: seq<Frame>, last: Frame, chunks: seq<Bytes>)
    requires first.Op() in {1, 2} && !first.Final() && Between(middle) && last.Op() == 0 && last.Final()
    ensures Joined(chunks) == Wire([first] + (middle + [last])) ==>
            var c := ReadAll(FRESH, chunks);
            && c.recv == [] && c.ofs == 0
            && Messages(c.events) == [Message(first.flags, first.payload + Fragments(middle) + last.payload)]
  {
    hide ReadAll, Wire, Joined, Messages, Fragments, Closes, Encode, Between, Stream, After, Meaning;
    var rest := middle + [last];
    RestOfMessage(first.flags, first.payload, middle, last);
    assert InOrder(Idle, first) && Next(Idle, first) == Partial(first.flags, first.payload) && Told(Idle, first) == [];
    MeaningStart(Idle, first, rest);
    var meaning := Meaning(Next(Idle, first), rest);
    assert [] + meaning == meaning;
    if Joined(chunks) == Wire([first] + rest) {
      ReassemblyIsExact([first] + rest, chunks);
    }
  }

  // ---------- The objects ----------

  /** The I/O buffer; `len` of its bytes are in use. */
  class IoBuf {
    var buf: array<Byte>
    var len: nat

    ghost predicate Valid()
      reads this
    {
      len <= buf.Length
    }

    ghost function Contents(): Bytes
      reads this, buf
      requires Valid()
    {
      buf[..len]
    }

    constructor (size: nat)
      ensures Valid() && fresh(buf) && Contents() == []
    {
      buf := new Byte[size](_ => 0);
      len := 0;
    }

    /** memmove of the bytes from `from` on to `to`. */
    method MoveDown(from: nat, to: nat)
      requires Valid() && to <= from <= len
      modifies buf
      ensures buf[..len - (from - to)] == old(buf[..to]) + old(buf[from..len])
    {
      var gap := from - to;
      for i := to to len - gap
        invariant buf[..i] == old(buf[..to]) + old(buf[from..i + gap])
        invariant buf[i..] == old(buf[i..])
      {
        buf[i] := buf[i + gap];
      }
    }

    method Clear(from: nat)
      requires Valid() && from <= len
      modifies buf
      ensures buf[..from] == old(buf[..from]) && forall k | from <= k < len :: buf[k] == 0
    {
      for i := from to len
        invariant buf[..from] == old(buf[..from])
        invariant forall k | from <= k < i :: buf[k] == 0
      {
        buf[i] := 0;
      }
    }

    /** mg_iobuf_del: moves the tail down and clears the freed bytes. */
    method Delete(ofs: nat, n: nat) returns (deleted: nat)
      requires Valid()
      modifies this`len, buf
      ensures Valid() && Contents() == Del(old(Contents()), ofs, n)
      ensures deleted == |old(Contents())| - |Contents()|
      ensures forall i | len <= i < len + deleted :: buf[i] == 0
    {
      var o := if ofs > len then len else ofs;
      deleted := if o + n > len then len - o else n;
      assert Del(Contents(), ofs, n) == buf[..o] + buf[o + deleted..len];
      MoveDown(o + deleted, o);
      Clear(len - deleted);
      len := len - deleted;
    }
  }

  class WsConnection {
    var recv: Bytes
    var ofs: nat
    var events: seq<Event>
    var isClosing: bool

    ghost predicate Valid()
      reads this
    {
      ofs <= |recv|
    }

    ghost function View(): Conn
      reads this
    {
      Conn(recv, ofs, events, isClosing)
    }

    constructor ()
      ensures Valid() && View() == FRESH
    {
      recv, ofs, events, isClosing := [], 0, [], false;
    }

    /** The unmasking loop: `n` bytes from `first` on, with the four mask bytes right before them. */
    method Unmask(first: nat, n: nat)
      requires 4 <= first && first + n <= |recv|
      modifies this`recv
      ensures recv == Overwrite(old(recv), first, Masked(old(recv)[first..first + n], old(recv)[first - 4..first]))
    {
      ghost var start, data := recv, Masked(recv[first..first + n], recv[first - 4..first]);
      hide XorByte;
      for i := 0 to n
        invariant |recv| == |start|
        invariant forall k | 0 <= k < |recv| :: recv[k] == if first <= k < first + i then data[k - first] else start[k]
      {
        recv := recv[first + i := XorByte(recv[first + i], recv[first - 4 + i % 4])];
      }
    }

    /** ws_process: recognises a frame at `ofs` and unmasks its payload in place, byte i with mask byte i modulo 4. */
    method Process() returns (p: Parsed)
      requires Valid()
      modifies this`recv
      ensures Valid() && p == Parse(old(recv[ofs..])) && |recv| == |old(recv)|
      ensures p.total == 0 ==> recv == old(recv)
      ensures p.total > 0 ==> recv == Unmasked(old(View()), p, PayloadOf(old(recv[ofs..])))
      ensures p.total > 0 ==> PayloadTurned(old(recv), recv, ofs + p.headerLen, p.dataLen, old(recv[ofs + 1]) >= 128)
    {
      hide Masked, ParseHeader, Parse, Unmasked, PayloadOf, PayloadTurned, Overwrite;
      ghost var start := View();
      p := Parse(recv[ofs..]);
      if p.total > 0 {
        UnmaskedInPlace(start, p);
        InPlaceIsTurned(recv, ofs + p.headerLen, p.dataLen);
        if p.maskLen > 0 {
          Unmask(ofs + p.headerLen, p.dataLen);
        }
      }
    }

    /** The switch over the operation of a frame. */
    method Notify(op: nat, final: bool, flags: Byte, data: Bytes)
      modifies this`events, this`isClosing
      ensures events == old(events) + Notified(op, final, flags, data)
      ensures isClosing == (old(isClosing) || op == 8 || op !in {0, 1, 2, 8, 9, 10})
    {
      match op {
        case 0 => events := events + [Control(flags, data)];
        case 9 => events := events + [PongSent(data), Control(flags, data)];
        case 10 => events := events + [Control(flags, data)];
        case 1 => if final { events := events + [Message(flags, data)]; }
        case 2 => if final { events := events + [Message(flags, data)]; }
        case 8 =>
          events := events + [Control(flags, data)];
          isClosing := true;
        case _ =>
          events := events + [Unknown(op)];
          isClosing := true;
      }
    }

    /** What happens to the buffer after the switch. */
    method Assemble(final: bool, op: nat, msgHeaderLen: nat, dataLen: nat)
      requires ofs + msgHeaderLen + dataLen <= |recv| && msgHeaderLen >= 2
      modifies this
      ensures View() == Assembled(old(View()), final, op == 0, msgHeaderLen, dataLen)
    {
      hide Del;
      var len, headerLen := msgHeaderLen + dataLen, msgHeaderLen;
      if !final || op == 0 {
        if op != 0 {
          ofs, len, headerLen := ofs + 1, len - 1, headerLen - 1;
        }
        recv := Del(recv, ofs, headerLen);
        len := len - headerLen;
        ofs := ofs + len;
      }
      if final && op != 0 {
        recv := Del(recv, ofs, len);
      }
      if final && op == 0 {
        if ofs == 0 {
          events := events + [Undefined];
        } else {
          events := events + [Message(recv[0], recv[1..ofs])];
          recv := Del(recv, 0, ofs);
          ofs := 0;
        }
      }
    }

    /** One turn of the reassembly loop after a frame was recognised and unmasked. */
    method Handle(p: Parsed, ghost start: Conn, ghost data: Bytes)
      requires start.ofs + p.total <= |start.recv| && p.total == p.headerLen + p.dataLen && p.headerLen >= 2
      requires |data| == p.dataLen && View() == start.(recv := Unmasked(start, p, data))
      modifies this
      ensures Valid() && View() == HandleFrame(start, p, data)
    {
      UnmaskedPayload(start, p, data);
      hide Notified, Unmasked, Assembled;
      var final, op := p.flags >= 128, p.flags % 16;
      Notify(op, final, p.flags, recv[ofs + p.headerLen..ofs + p.total]);
      Assemble(final, op, p.headerLen, p.dataLen);
    }

    /** mg_ws_cb on MG_EV_READ. */
    method OnRead(chunk: Bytes)
      requires Valid()
      modifies this
      ensures Valid() && View() == Read(old(View()), chunk)
    {
      recv := recv + chunk;
      var p := Process();
      ghost var start := old(View()).(recv := old(recv) + chunk);
      while p.total > 0
        invariant Valid() && start.ofs <= |start.recv|
        invariant Drain(start) == Read(old(View()), chunk)
        invariant p == Parse(start.recv[start.ofs..])
        invariant p.total == 0 ==> View() == start
        invariant p.total > 0 ==>
            View() == start.(recv := Unmasked(start, p, PayloadOf(start.recv[start.ofs..])))
        decreases |start.recv| - start.ofs
      {
        ghost var data := PayloadOf(start.recv[start.ofs..]);
        Handle(p, start, data);
        start := HandleFrame(start, p, data);
        p := Process();
      }
    }
  }
}

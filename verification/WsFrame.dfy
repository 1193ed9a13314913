/**
 * WebSocket frames: the reader for client frames and the writer for server frames,
 * against the base framing of section 5.2 and the masking of section 5.3 of RFC 6455.
 *
 * `Wire` lays a frame out as the RFC does and `Decode` reads any RFC frame back
 * (`DecodeInvertsWire`). The reader is `Decode` restricted to final, masked frames
 * of at most 64 KiB (`ReadRefinesDecode`); the writer's output is a `Wire` in the
 * shortest form (`WrittenDecodes`).
 */
module WsFrame {
  import opened Endian
  import opened Wrappers
  import Utf8

  type byte = Utf8.byte
  type bytes = seq<byte>

  const MAX_PAYLOAD := 0x1_0000

  // ----- RFC 6455 -----------------------------------------------------------------

  /** How the payload length is written: in 7, 7+16 or 7+64 bits. */
  datatype Form = Short | Medium | Long

  /**
   * `first` holds FIN (128), the reserved bits and the opcode (the last four bits);
   * `payload` is unmasked.
   */
  datatype Frame = Frame(first: byte, mask: Option<bytes>, form: Form, payload: bytes)

  predicate Holds(form: Form, n: nat) {
    match form
    case Short => n < 126
    case Medium => n < 0x1_0000
    case Long => n < 0x8000_0000_0000_0000
  }

  ghost predicate WellFormed(f: Frame) {
    Holds(f.form, |f.payload|) && (f.mask.Some? ==> |f.mask.value| == 4)
  }

  function LengthCode(form: Form, n: nat): byte
    requires Holds(form, n)
  {
    match form case Short => (n as byte) case Medium => 126 case Long => 127
  }

  function Extended(form: Form, n: nat): bytes {
    match form case Short => [] case Medium => BigEndian(n, 2) case Long => BigEndian(n, 8)
  }

  /** Exclusive or, bit by bit. */
  function XorBits(a: nat, b: nat, width: nat): (r: nat)
    ensures r < Power2(width)
  {
    if width == 0 then 0 else (a % 2 + b % 2) % 2 + 2 * XorBits(a / 2, b / 2, width - 1)
  }

  function Power2(width: nat): nat { if width == 0 then 1 else 2 * Power2(width - 1) }

  function Xor(a: byte, b: byte): byte {
    assert Power2(8) == 256 by { assert Power2(4) == 16; }
    XorBits(a as nat, b as nat, 8) as byte
  }

  lemma {:induction false} XorBitsTwice(a: nat, b: nat, width: nat)
    requires a < Power2(width)
    ensures XorBits(XorBits(a, b, width), b, width) == a
  {
    hide XorBits;
    if width == 0 {
      XorBitsStep(a, b, 0);
      XorBitsStep(0, b, 0);
    } else {
      XorBitsTwice(a / 2, b / 2, width - 1);
      var r := XorBits(a, b, width);
      XorBitsStep(a, b, width - 1);
      XorBitsStep(r, b, width - 1);
    }
  }

  lemma XorBitsStep(a: nat, b: nat, width: nat)
    ensures XorBits(a, b, 0) == 0
    ensures XorBits(a, b, width + 1) / 2 == XorBits(a / 2, b / 2, width)
    ensures XorBits(a, b, width + 1) % 2 == (a % 2 + b % 2) % 2
  {}

  lemma XorTwice(a: byte, b: byte)
    ensures Xor(Xor(a, b), b) == a
  {
    assert Power2(8) == 256 by { assert Power2(4) == 16; }
    XorBitsTwice(a as nat, b as nat, 8);
  }

  /** Whether bit `i` is set, counted from the lowest. */
  predicate Bit(n: nat, i: nat) { if i == 0 then n % 2 == 1 else Bit(n / 2, i - 1) }

  lemma {:induction false} XorBitsBit(a: nat, b: nat, width: nat, i: nat)
    requires i < width
    ensures Bit(XorBits(a, b, width), i) <==> (Bit(a, i) != Bit(b, i))
  {
    hide XorBits;
    XorBitsStep(a, b, width - 1);
    if i > 0 { XorBitsBit(a / 2, b / 2, width - 1, i - 1); }
  }

  /** A bit of the result is set iff it is set in exactly one of the two bytes. */
  lemma XorBit(a: byte, b: byte, i: nat)
    requires i < 8
    ensures Bit(Xor(a, b) as nat, i) <==> (Bit(a as nat, i) != Bit(b as nat, i))
  {
    XorBitsBit(a as nat, b as nat, 8, i);
  }

  function Masked(payload: bytes, mask: bytes): (r: bytes)
    requires |mask| == 4
    ensures |r| == |payload|
  {
    seq(|payload|, i requires 0 <= i < |payload| => Xor(payload[i], mask[i % 4]))
  }

  lemma MaskTwice(payload: bytes, mask: bytes)
    requires |mask| == 4
    ensures Masked(Masked(payload, mask), mask) == payload
  {
    hide Xor;
    forall i | 0 <= i < |payload| ensures Masked(Masked(payload, mask), mask)[i] == payload[i] {
      XorTwice(payload[i], mask[i % 4]);
    }
  }

  function Wire(f: Frame): bytes
    requires WellFormed(f)
  {
    var code := LengthCode(f.form, |f.payload|);
    match f.mask
    case None => [f.first, code] + Extended(f.form, |f.payload|) + f.payload
    case Some(mask) => [f.first, 128 + code] + Extended(f.form, |f.payload|) + mask + Masked(f.payload, mask)
  }

  /** What the second byte announces: the form, and how many bytes the length and the mask take. */
  function FormOf(code: byte): Form {
    if code == 126 then Medium else if code == 127 then Long else Short
  }

  function ExtendedSize(form: Form): nat { match form case Short => 0 case Medium => 2 case Long => 8 }

  function LengthOf(code: byte, extended: bytes): nat {
    if FormOf(code).Short? then code as int else FromBigEndian(extended)
  }

  /** Any frame of the RFC from the front of a stream, with what is left of it. */
  function Decode(s: bytes): Option<(Frame, bytes)> {
    if |s| < 2 then None else
    var masked, code := s[1] >= 128, s[1] % 128;
    var e := 2 + ExtendedSize(FormOf(code));
    var m := if masked then e + 4 else e;
    if |s| < m then None else
    var n := LengthOf(code, s[2..e]);
    if |s| < m + n then None else
    var body := s[m..m + n];
    Some((Frame(s[0], if masked then Some(s[e..m]) else None, FormOf(code),
                if masked then Masked(body, s[e..m]) else body), s[m + n..]))
  }

  lemma LengthReadsBack(form: Form, n: nat)
    requires Holds(form, n)
    ensures var code := LengthCode(form, n);
      && code < 128
      && FormOf(code) == form && |Extended(form, n)| == ExtendedSize(form)
      && LengthOf(code, Extended(form, n)) == n
  {
    match form
    case Short =>
    case Medium => Powers(); BigEndianInverse(n, 2);
    case Long => Powers(); BigEndianInverse(n, 8);
  }

  lemma Slices(a: bytes, b: bytes, c: bytes, d: bytes, rest: bytes)
    ensures var s, i, j, k := a + b + c + d + rest, |a|, |a| + |b|, |a| + |b| + |c|;
      && s[..i] == a && s[i..j] == b && s[j..k] == c && s[k..k + |d|] == d && s[k + |d|..] == rest
  {}

  /** Every well-formed frame is read back from its wire image, and nothing after it is touched. */
  lemma DecodeInvertsWire(f: Frame, rest: bytes)
    requires WellFormed(f)
    ensures Decode(Wire(f) + rest) == Some((f, rest))
  {
    hide Decode, Masked, BigEndian;
    var n := |f.payload|;
    var code := LengthCode(f.form, n);
    LengthReadsBack(f.form, n);
    if f.mask == None {
      DecodeParts([f.first, code], Extended(f.form, n), [], f.payload, rest);
      assert Wire(f) + rest == [f.first, code] + Extended(f.form, n) + [] + f.payload + rest;
    } else {
      DecodeParts([f.first, 128 + code], Extended(f.form, n), f.mask.value, Masked(f.payload, f.mask.value), rest);
      assert Wire(f) + rest ==
        [f.first, 128 + code] + Extended(f.form, n) + f.mask.value + Masked(f.payload, f.mask.value) + rest;
      MaskTwice(f.payload, f.mask.value);
    }
  }

  /** Decoding a stream given in its parts. */
  lemma DecodeParts(head: bytes, ext: bytes, mask: bytes, body: bytes, rest: bytes)
    requires |head| == 2 && |ext| == ExtendedSize(FormOf(head[1] % 128))
    requires |mask| == if head[1] >= 128 then 4 else 0
    requires |body| == LengthOf(head[1] % 128, ext)
    ensures Decode(head + ext + mask + body + rest) ==
      if |mask| == 4 then Some((Frame(head[0], Some(mask), FormOf(head[1] % 128), Masked(body, mask)), rest))
      else Some((Frame(head[0], None, FormOf(head[1] % 128), body), rest))
  {
    hide Masked, FormOf, LengthOf, ExtendedSize;
    var s := head + ext + mask + body + rest;
    Slices(head, ext, mask, body, rest);
    assert s[0] == s[..2][0] == head[0] && s[1] == s[..2][1] == head[1];
  }

  // ----- the reader -------------------------------------------------------------------

  datatype Read = Ok(opcode: byte, payload: bytes, rest: bytes) | ShortInput | Fragmented | Unmasked | TooLarge

  /** The length bytes are all there and say more than the reader takes. */
  predicate AnnouncesTooMuch(s: bytes)
    requires |s| >= 2
  {
    var code := s[1] % 128;
    var e := 2 + ExtendedSize(FormOf(code));
    e <= |s| && LengthOf(code, s[2..e]) > MAX_PAYLOAD
  }

  /** Only a 64-bit length can say more than 65536; its bytes are the third to the tenth. */
  lemma AnnouncesExactlyWhen(s: bytes)
    requires |s| >= 2
    ensures AnnouncesTooMuch(s) <==>
      && s[1] % 128 == 127 && |s| >= 10
      && (s[2..7] != [0, 0, 0, 0, 0] || s[7] as int * 65536 + s[8] as int * 256 + s[9] as int > 65536)
  {
    hide FromBigEndian;
    Powers();
    var code := s[1] % 128;
    if code == 126 && |s| >= 4 {
      FromBigEndianInverse(s[2..4]);
    } else if code == 127 && |s| >= 10 {
      var t := s[2..10];
      ThreeMoreBytes(t[..5], t[5], t[6], t[7]);
      assert t == t[..5] + [t[5], t[6], t[7]] && t[..5] == s[2..7];
      NothingIsZero(t[..5]);
      FiveZeros(t[..5]);
    }
  }

  lemma FiveZeros(b: bytes)
    requires |b| == 5
    ensures (forall x | x in b :: x == 0) <==> b == [0, 0, 0, 0, 0]
  {
    assert b == [b[0], b[1], b[2], b[3], b[4]] && forall i | 0 <= i < 5 :: b[i] in b;
  }

  lemma ThreeMoreBytes(front: bytes, a: byte, b: byte, c: byte)
    ensures FromBigEndian(front + [a, b, c]) ==
      FromBigEndian(front) * 0x100_0000 + a as int * 65536 + b as int * 256 + c as int
  {
    OneMoreByte(front, a);
    OneMoreByte(front + [a], b);
    OneMoreByte(front + [a] + [b], c);
    assert front + [a, b, c] == front + [a] + [b] + [c];
  }

  lemma OneMoreByte(front: bytes, a: byte)
    ensures FromBigEndian(front + [a]) == FromBigEndian(front) * 256 + a as int
  {
    assert (front + [a])[..|front|] == front;
  }

  lemma {:induction false} NothingIsZero(b: bytes)
    ensures FromBigEndian(b) == 0 <==> forall x | x in b :: x == 0
  {
    if b != [] {
      var n := |b| - 1;
      NothingIsZero(b[..n]);
      assert b == b[..n] + [b[n]] && b[n] in b;
      assert forall x | x in b[..n] :: x in b;
    }
  }

  method ReadWebSocketFrame(s: bytes) returns (r: Read)
    ensures ReadFrame(s) == if r.Ok? then Some((r.opcode, r.payload, r.rest)) else None
    ensures r.Fragmented? <==> |s| >= 2 && s[0] < 128
    ensures r.Unmasked? <==> |s| >= 2 && s[0] >= 128 && s[1] < 128
    ensures r.TooLarge? <==> |s| >= 2 && s[0] >= 128 && s[1] >= 128 && AnnouncesTooMuch(s)
  {
    hide FormOf, ExtendedSize, LengthOf, Masked;
    if |s| < 2 {
      return ShortInput;
    }
    if s[0] < 128 {
      return Fragmented;
    }
    var opcode := s[0] % 16;
    var masked := s[1] >= 128;
    if !masked {
      return Unmasked;
    }
    var length, at, got := ReadLength(s);
    if !got {
      return ShortInput;
    }
    if length > MAX_PAYLOAD {
      return TooLarge;
    }
    if |s| < at + 4 {
      return ShortInput;
    }
    var mask := s[at..at + 4];
    at := at + 4;
    if |s| < at + length {
      return ShortInput;
    }
    var payload := new byte[length](i requires 0 <= i < length => s[at + i]);
    assert payload[..] == s[at..at + length];
    Unmask(payload, mask);
    return Ok(opcode, payload[..], s[at + length..]);
  }

  /** The length bytes after the first two, and where the mask starts. */
  method ReadLength(s: bytes) returns (length: nat, at: nat, ok: bool)
    requires |s| >= 2
    ensures at == 2 + ExtendedSize(FormOf(s[1] % 128))
    ensures ok <==> |s| >= at
    ensures ok ==> length == LengthOf(s[1] % 128, s[2..at])
  {
    hide FromBigEndian;
    var code := s[1] % 128;
    if code == 126 {
      if |s| < 4 {
        return 0, 4, false;
      }
      return FromBigEndian(s[2..4]), 4, true;
    }
    if code == 127 {
      if |s| < 10 {
        return 0, 10, false;
      }
      return FromBigEndian(s[2..10]), 10, true;
    }
    return code as int, 2, true;
  }

  /** Final, masked, and not above the limit. */
  predicate Acceptable(f: Frame) {
    f.first >= 128 && f.mask.Some? && |f.payload| <= MAX_PAYLOAD
  }

  method Unmask(payload: array<byte>, mask: bytes)
    requires |mask| == 4
    modifies payload
    ensures payload[..] == Masked(old(payload[..]), mask)
  {
    hide Xor;
    for i := 0 to payload.Length
      invariant forall k | 0 <= k < i :: payload[k] == Xor(old(payload[k]), mask[k % 4])
      invariant forall k | i <= k < payload.Length :: payload[k] == old(payload[k])
    {
      payload[i] := Xor(payload[i], mask[i % 4]);
    }
  }

  /** `ReadWebSocketFrame` as a function. */
  function ReadFrame(s: bytes): Option<(byte, bytes, bytes)> {
    match Decode(s)
    case None => None
    case Some((f, rest)) => if Acceptable(f) then Some((f.first % 16, f.payload, rest)) else None
  }

  /** A client's frame in any of the three length forms is accepted iff final, masked and small enough. */
  lemma ReadRefinesDecode(f: Frame, rest: bytes)
    requires WellFormed(f)
    ensures ReadFrame(Wire(f) + rest) ==
      if f.first >= 128 && f.mask.Some? && |f.payload| <= 65536 then Some((f.first % 16, f.payload, rest)) else None
  {
    DecodeInvertsWire(f, rest);
  }

  function Images(fs: seq<Frame>): bytes
    requires forall f | f in fs :: WellFormed(f)
  {
    if fs == [] then [] else Wire(fs[0]) + Images(fs[1..])
  }

  function ReadAll(s: bytes): seq<(byte, bytes)>
    decreases |s|
  {
    match ReadFrame(s)
    case None => []
    case Some((opcode, payload, rest)) => if |rest| < |s| then [(opcode, payload)] + ReadAll(rest) else []
  }

  function Contents(fs: seq<Frame>): seq<(byte, bytes)> {
    if fs == [] then [] else [(fs[0].first % 16, fs[0].payload)] + Contents(fs[1..])
  }

  /** Frames sent one after the other are read one after the other. */
  lemma {:induction false} FramesReadInSequence(fs: seq<Frame>)
    requires forall f | f in fs :: WellFormed(f) && Acceptable(f)
    ensures ReadAll(Images(fs)) == Contents(fs)
  {
    hide Wire, WellFormed, ReadFrame;
    if fs == [] {
    } else {
      assert fs[0] in fs;
      ReadRefinesDecode(fs[0], Images(fs[1..]));
      WireTakesRoom(fs[0]);
      FramesReadInSequence(fs[1..]);
    }
  }

  lemma WireTakesRoom(f: Frame)
    requires WellFormed(f)
    ensures |Wire(f)| >= 2
  {}

  // ----- the writer -------------------------------------------------------------------

  function Shortest(n: nat): Form {
    if n < 126 then Short else if n <= 0xffff then Medium else Long
  }

  method WriteWebSocketFrame(opcode: byte, payload: bytes) returns (wire: bytes, ok: bool)
    ensures ok <==> |payload| <= MAX_PAYLOAD
    ensures ok ==> wire == Wire(Frame(128 + opcode % 16, None, Shortest(|payload|), payload))
  {
    if |payload| > MAX_PAYLOAD {
      return [], false;
    }
    hide BigEndian;
    var header := [128 + opcode % 16];
    var n := |payload|;
    if n < 126 {
      header := header + [(n as byte)];
    } else if n <= 0xffff {
      header := header + [126, ((n / 256) as byte), ((n % 256) as byte)];
      TwoBytes(n);
    } else {
      header := header + [127, 0, 0, 0, 0,
        ((n / 0x100_0000) as byte), ((n / 0x1_0000 % 256) as byte), ((n / 256 % 256) as byte), ((n % 256) as byte)];
      EightBytes(n);
    }
    wire := header + payload;
    ok := true;
  }

  lemma BigEndianStep(n: nat, width: nat)
    ensures BigEndian(n, width + 1) == BigEndian(n / 256, width) + [((n % 256) as byte)]
    ensures BigEndian(n, 0) == []
  {
  }

  lemma TwoBytes(n: nat)
    requires n < 0x1_0000
    ensures BigEndian(n, 2) == [((n / 256) as byte), ((n % 256) as byte)]
  {
    hide BigEndian;
    BigEndianStep(n, 1);
    BigEndianStep(n / 256, 0);
  }

  lemma EightBytes(n: nat)
    requires n < 0x1_0000_0000
    ensures BigEndian(n, 8) == [0, 0, 0, 0,
      ((n / 0x100_0000) as byte), ((n / 0x1_0000 % 256) as byte), ((n / 256 % 256) as byte), ((n % 256) as byte)]
  {
    hide BigEndian;
    var a, b, c := n / 256, n / 0x1_0000, n / 0x100_0000;
    assert a / 256 == b && b / 256 == c && c < 256;
    BigEndianStep(n, 7);
    BigEndianStep(a, 6);
    BigEndianStep(b, 5);
    BigEndianStep(c, 4);
    LeadingZeros();
  }

  lemma LeadingZeros()
    ensures BigEndian(0, 4) == [0, 0, 0, 0]
  {
    BigEndianStep(0, 3);
    BigEndianStep(0, 2);
    BigEndianStep(0, 1);
    BigEndianStep(0, 0);
  }

  /** The output, byte for byte. */
  lemma WrittenBytes(opcode: byte, payload: bytes)
    requires |payload| <= MAX_PAYLOAD
    ensures var n := |payload|;
      Wire(Frame(128 + opcode % 16, None, Shortest(n), payload)) ==
        if n < 126 then [128 + opcode % 16, n as byte] + payload
        else if n < 65536 then [128 + opcode % 16, 126, (n / 256) as byte, (n % 256) as byte] + payload
        else [128 + opcode % 16, 127, 0, 0, 0, 0, 0, 1, 0, 0] + payload
  {
    hide BigEndian;
    var n := |payload|;
    if n < 65536 { TwoBytes(n); } else { EightBytes(n); }
    var head := [128 + opcode % 16, 126];
    assert head + BigEndian(n, 2) + payload == head + (BigEndian(n, 2) + payload);
  }

  /** The masked text message of section 5.7 of RFC 6455: `Hello`. */
  lemma HelloIsRead()
    ensures ReadFrame([0x81, 0x85, 0x37, 0xfa, 0x21, 0x3d, 0x7f, 0x9f, 0x4d, 0x51, 0x58])
         == Some((1, [0x48, 0x65, 0x6c, 0x6c, 0x6f], []))
  {
    hide Xor;
    var mask, body: bytes := [0x37, 0xfa, 0x21, 0x3d], [0x7f, 0x9f, 0x4d, 0x51, 0x58];
    HelloStart();
    HelloEnd();
    assert Masked(body, mask) == [0x48, 0x65, 0x6c, 0x6c, 0x6f];
    DecodeParts([0x81, 0x85], [], mask, body, []);
    assert [0x81, 0x85] + [] + mask + body + []
        == [0x81, 0x85, 0x37, 0xfa, 0x21, 0x3d, 0x7f, 0x9f, 0x4d, 0x51, 0x58];
  }

  lemma HelloStart()
    ensures Xor(0x7f, 0x37) == 0x48 && Xor(0x9f, 0xfa) == 0x65 && Xor(0x4d, 0x21) == 0x6c
  {
    hide XorBits;
    XorLadder(0x7f, 0x37, [0x48, 0x24, 0x12, 0x9, 0x4, 0x2, 0x1, 0x0]);
    XorLadder(0x9f, 0xfa, [0x65, 0x32, 0x19, 0xc, 0x6, 0x3, 0x1, 0x0]);
    XorLadder(0x4d, 0x21, [0x6c, 0x36, 0x1b, 0xd, 0x6, 0x3, 0x1, 0x0]);
  }

  lemma HelloEnd()
    ensures Xor(0x51, 0x3d) == 0x6c && Xor(0x58, 0x37) == 0x6f
  {
    hide XorBits;
    XorLadder(0x51, 0x3d, [0x6c, 0x36, 0x1b, 0xd, 0x6, 0x3, 0x1, 0x0]);
    XorLadder(0x58, 0x37, [0x6f, 0x37, 0x1b, 0xd, 0x6, 0x3, 0x1, 0x0]);
  }

  /** `r` holds the result and what is left of it as its low bits go one by one. */
  lemma XorLadder(a: byte, b: byte, r: seq<nat>)
    requires |r| == 8 && r[7] < 2
    requires forall k | 0 <= k < 7 :: r[k + 1] == r[k] / 2
    requires Odd(a as nat, b as nat, r, 0)
    ensures Xor(a, b) as nat == r[0]
  {
    XorRung(a as nat, b as nat, r, 0);
  }

  predicate Odd(a: nat, b: nat, r: seq<nat>, k: nat)
    decreases |r| - k
  {
    k < |r| ==> r[k] % 2 == (a % 2 + b % 2) % 2 && Odd(a / 2, b / 2, r, k + 1)
  }

  lemma {:induction false} XorRung(a: nat, b: nat, r: seq<nat>, k: nat)
    requires k < |r| == 8 && r[7] < 2
    requires forall k | 0 <= k < 7 :: r[k + 1] == r[k] / 2
    requires Odd(a, b, r, k)
    ensures XorBits(a, b, 8 - k) == r[k]
    decreases 8 - k
  {
    hide XorBits;
    XorBitsStep(a, b, 7 - k);
    if k < 7 { XorRung(a / 2, b / 2, r, k + 1); } else { XorBitsStep(a / 2, b / 2, 0); }
  }

  /** The output decodes to its input, unmasked and final, in the shortest form that holds it. */
  lemma WrittenDecodes(opcode: byte, payload: bytes, rest: bytes, form: Form)
    requires |payload| <= MAX_PAYLOAD
    ensures var f := Frame(128 + opcode % 16, None, Shortest(|payload|), payload);
      && WellFormed(f) && Decode(Wire(f) + rest) == Some((f, rest))
      && f.first >= 128 && f.first / 16 == 8 && f.first % 16 == opcode % 16
      && (Holds(form, |payload|) ==> |Wire(f)| <= |Wire(f.(form := form))|)
  {
    var f := Frame(128 + opcode % 16, None, Shortest(|payload|), payload);
    DecodeInvertsWire(f, rest);
  }
}

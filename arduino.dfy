/**
 * The serial transfer of arduino_interface.py: the XOR checksum, the
 * connection handshake of `ArduinoInterface.__init__` and the framed,
 * checksummed transfer of `send_gcode`.
 *
 * The serial port is a `Port` object: a queue of the lines the plotter will
 * send (each as the bytes `readline` returns; an empty line is a read that
 * timed out, and an exhausted queue keeps timing out) and a log of the bytes
 * written to it. Console output is not modelled; what `send_gcode` prints
 * about the transfer is returned as a `Report`, whose size, warning and local
 * checksum are printed before the write and so are present on every path.
 */
module ArduinoSerial {
  import opened Results
  import opened Utf8
  import opened PyText

  /** Payloads longer than this many bytes draw the memory warning. */
  const WarnThreshold := 4000

  /** The byte that ends every transfer (the peer reads up to a NUL). */
  const Terminator: byte := 0

  /** `UnicodeDecodeError` from a received line, or `SerialException` from the handshake. */
  datatype Error = DecodeError | NotConnected

  /** The checksum the peer sent back, and whether it equals the local one. */
  datatype Ack = Ack(received: int, matched: bool)

  /**
   * What one `send_gcode` call reports on the console: the size, the warning
   * and the local checksum, printed before the write, and then the outcome of
   * the response scan.
   */
  datatype Report = Report(payloadSize: nat, warned: bool, local: nat, response: Result<Ack, Error>)

  // ---------------------------------------------------------------------
  // Exclusive or on Python's non-negative integers

  /** Bitwise exclusive or, `a ^ b`, built from the low bit up. */
  function Xor(a: nat, b: nat): nat
    decreases a + b
  {
    if a == 0 && b == 0 then 0 else 2 * Xor(a / 2, b / 2) + BitXor(a % 2, b % 2)
  }

  /** Exclusive or of two bits. */
  function BitXor(x: nat, y: nat): nat {
    if x == y then 0 else 1
  }

  /** `2 * h + t` for a bit `t` has higher bits `h` and low bit `t`. */
  lemma Digits2(h: nat, t: nat)
    requires t < 2
    ensures (2 * h + t) / 2 == h && (2 * h + t) % 2 == t
  {
  }

  /** The higher bits of `a ^ b` are those of `a / 2 ^ b / 2`. */
  lemma XorHigh(a: nat, b: nat)
    ensures Xor(a, b) / 2 == Xor(a / 2, b / 2)
  {
    if a != 0 || b != 0 {
      var h, t := Xor(a / 2, b / 2), BitXor(a % 2, b % 2);
      assert Xor(a, b) == 2 * h + t;
      Digits2(h, t);
    }
  }

  /** The low bit of `a ^ b` is the exclusive or of the low bits. */
  lemma XorLow(a: nat, b: nat)
    ensures Xor(a, b) % 2 == BitXor(a % 2, b % 2)
  {
    if a != 0 || b != 0 {
      var h, t := Xor(a / 2, b / 2), BitXor(a % 2, b % 2);
      assert Xor(a, b) == 2 * h + t;
      Digits2(h, t);
    }
  }

  /** Two numbers with the same low bit and the same higher bits are equal. */
  lemma SameBits(x: nat, y: nat)
    requires x / 2 == y / 2 && x % 2 == y % 2
    ensures x == y
  {
  }

  lemma {:induction false} XorZero(a: nat)
    ensures Xor(a, 0) == a
    decreases a
  {
    if a != 0 {
      XorZero(a / 2);
    }
  }

  lemma {:induction false} XorSelf(a: nat)
    ensures Xor(a, a) == 0
    decreases a
  {
    if a != 0 {
      XorSelf(a / 2);
    }
  }

  lemma {:induction false} XorCommutes(a: nat, b: nat)
    ensures Xor(a, b) == Xor(b, a)
    decreases a + b
  {
    if a != 0 || b != 0 {
      XorCommutes(a / 2, b / 2);
    }
  }

  lemma BitXorAssociates(x: nat, y: nat, z: nat)
    requires x < 2 && y < 2 && z < 2
    ensures BitXor(BitXor(x, y), z) == BitXor(x, BitXor(y, z))
  {
  }

  /** The higher bits of both groupings are the groupings of the higher bits. */
  lemma XorHalves(a: nat, b: nat, c: nat)
    ensures Xor(Xor(a, b), c) / 2 == Xor(Xor(a / 2, b / 2), c / 2)
    ensures Xor(a, Xor(b, c)) / 2 == Xor(a / 2, Xor(b / 2, c / 2))
  {
    XorHigh(a, b);
    XorHigh(b, c);
    XorHigh(Xor(a, b), c);
    XorHigh(a, Xor(b, c));
  }

  /** Both groupings have the same low bit. */
  lemma XorParity(a: nat, b: nat, c: nat)
    ensures Xor(Xor(a, b), c) % 2 == Xor(a, Xor(b, c)) % 2
  {
    var ab, bc := Xor(a, b), Xor(b, c);
    XorLow(a, b);
    XorLow(b, c);
    XorLow(ab, c);
    XorLow(a, bc);
    BitXorAssociates(a % 2, b % 2, c % 2);
  }

  lemma {:induction false} XorAssociates(a: nat, b: nat, c: nat)
    ensures Xor(Xor(a, b), c) == Xor(a, Xor(b, c))
    decreases a + b + c
  {
    if a != 0 || b != 0 || c != 0 {
      XorAssociates(a / 2, b / 2, c / 2);
      XorHalves(a, b, c);
      XorParity(a, b, c);
      SameBits(Xor(Xor(a, b), c), Xor(a, Xor(b, c)));
    } else {
      assert Xor(0, 0) == 0;
    }
  }

  /** `a ^ b` determines `b` once `a` is known. */
  lemma XorCancels(a: nat, b: nat, c: nat)
    requires Xor(a, b) == Xor(a, c)
    ensures b == c
  {
    XorAssociates(a, a, b);
    XorAssociates(a, a, c);
    XorSelf(a);
    XorCommutes(0, b);
    XorCommutes(0, c);
    XorZero(b);
    XorZero(c);
  }

  /** Exclusive or of two values below 2^n stays below 2^n. */
  lemma {:induction false} XorBelow(a: nat, b: nat, n: nat)
    requires a < Pow2(n) && b < Pow2(n)
    ensures Xor(a, b) < Pow2(n)
    decreases n
  {
    if n == 0 {
      assert a == 0 && b == 0;
    } else if a != 0 || b != 0 {
      XorBelow(a / 2, b / 2, n - 1);
    }
  }

  function Pow2(n: nat): (p: nat)
    ensures p >= 1
  {
    if n == 0 then 1 else 2 * Pow2(n - 1)
  }

  // ---------------------------------------------------------------------
  // Checksum

  /** Exclusive or of all bytes, folded from the first byte to the last. */
  function Checksum(data: seq<byte>): nat {
    if data == [] then 0 else Xor(Checksum(data[..|data| - 1]), data[|data| - 1])
  }

  /** `checksum` (arduino_interface.py:34-38): the accumulator loop over the bytes. */
  method ComputeChecksum(data: seq<byte>) returns (csum: nat)
    ensures csum == Checksum(data)
    ensures csum < 256
    ensures data == [] ==> csum == 0
  {
    csum := 0;
    for i := 0 to |data|
      invariant csum == Checksum(data[..i])
    {
      assert data[..i + 1][..i] == data[..i];
      csum := Xor(csum, data[i]);
    }
    assert data[..|data|] == data;
    ChecksumIsByte(data);
  }

  /** The checksum of bytes is itself a byte value. */
  lemma {:induction false} ChecksumIsByte(data: seq<byte>)
    ensures Checksum(data) < 256
    decreases |data|
  {
    if data != [] {
      ChecksumIsByte(data[..|data| - 1]);
      assert Pow2(8) == 256;
      XorBelow(Checksum(data[..|data| - 1]), data[|data| - 1], 8);
    }
  }

  /** The checksum of a concatenation combines the checksums of the parts. */
  lemma {:induction false} ChecksumAppend(a: seq<byte>, b: seq<byte>)
    ensures Checksum(a + b) == Xor(Checksum(a), Checksum(b))
    decreases |b|
  {
    if b == [] {
      assert a + b == a;
      XorZero(Checksum(a));
    } else {
      var b' := b[..|b| - 1];
      assert (a + b)[..|a + b| - 1] == a + b';
      ChecksumAppend(a, b');
      XorAssociates(Checksum(a), Checksum(b'), b[|b| - 1]);
    }
  }

  lemma ChecksumSingle(x: byte)
    ensures Checksum([x]) == x
  {
    assert [x][..0] == [];
    XorCommutes(0, x);
    XorZero(x);
  }

  /** Moving a byte to the end does not change the checksum. */
  lemma ChecksumMoveLast(pre: seq<byte>, x: byte, post: seq<byte>)
    ensures Checksum(pre + [x] + post) == Checksum(pre + post + [x])
  {
    ChecksumAppend(pre + [x], post);
    ChecksumAppend(pre, [x]);
    ChecksumAppend(pre, post);
    ChecksumAppend(pre + post, [x]);
    ChecksumSingle(x);
    var p, q := Checksum(pre), Checksum(post);
    calc {
      Xor(Xor(p, x), q);
      { XorAssociates(p, x, q); XorCommutes(x, q); }
      Xor(p, Xor(q, x));
      { XorAssociates(p, q, x); }
      Xor(Xor(p, q), x);
    }
  }

  lemma MultisetRemove(a: seq<byte>, pre: seq<byte>, x: byte, post: seq<byte>)
    requires multiset(a + [x]) == multiset(pre + [x] + post)
    ensures multiset(a) == multiset(pre + post)
  {
    assert multiset(pre + [x] + post) == multiset(pre + post) + multiset{x};
    assert multiset(a + [x]) == multiset(a) + multiset{x};
    forall e ensures multiset(a)[e] == multiset(pre + post)[e] {
      assert (multiset(a) + multiset{x})[e] == (multiset(pre + post) + multiset{x})[e];
    }
  }

  /** Reordering the bytes never changes the checksum. */
  lemma {:induction false} ChecksumPermutation(a: seq<byte>, b: seq<byte>)
    requires multiset(a) == multiset(b)
    ensures Checksum(a) == Checksum(b)
    decreases |a|
  {
    if a != [] {
      var x := a[|a| - 1];
      var a' := a[..|a| - 1];
      assert a == a' + [x];
      assert x in multiset(b);
      var k :| 0 <= k < |b| && b[k] == x;
      var pre, post := b[..k], b[k + 1..];
      assert b == pre + [x] + post;
      MultisetRemove(a', pre, x, post);
      ChecksumPermutation(a', pre + post);
      ChecksumMoveLast(pre, x, post);
      assert (pre + post + [x])[..|pre + post|] == pre + post;
    } else {
      assert |b| == |multiset(b)| == 0;
    }
  }

  /** Changing a single byte always changes the checksum. */
  lemma ChecksumDetectsOneByte(pre: seq<byte>, x: byte, y: byte, post: seq<byte>)
    requires x != y
    ensures Checksum(pre + [x] + post) != Checksum(pre + [y] + post)
  {
    ChecksumAppend(pre + [x], post);
    ChecksumAppend(pre + [y], post);
    ChecksumAppend(pre, [x]);
    ChecksumAppend(pre, [y]);
    ChecksumSingle(x);
    ChecksumSingle(y);
    var p, q := Checksum(pre), Checksum(post);
    if Xor(Xor(p, x), q) == Xor(Xor(p, y), q) {
      XorCommutes(Xor(p, x), q);
      XorCommutes(Xor(p, y), q);
      XorCancels(q, Xor(p, x), Xor(p, y));
      XorCancels(p, x, y);
    }
  }

  // ---------------------------------------------------------------------
  // The port

  function NextLine(queue: seq<seq<byte>>): seq<byte> {
    if queue == [] then [] else queue[0]
  }

  function AfterRead(queue: seq<seq<byte>>): seq<seq<byte>> {
    if queue == [] then [] else queue[1..]
  }

  /** The serial port: lines still to arrive and bytes written so far. */
  class Port {
    var incoming: seq<seq<byte>>
    var written: seq<byte>

    constructor (lines: seq<seq<byte>>)
      ensures incoming == lines && written == []
    {
      incoming := lines;
      written := [];
    }

    /** `readline`: the next line, or the empty line of a timeout. */
    method ReadLine() returns (line: seq<byte>)
      modifies this
      ensures line == NextLine(old(incoming)) && incoming == AfterRead(old(incoming))
      ensures written == old(written)
    {
      line := NextLine(incoming);
      incoming := AfterRead(incoming);
    }

    method Write(data: seq<byte>)
      modifies this
      ensures written == old(written) + data && incoming == old(incoming)
    {
      written := written + data;
    }
  }

  // ---------------------------------------------------------------------
  // Handshake

  /** The verdict on the first line read after opening the port. */
  function Handshake(line: seq<byte>): Result<(), Error> {
    match Decode(line)
    case None => Failure(DecodeError)
    case Some(text) => if Strip(text) == "Connected" then Success(()) else Failure(NotConnected)
  }

  /** A line of text is accepted exactly when, stripped, it reads `Connected`. */
  lemma HandshakeOnText(text: string)
    ensures Handshake(Encode(text)).Success? <==> Strip(text) == "Connected"
    ensures Handshake(Encode(text)).Failure? ==> Handshake(Encode(text)).error == NotConnected
  {
    DecodeEncode(text);
  }

  /** `Connected` with any surrounding white space (such as the line ending) is accepted. */
  lemma HandshakeAcceptsPadded(pre: string, post: string)
    requires AllSpace(pre) && AllSpace(post)
    ensures Handshake(Encode(pre + "Connected" + post)).Success?
  {
    StripPadded(pre, "Connected", post);
    HandshakeOnText(pre + "Connected" + post);
  }

  /** A timeout is refused. */
  lemma HandshakeTimeout()
    ensures Handshake([]) == Failure(NotConnected)
  {
    assert Decode([]) == Some([]);
    assert Strip([]) == [];
  }

  /** The spelling is case-sensitive. */
  lemma HandshakeCaseSensitive()
    ensures Handshake(Encode("connected")) == Failure(NotConnected)
  {
    HandshakeOnText("connected");
    assert "connected"[0] != "Connected"[0];
  }

  // ---------------------------------------------------------------------
  // Sending

  /** The bytes whose checksum is compared: the stripped text, UTF-8 encoded. */
  function Payload(gcode: string): seq<byte> {
    Encode(Strip(gcode))
  }

  /** The bytes written: the payload and one NUL. */
  function Frame(gcode: string): (frame: seq<byte>)
    ensures |frame| == |Payload(gcode)| + 1 && frame[|frame| - 1] == Terminator
  {
    Payload(gcode) + [Terminator]
  }

  /** The peer can find the end of the frame: its only NUL is the last byte unless the text holds one. */
  lemma FrameTerminatorUnique(gcode: string)
    ensures var frame := Frame(gcode);
      '\0' !in Strip(gcode) <==> forall i :: 0 <= i < |frame| - 1 ==> frame[i] != Terminator
  {
    EncodeZeroIff(Strip(gcode));
    var frame := Frame(gcode);
    assert frame[..|frame| - 1] == Payload(gcode);
  }

  /**
   * The response scan: lines are read until a timeout or until a line whose
   * stripped text starts with `OK`. Returns that last line (empty after a
   * timeout) and the lines left unread; a line that is not UTF-8 fails.
   */
  function ScanResponse(queue: seq<seq<byte>>): (r: (Result<seq<byte>, Error>, seq<seq<byte>>))
    ensures r.0.Success? ==> Decode(r.0.value).Some?
    ensures r.0.Success? && r.0.value != [] ==> StartsWith(Strip(Decode(r.0.value).value), "OK")
    ensures |r.1| <= |queue|
    decreases |queue|
  {
    var line := NextLine(queue);
    if line == [] then (Success([]), AfterRead(queue))
    else match Decode(line)
      case None => (Failure(DecodeError), AfterRead(queue))
      case Some(text) =>
        if StartsWith(Strip(text), "OK") then (Success(line), AfterRead(queue))
        else ScanResponse(AfterRead(queue))
  }

  /**
   * The checksum the peer reported: the last space-separated token of the
   * stripped line read as an integer, when there are at least two tokens;
   * -1 otherwise.
   */
  function ParseChecksum(text: string): int {
    var parts := Split(text, ' ');
    if |parts| > 1 then
      match ParseInt(parts[|parts| - 1])
      case Some(v) => v
      case None => -1
    else -1
  }

  /** What `send_gcode` reports once the response scan has ended as `scan`. */
  function Reply(gcode: string, scan: Result<seq<byte>, Error>): Report
    requires scan.Success? ==> Decode(scan.value).Some?
  {
    var payload := Payload(gcode);
    var local := Checksum(payload);
    var response :=
      match scan
      case Failure(e) => Failure(e)
      case Success(line) =>
        var received := ParseChecksum(Strip(Decode(line).value));
        Success(Ack(received, received == local));
    Report(|payload|, |payload| > WarnThreshold, local, response)
  }

  /** What `send_gcode` reports, and the lines left unread, given the lines that arrive. */
  function SendOutcome(gcode: string, queue: seq<seq<byte>>): (Report, seq<seq<byte>>) {
    var scan := ScanResponse(queue);
    (Reply(gcode, scan.0), scan.1)
  }

  /** A decodable line whose stripped text starts with `OK` ends the scan, and its number is compared. */
  lemma SendOnAck(gcode: string, line: seq<byte>, text: string, rest: seq<seq<byte>>)
    requires line != [] && Decode(line) == Some(text) && StartsWith(Strip(text), "OK")
    ensures var outcome := SendOutcome(gcode, [line] + rest);
      && outcome.0.response.Success? && outcome.1 == rest
      && outcome.0.response.value.received == ParseChecksum(Strip(text))
      && (outcome.0.response.value.matched <==> ParseChecksum(Strip(text)) == Checksum(Payload(gcode)))
  {
    var queue := [line] + rest;
    assert NextLine(queue) == line && AfterRead(queue) == rest;
    assert ScanResponse(queue) == (Success(line), rest);
  }

  /**
   * The size warning is given exactly for payloads over 4000 bytes, whatever
   * the response, and a response that is UTF-8 is still scanned and compared.
   */
  lemma SendWarnsOnSize(gcode: string, queue: seq<seq<byte>>)
    ensures SendOutcome(gcode, queue).0.warned <==> |Payload(gcode)| > 4000
    ensures SendOutcome(gcode, queue).0.payloadSize == |Payload(gcode)|
    ensures SendOutcome(gcode, queue).0.local == Checksum(Payload(gcode)) < 256
  {
    ChecksumIsByte(Payload(gcode));
  }

  /** The text of an acknowledgement carrying `n`, as the peer sends it. */
  function AckLine(n: nat): string {
    "OK " + ShowNat(n) + "\n"
  }

  lemma StripAck(n: nat)
    ensures Strip(AckLine(n)) == "OK" + [' '] + ShowNat(n)
  {
    var digits := ShowNat(n);
    var body := "OK " + digits;
    assert body[0] == 'O' && body[|body| - 1] == digits[|digits| - 1];
    assert Unpadded(body);
    assert AllSpace("\n");
    assert AckLine(n) == "" + body + "\n";
    StripPadded("", body, "\n");
  }

  lemma DigitsHaveNoSpace(n: nat)
    ensures ' ' !in ShowNat(n)
  {
    var digits := ShowNat(n);
    assert forall i :: 0 <= i < |digits| ==> IsDigit(digits[i]);
  }

  /** The number after the last space is the one read. */
  lemma ParseChecksumLastToken(head: string, token: string, v: int)
    requires ' ' !in token && ParseInt(token) == Some(v)
    ensures ParseChecksum(head + [' '] + token) == v
  {
    SplitLast(head, ' ', token);
  }

  /** An acknowledgement line reads back as the number it carries. */
  lemma ParseAck(n: nat)
    ensures StartsWith(Strip(AckLine(n)), "OK")
    ensures ParseChecksum(Strip(AckLine(n))) == n
  {
    StripAck(n);
    DigitsHaveNoSpace(n);
    ParseShowNat(n);
    ParseChecksumLastToken("OK", ShowNat(n), n);
  }

  /** An acknowledgement that echoes the payload's checksum is reported as a match. */
  lemma SendAcknowledged(gcode: string, rest: seq<seq<byte>>)
    ensures var outcome := SendOutcome(gcode, [Encode(AckLine(Checksum(Payload(gcode))))] + rest);
      && outcome.0.response.Success? && outcome.0.response.value.matched
      && outcome.0.response.value.received == Checksum(Payload(gcode)) && outcome.1 == rest
  {
    var n := Checksum(Payload(gcode));
    var ack := Encode(AckLine(n));
    DecodeEncode(AckLine(n));
    ParseAck(n);
    assert |ack| >= |AckLine(n)| > 0;
    SendOnAck(gcode, ack, AckLine(n), rest);
  }

  /** An acknowledgement carrying any other number is reported as a mismatch, not raised. */
  lemma SendMismatch(gcode: string, n: nat, rest: seq<seq<byte>>)
    requires n != Checksum(Payload(gcode))
    ensures var outcome := SendOutcome(gcode, [Encode(AckLine(n))] + rest);
      && outcome.0.response.Success? && !outcome.0.response.value.matched
      && outcome.0.response.value.received == n && outcome.1 == rest
  {
    var ack := Encode(AckLine(n));
    DecodeEncode(AckLine(n));
    ParseAck(n);
    assert |ack| >= |AckLine(n)| > 0;
    SendOnAck(gcode, ack, AckLine(n), rest);
  }

  /** A timeout ends the scan and always counts as a mismatch. */
  lemma SendTimeout(gcode: string, rest: seq<seq<byte>>)
    ensures var outcome := SendOutcome(gcode, [[]] + rest);
      outcome.0.response.Success? && outcome.0.response.value.received == -1 && !outcome.0.response.value.matched && outcome.1 == rest
    ensures var outcome := SendOutcome(gcode, []);
      outcome.0.response.Success? && outcome.0.response.value.received == -1 && !outcome.0.response.value.matched && outcome.1 == []
  {
    assert Decode([]) == Some([]);
    assert Strip([]) == [];
    assert Split([], ' ') == [[]];
    assert ScanResponse([[]] + rest) == (Success([]), rest);
    assert ScanResponse([]) == (Success([]), []);
  }

  lemma BareOkText()
    ensures Strip("OK\n") == "OK" && ParseChecksum("OK") == -1
  {
    assert "OK\n" == "" + "OK" + "\n";
    StripPadded("", "OK", "\n");
    assert ' ' !in "OK";
  }

  lemma BareOkLine()
    ensures Decode(Encode("OK\n")) == Some("OK\n") && Encode("OK\n") != []
  {
    DecodeEncode("OK\n");
    assert |Encode("OK\n")| >= 3;
  }

  /** A bare `OK` carries no checksum and counts as a mismatch. */
  lemma SendBareOk(gcode: string, rest: seq<seq<byte>>)
    ensures var outcome := SendOutcome(gcode, [Encode("OK\n")] + rest);
      outcome.0.response.Success? && outcome.0.response.value.received == -1 && !outcome.0.response.value.matched && outcome.1 == rest
  {
    BareOkText();
    BareOkLine();
    SendOnAck(gcode, Encode("OK\n"), "OK\n", rest);
  }

  /** Lines before the acknowledgement that do not start with `OK` are skipped. */
  lemma SendSkipsChatter(gcode: string, text: string, rest: seq<seq<byte>>)
    requires text != [] && !StartsWith(Strip(text), "OK")
    ensures SendOutcome(gcode, [Encode(text)] + rest) == SendOutcome(gcode, rest)
  {
    var queue := [Encode(text)] + rest;
    DecodeEncode(text);
    assert |Encode(text)| >= |text| > 0;
    assert NextLine(queue) == Encode(text) && AfterRead(queue) == rest;
    assert ScanResponse(queue) == ScanResponse(rest);
  }

  // ---------------------------------------------------------------------
  // The interface object

  class ArduinoInterface {
    const ser: Port

    constructor Attach(port: Port)
      ensures ser == port
    {
      ser := port;
    }

    /**
     * `ArduinoInterface.__init__` (arduino_interface.py:41-52) after the port
     * is open: reads one line and accepts the connection only if it reads
     * `Connected`; otherwise fails as the source raises.
     */
    static method Connect(port: Port) returns (r: Result<ArduinoInterface, Error>)
      modifies port
      ensures port.incoming == AfterRead(old(port.incoming)) && port.written == old(port.written)
      ensures r.Success? <==> Handshake(NextLine(old(port.incoming))).Success?
      ensures r.Failure? ==> r.error == Handshake(NextLine(old(port.incoming))).error
      ensures r.Success? ==> r.value.ser == port
    {
      var line := port.ReadLine();
      var linestr := Decode(line);
      if linestr.None? {
        return Failure(DecodeError);
      }
      var isConnected := Strip(linestr.value) == "Connected";
      if !isConnected {
        return Failure(NotConnected);
      }
      var iface := new ArduinoInterface.Attach(port);
      r := Success(iface);
    }

    /**
     * The response loop of `send_gcode` (arduino_interface.py:76-82): reads
     * lines until a timeout or an `OK` line, as `ScanResponse` describes.
     */
    method ReadResponse() returns (scan: Result<seq<byte>, Error>)
      modifies ser
      ensures ser.written == old(ser.written)
      ensures scan == ScanResponse(old(ser.incoming)).0 && ser.incoming == ScanResponse(old(ser.incoming)).1
    {
      while true
        invariant ser.written == old(ser.written)
        invariant ScanResponse(ser.incoming) == ScanResponse(old(ser.incoming))
        decreases |ser.incoming|
      {
        ghost var before := ser.incoming;
        var line := ser.ReadLine();
        if line == [] {
          return Success(line);
        }
        var text := Decode(line);
        if text.None? {
          return Failure(DecodeError);
        }
        if StartsWith(Strip(text.value), "OK") {
          return Success(line);
        }
        assert ScanResponse(before) == ScanResponse(ser.incoming);
      }
    }

    /**
     * `send_gcode` (arduino_interface.py:54-96): writes the framed payload,
     * scans the response lines and compares checksums. A mismatch is only
     * reported; only an undecodable response line fails.
     */
    method SendGcode(gcode: string) returns (r: Report)
      modifies ser
      ensures ser.written == old(ser.written) + Frame(gcode)
      ensures r == Reply(gcode, ScanResponse(old(ser.incoming)).0)
      ensures ser.incoming == ScanResponse(old(ser.incoming)).1
    {
      var payload := Encode(Strip(gcode));
      var warned := |payload| > WarnThreshold;
      var localChecksum := ComputeChecksum(payload);
      ser.Write(payload + [Terminator]);
      var scan := ReadResponse();
      if scan.Failure? {
        return Report(|payload|, warned, localChecksum, Failure(scan.error));
      }
      var recChecksum := ParseChecksum(Strip(Decode(scan.value).value));
      r := Report(|payload|, warned, localChecksum, Success(Ack(recChecksum, recChecksum == localChecksum)));
    }
  }
}

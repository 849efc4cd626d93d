/** A streaming SLIP decoder that finds an escape by looking at the last byte it has already decoded. */
module Slip {

  type Byte = b: int | 0 <= b < 256

  const END: Byte := 0xC0
  const ESC: Byte := 0xDB
  const ESC_END: Byte := 0xDC
  const ESC_ESC: Byte := 0xDD
  const BUF_SIZE := 512

  // ----- the decoder on values

  /** The buffer after one byte other than END. */
  function Feed(buf: seq<Byte>, b: Byte): seq<Byte> {
    if b == ESC_END && buf != [] && buf[|buf| - 1] == ESC then buf[..|buf| - 1] + [END]
    else if b == ESC_ESC && buf != [] && buf[|buf| - 1] == ESC then buf[..|buf| - 1] + [ESC]
    else buf + [b]
  }

  /** Decoding state: the frame being collected and the frames delivered so far. */
  datatype Decoding = Decoding(buf: seq<Byte>, frames: seq<seq<Byte>>)

  function Take(d: Decoding, b: Byte): Decoding {
    if b == END then Decoding([], d.frames + [d.buf]) else d.(buf := Feed(d.buf, b))
  }

  function Decode(d: Decoding, bytes: seq<Byte>): Decoding {
    if bytes == [] then d else Take(Decode(d, bytes[..|bytes| - 1]), bytes[|bytes| - 1])
  }

  // ----- the encoder of RFC 1055

  function EncodeByte(b: Byte): seq<Byte> {
    if b == END then [ESC, ESC_END] else if b == ESC then [ESC, ESC_ESC] else [b]
  }

  function Encode(payload: seq<Byte>): seq<Byte> {
    if payload == [] then [] else Encode(payload[..|payload| - 1]) + EncodeByte(payload[|payload| - 1])
  }

  /** No escape byte is directly followed by one of the two substitution codes. */
  predicate Clean(payload: seq<Byte>) {
    forall i :: 0 <= i < |payload| - 1 && payload[i] == ESC ==>
      payload[i + 1] != ESC_END && payload[i + 1] != ESC_ESC
  }

  // ----- streaming

  /** Cutting the byte stream into chunks changes nothing. */
  lemma {:induction false} DecodeSplit(d: Decoding, a: seq<Byte>, b: seq<Byte>)
    ensures Decode(d, a + b) == Decode(Decode(d, a), b)
  {
    if b == [] {
      assert a + b == a;
    } else {
      assert (a + b)[..|a + b| - 1] == a + b[..|b| - 1];
      DecodeSplit(d, a, b[..|b| - 1]);
    }
  }

  function DecodeChunks(d: Decoding, chunks: seq<seq<Byte>>): Decoding {
    if chunks == [] then d else Decode(DecodeChunks(d, chunks[..|chunks| - 1]), chunks[|chunks| - 1])
  }

  function Flatten(chunks: seq<seq<Byte>>): seq<Byte> {
    if chunks == [] then [] else Flatten(chunks[..|chunks| - 1]) + chunks[|chunks| - 1]
  }

  lemma {:induction false} ChunksDoNotMatter(d: Decoding, chunks: seq<seq<Byte>>)
    ensures DecodeChunks(d, chunks) == Decode(d, Flatten(chunks))
  {
    if chunks != [] {
      ChunksDoNotMatter(d, chunks[..|chunks| - 1]);
      DecodeSplit(d, Flatten(chunks[..|chunks| - 1]), chunks[|chunks| - 1]);
    }
  }

  /** Delivered frames are only ever added to, and what they are does not depend on earlier ones. */
  lemma {:induction false} EarlierFramesStay(d: Decoding, bytes: seq<Byte>)
    ensures Decode(d, bytes) ==
      Decoding(Decode(Decoding(d.buf, []), bytes).buf, d.frames + Decode(Decoding(d.buf, []), bytes).frames)
  {
    if bytes == [] {
      assert d.frames + [] == d.frames;
    } else {
      EarlierFramesStay(d, bytes[..|bytes| - 1]);
      var rest := Decode(Decoding(d.buf, []), bytes[..|bytes| - 1]);
      assert d.frames + (rest.frames + [rest.buf]) == d.frames + rest.frames + [rest.buf];
    }
  }

  lemma {:induction false} NoEndNoFrame(d: Decoding, bytes: seq<Byte>)
    requires END !in bytes
    ensures Decode(d, bytes).frames == d.frames
    ensures |Decode(d, bytes).buf| <= |d.buf| + |bytes|
  {
    if bytes != [] {
      assert forall b :: b in bytes[..|bytes| - 1] ==> b in bytes;
      NoEndNoFrame(d, bytes[..|bytes| - 1]);
    }
  }

  /** After an END the next frame depends on the bytes since that END alone. */
  lemma FrameDependsOnItsBytes(d: Decoding, before: seq<Byte>, body: seq<Byte>)
    requires END !in body
    ensures Decode(d, before + [END] + body + [END]) ==
      Decoding([], Decode(d, before + [END]).frames + [Decode(Decoding([], []), body).buf])
  {
    var d1 := Decode(d, before + [END]);
    assert (before + [END])[..|before|] == before;
    assert d1.buf == [];
    DecodeSplit(d, before + [END], body);
    EarlierFramesStay(d1, body);
    NoEndNoFrame(Decoding([], []), body);
    assert (before + [END] + body + [END])[..|before| + 1 + |body|] == before + [END] + body;
    assert d1.frames + [] == d1.frames;
  }

  // ----- the round trip

  function Decoded(bytes: seq<Byte>): seq<Byte> {
    Decode(Decoding([], []), bytes).buf
  }

  lemma {:induction false} EncodeHasNoEnd(payload: seq<Byte>)
    ensures END !in Encode(payload)
  {
    if payload != [] { EncodeHasNoEnd(payload[..|payload| - 1]); }
  }

  lemma DecodeOne(d: Decoding, b: Byte)
    ensures Decode(d, [b]) == Take(d, b)
  {
    assert [b][..0] == [];
  }

  lemma DecodeTwo(d: Decoding, a: Byte, b: Byte)
    ensures Decode(d, [a, b]) == Take(Take(d, a), b)
  {
    DecodeOne(d, a);
    assert [a, b][..1] == [a];
  }

  /** An escape pair appends the byte it stands for. */
  lemma EscapePair(buf: seq<Byte>, x: Byte)
    requires x == END || x == ESC
    ensures Feed(Feed(buf, ESC), if x == END then ESC_END else ESC_ESC) == buf + [x]
  {
    assert Feed(buf, ESC) == buf + [ESC];
    assert (buf + [ESC])[..|buf|] == buf;
  }

  /** The decoded payload after one byte more: appended, unless taken for the tail of an escape. */
  function Heard(was: seq<Byte>, x: Byte): seq<Byte> {
    if x == ESC_END && was != [] && was[|was| - 1] == ESC then was[..|was| - 1] + [END]
    else if x == ESC_ESC && was != [] && was[|was| - 1] == ESC then was
    else was + [x]
  }

  lemma EncodedByteHeard(was: seq<Byte>, x: Byte)
    ensures Decode(Decoding(was, []), EncodeByte(x)) == Decoding(Heard(was, x), [])
  {
    var d := Decoding(was, []);
    if x == END || x == ESC {
      DecodeTwo(d, ESC, if x == END then ESC_END else ESC_ESC);
      EscapePair(was, x);
    } else {
      DecodeOne(d, x);
      if was != [] && was[|was| - 1] == ESC { assert was[..|was| - 1] + [ESC] == was; }
    }
  }

  lemma DecodedStep(payload: seq<Byte>)
    requires payload != []
    ensures Decoded(Encode(payload)) == Heard(Decoded(Encode(payload[..|payload| - 1])), payload[|payload| - 1])
  {
    var start, front, x := Decoding([], []), payload[..|payload| - 1], payload[|payload| - 1];
    DecodeSplit(start, Encode(front), EncodeByte(x));
    EncodeHasNoEnd(front);
    NoEndNoFrame(start, Encode(front));
    EncodedByteHeard(Decoded(Encode(front)), x);
  }

  lemma DecodedOneMore(payload: seq<Byte>, x: Byte)
    ensures Decoded(Encode(payload + [x])) == Heard(Decoded(Encode(payload)), x)
  {
    DecodedStep(payload + [x]);
    assert (payload + [x])[..|payload|] == payload;
  }

  /** The decoder inverts the encoder on clean payloads and shortens every other one. */
  lemma {:induction false} RoundTripExact(payload: seq<Byte>)
    ensures Clean(payload) ==> Decoded(Encode(payload)) == payload
    ensures !Clean(payload) ==> |Decoded(Encode(payload))| < |payload|
  {
    if payload != [] {
      var front, x := payload[..|payload| - 1], payload[|payload| - 1];
      assert payload == front + [x];
      RoundTripExact(front);
      DecodedOneMore(front, x);
      CleanOneMore(front, x);
    }
  }

  lemma CleanOneMore(front: seq<Byte>, x: Byte)
    ensures Clean(front + [x]) <==>
      Clean(front) && !(front != [] && front[|front| - 1] == ESC && (x == ESC_END || x == ESC_ESC))
  {
    var all := front + [x];
    if Clean(all) {
      forall i | 0 <= i < |front| - 1 && front[i] == ESC
        ensures front[i + 1] != ESC_END && front[i + 1] != ESC_ESC
      {
        assert all[i] == ESC && all[i + 1] == front[i + 1];
      }
      if front != [] { assert all[|front| - 1] == front[|front| - 1] && all[|front|] == x; }
    }
  }

  /** A frame sent whole, then END: exactly the payload is delivered if and only if it is clean. */
  lemma DeliveredIffClean(d: Decoding, payload: seq<Byte>)
    requires d.buf == []
    ensures Decode(d, Encode(payload) + [END]) == Decoding([], d.frames + [Decoded(Encode(payload))])
    ensures Decoded(Encode(payload)) == payload <==> Clean(payload)
    ensures !Clean(payload) ==> |Decoded(Encode(payload))| < |payload|
  {
    var bytes := Encode(payload);
    RoundTripExact(payload);
    EncodeHasNoEnd(payload);
    NoEndNoFrame(Decoding([], []), bytes);
    EarlierFramesStay(d, bytes);
    assert (bytes + [END])[..|bytes|] == bytes;
    assert d.frames + [] == d.frames;
  }

  /** A payload that does not survive: the escape byte followed by the END code. */
  lemma EscapeThenEndCodeIsLost()
    ensures Decoded(Encode([ESC] + [ESC_END])) == [END]
  {
    assert Decoded(Encode([])) == [];
    DecodedOneMore([], ESC);
    assert [] + [ESC] == [ESC];
    DecodedOneMore([ESC], ESC_END);
    assert Heard([ESC], ESC_END) == [] + [END];
  }
}

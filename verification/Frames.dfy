/** Length-prefixed framing: the encoder of admin/seed-fuzz-corpus and the decoder of fuzz/fuzzers/common.rs. */
module Frames {
  import opened Wrappers
  import opened Bytes
  import opened Sequences

  const FRAME_LIMIT: nat := 0x10000

  // ----- the two-byte big-endian length

  function LengthBytes(n: nat): (b: Bytes)
    requires n < FRAME_LIMIT
    ensures |b| == 2
  {
    [ByteOf(n / 256), ByteOf(n % 256)]
  }

  function DecodedLength(high: Byte, low: Byte): (n: nat)
    ensures n < FRAME_LIMIT
  {
    256 * (high as nat) + low as nat
  }

  lemma LengthRoundTrip(n: nat)
    requires n < FRAME_LIMIT
    ensures DecodedLength(LengthBytes(n)[0], LengthBytes(n)[1]) == n
  {
  }

  // ----- encoding

  ghost predicate Fits(parts: seq<Bytes>) {
    forall i :: 0 <= i < |parts| ==> |parts[i]| < FRAME_LIMIT
  }

  function EncodeOne(part: Bytes): Bytes
    requires |part| < FRAME_LIMIT
  {
    LengthBytes(|part|) + part
  }

  ghost function Encode(parts: seq<Bytes>): Bytes
    requires Fits(parts)
  {
    if parts == [] then [] else EncodeOne(parts[0]) + Encode(parts[1..])
  }

  lemma {:induction false} EncodeConcat(a: seq<Bytes>, b: seq<Bytes>)
    requires Fits(a) && Fits(b)
    ensures Fits(a + b) && Encode(a + b) == Encode(a) + Encode(b)
  {
    if a == [] {
      NothingAdded(b);
      NothingAdded(Encode(b));
    } else {
      EncodeConcat(a[1..], b);
      Uncons(a, b);
      Reassociate(EncodeOne(a[0]), Encode(a[1..]), Encode(b));
    }
  }

  lemma EncodeAlone(part: Bytes)
    requires |part| < FRAME_LIMIT
    ensures Encode([part]) == EncodeOne(part)
  {
    assert [part][1..] == [];
    NothingAdded(EncodeOne(part));
  }

  /** Refuses, as a whole, parts of which one is too long for its length to be written in two bytes. */
  method Frame(parts: seq<Bytes>) returns (encoded: Result<Bytes, string>)
    ensures encoded.Ok? <==> forall i :: 0 <= i < |parts| ==> |parts[i]| < 0x10000
    ensures encoded.Ok? ==> encoded.value == Encode(parts)
  {
    var out: Bytes := [];
    for i := 0 to |parts|
      invariant Fits(parts[..i]) && out == Encode(parts[..i])
    {
      if |parts[i]| >= FRAME_LIMIT {
        return Err("part does not fit in a u16 frame");
      }
      assert parts[..i + 1] == parts[..i] + [parts[i]];
      EncodeConcat(parts[..i], [parts[i]]);
      EncodeAlone(parts[i]);
      out := out + LengthBytes(|parts[i]|);
      out := out + parts[i];
      Reassociate(Encode(parts[..i]), LengthBytes(|parts[i]|), parts[i]);
    }
    assert parts[..|parts|] == parts;
    return Ok(out);
  }

  // ----- decoding

  /** The frames of the data, at most `max` of them; a frame cut short by the end of the data is the last. */
  ghost function Decode(data: Bytes, max: nat): seq<Bytes>
    decreases |data|
  {
    if max == 0 || |data| < 2 then []
    else
      var n, body := DecodedLength(data[0], data[1]), data[2..];
      if n <= |body| then [body[..n]] + Decode(body[n..], max - 1) else [body]
  }

  method DecodeFrames(data: Bytes, maxFrames: nat) returns (out: seq<Bytes>)
    ensures out == Decode(data, maxFrames)
  {
    out := [];
    var rest := data;
    NothingAdded(Decode(data, maxFrames));
    while |out| < maxFrames
      invariant |out| <= maxFrames
      invariant Decode(data, maxFrames) == out + Decode(rest, maxFrames - |out|)
      decreases |rest|
    {
      if |rest| < 2 {
        NothingAdded(out);
        return;
      }
      var body := rest[2..];
      var n := DecodedLength(rest[0], rest[1]);
      if n <= |body| {
        Reassociate(out, [body[..n]], Decode(body[n..], maxFrames - |out| - 1));
        out := out + [body[..n]];
        rest := body[n..];
      } else {
        out := out + [body];
        return;
      }
    }
    NothingAdded(out);
  }

  // ----- the two undo each other

  lemma DecodeEncodedFirst(part: Bytes, rest: Bytes, max: nat)
    requires |part| < FRAME_LIMIT && max > 0
    ensures Decode(EncodeOne(part) + rest, max) == [part] + Decode(rest, max - 1)
  {
    var data := EncodeOne(part) + rest;
    LengthRoundTrip(|part|);
    assert data[2..] == part + rest;
    assert (part + rest)[..|part|] == part;
    assert (part + rest)[|part|..] == rest;
  }

  function Least(a: nat, b: nat): nat {
    if a < b then a else b
  }

  lemma TakeCons(parts: seq<Bytes>, k: nat)
    requires 0 < k <= |parts|
    ensures parts[..k] == [parts[0]] + parts[1..][..k - 1]
  {
  }

  /** Decoding what was encoded gives the parts back, as many of them as asked for. */
  lemma {:induction false} DecodeUndoesEncode(parts: seq<Bytes>, max: nat)
    requires Fits(parts)
    ensures Decode(Encode(parts), max) == parts[..Least(max, |parts|)]
  {
    if parts != [] && max > 0 {
      DecodeUndoesEncode(parts[1..], max - 1);
      TakeCons(parts, Least(max, |parts|));
      DecodeOneMore(parts, max, parts[1..][..Least(max - 1, |parts| - 1)]);
    }
  }

  lemma DecodeOneMore(parts: seq<Bytes>, max: nat, later: seq<Bytes>)
    requires parts != [] && Fits(parts) && max > 0
    requires Decode(Encode(parts[1..]), max - 1) == later
    ensures Decode(Encode(parts), max) == [parts[0]] + later
  {
    DecodeEncodedFirst(parts[0], Encode(parts[1..]), max);
  }

  /** After these frames the data goes on with a length that promises more than the last frame, all that is left. */
  ghost predicate IsCutShort(data: Bytes, complete: seq<Bytes>, last: Bytes) {
    && Fits(complete) && Encode(complete) <= data
    && var k := |Encode(complete)|;
       k + 2 <= |data| && data[k + 2..] == last && DecodedLength(data[k], data[k + 1]) > |last|
  }

  /** The data begins with these frames, and there was a reason to stop there. */
  ghost predicate IsComplete(data: Bytes, frames: seq<Bytes>, max: nat) {
    && Fits(frames) && Encode(frames) <= data
    && (|frames| == max || |data| - |Encode(frames)| < 2)
  }

  ghost predicate Reencodes(data: Bytes, frames: seq<Bytes>, max: nat) {
    || IsComplete(data, frames, max)
    || (frames != [] && IsCutShort(data, frames[..|frames| - 1], frames[|frames| - 1]))
  }

  /** There are never more frames than asked for. */
  lemma {:induction false} DecodeIsBounded(data: Bytes, max: nat)
    ensures |Decode(data, max)| <= max
    decreases |data|
  {
    if max > 0 && |data| >= 2 {
      var n, body := DecodedLength(data[0], data[1]), data[2..];
      if n <= |body| {
        DecodeIsBounded(body[n..], max - 1);
      }
    }
  }

  /**
   * On arbitrary data every frame re-encodes to the bytes it came from, except possibly a last one that the
   * end of the data cut short.
   */
  lemma {:induction false} EncodeUndoesDecode(data: Bytes, max: nat) returns (frames: seq<Bytes>)
    ensures frames == Decode(data, max)
    ensures Reencodes(data, frames, max)
    decreases |data|
  {
    if max == 0 || |data| < 2 {
      frames := [];
    } else {
      if DecodedLength(data[0], data[1]) <= |data| - 2 {
        var front, rest := FrontFrame(data, max);
        var later := EncodeUndoesDecode(rest, max - 1);
        frames := [front] + later;
        FrameInFront(data, front, rest, later, max - 1);
      } else {
        frames := [data[2..]];
        CutShortHere(data, max);
      }
    }
  }

  lemma CutShortHere(data: Bytes, max: nat)
    requires |data| >= 2 && DecodedLength(data[0], data[1]) > |data| - 2
    ensures Reencodes(data, [data[2..]], max)
  {
    assert [data[2..]][..0] == [];
  }

  /** The first frame, and what is left to decode. */
  lemma FrontFrame(data: Bytes, max: nat) returns (front: Bytes, rest: Bytes)
    requires max > 0 && |data| >= 2 && DecodedLength(data[0], data[1]) <= |data| - 2
    ensures |front| < FRAME_LIMIT && |rest| < |data| && data == EncodeOne(front) + rest
    ensures Decode(data, max) == [front] + Decode(rest, max - 1)
  {
    front, rest := DecodeInBytes(data, max);
    EncodedFront(data, front, rest);
  }

  lemma EncodedFront(data: Bytes, front: Bytes, rest: Bytes)
    requires |data| >= 2 && |front| < FRAME_LIMIT
    requires DecodedLength(data[0], data[1]) == |front| && data[2..] == front + rest
    ensures data == EncodeOne(front) + rest
  {
    LengthBytesUndoDecoding(data[0], data[1]);
    assert data == [data[0], data[1]] + data[2..];
    Reassociate([data[0], data[1]], front, rest);
  }

  lemma LengthBytesUndoDecoding(high: Byte, low: Byte)
    ensures LengthBytes(DecodedLength(high, low)) == [high, low]
  {
    var n := DecodedLength(high, low);
    assert n / 256 == high as nat && n % 256 == low as nat;
    SameOctet(ByteOf(n / 256), high);
    SameOctet(ByteOf(n % 256), low);
  }

  lemma FrameInFront(data: Bytes, front: Bytes, rest: Bytes, frames: seq<Bytes>, max: nat)
    requires |front| < FRAME_LIMIT && data == EncodeOne(front) + rest
    requires Reencodes(rest, frames, max)
    ensures Reencodes(data, [front] + frames, max + 1)
  {
    if IsComplete(rest, frames, max) {
      EncodeInFront(front, frames);
      PrefixInFront(EncodeOne(front), Encode(frames), rest);
      assert IsComplete(data, [front] + frames, max + 1);
    } else {
      var complete, last := frames[..|frames| - 1], frames[|frames| - 1];
      CutShortInFront(data, front, rest, complete, last);
      assert ([front] + frames)[..|frames|] == [front] + complete;
    }
  }

  lemma PrefixInFront(front: Bytes, a: Bytes, b: Bytes)
    requires a <= b
    ensures front + a <= front + b
  {
  }

  lemma CutShortInFront(data: Bytes, front: Bytes, rest: Bytes, complete: seq<Bytes>, last: Bytes)
    requires |front| < FRAME_LIMIT && data == EncodeOne(front) + rest
    requires IsCutShort(rest, complete, last)
    ensures IsCutShort(data, [front] + complete, last)
  {
    EncodeInFront(front, complete);
    PrefixInFront(EncodeOne(front), Encode(complete), rest);
    InFront(EncodeOne(front), rest, |Encode(complete)|);
  }

  lemma InFront(front: Bytes, rest: Bytes, k: nat)
    requires k + 2 <= |rest|
    ensures var data, j := front + rest, |front| + k;
      data[j] == rest[k] && data[j + 1] == rest[k + 1] && data[j + 2..] == rest[k + 2..]
  {
  }

  lemma EncodeInFront(front: Bytes, frames: seq<Bytes>)
    requires |front| < FRAME_LIMIT && Fits(frames)
    ensures Fits([front] + frames) && Encode([front] + frames) == EncodeOne(front) + Encode(frames)
  {
    assert ([front] + frames)[1..] == frames;
  }

  // ----- in bytes

  /** A frame is the length of its part in two bytes, the more significant one first, and the part. */
  lemma FrameInBytes(part: Bytes)
    requires |part| < 0x10000
    ensures var frame := EncodeOne(part);
      |frame| == 2 + |part| && 256 * (frame[0] as nat) + frame[1] as nat == |part| && frame[2..] == part
  {
  }

  /** Two bytes are the length of the frame after them, the more significant one first. */
  lemma DecodeInBytes(data: Bytes, max: nat) returns (front: Bytes, rest: Bytes)
    requires max > 0 && |data| >= 2 && 256 * (data[0] as nat) + data[1] as nat <= |data| - 2
    ensures data[2..] == front + rest && |front| == 256 * (data[0] as nat) + data[1] as nat
    ensures Decode(data, max) == [front] + Decode(rest, max - 1)
  {
    var n := DecodedLength(data[0], data[1]);
    front, rest := data[2..][..n], data[2..][n..];
    EncodedFront(data, front, rest);
    DecodeEncodedFirst(front, rest, max);
  }

  /** A frame of more bytes than there are is what there is. */
  lemma DecodeCutShort(data: Bytes, max: nat)
    requires max > 0 && |data| >= 2 && 256 * (data[0] as nat) + data[1] as nat > |data| - 2
    ensures Decode(data, max) == [data[2..]]
  {
  }

  /** Fewer than two bytes are no frame, and without any left to decode there is none. */
  lemma NothingToDecode(data: Bytes, max: nat)
    requires max == 0 || |data| < 2
    ensures Decode(data, max) == []
  {
  }

  /** Frames follow each other without anything between. */
  lemma FramesInARow(part: Bytes, parts: seq<Bytes>)
    requires |part| < 0x10000 && Fits(parts)
    ensures Fits([part] + parts) && Encode([part] + parts) == EncodeOne(part) + Encode(parts) && Encode([]) == []
  {
    EncodeInFront(part, parts);
  }
}

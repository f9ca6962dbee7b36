/** Byte stuffing on the loopback Reticulum socket: `HdlcCodec.java`. */
module Hdlc {
  import opened Common
  import opened ByteMachines

  const FLAG: Byte := 0x7e
  const ESC: Byte := 0x7d

  /** `value ^ 0x20`: bit 5 flipped. */
  function Xor20(value: Byte): (r: Byte)
    ensures r != value
  {
    if (value / 32) % 2 == 1 then value - 32 else value + 32
  }

  function Stuff(value: Byte): Bytes {
    if value == FLAG || value == ESC then [ESC, Xor20(value)] else [value]
  }

  function Stuffed(frame: Bytes): Bytes {
    if frame == [] then [] else Stuffed(frame[..|frame| - 1]) + Stuff(frame[|frame| - 1])
  }

  /** The wire form of one frame. */
  function Encoding(frame: Bytes): Bytes {
    [FLAG] + Stuffed(frame) + [FLAG]
  }

  datatype State = State(current: Bytes, escaped: bool, inside: bool)

  const INITIAL := State([], false, false)

  function Step(s: State, value: Byte): Fed<State, Bytes> {
    if value == FLAG then
      Fed(State([], false, true), if s.inside && |s.current| > 0 then [s.current] else [])
    else if !s.inside then
      Fed(s, [])
    else if s.escaped then
      Fed(s.(current := s.current + [Xor20(value)], escaped := false), [])
    else if value == ESC then
      Fed(s.(escaped := true), [])
    else
      Fed(s.(current := s.current + [value]), [])
  }

  lemma StuffedSnoc(frame: Bytes)
    requires frame != []
    ensures Stuffed(frame) == Stuffed(frame[..|frame| - 1]) + Stuff(frame[|frame| - 1])
  {
  }

  lemma FeedStuff(current: Bytes, value: Byte)
    ensures Feed(Step, State(current, false, true), Stuff(value)) == Fed(State(current + [value], false, true), [])
  {
    hide Feed;
    var s := State(current, false, true);
    if value == FLAG || value == ESC {
      var t := s.(escaped := true);
      FeedOne(Step, s, ESC);
      FeedOne(Step, t, Xor20(value));
      XorKeepsPlain(value);
      FeedSilently(Step, s, [ESC], [Xor20(value)]);
      assert Stuff(value) == [ESC] + [Xor20(value)];
      assert Xor20(Xor20(value)) == value;
    } else {
      FeedOne(Step, s, value);
    }
  }

  /** The escaped forms are neither a flag nor an escape, and flip back. */
  lemma XorKeepsPlain(value: Byte)
    requires value == FLAG || value == ESC
    ensures Xor20(value) != FLAG && Xor20(value) != ESC && Xor20(Xor20(value)) == value
  {
  }

  lemma FeedStuffedSnoc(front: Bytes, last: Byte)
    requires Feed(Step, State([], false, true), Stuffed(front)) == Fed(State(front, false, true), [])
    ensures Feed(Step, State([], false, true), Stuffed(front) + Stuff(last))
         == Fed(State(front + [last], false, true), [])
  {
    hide Feed, Stuff, Stuffed, Step;
    FeedStuff(front, last);
    FeedSilently(Step, State([], false, true), Stuffed(front), Stuff(last));
  }

  /** Inside a frame the stuffed body is collected unstuffed and nothing is emitted. */
  lemma {:induction false} FeedStuffed(frame: Bytes)
    ensures Feed(Step, State([], false, true), Stuffed(frame)) == Fed(State(frame, false, true), [])
  {
    FeedNone(Step, State([], false, true));
    assert Stuffed([]) == [];
    hide Feed, Stuff, Stuffed, Step;
    if frame != [] {
      var n := |frame| - 1;
      StuffedSnoc(frame);
      assert frame[..n] + [frame[n]] == frame;
      FeedStuffed(frame[..n]);
      FeedStuffedSnoc(frame[..n], frame[n]);
    }
  }

  /**
   * Resynchronisation from any decoder state: the bytes that happened to be collected
   * come out as at most one stray frame, then the encoded frame itself, and the decoder
   * is left between frames.
   */
  lemma Resync(s: State, frame: Bytes)
    ensures Feed(Step, s, Encoding(frame)).state == State([], false, true)
    ensures Feed(Step, s, Encoding(frame)).emitted
         == (if s.inside && s.current != [] then [s.current] else [])
          + (if frame == [] then [] else [frame])
  {
    hide Feed, Stuffed;
    var inside := State([], false, true);
    FeedAppend(Step, s, [FLAG] + Stuffed(frame), [FLAG]);
    FeedAppend(Step, s, [FLAG], Stuffed(frame));
    FeedOne(Step, s, FLAG);
    FeedStuffed(frame);
    FeedOne(Step, State(frame, false, true), FLAG);
  }

  function Encodings(frames: seq<Bytes>): Bytes {
    if frames == [] then [] else Encoding(frames[0]) + Encodings(frames[1..])
  }

  lemma {:induction false} FeedEncodings(s: State, frames: seq<Bytes>)
    requires forall i :: 0 <= i < |frames| ==> frames[i] != []
    requires s.inside ==> s.current == []
    ensures Feed(Step, s, Encodings(frames)).emitted == frames
    decreases frames
  {
    FeedNone(Step, s);
    if frames != [] {
      hide Feed, Encoding;
      Resync(s, frames[0]);
      FeedAppend(Step, s, Encoding(frames[0]), Encodings(frames[1..]));
      FeedEncodings(Feed(Step, s, Encoding(frames[0])).state, frames[1..]);
    }
  }

  /** Any cutting of the concatenated encodings of non-empty frames gives back exactly those frames. */
  lemma RoundTrip(frames: seq<Bytes>, chunks: seq<Bytes>)
    requires forall i :: 0 <= i < |frames| ==> frames[i] != []
    requires Flatten(chunks) == Encodings(frames)
    ensures FeedChunks(Step, INITIAL, chunks).emitted == frames
  {
    FeedChunksIsFeed(Step, INITIAL, chunks);
    FeedEncodings(INITIAL, frames);
  }

  /** Transparency: no flag octet occurs between the two delimiters. */
  lemma {:induction false} StuffedHasNoFlag(frame: Bytes)
    ensures FLAG !in Stuffed(frame)
  {
    if frame != [] {
      StuffedHasNoFlag(frame[..|frame| - 1]);
    }
  }

  /** Only 0x7e and 0x7d are escaped; the octet after the escape differs from each by exactly 32. */
  lemma StuffIs(value: Byte)
    ensures value != 0x7e && value != 0x7d ==> Encoding([value]) == [0x7e, value, 0x7e]
    ensures Encoding([0x7e]) == [0x7e, 0x7d, 0x5e, 0x7e] && Encoding([0x7d]) == [0x7e, 0x7d, 0x5d, 0x7e]
  {
    StuffedOne(value);
    StuffedOne(0x7e);
    StuffedOne(0x7d);
    hide Stuffed;
  }

  lemma StuffedOne(value: Byte)
    ensures Stuffed([value]) == Stuff(value)
  {
    hide Stuff;
    assert [value][..0] == [] && Stuffed([]) == [];
  }

  /** Bit 5 changes and nothing else does. */
  lemma FlipsBit5(value: Byte)
    ensures Xor20(value) == value - 32 || Xor20(value) == value + 32
    ensures Xor20(value) / 64 == value / 64 && Xor20(value) % 32 == value % 32 && Xor20(Xor20(value)) == value
  {
  }

  /** The wire form is the octets one by one, between two flags. */
  lemma {:induction false} StuffedAppend(a: Bytes, b: Bytes)
    ensures Stuffed(a + b) == Stuffed(a) + Stuffed(b)
    decreases |b|
  {
    hide Stuff;
    if b == [] {
      assert a + b == a;
    } else {
      var k := |b| - 1;
      assert (a + b)[..|a| + k] == a + b[..k];
      StuffedAppend(a, b[..k]);
    }
  }

  /**
   * Inside a frame any octet after an escape, whichever it is, stands for itself with bit 5 flipped,
   * except that a flag ends the frame.
   */
  lemma EscapedIs(current: Bytes, value: Byte)
    requires value != 0x7e
    ensures Feed(Step, State(current, false, true), [0x7d, value])
         == Fed(State(current + [Xor20(value)], false, true), [])
  {
    hide Feed;
    var s := State(current, false, true);
    FeedOne(Step, s, ESC);
    FeedOne(Step, s.(escaped := true), value);
    FeedSilently(Step, s, [ESC], [value]);
    assert [ESC] + [value] == [0x7d, value];
  }

  class HdlcCodec {
    var current: Bytes
    var escaped: bool
    var inside: bool

    function View(): State
      reads this
    {
      State(current, escaped, inside)
    }

    constructor ()
      ensures View() == INITIAL
    {
      current, escaped, inside := [], false, false;
    }

    static method Encode(frame: Bytes) returns (out: Bytes)
      ensures out == Encoding(frame)
    {
      out := [FLAG];
      for i := 0 to |frame|
        invariant out == [FLAG] + Stuffed(frame[..i])
      {
        var value := frame[i];
        assert frame[..i + 1][..i] == frame[..i];
        if value == FLAG || value == ESC {
          out := out + [ESC];
          out := out + [Xor20(value)];
        } else {
          out := out + [value];
        }
      }
      assert frame[..|frame|] == frame;
      out := out + [FLAG];
    }

    method FeedBytes(input: Bytes) returns (frames: seq<Bytes>)
      modifies this
      ensures View() == Feed(Step, old(View()), input).state
      ensures frames == Feed(Step, old(View()), input).emitted
    {
      frames := [];
      for i := 0 to |input|
        invariant Fed(View(), frames) == Feed(Step, old(View()), input[..i])
      {
        var value := input[i];
        assert input[..i + 1][..i] == input[..i];
        if value == FLAG {
          if inside && |current| > 0 {
            frames := frames + [current];
          }
          current := [];
          escaped := false;
          inside := true;
        } else if !inside {
          continue;
        } else if escaped {
          current := current + [Xor20(value)];
          escaped := false;
        } else if value == ESC {
          escaped := true;
        } else {
          current := current + [value];
        }
      }
      assert input[..|input|] == input;
    }
  }
}

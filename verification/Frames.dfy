/** How a byte stream splits into length-prefixed frames. */
module Frames {
  import opened Bytes
  import opened Wire
  import opened WireText

  /** The bodies of a stream, up to the first prefix that is refused or the first frame that is cut short. */
  function FrameSplit(s: bytes): (bodies: seq<bytes>)
    decreases |s|
  {
    if |s| < FRAME_LENGTH_BYTES then [] else
    var n := FrameLengthOf(s[..FRAME_LENGTH_BYTES]);
    if n.Bad? || |s| < FRAME_LENGTH_BYTES + n.value then []
    else [s[FRAME_LENGTH_BYTES..FRAME_LENGTH_BYTES + n.value]] + FrameSplit(s[FRAME_LENGTH_BYTES + n.value..])
  }

  /** The stream a sender makes of some bodies. */
  function FrameJoin(bodies: seq<bytes>): (s: bytes) {
    if bodies == [] then [] else Frame(bodies[0]) + FrameJoin(bodies[1..])
  }

  ghost predicate WithinCap(bodies: seq<bytes>) {
    forall i :: 0 <= i < |bodies| ==> |bodies[i]| <= MAX_FRAME_BYTES
  }

  lemma SplitOne(body: bytes, rest: bytes)
    requires |body| <= MAX_FRAME_BYTES
    ensures FrameSplit(Frame(body) + rest) == [body] + FrameSplit(rest)
  {
    hide FrameLengthOf;
    var s := Frame(body) + rest;
    PrefixTellsLength(body);
    assert s[..4] == Frame(body)[..4];
    assert s[4..4 + |body|] == body && s[4 + |body|..] == rest;
  }

  /** Encoded frames within the cap are recovered one for one, whatever follows them. */
  lemma {:induction false} SplitJoin(bodies: seq<bytes>, rest: bytes)
    requires WithinCap(bodies)
    ensures FrameSplit(FrameJoin(bodies) + rest) == bodies + FrameSplit(rest)
  {
    hide FrameSplit, Frame;
    if bodies == [] {
      assert FrameJoin(bodies) + rest == rest && bodies + FrameSplit(rest) == FrameSplit(rest);
    } else {
      var tail := bodies[1..];
      assert FrameJoin(bodies) + rest == Frame(bodies[0]) + (FrameJoin(tail) + rest);
      SplitOne(bodies[0], FrameJoin(tail) + rest);
      SplitJoin(tail, rest);
      assert bodies + FrameSplit(rest) == [bodies[0]] + (tail + FrameSplit(rest));
    }
  }

  /** A frame that is taken off the stream is the first of its split. */
  lemma SplitTaken(s: bytes, prefix: bytes, body: bytes, rest: bytes)
    requires s == prefix + body + rest && |prefix| == FRAME_LENGTH_BYTES && FrameLengthOf(prefix) == Good(|body|)
    ensures FrameSplit(s) == [body] + FrameSplit(rest)
  {
    hide FrameLengthOf;
    assert s[..4] == prefix && s[4..4 + |body|] == body && s[4 + |body|..] == rest;
  }

  /** A stream whose first frame is refused or incomplete has no frames. */
  lemma SplitStuck(s: bytes)
    requires |s| < FRAME_LENGTH_BYTES || FrameLengthOf(s[..FRAME_LENGTH_BYTES]).Bad?
      || |s| < FRAME_LENGTH_BYTES + FrameLengthOf(s[..FRAME_LENGTH_BYTES]).value
    ensures FrameSplit(s) == []
  {
  }

  lemma {:induction false} JoinConcat(a: seq<bytes>, b: seq<bytes>)
    ensures FrameJoin(a + b) == FrameJoin(a) + FrameJoin(b)
  {
    hide Frame;
    if a == [] {
      assert a + b == b;
    } else {
      JoinConcat(a[1..], b);
      assert (a + b)[1..] == a[1..] + b && (a + b)[0] == a[0];
      Assoc(Frame(a[0]), FrameJoin(a[1..]), FrameJoin(b));
    }
  }

  lemma JoinOne(body: bytes)
    ensures FrameJoin([body]) == Frame(body)
  {
    hide Frame;
    assert [body][1..] == [];
    assert FrameJoin([body]) == Frame(body) + FrameJoin([]);
  }
}

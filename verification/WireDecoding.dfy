/** What the two decoders promise their callers, drawn from the record grammar. */
module WireDecoding {
  import opened Bytes
  import opened JsonNumbers
  import opened JsonGrammar
  import opened WireKeys
  import opened WireText
  import opened WireRecords
  import opened Wire
  import opened WireRoundTrip
  import opened WireLengths
  import opened Frames
  import opened Codec

  ghost predicate IsWake(fc: FromChars, d: Document) {
    IsRecord(fc, KeysOf(WAKE_ORDER), WAKE_REQUIRED, d)
  }

  ghost predicate IsAck(fc: FromChars, d: Document) {
    IsRecord(fc, KeysOf(ACK_ORDER), ACK_REQUIRED, d)
  }

  /** `decode_wake_message` succeeds exactly on the objects whose members are all known and well typed, with every
      required key present. */
  lemma DecodeWakeExactly(fc: FromChars, body: bytes)
    ensures DecodeWake(fc, body).Good? <==> exists d :: IsWake(fc, d) && PrintDocument(d) == body
  {
    hide DecodeRecord, PrintDocument, TypedMembers, ValidDocument, KeysOf, WakeOf;
    AcceptsExactlyRecords(fc, KeysOf(WAKE_ORDER), WAKE_REQUIRED, body);
    if DecodeWake(fc, body).Good? {
      var d :| IsRecord(fc, KeysOf(WAKE_ORDER), WAKE_REQUIRED, d) && PrintDocument(d) == body;
      assert IsWake(fc, d);
    }
    if d :| IsWake(fc, d) && PrintDocument(d) == body {
      assert IsRecord(fc, KeysOf(WAKE_ORDER), WAKE_REQUIRED, d);
    }
  }

  lemma DecodeAckExactly(fc: FromChars, body: bytes)
    ensures DecodeAck(fc, body).Good? <==> exists d :: IsAck(fc, d) && PrintDocument(d) == body
  {
    hide DecodeRecord, PrintDocument, TypedMembers, ValidDocument, KeysOf, AckOf;
    AcceptsExactlyRecords(fc, KeysOf(ACK_ORDER), ACK_REQUIRED, body);
    if DecodeAck(fc, body).Good? {
      var d :| IsRecord(fc, KeysOf(ACK_ORDER), ACK_REQUIRED, d) && PrintDocument(d) == body;
      assert IsAck(fc, d);
    }
    if d :| IsAck(fc, d) && PrintDocument(d) == body {
      assert IsRecord(fc, KeysOf(ACK_ORDER), ACK_REQUIRED, d);
    }
  }

  /** The decoded message takes the last value of each key, and the default of each absent one. */
  lemma DecodedField(fc: FromChars, d: Document, k: Key) returns (m: WakeMessage)
    requires IsWake(fc, d) && WireIndex(k) < 20
    ensures DecodeWake(fc, PrintDocument(d)) == Good(m)
    ensures !HasKey(fc, KeysOf(WAKE_ORDER), d.root.members, k) ==> WakeField(m, k) == DefaultField(k)
    ensures forall i ::
      (IsLast(fc, KeysOf(WAKE_ORDER), d.root.members, i) && MemberKey(fc, KeysOf(WAKE_ORDER), d.root.members[i]) == k) ==>
      WakeField(m, k) == MemberField(fc, KeysOf(WAKE_ORDER), d.root.members[i])
  {
    hide DecodeRecord, PrintDocument, KeysOf, WakeOf, Assign, TypedMember, MemberKey, MemberField, WakeField, HasKind, KindOf, DefaultField, ValidDocument;
    var schema, ms := KeysOf(WAKE_ORDER), d.root.members;
    RecordComplete(fc, schema, WAKE_REQUIRED, d);
    var env := Assign(fc, schema, ms, map[]);
    m := WakeOf(env);
    WakeHoldsFields(env, k);
    AssignKeys(fc, schema, ms, map[], k);
    forall i | IsLast(fc, schema, ms, i) && MemberKey(fc, schema, ms[i]) == k
      ensures WakeField(m, k) == MemberField(fc, schema, ms[i])
    {
      AssignLast(fc, schema, ms, map[], i);
      MemberKind(fc, schema, ms[i]);
    }
  }

  /** Rearranging members with distinct keys does not change what is decoded. */
  lemma PermutedBodies(fc: FromChars, d: Document, e: Document)
    requires IsWake(fc, d) && IsWake(fc, e) && multiset(d.root.members) == multiset(e.root.members)
    requires DistinctKeys(fc, KeysOf(WAKE_ORDER), d.root.members)
    ensures DecodeWake(fc, PrintDocument(d)) == DecodeWake(fc, PrintDocument(e))
  {
    hide DecodeRecord, PrintDocument, KeysOf, WakeOf, Assign, TypedMembers, ValidDocument, DistinctKeys;
    var schema := KeysOf(WAKE_ORDER);
    RecordComplete(fc, schema, WAKE_REQUIRED, d);
    RecordComplete(fc, schema, WAKE_REQUIRED, e);
    PermutedMembers(fc, schema, d.root.members, e.root.members);
  }

  /** A whole frame: the prefix finds the body, and the body gives the message back. */
  lemma WakeFrameRoundTrip(fc: FromChars, m: WakeMessage, rest: bytes)
    requires EncodableWake(fc, m)
    ensures ValidWake(m) && DecodeWake(fc, WakeBody(m)) == Good(m)
    ensures |WakeBody(m)| <= MAX_FRAME_BYTES ==> FrameSplit(Frame(WakeBody(m)) + rest) == [WakeBody(m)] + FrameSplit(rest)
  {
    hide DecodeWake, WakeBody, Frame, FrameSplit, EncodableWake;
    WakeRoundTrip(fc, m);
    if |WakeBody(m)| <= MAX_FRAME_BYTES {
      SplitOne(WakeBody(m), rest);
    }
  }

  lemma AckFrameRoundTrip(fc: FromChars, a: WakeAck, rest: bytes)
    requires EncodableAck(a)
    ensures DecodeAck(fc, AckBody(a)) == Good(a)
    ensures |AckBody(a)| <= MAX_FRAME_BYTES ==> FrameSplit(Frame(AckBody(a)) + rest) == [AckBody(a)] + FrameSplit(rest)
  {
    hide DecodeAck, AckBody, Frame, FrameSplit, EncodableAck;
    AckRoundTrip(fc, a);
    if |AckBody(a)| <= MAX_FRAME_BYTES {
      SplitOne(AckBody(a), rest);
    }
  }
}

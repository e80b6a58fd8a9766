/** A body decodes exactly when it is an RFC 8259 object with known keys, well-typed values and no
    required key missing; the record then holds the last value of each key. */
module WireRecords {
  import opened Bytes
  import opened Errors
  import opened JsonStrings
  import opened JsonNumbers
  import opened JsonGrammar
  import opened WireKeys
  import opened WireText
  import opened WireGrammar
  import opened WireSoundness

  // ------------------------------------------------------------------- records

  ghost predicate TypedMember(fc: FromChars, schema: set<Key>, m: Member) {
    && ValidMember(m)
    && KeyOf(DenotePieces(m.key)).Some? && KeyOf(DenotePieces(m.key)).value in schema
    && WellTyped(fc, KindOf(KeyOf(DenotePieces(m.key)).value), m.value)
  }

  ghost predicate TypedMembers(fc: FromChars, schema: set<Key>, ms: seq<Member>) {
    forall i :: 0 <= i < |ms| ==> TypedMember(fc, schema, ms[i])
  }

  ghost function MemberKey(fc: FromChars, schema: set<Key>, m: Member): (k: Key)
    requires TypedMember(fc, schema, m)
  {
    KeyOf(DenotePieces(m.key)).value
  }

  ghost function MemberField(fc: FromChars, schema: set<Key>, m: Member): (f: FieldValue)
    requires TypedMember(fc, schema, m)
  {
    FieldOf(fc, KindOf(MemberKey(fc, schema, m)), m.value)
  }

  /** The members assigned in order. */
  ghost function Assign(fc: FromChars, schema: set<Key>, ms: seq<Member>, env: Env): (r: Env)
    requires TypedMembers(fc, schema, ms)
  {
    if ms == [] then env
    else Assign(fc, schema, ms[1..], env[MemberKey(fc, schema, ms[0]) := MemberField(fc, schema, ms[0])])
  }

  ghost predicate HasKey(fc: FromChars, schema: set<Key>, ms: seq<Member>, k: Key)
    requires TypedMembers(fc, schema, ms)
  {
    exists i :: 0 <= i < |ms| && MemberKey(fc, schema, ms[i]) == k
  }

  /** The documents a decoder with this schema accepts. */
  ghost predicate IsRecord(fc: FromChars, schema: set<Key>, required: seq<Key>, d: Document) {
    && ValidDocument(d) && d.root.Obj? && TypedMembers(fc, schema, d.root.members)
    && forall i :: 0 <= i < |required| ==> HasKey(fc, schema, d.root.members, required[i])
  }

  // -------------------------------------------------------------- member text

  function MemberTail(w: bytes, ms: seq<Member>, rest: bytes): (s: bytes)
    requires ValidMembers(ms)
  {
    w + (PrintMemberTail(ms) + ([CLOSE_BRACE] + rest))
  }

  function ValueText(m: Member, ms: seq<Member>, rest: bytes): (s: bytes)
    requires ValidMember(m) && ValidMembers(ms)
  {
    m.gap + PrintValue(m.value) + MemberTail(m.after, ms, rest)
  }

  function MemberText(before: bytes, m: Member, ms: seq<Member>, rest: bytes): (s: bytes)
    requires ValidMember(m) && ValidMembers(ms)
  {
    before + PrintString(m.key) + (m.mid + ([COLON] + ValueText(m, ms, rest)))
  }

  lemma MemberTailFollows(w: bytes, ms: seq<Member>, rest: bytes)
    requires AllSpace(w) && ValidMembers(ms)
    ensures Follows(MemberTail(w, ms, rest))
  {
  }

  lemma MemberParts(a: bytes, key: bytes, mid: bytes, g: bytes, v: bytes, d: bytes, t: bytes)
    ensures (a + key + (mid + [COLON]) + (g + v + d)) + t == a + key + (mid + ([COLON] + (g + v + (d + t))))
  {
    assert (g + v + d) + t == g + v + (d + t);
    assert (mid + [COLON]) + (g + v + (d + t)) == mid + ([COLON] + (g + v + (d + t)));
  }

  lemma PrintedMember(m: Member, ms: seq<Member>, rest: bytes)
    requires ValidMember(m) && ValidMembers(ms)
    ensures PrintMember(m) + (PrintMemberTail(ms) + ([CLOSE_BRACE] + rest)) == MemberText(m.before, m, ms, rest)
  {
    hide PrintValue, PrintString, PrintMemberTail;
    MemberParts(m.before, PrintString(m.key), m.mid, m.gap, PrintValue(m.value), m.after, PrintMemberTail(ms) + ([CLOSE_BRACE] + rest));
  }

  lemma MemberTailCons(w: bytes, ms: seq<Member>, rest: bytes)
    requires ValidMembers(ms) && ms != []
    ensures MemberTail(w, ms, rest) == w + ([COMMA] + MemberText(ms[0].before, ms[0], ms[1..], rest))
  {
    hide PrintMember, MemberText;
    PrintedMember(ms[0], ms[1..], rest);
    assert PrintMemberTail(ms) == [COMMA] + PrintMember(ms[0]) + PrintMemberTail(ms[1..]);
    assert [COMMA] + PrintMember(ms[0]) + PrintMemberTail(ms[1..]) + ([CLOSE_BRACE] + rest) ==
      [COMMA] + (PrintMember(ms[0]) + (PrintMemberTail(ms[1..]) + ([CLOSE_BRACE] + rest)));
  }

  lemma NoMoreMembers(w: bytes, rest: bytes)
    ensures MemberTail(w, [], rest) == w + ([CLOSE_BRACE] + rest)
  {
    assert [] + ([CLOSE_BRACE] + rest) == [CLOSE_BRACE] + rest;
  }

  lemma NextInMembers(w: bytes, ms: seq<Member>, rest: bytes)
    requires AllSpace(w) && ValidMembers(ms)
    ensures Next(MemberTail(w, ms, rest), false, CLOSE_BRACE) ==
      if ms == [] then Ok(false, rest) else Ok(true, MemberText(ms[0].before, ms[0], ms[1..], rest))
  {
    hide Next, MemberTail, MemberText;
    if ms == [] {
      NoMoreMembers(w, rest);
      NextStops(w, false, CLOSE_BRACE, rest);
    } else {
      MemberTailCons(w, ms, rest);
      NextComma(w, CLOSE_BRACE, MemberText(ms[0].before, ms[0], ms[1..], rest));
    }
  }

  /** The inside of an object, its brace and what follows. */
  function Members(pad: bytes, ms: seq<Member>, rest: bytes): (s: bytes)
    requires ValidMembers(ms)
  {
    if ms == [] then pad + ([CLOSE_BRACE] + rest) else MemberText(ms[0].before, ms[0], ms[1..], rest)
  }

  lemma ObjectText(pad: bytes, ms: seq<Member>, rest: bytes)
    requires AllSpace(pad) && ValidMembers(ms)
    ensures PrintValue(Obj(pad, ms)) + rest == [OPEN_BRACE] + Members(pad, ms, rest)
  {
    hide PrintMember, MemberText, PrintMemberTail;
    if ms == [] {
      assert [OPEN_BRACE] + pad + [CLOSE_BRACE] + rest == [OPEN_BRACE] + (pad + ([CLOSE_BRACE] + rest));
    } else {
      PrintedMember(ms[0], ms[1..], rest);
      var a, b := PrintMember(ms[0]), PrintMemberTail(ms[1..]);
      assert [OPEN_BRACE] + (a + b) + [CLOSE_BRACE] + rest == [OPEN_BRACE] + (a + (b + ([CLOSE_BRACE] + rest)));
    }
  }

  lemma NextInObject(pad: bytes, ms: seq<Member>, rest: bytes)
    requires AllSpace(pad) && ValidMembers(ms)
    ensures Next(Members(pad, ms, rest), true, CLOSE_BRACE) ==
      if ms == [] then Ok(false, rest) else Ok(true, MemberText([], ms[0], ms[1..], rest))
  {
    hide Next, ValueText;
    if ms == [] {
      NextStops(pad, true, CLOSE_BRACE, rest);
    } else {
      var m := ms[0];
      var t := PrintString(m.key) + (m.mid + ([COLON] + ValueText(m, ms[1..], rest)));
      assert MemberText([], m, ms[1..], rest) == t;
      Assoc(m.before, PrintString(m.key), m.mid + ([COLON] + ValueText(m, ms[1..], rest)));
      NextFirst(m.before, CLOSE_BRACE, t);
    }
  }

  // ------------------------------------------------------------- completeness

  lemma NameComplete(w: bytes, key: seq<Piece>, mid: bytes, u: bytes)
    requires AllSpace(w) && ValidPieces(key) && AllSpace(mid)
    ensures ReadName(w + PrintString(key) + (mid + ([COLON] + u))) == Ok(DenotePieces(key), u)
  {
    hide ScanString, Expect, PrintString, DenotePieces;
    ScanStringComplete(w, key, mid + ([COLON] + u));
    ExpectScans(mid, COLON, u);
  }

  lemma MembersStep(fc: FromChars, schema: set<Key>, s: bytes, first: bool, env: Env, u: bytes, k: Key, t: bytes, f: FieldValue, r: bytes)
    requires Next(s, first, CLOSE_BRACE) == Ok(true, u) && ReadKey(schema, u) == Ok(k, t) && ReadField(fc, k, t) == Ok(f, r)
    ensures ReadMembers(fc, schema, s, first, env) == ReadMembers(fc, schema, r, false, env[k := f])
  {
    hide Next, ReadKey, ReadField;
  }

  lemma KeyComplete(fc: FromChars, schema: set<Key>, before: bytes, m: Member, ms: seq<Member>, rest: bytes)
    requires AllSpace(before) && TypedMember(fc, schema, m) && ValidMembers(ms)
    ensures ReadKey(schema, MemberText(before, m, ms, rest)) == Ok(MemberKey(fc, schema, m), ValueText(m, ms, rest))
  {
    hide ReadName, ValueText, KeyOf, WellTyped;
    NameComplete(before, m.key, m.mid, ValueText(m, ms, rest));
  }

  lemma ValueComplete(fc: FromChars, schema: set<Key>, m: Member, ms: seq<Member>, rest: bytes)
    requires TypedMember(fc, schema, m) && ValidMembers(ms)
    ensures ReadField(fc, MemberKey(fc, schema, m), ValueText(m, ms, rest)) ==
      Ok(MemberField(fc, schema, m), MemberTail(m.after, ms, rest))
  {
    hide ReadField, MemberTail, KeyOf, WellTyped, FieldOf;
    MemberTailFollows(m.after, ms, rest);
    FieldComplete(fc, MemberKey(fc, schema, m), m.gap, m.value, MemberTail(m.after, ms, rest));
  }

  lemma {:induction false} MembersFrom(fc: FromChars, schema: set<Key>, s: bytes, first: bool, before: bytes, ms: seq<Member>, rest: bytes, env: Env)
    requires AllSpace(before) && TypedMembers(fc, schema, ms) && ms != [] && ValidMembers(ms)
    requires Next(s, first, CLOSE_BRACE) == Ok(true, MemberText(before, ms[0], ms[1..], rest))
    ensures ReadMembers(fc, schema, s, first, env) == Ok(Assign(fc, schema, ms, env), rest)
    decreases |ms|, 0
  {
    hide Next, ReadKey, ReadField, ReadMembers, MemberText, MemberTail, ValueText, TypedMember;
    var m, tail := ms[0], ms[1..];
    var k, f := MemberKey(fc, schema, m), MemberField(fc, schema, m);
    KeyComplete(fc, schema, before, m, tail, rest);
    ValueComplete(fc, schema, m, tail, rest);
    MembersStep(fc, schema, s, first, env, MemberText(before, m, tail, rest), k, ValueText(m, tail, rest), f, MemberTail(m.after, tail, rest));
    MembersTailComplete(fc, schema, m.after, tail, rest, env[k := f]);
  }

  lemma {:induction false} MembersTailComplete(fc: FromChars, schema: set<Key>, w: bytes, ms: seq<Member>, rest: bytes, env: Env)
    requires AllSpace(w) && TypedMembers(fc, schema, ms) && ValidMembers(ms)
    ensures ReadMembers(fc, schema, MemberTail(w, ms, rest), false, env) == Ok(Assign(fc, schema, ms, env), rest)
    decreases |ms|, 1
  {
    hide Next, ReadKey, ReadField, MemberText, MemberTail, TypedMember;
    NextInMembers(w, ms, rest);
    if ms != [] {
      MembersFrom(fc, schema, MemberTail(w, ms, rest), false, ms[0].before, ms, rest, env);
    }
  }

  lemma MembersComplete(fc: FromChars, schema: set<Key>, pad: bytes, ms: seq<Member>, rest: bytes)
    requires AllSpace(pad) && TypedMembers(fc, schema, ms) && ValidMembers(ms)
    ensures ReadMembers(fc, schema, Members(pad, ms, rest), true, map[]) == Ok(Assign(fc, schema, ms, map[]), rest)
  {
    hide Next, ReadKey, ReadField, Members, MemberText, TypedMember;
    NextInObject(pad, ms, rest);
    if ms != [] {
      MembersFrom(fc, schema, Members(pad, ms, rest), true, [], ms, rest, map[]);
    }
  }

  /** Every record of the grammar decodes to its members, assigned in order. */
  lemma RecordComplete(fc: FromChars, schema: set<Key>, required: seq<Key>, d: Document)
    requires IsRecord(fc, schema, required, d)
    ensures DecodeRecord(fc, schema, required, PrintDocument(d)) == Good(Assign(fc, schema, d.root.members, map[]))
  {
    hide ReadMembers, Members, PrintValue, TypedMember, Assign, KeyText, Expect;
    var pad, ms := d.root.pad, d.root.members;
    var env := Assign(fc, schema, ms, map[]);
    assert ValidMembers(ms);
    Assoc(d.before, PrintValue(d.root), d.after);
    ObjectText(pad, ms, d.after);
    ExpectScans(d.before, OPEN_BRACE, Members(pad, ms, d.after));
    MembersComplete(fc, schema, pad, ms, d.after);
    SkipSpaceOver(d.after, []);
    assert d.after + [] == d.after;
    forall i | 0 <= i < |required|
      ensures required[i] in env
    {
      AssignKeys(fc, schema, ms, map[], required[i]);
    }
  }

  // ---------------------------------------------------------------- soundness

  lemma NameSound(s: bytes, text: bytes, u: bytes) returns (key: seq<Piece>, mid: bytes)
    requires ReadName(s) == Ok(text, u)
    ensures ValidPieces(key) && DenotePieces(key) == text && AllSpace(mid)
    ensures s == Blank(s) + PrintString(key) + (mid + ([COLON] + u))
  {
    hide ScanString, Expect, PrintString, DenotePieces;
    var t := ScanString(s).rest;
    key := ScanStringSound(s, text, t);
    mid := Blank(t);
    ExpectSound(COLON, t);
  }

  lemma MembersInverse(fc: FromChars, schema: set<Key>, s: bytes, first: bool, env: Env, r: Env, rest: bytes)
    returns (u: bytes, k: Key, t: bytes, f: FieldValue, v: bytes)
    requires ReadMembers(fc, schema, s, first, env) == Ok(r, rest) && Next(s, first, CLOSE_BRACE).value
    ensures Next(s, first, CLOSE_BRACE) == Ok(true, u) && ReadKey(schema, u) == Ok(k, t) && ReadField(fc, k, t) == Ok(f, v)
    ensures ReadMembers(fc, schema, v, false, env[k := f]) == Ok(r, rest) && |v| < |s|
  {
    hide Next, ReadKey, ReadField;
    u := Next(s, first, CLOSE_BRACE).rest;
    k, t := ReadKey(schema, u).value, ReadKey(schema, u).rest;
    f, v := ReadField(fc, k, t).value, ReadField(fc, k, t).rest;
  }

  lemma KeySound(schema: set<Key>, u: bytes, k: Key, t: bytes) returns (key: seq<Piece>, mid: bytes)
    requires ReadKey(schema, u) == Ok(k, t)
    ensures ValidPieces(key) && KeyOf(DenotePieces(key)) == Some(k) && k in schema && AllSpace(mid)
    ensures u == Blank(u) + PrintString(key) + (mid + ([COLON] + t))
  {
    hide ReadName, KeyOf;
    key, mid := NameSound(u, ReadName(u).value, t);
  }

  /** One member, taken apart, with the tail after it. */
  lemma MemberSound(fc: FromChars, schema: set<Key>, u: bytes, k: Key, t: bytes, f: FieldValue, v: bytes, w: bytes, tail: seq<Member>, rest: bytes)
    returns (m: Member)
    requires ReadKey(schema, u) == Ok(k, t) && ReadField(fc, k, t) == Ok(f, v)
    requires AllSpace(w) && ValidMembers(tail) && v == MemberTail(w, tail, rest)
    ensures TypedMember(fc, schema, m) && MemberKey(fc, schema, m) == k && MemberField(fc, schema, m) == f
    ensures m.before == Blank(u) && u == MemberText(m.before, m, tail, rest)
  {
    hide ReadKey, ReadField, KeyOf, WellTyped, FieldOf, MemberTail, PrintString, PrintValue, DenotePieces;
    var key, mid := KeySound(schema, u, k, t);
    var value := FieldSound(fc, k, t, f, v);
    m := Member(Blank(u), key, mid, Blank(t), value, w);
  }

  lemma ConsMember(w: bytes, m: Member, ms: seq<Member>, rest: bytes)
    requires ValidMember(m) && ValidMembers(ms)
    ensures ValidMembers([m] + ms)
    ensures MemberTail(w, [m] + ms, rest) == w + ([COMMA] + MemberText(m.before, m, ms, rest))
    ensures Members([], [m] + ms, rest) == MemberText(m.before, m, ms, rest)
  {
    hide MemberText, MemberTail;
    assert ([m] + ms)[1..] == ms;
    MemberTailCons(w, [m] + ms, rest);
  }

  lemma ConsTyped(fc: FromChars, schema: set<Key>, m: Member, ms: seq<Member>, env: Env)
    requires TypedMember(fc, schema, m) && TypedMembers(fc, schema, ms)
    ensures TypedMembers(fc, schema, [m] + ms) && ValidMember(m)
    ensures Assign(fc, schema, [m] + ms, env) ==
      Assign(fc, schema, ms, env[MemberKey(fc, schema, m) := MemberField(fc, schema, m)])
  {
    hide MemberKey, MemberField, WellTyped, KeyOf;
    assert ([m] + ms)[1..] == ms;
  }

  lemma {:induction false} MembersTailSound(fc: FromChars, schema: set<Key>, s: bytes, env: Env, r: Env, rest: bytes)
    returns (w: bytes, ms: seq<Member>)
    requires ReadMembers(fc, schema, s, false, env) == Ok(r, rest)
    ensures AllSpace(w) && TypedMembers(fc, schema, ms) && ValidMembers(ms)
    ensures s == MemberTail(w, ms, rest) && r == Assign(fc, schema, ms, env)
    decreases |s|, 1
  {
    hide Next, ReadKey, ReadField, MemberTail, MemberText, TypedMember;
    w := Blank(s);
    NextSound(s, false, CLOSE_BRACE);
    if Next(s, false, CLOSE_BRACE).value {
      var m, tail := FirstMember(fc, schema, s, false, env, r, rest);
      ms := [m] + tail;
      ConsTyped(fc, schema, m, tail, env);
      ConsMember(w, m, tail, rest);
    } else {
      ms := [];
      NoMoreMembers(w, rest);
    }
  }

  lemma {:induction false} FirstMember(fc: FromChars, schema: set<Key>, s: bytes, first: bool, env: Env, r: Env, rest: bytes)
    returns (m: Member, ms: seq<Member>)
    requires ReadMembers(fc, schema, s, first, env) == Ok(r, rest) && Next(s, first, CLOSE_BRACE).value
    ensures TypedMember(fc, schema, m) && TypedMembers(fc, schema, ms) && ValidMember(m) && ValidMembers(ms)
    ensures m.before == Blank(Next(s, first, CLOSE_BRACE).rest)
    ensures Next(s, first, CLOSE_BRACE).rest == MemberText(m.before, m, ms, rest)
    ensures r == Assign(fc, schema, ms, env[MemberKey(fc, schema, m) := MemberField(fc, schema, m)])
    decreases |s|, 0
  {
    hide Next, ReadKey, ReadField, ReadMembers, MemberTail, MemberText, Assign, WellTyped, KeyOf, FieldOf;
    var u, k, t, f, v := MembersInverse(fc, schema, s, first, env, r, rest);
    var w, tail := MembersTailSound(fc, schema, v, env[k := f], r, rest);
    m := MemberSound(fc, schema, u, k, t, f, v, w, tail, rest);
    ms := tail;
  }

  lemma MembersSound(fc: FromChars, schema: set<Key>, s: bytes, r: Env, rest: bytes) returns (pad: bytes, ms: seq<Member>)
    requires ReadMembers(fc, schema, s, true, map[]) == Ok(r, rest)
    ensures AllSpace(pad) && TypedMembers(fc, schema, ms) && ValidMembers(ms)
    ensures s == Members(pad, ms, rest) && r == Assign(fc, schema, ms, map[])
  {
    hide Next, ReadKey, ReadField, MemberTail, MemberText, TypedMember;
    NextSound(s, true, CLOSE_BRACE);
    if Next(s, true, CLOSE_BRACE).value {
      var m, tail := FirstMember(fc, schema, s, true, map[], r, rest);
      var n := MoveBlank(fc, schema, s, m, tail, rest);
      pad, ms := [], [n] + tail;
      ConsTyped(fc, schema, n, tail, map[]);
      ConsMember([], n, tail, rest);
    } else {
      pad, ms := Blank(s), [];
    }
  }

  /** The whitespace before the first member is skipped early; it belongs to the member. */
  lemma MoveBlank(fc: FromChars, schema: set<Key>, s: bytes, m: Member, tail: seq<Member>, rest: bytes) returns (n: Member)
    requires TypedMember(fc, schema, m) && ValidMembers(tail)
    requires SkipSpace(s) == MemberText(m.before, m, tail, rest) && m.before == Blank(SkipSpace(s))
    ensures TypedMember(fc, schema, n) && s == MemberText(n.before, n, tail, rest)
    ensures MemberKey(fc, schema, n) == MemberKey(fc, schema, m) && MemberField(fc, schema, n) == MemberField(fc, schema, m)
  {
    hide WellTyped, FieldOf, KeyOf, MemberTail, PrintString, PrintValue;
    SkipTwice(s);
    n := m.(before := Blank(s));
    assert [] + PrintString(m.key) == PrintString(m.key);
    Assoc(Blank(s), PrintString(m.key), m.mid + ([COLON] + ValueText(m, tail, rest)));
  }

  /** Every accepted body is a record of the grammar. */
  lemma RecordSound(fc: FromChars, schema: set<Key>, required: seq<Key>, body: bytes) returns (d: Document)
    requires DecodeRecord(fc, schema, required, body).Good?
    ensures IsRecord(fc, schema, required, d) && PrintDocument(d) == body
  {
    hide ReadMembers, Members, PrintValue, TypedMember, Assign, KeyText, Expect;
    var open := Expect(OPEN_BRACE, body).rest;
    ExpectSound(OPEN_BRACE, body);
    var r := ReadMembers(fc, schema, open, true, map[]);
    var pad, ms := MembersSound(fc, schema, open, r.value, r.rest);
    d := Document(Blank(body), Obj(pad, ms), r.rest);
    ObjectText(pad, ms, r.rest);
    Assoc(Blank(body), PrintValue(d.root), r.rest);
    assert AllSpace(r.rest) by { assert Blank(r.rest) + [] == r.rest; }
    forall i | 0 <= i < |required|
      ensures HasKey(fc, schema, ms, required[i])
    {
      AssignKeys(fc, schema, ms, map[], required[i]);
    }
  }

  /** The decoder accepts exactly the records of the grammar. */
  lemma AcceptsExactlyRecords(fc: FromChars, schema: set<Key>, required: seq<Key>, body: bytes)
    ensures DecodeRecord(fc, schema, required, body).Good? <==>
      exists d :: IsRecord(fc, schema, required, d) && PrintDocument(d) == body
    ensures forall d :: IsRecord(fc, schema, required, d) && PrintDocument(d) == body ==>
      DecodeRecord(fc, schema, required, body) == Good(Assign(fc, schema, d.root.members, map[]))
  {
    hide DecodeRecord, PrintDocument, Assign, TypedMembers, ValidDocument;
    forall d | IsRecord(fc, schema, required, d) && PrintDocument(d) == body
      ensures DecodeRecord(fc, schema, required, body) == Good(Assign(fc, schema, d.root.members, map[]))
    {
      RecordComplete(fc, schema, required, d);
    }
    if DecodeRecord(fc, schema, required, body).Good? {
      var d := RecordSound(fc, schema, required, body);
    }
  }

  // ---------------------------------------------------- what a record contains

  lemma {:induction false} AssignKeys(fc: FromChars, schema: set<Key>, ms: seq<Member>, env: Env, k: Key)
    requires TypedMembers(fc, schema, ms)
    ensures k in Assign(fc, schema, ms, env) <==> k in env || HasKey(fc, schema, ms, k)
  {
    hide TypedMember, MemberKey, MemberField;
    if ms != [] {
      AssignKeys(fc, schema, ms[1..], env[MemberKey(fc, schema, ms[0]) := MemberField(fc, schema, ms[0])], k);
      if HasKey(fc, schema, ms, k) {
        var i :| 0 <= i < |ms| && MemberKey(fc, schema, ms[i]) == k;
        assert i > 0 ==> ms[1..][i - 1] == ms[i];
      }
      if HasKey(fc, schema, ms[1..], k) {
        var i :| 0 <= i < |ms[1..]| && MemberKey(fc, schema, ms[1..][i]) == k;
        assert ms[i + 1] == ms[1..][i];
      }
    }
  }

  /** Member `i` is the last one with its key. */
  ghost predicate IsLast(fc: FromChars, schema: set<Key>, ms: seq<Member>, i: int)
    requires TypedMembers(fc, schema, ms)
  {
    0 <= i < |ms| && forall j :: i < j < |ms| ==> MemberKey(fc, schema, ms[j]) != MemberKey(fc, schema, ms[i])
  }

  lemma {:induction false} AssignKeeps(fc: FromChars, schema: set<Key>, ms: seq<Member>, env: Env, k: Key)
    requires TypedMembers(fc, schema, ms) && k in env
    requires forall j :: 0 <= j < |ms| ==> MemberKey(fc, schema, ms[j]) != k
    ensures k in Assign(fc, schema, ms, env) && Assign(fc, schema, ms, env)[k] == env[k]
  {
    hide TypedMember, MemberKey, MemberField;
    if ms != [] {
      assert MemberKey(fc, schema, ms[0]) != k;
      forall j | 0 <= j < |ms[1..]|
        ensures MemberKey(fc, schema, ms[1..][j]) != k
      {
        assert ms[1..][j] == ms[j + 1];
      }
      AssignKeeps(fc, schema, ms[1..], env[MemberKey(fc, schema, ms[0]) := MemberField(fc, schema, ms[0])], k);
    }
  }

  /** A repeated key takes its last value. */
  lemma {:induction false} AssignLast(fc: FromChars, schema: set<Key>, ms: seq<Member>, env: Env, i: int)
    requires TypedMembers(fc, schema, ms) && IsLast(fc, schema, ms, i)
    ensures MemberKey(fc, schema, ms[i]) in Assign(fc, schema, ms, env)
    ensures Assign(fc, schema, ms, env)[MemberKey(fc, schema, ms[i])] == MemberField(fc, schema, ms[i])
  {
    hide TypedMember, MemberKey, MemberField;
    var next := env[MemberKey(fc, schema, ms[0]) := MemberField(fc, schema, ms[0])];
    assert forall j :: 0 <= j < |ms[1..]| ==> ms[1..][j] == ms[j + 1];
    if i == 0 {
      AssignKeeps(fc, schema, ms[1..], next, MemberKey(fc, schema, ms[0]));
    } else {
      AssignLast(fc, schema, ms[1..], next, i - 1);
    }
  }

  lemma {:induction false} LastExists(fc: FromChars, schema: set<Key>, ms: seq<Member>, k: Key) returns (i: int)
    requires TypedMembers(fc, schema, ms) && HasKey(fc, schema, ms, k)
    ensures IsLast(fc, schema, ms, i) && MemberKey(fc, schema, ms[i]) == k
  {
    hide TypedMember, MemberKey;
    i := |ms| - 1;
    while MemberKey(fc, schema, ms[i]) != k
      invariant 0 <= i < |ms|
      invariant forall j :: i < j < |ms| ==> MemberKey(fc, schema, ms[j]) != k
      invariant exists j :: 0 <= j <= i && MemberKey(fc, schema, ms[j]) == k
      decreases i
    {
      i := i - 1;
    }
  }

  ghost predicate DistinctKeys(fc: FromChars, schema: set<Key>, ms: seq<Member>)
    requires TypedMembers(fc, schema, ms)
  {
    forall i, j :: 0 <= i < j < |ms| ==> MemberKey(fc, schema, ms[i]) != MemberKey(fc, schema, ms[j])
  }

  lemma SameMember(fc: FromChars, schema: set<Key>, ms: seq<Member>, ns: seq<Member>, k: Key)
    requires TypedMembers(fc, schema, ms) && TypedMembers(fc, schema, ns) && multiset(ms) == multiset(ns)
    requires DistinctKeys(fc, schema, ms)
    requires k in Assign(fc, schema, ms, map[])
    ensures k in Assign(fc, schema, ns, map[]) && Assign(fc, schema, ms, map[])[k] == Assign(fc, schema, ns, map[])[k]
  {
    hide TypedMember, MemberKey, MemberField, Assign;
    AssignKeys(fc, schema, ms, map[], k);
    var i := LastExists(fc, schema, ms, k);
    AssignLast(fc, schema, ms, map[], i);
    assert ms[i] in multiset(ns);
    var j :| 0 <= j < |ns| && ns[j] == ms[i];
    var l := LastExists(fc, schema, ns, k);
    AssignLast(fc, schema, ns, map[], l);
    assert ns[l] in multiset(ms);
    var h :| 0 <= h < |ms| && ms[h] == ns[l];
    assert h == i;
  }

  /** The order of members with distinct keys does not matter. */
  lemma PermutedMembers(fc: FromChars, schema: set<Key>, ms: seq<Member>, ns: seq<Member>)
    requires TypedMembers(fc, schema, ms) && TypedMembers(fc, schema, ns) && multiset(ms) == multiset(ns)
    requires DistinctKeys(fc, schema, ms)
    ensures Assign(fc, schema, ms, map[]) == Assign(fc, schema, ns, map[])
  {
    hide TypedMember, MemberKey, Assign;
    var a, b := Assign(fc, schema, ms, map[]), Assign(fc, schema, ns, map[]);
    forall k | k in a
      ensures k in b && a[k] == b[k]
    {
      SameMember(fc, schema, ms, ns, k);
    }
    forall k | k in b
      ensures k in a
    {
      AssignKeys(fc, schema, ns, map[], k);
      var j :| 0 <= j < |ns| && MemberKey(fc, schema, ns[j]) == k;
      assert ns[j] in multiset(ms);
      var i :| 0 <= i < |ms| && ms[i] == ns[j];
      AssignKeys(fc, schema, ms, map[], k);
    }
  }
}

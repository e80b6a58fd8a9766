/** JSON documents, as the grammar of sections 2 to 5 of RFC 8259 writes them: a tree that keeps the
    whitespace, and the text of that tree. */
module JsonGrammar {
  import opened Bytes
  import opened JsonStrings
  import opened JsonNumbers

  datatype Value =
    | Str(pieces: seq<Piece>) | Num(n: Number) | True | False | Null
    | Arr(pad: bytes, elems: seq<Elem>) | Obj(pad: bytes, members: seq<Member>)

  /** An array element with the whitespace around it. */
  datatype Elem = Elem(before: bytes, value: Value, after: bytes)

  /** An object member: whitespace is allowed before and after each token. */
  datatype Member = Member(before: bytes, key: seq<Piece>, mid: bytes, gap: bytes, value: Value, after: bytes)

  datatype Document = Document(before: bytes, root: Value, after: bytes)

  const TRUE: bytes := [0x74, 0x72, 0x75, 0x65]
  const FALSE: bytes := [0x66, 0x61, 0x6C, 0x73, 0x65]
  const NULL: bytes := [0x6E, 0x75, 0x6C, 0x6C]

  predicate ValidValue(v: Value) {
    match v
    case Str(ps) => ValidPieces(ps)
    case Num(n) => ValidNumber(n)
    case Arr(pad, elems) => AllSpace(pad) && forall i :: 0 <= i < |elems| ==> ValidElem(elems[i])
    case Obj(pad, members) => AllSpace(pad) && forall i :: 0 <= i < |members| ==> ValidMember(members[i])
    case _ => true
  }

  predicate ValidElem(e: Elem) {
    AllSpace(e.before) && ValidValue(e.value) && AllSpace(e.after)
  }

  predicate ValidMember(m: Member) {
    AllSpace(m.before) && ValidPieces(m.key) && AllSpace(m.mid) && AllSpace(m.gap) && ValidValue(m.value) && AllSpace(m.after)
  }

  predicate ValidDocument(d: Document) {
    AllSpace(d.before) && ValidValue(d.root) && AllSpace(d.after)
  }

  predicate ValidElems(es: seq<Elem>) {
    forall i :: 0 <= i < |es| ==> ValidElem(es[i])
  }

  predicate ValidMembers(ms: seq<Member>) {
    forall i :: 0 <= i < |ms| ==> ValidMember(ms[i])
  }

  function PrintValue(v: Value): (s: bytes)
    requires ValidValue(v)
    decreases v, 1
  {
    match v
    case Str(ps) => PrintString(ps)
    case Num(n) => PrintNumber(n)
    case True => TRUE
    case False => FALSE
    case Null => NULL
    case Arr(pad, elems) =>
      [OPEN_BRACKET] + (if elems == [] then pad else PrintElem(elems[0]) + PrintElemTail(elems[1..])) + [CLOSE_BRACKET]
    case Obj(pad, members) =>
      [OPEN_BRACE] + (if members == [] then pad else PrintMember(members[0]) + PrintMemberTail(members[1..])) + [CLOSE_BRACE]
  }

  function PrintElem(e: Elem): (s: bytes)
    requires ValidElem(e)
    decreases e, 2
  {
    e.before + PrintValue(e.value) + e.after
  }

  function PrintElemTail(es: seq<Elem>): (s: bytes)
    requires ValidElems(es)
    decreases es, 0
  {
    if es == [] then [] else [COMMA] + PrintElem(es[0]) + PrintElemTail(es[1..])
  }

  function PrintMember(m: Member): (s: bytes)
    requires ValidMember(m)
    decreases m, 2
  {
    m.before + PrintString(m.key) + (m.mid + [COLON]) + (m.gap + PrintValue(m.value) + m.after)
  }

  function PrintMemberTail(ms: seq<Member>): (s: bytes)
    requires ValidMembers(ms)
    decreases ms, 0
  {
    if ms == [] then [] else [COMMA] + PrintMember(ms[0]) + PrintMemberTail(ms[1..])
  }

  /** JSON-text of section 2 of RFC 8259. */
  function PrintDocument(d: Document): (s: bytes)
    requires ValidDocument(d)
  {
    d.before + PrintValue(d.root) + d.after
  }
}

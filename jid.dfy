/** The runtime's JID: an identifier made of an anchor kind, a name and a
    UUID, built either from its string form `<kind>:<name>:<uuid>` or from
    a UUID (or a newly drawn one) with an explicit kind. */
module Jid {
  import opened Common
  import JacUtils

  /** The anchor class a JID points at. */
  datatype AnchorKind = NodeAnchor | EdgeAnchor | WalkerAnchor

  /** A UUID, as its 32 hexadecimal digits. */
  datatype Uuid = Uuid(nibbles: seq<int>)

  predicate ValidUuid(u: Uuid) {
    |u.nibbles| == 32 && forall i :: 0 <= i < 32 ==> 0 <= u.nibbles[i] < 16
  }

  datatype Jid = Jid(id: Uuid, kind: AnchorKind, name: string)

  const FormatError := "Not a valid JID format!"
  const IdError := "Not a valid id for JID!"
  const TypeError := "Type is required from non string JID!"

  /** A hexadecimal digit, in either case (the pattern is matched
      ignoring case). */
  predicate IsHexDigit(c: char) {
    '0' <= c <= '9' || 'a' <= c <= 'f' || 'A' <= c <= 'F'
  }

  function HexVal(c: char): (v: int)
    requires IsHexDigit(c)
    ensures 0 <= v < 16
  {
    if '0' <= c <= '9' then c as int - '0' as int
    else if 'a' <= c <= 'f' then c as int - 'a' as int + 10
    else c as int - 'A' as int + 10
  }

  /** The lower-case digit for a value below 16. */
  function HexChar(v: int): (c: char)
    requires 0 <= v < 16
    ensures IsHexDigit(c) && HexVal(c) == v
  {
    if v < 10 then ('0' as int + v) as char else ('a' as int + v - 10) as char
  }

  /** The positions of the hyphens in the 8-4-4-4-12 layout. */
  predicate IsDashPos(i: int) {
    i == 8 || i == 13 || i == 18 || i == 23
  }

  /** The third group of the pattern: 36 characters, hyphens at the
      layout's positions and hexadecimal digits elsewhere. */
  predicate IsUuidText(t: string) {
    |t| == 36 && forall i :: 0 <= i < 36 ==> if IsDashPos(i) then t[i] == '-' else IsHexDigit(t[i])
  }

  /** Where the k-th digit sits in the 8-4-4-4-12 layout. */
  function DigitPos(k: int): (i: int)
    requires 0 <= k < 32
    ensures 0 <= i < 36 && !IsDashPos(i)
  {
    if k < 8 then k else if k < 12 then k + 1 else if k < 16 then k + 2 else if k < 20 then k + 3 else k + 4
  }

  /** `UUID(text)`: the digits of the text, in order. */
  function ParseUuid(t: string): (u: Uuid)
    requires IsUuidText(t)
    ensures ValidUuid(u)
  {
    Uuid(seq(32, k requires 0 <= k < 32 => HexVal(t[DigitPos(k)])))
  }

  /** `str(uuid)`: the lower-case 8-4-4-4-12 text. */
  function UuidText(u: Uuid): (t: string)
    requires ValidUuid(u)
    ensures |t| == 36
  {
    seq(36, i requires 0 <= i < 36 =>
      if IsDashPos(i) then '-'
      else HexChar(u.nibbles[if i < 8 then i else if i < 13 then i - 1 else if i < 18 then i - 2 else if i < 23 then i - 3 else i - 4]))
  }

  /** The text of a UUID has the pattern's shape and reads back as the
      same UUID. */
  lemma UuidRoundTrip(u: Uuid)
    requires ValidUuid(u)
    ensures IsUuidText(UuidText(u)) && ParseUuid(UuidText(u)) == u
  {
    var t := UuidText(u);
    assert IsUuidText(t);
    forall k | 0 <= k < 32 ensures ParseUuid(t).nibbles[k] == u.nibbles[k] {
      var i := DigitPos(k);
      assert t[i] == HexChar(u.nibbles[k]);
    }
  }

  /** The characters the first group matches. */
  predicate IsKindChar(c: char) {
    c == 'n' || c == 'N' || c == 'e' || c == 'E' || c == 'w' || c == 'W'
  }

  /** `matched.group(1).lower()`: "n" a node, "e" an edge, anything else a
      walker. */
  function KindOf(c: char): AnchorKind {
    if c == 'n' || c == 'N' then NodeAnchor
    else if c == 'e' || c == 'E' then EdgeAnchor
    else WalkerAnchor
  }

  function KindChar(k: AnchorKind): char {
    match k
    case NodeAnchor => 'n'
    case EdgeAnchor => 'e'
    case WalkerAnchor => 'w'
  }

  predicate NoColon(s: string) {
    forall i :: 0 <= i < |s| ==> s[i] != ':'
  }

  /** The position of the first colon, if any. */
  function ColonAt(s: string): (r: Option<nat>)
    ensures r.Some? ==> r.value < |s| && s[r.value] == ':' && NoColon(s[..r.value])
    ensures r.None? ==> NoColon(s)
    decreases |s|
  {
    if s == [] then None
    else if s[0] == ':' then Some(0)
    else
      match ColonAt(s[1..])
      case None => None
      case Some(k) => assert s[..k + 1] == [s[0]] + s[1..][..k]; Some(k + 1)
  }

  /** A colon after a colon-free prefix is the first one. */
  lemma {:induction false} ColonAfter(name: string, t: string)
    requires NoColon(name)
    ensures ColonAt(name + ":" + t) == Some(|name|)
    decreases |name|
  {
    if name == [] {
      assert (name + ":" + t)[0] == ':';
    } else {
      assert (name + ":" + t)[1..] == name[1..] + ":" + t;
      ColonAfter(name[1..], t);
    }
  }

  /** `JID_REGEX.search(s)` followed by the field assignments. The match is
      anchored at the start; the name runs to the first colon after the
      kind; `$` accepts the end of the text or a single newline that ends
      it. */
  function ParseJid(s: string): (r: Result<Jid>)
    ensures r.Err? ==> r.msg == FormatError
    ensures r.Ok? ==> ValidUuid(r.value.id) && NoColon(r.value.name)
  {
    if |s| < 2 || !IsKindChar(s[0]) || s[1] != ':' then Err(FormatError)
    else
      var rest := s[2..];
      match ColonAt(rest)
      case None => Err(FormatError)
      case Some(k) =>
        var tail := rest[k + 1..];
        var u := if |tail| == 37 && tail[36] == '\n' then tail[..36] else tail;
        if IsUuidText(u) then Ok(Jid(ParseUuid(u), KindOf(s[0]), rest[..k]))
        else Err(FormatError)
  }

  function NlText(nl: bool): string {
    if nl then "\n" else ""
  }

  /** A string the pattern matches: a kind letter, a colon, a name without
      colons, a colon, a UUID text and, optionally, one newline. */
  predicate JidShape(s: string, c: char, name: string, u: string, nl: bool) {
    s == [c, ':'] + (name + ([':'] + (u + NlText(nl))))
    && IsKindChar(c) && NoColon(name) && IsUuidText(u)
  }

  /** Every string of the pattern's shape parses, to the UUID, kind and
      name its groups hold. */
  lemma ParseJidComplete(s: string, c: char, name: string, u: string, nl: bool)
    requires JidShape(s, c, name, u, nl)
    ensures ParseJid(s) == Ok(Jid(ParseUuid(u), KindOf(c), name))
  {
    var tail := u + NlText(nl);
    var rest := name + ([':'] + tail);
    assert s[2..] == rest;
    assert name + ":" + tail == rest;
    ColonAfter(name, tail);
    assert rest[..|name|] == name;
    assert rest[|name| + 1..] == tail;
    if nl {
      assert |tail| == 37 && tail[36] == '\n';
      assert tail[..36] == u;
    } else {
      assert tail == u;
    }
  }

  /** The groups of a successful parse: the name and the UUID text, and
      whether a final newline follows. */
  lemma ParseJidGroups(s: string) returns (name: string, u: string, nl: bool)
    requires ParseJid(s).Ok?
    ensures s == [s[0], ':'] + (name + ([':'] + (u + NlText(nl))))
    ensures IsKindChar(s[0]) && NoColon(name) && IsUuidText(u)
    ensures ParseJid(s).value.name == name
  {
    var rest := s[2..];
    var k := ColonAt(rest).value;
    name := rest[..k];
    var tail := rest[k + 1..];
    nl := |tail| == 37 && tail[36] == '\n';
    u := if nl then tail[..36] else tail;
    TailSplit(tail, u, nl);
    ColonSplit(rest, k);
    assert s == [s[0], ':'] + rest by {
      assert s == s[..2] + s[2..];
    }
  }

  /** A text cut at a colon is its prefix, the colon and its suffix. */
  lemma ColonSplit(rest: string, k: nat)
    requires k < |rest| && rest[k] == ':'
    ensures rest == rest[..k] + ([':'] + rest[k + 1..])
  {
    assert rest == rest[..k] + [rest[k]] + rest[k + 1..];
  }

  /** The third group and the optional newline make up the tail. */
  lemma TailSplit(tail: string, u: string, nl: bool)
    requires nl == (|tail| == 37 && tail[36] == '\n')
    requires u == if nl then tail[..36] else tail
    ensures tail == u + NlText(nl)
  {
    if nl { assert tail == tail[..36] + [tail[36]]; }
  }

  /** Only strings of the pattern's shape parse. */
  lemma ParseJidSound(s: string)
    requires ParseJid(s).Ok?
    ensures exists u, nl :: JidShape(s, s[0], ParseJid(s).value.name, u, nl)
  {
    var name, u, nl := ParseJidGroups(s);
    assert JidShape(s, s[0], name, u, nl);
  }

  /** The canonical text of a JID, the one the pattern reads back: its
      kind's letter, its name and its UUID, separated by colons. */
  function JidText(j: Jid): string
    requires ValidUuid(j.id)
  {
    [KindChar(j.kind), ':'] + (j.name + ([':'] + UuidText(j.id)))
  }

  /** A JID whose name has no colon parses back from its canonical text. */
  lemma JidTextRoundTrip(j: Jid)
    requires ValidUuid(j.id) && NoColon(j.name)
    ensures ParseJid(JidText(j)) == Ok(j)
  {
    UuidRoundTrip(j.id);
    var u := UuidText(j.id);
    var c := KindChar(j.kind);
    assert IsKindChar(c) && KindOf(c) == j.kind;
    assert u + NlText(false) == u;
    assert JidShape(JidText(j), c, j.name, u, false);
    ParseJidComplete(JidText(j), c, j.name, u, false);
  }

  /** `self.type.__class__.__name__[:1].lower()`: the first letter, lower
      case, of the name of the anchor class's metaclass. The anchor classes
      share their metaclass, so the letter does not depend on the kind. */
  function MetaInitial(metaName: string): (r: string)
    ensures |r| == (if metaName == [] then 0 else 1)
    ensures r != [] ==> r[0] == JacUtils.LowerChar(metaName[0])
  {
    if metaName == [] then [] else [JacUtils.LowerChar(metaName[0])]
  }

  /** `str(jid)` and `repr(jid)` as written: the metaclass's initial, the
      name and the UUID, separated by colons. The metaclass's name is a
      parameter. */
  function StrText(j: Jid, metaName: string): (r: string)
    requires ValidUuid(j.id)
    ensures |r| == |MetaInitial(metaName)| + |j.name| + 38
    ensures r[|r| - 36..] == UuidText(j.id)
  {
    MetaInitial(metaName) + ([':'] + (j.name + ([':'] + UuidText(j.id))))
  }

  /** The written text is the same for a node, an edge and a walker. */
  lemma StrTextIgnoresKind(j: Jid, k: AnchorKind, metaName: string)
    requires ValidUuid(j.id)
    ensures StrText(j, metaName) == StrText(j.(kind := k), metaName)
  {
  }

  /** The written text is the canonical one only when the metaclass's
      initial happens to be the kind's letter. */
  lemma StrTextIsJidText(j: Jid, metaName: string)
    requires ValidUuid(j.id)
    ensures StrText(j, metaName) == JidText(j)
            <==> metaName != [] && JacUtils.LowerChar(metaName[0]) == KindChar(j.kind)
  {
    var s := StrText(j, metaName);
    if metaName != [] && JacUtils.LowerChar(metaName[0]) == KindChar(j.kind) {
      assert MetaInitial(metaName) == [KindChar(j.kind)];
    } else if metaName == [] {
      assert s[0] == ':' != JidText(j)[0];
    } else {
      assert s[0] == JacUtils.LowerChar(metaName[0]) != JidText(j)[0];
    }
  }

  /** When the metaclass's initial is not a kind letter, the pattern
      refuses the written text, so `JID(str(jid))` raises the format
      error. */
  lemma {:induction false} StrTextUnparsed(j: Jid, metaName: string)
    requires ValidUuid(j.id)
    requires metaName == [] || !IsKindChar(JacUtils.LowerChar(metaName[0]))
    ensures ParseJid(StrText(j, metaName)) == Err(FormatError)
  {
    var s := StrText(j, metaName);
    if metaName == [] {
      assert s[0] == ':';
    } else {
      assert s[0] == JacUtils.LowerChar(metaName[0]);
    }
  }

  /** For the metaclass names `type` and `ABCMeta` the written text starts
      with `t` or `a`, and does not parse back. */
  lemma StrTextRoundTripFails(j: Jid)
    requires ValidUuid(j.id)
    ensures ParseJid(StrText(j, "type")) == Err(FormatError)
    ensures ParseJid(StrText(j, "ABCMeta")) == Err(FormatError)
  {
    assert JacUtils.LowerChar('t') == 't';
    StrTextUnparsed(j, "type");
    assert JacUtils.LowerChar('A') == 'a';
    StrTextUnparsed(j, "ABCMeta");
  }

  /** The `id` argument of the initializer. */
  datatype IdArg = StrId(s: string) | UuidId(u: Uuid) | NoId | OtherId

  /** `JID.__init__`: a string id is parsed, ignoring `kind` and `name`; a
      UUID is kept and no id gets `newId` (the source draws a random
      one); then a kind is required. */
  function NewJid(id: IdArg, kind: Option<AnchorKind>, name: string, newId: Uuid): (r: Result<Jid>)
    ensures id.StrId? ==> r == ParseJid(id.s)
    ensures id.OtherId? ==> r == Err(IdError)
    ensures (id.UuidId? || id.NoId?) && kind.None? ==> r == Err(TypeError)
    ensures id.UuidId? && kind.Some? ==> r == Ok(Jid(id.u, kind.value, name))
    ensures id.NoId? && kind.Some? ==> r == Ok(Jid(newId, kind.value, name))
  {
    match id
    case StrId(s) => ParseJid(s)
    case OtherId => Err(IdError)
    case UuidId(u) => if kind.None? then Err(TypeError) else Ok(Jid(u, kind.value, name))
    case NoId => if kind.None? then Err(TypeError) else Ok(Jid(newId, kind.value, name))
  }

  /** A string id never depends on the `kind` and `name` arguments. */
  lemma StringIgnoresArgs(s: string, k1: Option<AnchorKind>, n1: string, k2: Option<AnchorKind>, n2: string, f1: Uuid, f2: Uuid)
    ensures NewJid(StrId(s), k1, n1, f1) == NewJid(StrId(s), k2, n2, f2)
  {
  }
}
